/** Fields as the Protocol Buffers Encoding specification lays them out ("Message
    Structure"), with groups nested to any depth, and what the generated code does with
    those a message does not have. */
module ProtoFields {
  import opened Octets
  import opened ProtoWire

  datatype Item =
    | VarintItem(num: nat, value: nat)
    | Fixed64Item(num: nat, bytes: Bytes)
    | BytesItem(num: nat, payload: Bytes)
    | GroupItem(num: nat, items: seq<Item>)
    | Fixed32Item(num: nat, bytes: Bytes)

  const MAX_FIELD: nat := 0x1FFF_FFFF

  predicate WellFormed(it: Item) {
    && 1 <= it.num <= MAX_FIELD
    && match it
       case VarintItem(_, v) => v < TWO_TO_THE_64
       case Fixed64Item(_, b) => |b| == 8
       case Fixed32Item(_, b) => |b| == 4
       case BytesItem(_, p) => |p| < TWO_TO_THE_63
       case GroupItem(_, items) => forall i :: 0 <= i < |items| ==> WellFormed(items[i])
  }

  function Tag(num: nat, wireType: nat): Bytes {
    Varint(num * 8 + wireType)
  }

  function Encode(it: Item): Bytes
    decreases it, 0
  {
    match it
    case VarintItem(n, v) => Tag(n, 0) + Varint(v)
    case Fixed64Item(n, b) => Tag(n, 1) + b
    case BytesItem(n, p) => Tag(n, 2) + (Varint(|p|) + p)
    case GroupItem(n, items) => Tag(n, 3) + (EncodeFrom(items, 0) + Tag(n, 4))
    case Fixed32Item(n, b) => Tag(n, 5) + b
  }

  /** The items from `k` on. */
  function EncodeFrom(items: seq<Item>, k: nat): Bytes
    requires k <= |items|
    decreases items, |items| - k
  {
    if k == |items| then [] else Encode(items[k]) + EncodeFrom(items, k + 1)
  }

  /** The bytes `e` stand in `all` at `i`. */
  ghost predicate StandsAt(e: Bytes, all: Bytes, i: nat) {
    i + |e| <= |all| && all[i..i + |e|] == e
  }

  lemma Parts(a: Bytes, b: Bytes, all: Bytes, i: nat)
    requires StandsAt(a + b, all, i)
    ensures StandsAt(a, all, i) && StandsAt(b, all, i + |a|)
  {
    var s := all[i..i + |a| + |b|];
    assert s == a + b;
    assert s[..|a|] == a && s[|a|..] == b;
  }

  lemma VarintAt(v: nat, all: Bytes, i: nat)
    requires v < TWO_TO_THE_64 && StandsAt(Varint(v), all, i)
    ensures ReadVarint(all, i) == Ok(At(v, i + |Varint(v)|))
    ensures Groups(all, i, 10).Ok? && Groups(all, i, 10).value.next == i + |Varint(v)|
  {
    hide Groups, Varint;
    VarintFits(v);
    VarintGroups(v, [], 10);
    assert Varint(v) + [] == Varint(v);
    var e := Varint(v);
    assert Agree(e, 0, |e|, all, i) by {
      forall k | 0 <= k < |e| ensures e[k] == all[k + i] { assert all[i..i + |e|][k] == e[k]; }
    }
    GroupsLocal(e, 0, 10, all, i);
  }

  lemma TagAt(num: nat, wireType: nat, all: Bytes, i: nat)
    requires num <= MAX_FIELD && wireType < 8 && StandsAt(Tag(num, wireType), all, i)
    ensures var r := ReadVarint(all, i);
            && r.Ok? && r.value.next == i + |Tag(num, wireType)| && i < |all|
            && WireType(r.value.value) == wireType && FieldNum(r.value.value) == num
  {
    hide ReadVarint, Groups, Varint;
    VarintAt(num * 8 + wireType, all, i);
    TagSplits(num, wireType);
  }

  lemma TagSplits(num: nat, wireType: nat)
    requires num <= MAX_FIELD && wireType < 8
    ensures WireType(num * 8 + wireType) == wireType && FieldNum(num * 8 + wireType) == num
  {}

  /** What Skip returns when it has come to index `j`. */
  function Resumed(all: Bytes, j: nat, depth: nat): Result<nat> {
    if depth == 0 then Ok(j) else Skip(all, j, depth)
  }

  /** A tag and the value after it. */
  lemma SkipTagged(all: Bytes, i: nat, num: nat, wireType: nat, depth: nat, v: At<nat>)
    requires num <= MAX_FIELD && wireType < 8 && StandsAt(Tag(num, wireType), all, i) && |all| < TWO_TO_THE_63
    requires SkipValue(all, i + |Tag(num, wireType)|, wireType, depth) == Ok(v) && v.next <= |all|
    ensures Skip(all, i, depth) == Resumed(all, v.next, v.value)
  {
    hide ReadVarint, Tag, SkipValue, WireType, FieldNum;
    TagAt(num, wireType, all, i);
    assert SkipOne(all, i, depth) == Ok(v);
  }

  lemma SkipBytes(n: nat, p: Bytes, all: Bytes, i: nat, depth: nat)
    requires n <= MAX_FIELD && |all| < TWO_TO_THE_63 && StandsAt(Tag(n, 2) + (Varint(|p|) + p), all, i)
    ensures Skip(all, i, depth) == Resumed(all, i + |Tag(n, 2) + (Varint(|p|) + p)|, depth)
  {
    hide Groups, Tag, Varint, ReadVarint, Skip;
    var j := i + |Tag(n, 2)|;
    Parts(Tag(n, 2), Varint(|p|) + p, all, i);
    Parts(Varint(|p|), p, all, j);
    VarintAt(|p|, all, j);
    SkipTagged(all, i, n, 2, depth, At(depth, j + |Varint(|p|)| + |p|));
  }

  /** Skipping consumes a well-formed field exactly, inside a group or outside. */
  lemma {:induction false} SkipItem(it: Item, all: Bytes, i: nat, depth: nat)
    requires WellFormed(it) && StandsAt(Encode(it), all, i) && |all| < TWO_TO_THE_63
    ensures Skip(all, i, depth) == Resumed(all, i + |Encode(it)|, depth)
    decreases it, 0
  {
    hide Groups, Tag, Varint, ReadVarint, Skip;
    match it {
      case VarintItem(n, v) =>
        Parts(Tag(n, 0), Varint(v), all, i);
        VarintAt(v, all, i + |Tag(n, 0)|);
        SkipTagged(all, i, n, 0, depth, At(depth, i + |Encode(it)|));
      case Fixed64Item(n, b) =>
        Parts(Tag(n, 1), b, all, i);
        SkipTagged(all, i, n, 1, depth, At(depth, i + |Encode(it)|));
      case BytesItem(n, p) =>
        SkipBytes(n, p, all, i, depth);
      case GroupItem(n, items) =>
        SkipGroup(n, items, all, i, depth);
      case Fixed32Item(n, b) =>
        Parts(Tag(n, 5), b, all, i);
        SkipTagged(all, i, n, 5, depth, At(depth, i + |Encode(it)|));
    }
  }

  lemma {:induction false} SkipGroup(n: nat, items: seq<Item>, all: Bytes, i: nat, depth: nat)
    requires n <= MAX_FIELD && (forall j :: 0 <= j < |items| ==> WellFormed(items[j])) && |all| < TWO_TO_THE_63
    requires StandsAt(Tag(n, 3) + (EncodeFrom(items, 0) + Tag(n, 4)), all, i)
    ensures Skip(all, i, depth) == Resumed(all, i + |Tag(n, 3) + (EncodeFrom(items, 0) + Tag(n, 4))|, depth)
    decreases items, |items| + 1
  {
    hide Groups, Tag, Varint, ReadVarint, Skip, WellFormed, EncodeFrom;
    var start, body, end := Tag(n, 3), EncodeFrom(items, 0), Tag(n, 4);
    Parts(start, body + end, all, i);
    Parts(body, end, all, i + |start|);
    SkipTagged(all, i, n, 3, depth, At(depth + 1, i + |start|));
    SkipItems(items, 0, all, i + |start|, depth + 1);
    SkipTagged(all, i + |start| + |body|, n, 4, depth + 1, At(depth, i + |start| + |body| + |end|));
  }

  lemma {:induction false} SkipItems(items: seq<Item>, k: nat, all: Bytes, i: nat, depth: nat)
    requires k <= |items| && (forall j :: 0 <= j < |items| ==> WellFormed(items[j]))
    requires StandsAt(EncodeFrom(items, k), all, i) && |all| < TWO_TO_THE_63 && depth > 0
    ensures Skip(all, i, depth) == Skip(all, i + |EncodeFrom(items, k)|, depth)
    decreases items, |items| - k
  {
    hide Skip, Encode;
    if k < |items| {
      Parts(Encode(items[k]), EncodeFrom(items, k + 1), all, i);
      SkipItem(items[k], all, i, depth);
      SkipItems(items, k + 1, all, i + |Encode(items[k])|, depth);
    }
  }

  /** A message takes a field it does not have for what it is: its bytes. */
  lemma UnknownItem(it: Item, known: nat)
    requires WellFormed(it) && it.num > known && |Encode(it)| < TWO_TO_THE_63
    ensures var e := Encode(it); |e| > 0 && NextField(e, 0, known) == Ok(At(Unknown(e), |e|))
  {
    hide Groups, Varint, WireType, Skip;
    var e := Encode(it);
    assert StandsAt(e, e, 0);
    SkipItem(it, e, 0, 0);
    assert e[0..] == e && e[..|e|] == e;
    FirstTag(it, e);
  }

  lemma FirstTag(it: Item, e: Bytes)
    requires WellFormed(it) && e == Encode(it)
    ensures |e| > 0
    ensures var r := ReadVarint(e, 0); r.Ok? && WireType(r.value.value) != 4 && FieldNum(r.value.value) == it.num
  {
    hide Groups, Varint, FieldNum;
    var wireType := match it case VarintItem(_, _) => 0 case Fixed64Item(_, _) => 1 case BytesItem(_, _) => 2
                             case GroupItem(_, _) => 3 case Fixed32Item(_, _) => 5;
    var tag := Tag(it.num, wireType);
    assert e[..|tag|] == tag;
    assert StandsAt(tag, e, 0);
    TagAt(it.num, wireType, e, 0);
  }

  /** Decoding such fields hands their bytes, field by field, to the message. */
  lemma DecodeUnknownItem<M>(it: Item, known: nat, apply: (M, Field) -> Result<M>, m: M)
    requires WellFormed(it) && it.num > known && |Encode(it)| < TWO_TO_THE_63
    ensures ProtoWire.Decode(Encode(it), 0, known, apply, m) == apply(m, Unknown(Encode(it)))
  {
    hide NextField, Encode;
    UnknownItem(it, known);
  }
}
