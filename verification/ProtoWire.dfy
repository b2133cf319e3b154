/** The protobuf wire format as the generated code reads and writes it: base 128 varints,
    length-delimited fields and the skipping of unknown fields (types/abci.pb.go,
    codec/types/any.pb.go). */
module ProtoWire {
  import opened Octets

  const TWO_TO_THE_31: nat := 0x8000_0000
  const TWO_TO_THE_32: nat := 0x1_0000_0000
  const TWO_TO_THE_63: nat := 0x8000_0000_0000_0000
  const TWO_TO_THE_64: nat := 0x1_0000_0000_0000_0000

  datatype Error =
    | IntOverflow
    | UnexpectedEof
    | InvalidLength
    | EndGroup
    | IllegalTag
    | WrongWireType
    | UnexpectedEndOfGroup
    | IllegalWireType

  datatype Result<+T> = Ok(value: T) | Err(error: Error)

  /** Something read, and the index after it. */
  datatype At<+T> = At(value: T, next: nat)

  // ----- varints

  function Varint(v: nat): (r: Bytes)
    ensures |r| > 0
  {
    if v < 128 then [v] else [128 + v % 128] + Varint(v / 128)
  }

  /** The number whose digits to the base of 128 these are, the least significant first. */
  function FromBase128(s: Bytes, i: nat): nat
    decreases |s| - i
  {
    if i >= |s| then 0 else s[i] % 128 + 128 * FromBase128(s, i + 1)
  }

  /** A varint has the digits of its number, and the top bit of all bytes but the last. */
  lemma {:induction false} VarintDigits(v: nat)
    ensures FromBase128(Varint(v), 0) == v
    ensures forall i :: 0 <= i < |Varint(v)| ==> (Varint(v)[i] >= 128 <==> i < |Varint(v)| - 1)
  {
    if v >= 128 {
      VarintDigits(v / 128);
      DigitsAfter([128 + v % 128], Varint(v / 128), 0);
    } else {
      assert FromBase128(Varint(v), 1) == 0;
    }
  }

  lemma {:induction false} DigitsAfter(head: Bytes, rest: Bytes, i: nat)
    requires i <= |rest|
    ensures FromBase128(head + rest, |head| + i) == FromBase128(rest, i)
    decreases |rest| - i
  {
    if i < |rest| { DigitsAfter(head, rest, i + 1); }
  }

  /** The number of bits of `x`, as math/bits.Len64 gives it. */
  function BitLen(x: nat): nat {
    if x == 0 then 0 else 1 + BitLen(x / 2)
  }

  /** The size the generated code computes for a varint, from the bits of `x | 1`. */
  function Sov(x: nat): nat {
    (BitLen(x - x % 2 + 1) + 6) / 7
  }

  lemma BitLen128(x: nat)
    requires x >= 128
    ensures BitLen(x) == 7 + BitLen(x / 128)
  {
    assert BitLen(x) == 1 + BitLen(x / 2);
    assert BitLen(x / 2) == 1 + BitLen(x / 4);
    assert BitLen(x / 4) == 1 + BitLen(x / 8);
    assert BitLen(x / 8) == 1 + BitLen(x / 16);
    assert BitLen(x / 16) == 1 + BitLen(x / 32);
    assert BitLen(x / 32) == 1 + BitLen(x / 64);
    assert BitLen(x / 64) == 1 + BitLen(x / 128);
  }

  lemma BitLenOfOdd(x: nat)
    requires x > 0
    ensures BitLen(x - x % 2 + 1) == BitLen(x)
  {
    assert (x - x % 2 + 1) / 2 == x / 2;
  }

  function Pow2(n: nat): (p: nat)
    ensures p > 0
  {
    if n == 0 then 1 else 2 * Pow2(n - 1)
  }

  lemma {:induction false} BitLenBound(x: nat, n: nat)
    requires x < Pow2(n)
    ensures BitLen(x) <= n
  {
    if x > 0 && n > 0 { BitLenBound(x / 2, n - 1); }
  }

  /** The size computed from the bit length is the number of bytes. */
  lemma {:induction false} SovIsLength(v: nat)
    ensures Sov(v) == |Varint(v)|
  {
    if v < 128 {
      assert Pow2(5) == 32 && Pow2(7) == 128;
      BitLenBound(v - v % 2 + 1, 7);
    } else {
      SovIsLength(v / 128);
      BitLenOfOdd(v);
      BitLenOfOdd(v / 128);
      BitLen128(v);
    }
  }

  /** Seven bits from each of at most `k` bytes. */
  function Groups(d: Bytes, i: nat, k: nat): (r: Result<At<nat>>)
    ensures r.Ok? ==> i < r.value.next <= |d| && r.value.next <= i + k
    decreases k
  {
    if k == 0 then Err(IntOverflow)
    else if i >= |d| then Err(UnexpectedEof)
    else if d[i] < 128 then Ok(At(d[i], i + 1))
    else
      match Groups(d, i + 1, k - 1)
      case Err(e) => Err(e)
      case Ok(r) => Ok(At(d[i] - 128 + 128 * r.value, r.next))
  }

  /** A varint of at most ten bytes, the bits above the 64th being lost. */
  function ReadVarint(d: Bytes, i: nat): (r: Result<At<nat>>)
    ensures r.Ok? ==> i < r.value.next <= |d| && r.value.value < TWO_TO_THE_64
  {
    match Groups(d, i, 10)
    case Err(e) => Err(e)
    case Ok(r) => Ok(At(r.value % TWO_TO_THE_64, r.next))
  }

  /** What is read of a varint: the digits up to the first byte without the top bit, if that
      is among the next `k` bytes and the data does not end before. */
  lemma {:induction false} GroupsExactly(d: Bytes, i: nat, k: nat)
    requires i <= |d|
    ensures var g := Groups(d, i, k);
            if g.Ok? then
              Continued(d, i, g.value.next - 1) && d[g.value.next - 1] < 128 && g.value.value == FromBase128(d[..g.value.next], i)
            else if g.error == IntOverflow then i + k <= |d| && Continued(d, i, i + k)
            else g.error == UnexpectedEof && |d| < i + k && Continued(d, i, |d|)
    decreases k
  {
    if k > 0 && i < |d| && d[i] >= 128 {
      GroupsExactly(d, i + 1, k - 1);
      ContinuedFrom(d, i);
    } else if k > 0 && i < |d| {
      assert FromBase128(d[..i + 1], i + 1) == 0;
    }
  }

  ghost predicate Continued(d: Bytes, i: nat, j: int) {
    j <= |d| && forall x :: i <= x < j ==> d[x] >= 128
  }

  lemma ContinuedFrom(d: Bytes, i: nat)
    requires i < |d| && d[i] >= 128
    ensures forall j :: Continued(d, i + 1, j) ==> Continued(d, i, j)
  {}

  /** The bits above the 64th are lost. */
  lemma ReadVarintExactly(d: Bytes, i: nat)
    requires i <= |d|
    ensures var g := ReadVarint(d, i);
            if g.Ok? then
              && g.value.next <= i + 10 && Continued(d, i, g.value.next - 1) && d[g.value.next - 1] < 128
              && g.value.value == FromBase128(d[..g.value.next], i) % TWO_TO_THE_64
            else if g.error == IntOverflow then i + 10 <= |d| && Continued(d, i, i + 10)
            else g.error == UnexpectedEof && |d| < i + 10 && Continued(d, i, |d|)
  {
    GroupsExactly(d, i, 10);
  }

  /** A length and the index after that many bytes, as signed 64-bit numbers. */
  function ReadLength(d: Bytes, i: nat): (r: Result<At<nat>>)
    ensures r.Ok? ==> i < r.value.value <= r.value.next <= |d|
  {
    match ReadVarint(d, i)
    case Err(e) => Err(e)
    case Ok(r) =>
      if r.value >= TWO_TO_THE_63 || r.next + r.value >= TWO_TO_THE_63 then Err(InvalidLength)
      else if r.next + r.value > |d| then Err(UnexpectedEof)
      else Ok(At(r.next, r.next + r.value))
  }

  // ----- skipping

  /** One value of the given wire type: the new depth of groups and the index after it. */
  function SkipValue(d: Bytes, i: nat, wireType: nat, depth: nat): (r: Result<At<nat>>)
    ensures r.Ok? ==> r.value.next >= i
  {
    match wireType
    case 0 => (match Groups(d, i, 10) case Err(e) => Err(e) case Ok(r) => Ok(At(depth, r.next)))
    case 1 => Ok(At(depth, i + 8))
    case 2 =>
      (match ReadVarint(d, i)
       case Err(e) => Err(e)
       case Ok(r) => if r.value >= TWO_TO_THE_63 then Err(InvalidLength) else Ok(At(depth, r.next + r.value)))
    case 3 => Ok(At(depth + 1, i))
    case 4 => if depth == 0 then Err(UnexpectedEndOfGroup) else Ok(At(depth - 1, i))
    case 5 => Ok(At(depth, i + 4))
    case _ => Err(IllegalWireType)
  }

  function WireType(wire: nat): (r: nat)
    ensures r < 8
  {
    wire % 8
  }

  /** A tag and the value after it. */
  function SkipOne(d: Bytes, i: nat, depth: nat): (r: Result<At<nat>>)
    ensures r.Ok? ==> r.value.next > i
  {
    match ReadVarint(d, i)
    case Err(e) => Err(e)
    case Ok(tag) =>
      match SkipValue(d, tag.next, WireType(tag.value), depth)
      case Err(e) => Err(e)
      case Ok(v) => if v.next >= TWO_TO_THE_63 then Err(InvalidLength) else Ok(v)
  }

  /** One field, with all that its group holds if it starts one. */
  function Skip(d: Bytes, i: nat, depth: nat): (r: Result<nat>)
    ensures r.Ok? ==> r.value > i
    decreases |d| - i
  {
    if i >= |d| then Err(UnexpectedEof)
    else
      match SkipOne(d, i, depth)
      case Err(e) => Err(e)
      case Ok(v) => if v.value == 0 then Ok(v.next) else Skip(d, v.next, v.value)
  }

  // ----- fields

  /** A length-delimited field the message has, or the bytes of one it does not have. */
  datatype Field = Known(num: nat, payload: Bytes) | Unknown(raw: Bytes)

  /** The field number of a tag, as a signed 32-bit number. */
  function FieldNum(wire: nat): (r: int)
    ensures 0 - TWO_TO_THE_31 <= r < TWO_TO_THE_31 && (wire / 8 - r) % TWO_TO_THE_32 == 0
  {
    var n := wire / 8 % TWO_TO_THE_32;
    if n < TWO_TO_THE_31 then n else n - TWO_TO_THE_32
  }

  function ReadKnown(d: Bytes, i: nat, num: nat): (r: Result<At<Field>>)
    ensures r.Ok? ==> i < r.value.next <= |d|
  {
    match ReadLength(d, i)
    case Err(e) => Err(e)
    case Ok(r) => Ok(At(Known(num, d[r.value..r.next]), r.next))
  }

  function ReadUnknown(d: Bytes, i: nat): (r: Result<At<Field>>)
    requires i < |d|
    ensures r.Ok? ==> i < r.value.next <= |d|
  {
    match Skip(d[i..], 0, 0)
    case Err(e) => Err(e)
    case Ok(n) =>
      if i + n >= TWO_TO_THE_63 then Err(InvalidLength)
      else if i + n > |d| then Err(UnexpectedEof)
      else Ok(At(Unknown(d[i..i + n]), i + n))
  }

  /** The field at `i` of a message whose fields 1 to `known` are all length-delimited. */
  function NextField(d: Bytes, i: nat, known: nat): (r: Result<At<Field>>)
    requires i < |d|
    ensures r.Ok? ==> i < r.value.next <= |d|
  {
    match ReadVarint(d, i)
    case Err(e) => Err(e)
    case Ok(tag) =>
      if WireType(tag.value) == 4 then Err(EndGroup)
      else if FieldNum(tag.value) <= 0 then Err(IllegalTag)
      else if FieldNum(tag.value) <= known then
        if WireType(tag.value) != 2 then Err(WrongWireType) else ReadKnown(d, tag.next, FieldNum(tag.value))
      else ReadUnknown(d, i)
  }

  /** The errors at a tag whose number is `t`. */
  lemma RefusedTags(d: Bytes, i: nat, known: nat, t: nat)
    requires i < |d| && ReadVarint(d, i).Ok? && ReadVarint(d, i).value.value == t
    ensures t % 8 == 4 ==> NextField(d, i, known) == Err(EndGroup)
    ensures t % 8 != 4 && FieldNum(t) <= 0 ==> NextField(d, i, known) == Err(IllegalTag)
    ensures t % 8 != 4 && t % 8 != 2 && 0 < FieldNum(t) <= known ==> NextField(d, i, known) == Err(WrongWireType)
    ensures t % 8 >= 6 && FieldNum(t) > known ==> NextField(d, i, known) == Err(IllegalWireType)
    ensures t % 8 == 2 && 0 < FieldNum(t) <= known ==>
              var length := ReadVarint(d, ReadVarint(d, i).value.next);
              && (length.Err? ==> NextField(d, i, known) == Err(length.error))
              && (length.Ok? && length.value.next + length.value.value >= TWO_TO_THE_63 ==> NextField(d, i, known) == Err(InvalidLength))
              && (length.Ok? && |d| < length.value.next + length.value.value < TWO_TO_THE_63 ==> NextField(d, i, known) == Err(UnexpectedEof))
  {
    hide Groups, FieldNum;
    if t % 8 >= 6 && FieldNum(t) > known { ReadVarintOfRest(d, i); }
  }

  /** The same varint is read when all before it is cut off. */
  lemma ReadVarintOfRest(d: Bytes, i: nat)
    requires i < |d| && ReadVarint(d, i).Ok?
    ensures ReadVarint(d[i..], 0).Ok? && ReadVarint(d[i..], 0).value.value == ReadVarint(d, i).value.value
  {
    hide ReadVarint;
    ReadVarintLocal(d, i, d[i..], 0 - i);
  }

  /** A group that is not opened cannot be closed, and one that is not closed is cut off. */
  lemma UnbalancedGroups(d: Bytes, i: nat, depth: nat)
    ensures i < |d| && ReadVarint(d, i).Ok? && ReadVarint(d, i).value.value % 8 == 4 && depth == 0 ==>
              Skip(d, i, depth) == Err(UnexpectedEndOfGroup)
    ensures i >= |d| ==> Skip(d, i, depth) == Err(UnexpectedEof)
  {
    hide ReadVarint;
  }

  /** Decode the fields from index `i` on into the message `m`. */
  function Decode<M>(d: Bytes, i: nat, known: nat, apply: (M, Field) -> Result<M>, m: M): Result<M>
    decreases |d| - i
  {
    if i >= |d| then Ok(m)
    else
      match NextField(d, i, known)
      case Err(e) => Err(e)
      case Ok(f) =>
        match apply(m, f.value)
        case Err(e) => Err(e)
        case Ok(m') => Decode(d, f.next, known, apply, m')
  }

  // ----- what is read depends on the bytes consumed only

  /** The bytes of `d` from `i` to `j` are those of `d'` at a distance of `delta`. */
  ghost predicate Agree(d: Bytes, i: nat, j: nat, d': Bytes, delta: int)
    requires j <= |d|
  {
    0 <= i + delta && j + delta <= |d'| && forall k {:trigger d[k]} :: i <= k < j ==> d[k] == d'[k + delta]
  }

  lemma SliceAgrees(d: Bytes, i: nat, j: nat, d': Bytes, delta: int, lo: nat)
    requires i <= lo <= j <= |d| && Agree(d, i, j, d', delta)
    ensures d[lo..j] == d'[lo + delta..j + delta]
  {
    var s, t := d[lo..j], d'[lo + delta..j + delta];
    forall k | 0 <= k < |s| ensures s[k] == t[k] {
      assert s[k] == d[lo + k];
    }
  }

  lemma {:induction false} GroupsLocal(d: Bytes, i: nat, k: nat, d': Bytes, delta: int)
    requires Groups(d, i, k).Ok? && Agree(d, i, Groups(d, i, k).value.next, d', delta)
    ensures var r := Groups(d, i, k).value; Groups(d', i + delta, k) == Ok(At(r.value, r.next + delta))
    decreases k
  {
    if d[i] >= 128 { GroupsLocal(d, i + 1, k - 1, d', delta); }
  }

  lemma ReadVarintLocal(d: Bytes, i: nat, d': Bytes, delta: int)
    requires ReadVarint(d, i).Ok? && Agree(d, i, ReadVarint(d, i).value.next, d', delta)
    ensures var r := ReadVarint(d, i).value; ReadVarint(d', i + delta) == Ok(At(r.value, r.next + delta))
  {
    hide Groups;
    GroupsLocal(d, i, 10, d', delta);
  }

  lemma SkipValueLocal(d: Bytes, i: nat, wireType: nat, depth: nat, d': Bytes, delta: int)
    requires var r := SkipValue(d, i, wireType, depth); r.Ok? && r.value.next <= |d| && Agree(d, i, r.value.next, d', delta)
    ensures var r := SkipValue(d, i, wireType, depth).value;
            SkipValue(d', i + delta, wireType, depth) == Ok(At(r.value, r.next + delta))
  {
    if wireType == 0 { GroupsLocal(d, i, 10, d', delta); }
    if wireType == 2 { ReadVarintLocal(d, i, d', delta); }
  }

  lemma SkipOneLocal(d: Bytes, i: nat, depth: nat, d': Bytes, delta: int)
    requires var r := SkipOne(d, i, depth); r.Ok? && r.value.next <= |d| && Agree(d, i, r.value.next, d', delta)
    requires |d'| < TWO_TO_THE_63
    ensures var r := SkipOne(d, i, depth).value; SkipOne(d', i + delta, depth) == Ok(At(r.value, r.next + delta))
  {
    hide ReadVarint, SkipValue;
    var tag := ReadVarint(d, i).value;
    ReadVarintLocal(d, i, d', delta);
    SkipValueLocal(d, tag.next, WireType(tag.value), depth, d', delta);
  }

  lemma {:induction false} SkipLocal(d: Bytes, i: nat, depth: nat, d': Bytes, delta: int)
    requires var r := Skip(d, i, depth); r.Ok? && r.value <= |d| && Agree(d, i, r.value, d', delta)
    requires |d'| < TWO_TO_THE_63
    ensures Skip(d', i + delta, depth) == Ok(Skip(d, i, depth).value + delta)
    decreases |d| - i
  {
    hide SkipOne;
    var v := SkipOne(d, i, depth).value;
    var end := Skip(d, i, depth).value;
    assert v.next <= end;
    SkipOneLocal(d, i, depth, d', delta);
    if v.value != 0 { SkipLocal(d, v.next, v.value, d', delta); }
  }

  lemma ReadKnownLocal(d: Bytes, i: nat, num: nat, d': Bytes, delta: int)
    requires ReadKnown(d, i, num).Ok? && Agree(d, i, ReadKnown(d, i, num).value.next, d', delta)
    requires |d'| < TWO_TO_THE_63
    ensures var f := ReadKnown(d, i, num).value; ReadKnown(d', i + delta, num) == Ok(At(f.value, f.next + delta))
  {
    ReadVarintLocal(d, i, d', delta);
    var r := ReadLength(d, i).value;
    SliceAgrees(d, i, r.next, d', delta, r.value);
  }

  lemma ReadUnknownLocal(d: Bytes, i: nat, d': Bytes, delta: int)
    requires i < |d| && ReadUnknown(d, i).Ok? && Agree(d, i, ReadUnknown(d, i).value.next, d', delta)
    requires |d'| < TWO_TO_THE_63
    ensures var f := ReadUnknown(d, i).value; ReadUnknown(d', i + delta) == Ok(At(f.value, f.next + delta))
  {
    hide SkipOne;
    var f := ReadUnknown(d, i).value;
    SkipLocal(d[i..], 0, 0, d'[i + delta..], 0);
    SliceAgrees(d, i, f.next, d', delta, i);
  }

  /** The tag of an unknown field is the first thing its skipping reads. */
  lemma UnknownTag(d: Bytes, i: nat)
    requires i < |d| && ReadUnknown(d, i).Ok? && ReadVarint(d, i).Ok?
    ensures ReadVarint(d, i).value.next <= ReadUnknown(d, i).value.next
  {
    ReadVarintLocal(d[i..], 0, d, i);
  }

  lemma NextFieldLocal(d: Bytes, i: nat, known: nat, d': Bytes, delta: int)
    requires i < |d| && NextField(d, i, known).Ok? && Agree(d, i, NextField(d, i, known).value.next, d', delta)
    requires |d'| < TWO_TO_THE_63
    ensures var f := NextField(d, i, known).value; NextField(d', i + delta, known) == Ok(At(f.value, f.next + delta))
  {
    hide ReadVarint, ReadKnown, ReadUnknown, FieldNum, WireType;
    var tag := ReadVarint(d, i).value;
    if FieldNum(tag.value) <= known {
      ReadKnownLocal(d, tag.next, FieldNum(tag.value), d', delta);
    } else {
      UnknownTag(d, i);
      ReadUnknownLocal(d, i, d', delta);
    }
    ReadVarintLocal(d, i, d', delta);
  }

  // ----- concatenation merges messages

  /** All of `d` is read where it stands in `all`. */
  lemma {:induction false} DecodeWithin<M>(d: Bytes, i: nat, all: Bytes, delta: nat, known: nat, apply: (M, Field) -> Result<M>, m: M)
    requires i <= |d| && Agree(d, 0, |d|, all, delta) && |all| < TWO_TO_THE_63 && Decode(d, i, known, apply, m).Ok?
    ensures Decode(all, i + delta, known, apply, m) == Decode(all, |d| + delta, known, apply, Decode(d, i, known, apply, m).value)
    decreases |d| - i
  {
    hide NextField;
    if i < |d| {
      var f := NextField(d, i, known).value;
      NextFieldLocal(d, i, known, all, delta);
      var m' := apply(m, f.value).value;
      assert Decode(d, i, known, apply, m) == Decode(d, f.next, known, apply, m');
      assert Decode(all, i + delta, known, apply, m) == Decode(all, f.next + delta, known, apply, m');
      DecodeWithin(d, f.next, all, delta, known, apply, m');
    }
  }

  /** What is read of `all` from `delta` on is what stands there. */
  lemma {:induction false} DecodeRest<M>(all: Bytes, delta: nat, d: Bytes, i: nat, known: nat, apply: (M, Field) -> Result<M>, m: M)
    requires i <= |d| && |all| == |d| + delta && Agree(all, delta, |all|, d, 0 - delta) && |all| < TWO_TO_THE_63
    requires Decode(all, i + delta, known, apply, m).Ok?
    ensures Decode(d, i, known, apply, m) == Decode(all, i + delta, known, apply, m)
    decreases |d| - i
  {
    hide NextField;
    if i < |d| {
      var f := NextField(all, i + delta, known).value;
      NextFieldLocal(all, i + delta, known, d, 0 - delta);
      assert NextField(d, i, known) == Ok(At(f.value, f.next - delta));
      var m' := apply(m, f.value).value;
      assert Decode(all, i + delta, known, apply, m) == Decode(all, f.next, known, apply, m');
      assert Decode(d, i, known, apply, m) == Decode(d, f.next - delta, known, apply, m');
      DecodeRest(all, delta, d, f.next - delta, known, apply, m');
      assert f.next - delta + delta == f.next;
    }
  }

  /** Decoding the concatenation of two encodings is decoding one after the other. */
  lemma Concatenation<M>(a: Bytes, b: Bytes, known: nat, apply: (M, Field) -> Result<M>, m: M)
    requires |a + b| < TWO_TO_THE_63 && Decode(a, 0, known, apply, m).Ok?
    ensures var m' := Decode(a, 0, known, apply, m).value;
            && (Decode(a + b, 0, known, apply, m).Ok? <==> Decode(b, 0, known, apply, m').Ok?)
            && (Decode(b, 0, known, apply, m').Ok? ==> Decode(a + b, 0, known, apply, m) == Decode(b, 0, known, apply, m'))
  {
    hide NextField;
    var m' := Decode(a, 0, known, apply, m).value;
    var all := a + b;
    DecodeWithin(a, 0, all, 0, known, apply, m);
    if Decode(b, 0, known, apply, m').Ok? {
      DecodeWithin(b, 0, all, |a|, known, apply, m');
    } else if Decode(all, |a|, known, apply, m').Ok? {
      DecodeRest(all, |a|, b, 0, known, apply, m');
    }
  }

  // ----- encodings

  lemma {:induction false} VarintGroups(v: nat, rest: Bytes, k: nat)
    requires |Varint(v)| <= k
    ensures Groups(Varint(v) + rest, 0, k) == Ok(At(v, |Varint(v)|))
    decreases k
  {
    if v >= 128 {
      VarintGroups(v / 128, rest, k - 1);
      var d := Varint(v) + rest;
      var d' := Varint(v / 128) + rest;
      assert d == [d[0]] + d';
      GroupsLocal(d', 0, k - 1, d, 1);
    }
  }

  function Pow128(k: nat): nat {
    if k == 0 then 1 else 128 * Pow128(k - 1)
  }

  lemma {:induction false} VarintLength(v: nat, k: nat)
    requires v < Pow128(k) && k > 0
    ensures |Varint(v)| <= k
  {
    if v >= 128 { VarintLength(v / 128, k - 1); }
  }

  lemma VarintFits(v: nat)
    requires v < TWO_TO_THE_64
    ensures |Varint(v)| <= 10
  {
    assert Pow128(3) == 128 * 128 * 128;
    assert Pow128(5) == 128 * 128 * Pow128(3);
    assert Pow128(7) == 128 * 128 * Pow128(5);
    assert Pow128(10) == 128 * 128 * 128 * Pow128(7);
    VarintLength(v, 10);
  }

  /** A varint decodes to the number it was made for. */
  lemma VarintRoundTrip(v: nat, rest: Bytes)
    requires v < TWO_TO_THE_64
    ensures ReadVarint(Varint(v) + rest, 0) == Ok(At(v, |Varint(v)|))
  {
    VarintFits(v);
    VarintGroups(v, rest, 10);
  }

  /** A length-delimited field. */
  function FieldBytes(num: nat, payload: Bytes): (r: Bytes)
    requires 1 <= num <= 15
  {
    [num * 8 + 2] + Varint(|payload|) + payload
  }

  lemma LengthRoundTrip(tag: Byte, payload: Bytes, num: nat)
    requires |[tag] + Varint(|payload|) + payload| < TWO_TO_THE_63
    ensures var d := [tag] + Varint(|payload|) + payload; ReadKnown(d, 1, num) == Ok(At(Known(num, payload), |d|))
  {
    hide Varint, ReadVarint;
    var n := Varint(|payload|);
    var head := [tag] + n;
    var d := head + payload;
    assert d[|head|..|d|] == payload;
    assert d == [tag] + (n + payload);
    VarintRoundTrip(|payload|, payload);
    ReadVarintLocal(n + payload, 0, d, 1);
  }

  /** A field decodes to what it was made of. */
  lemma FieldRoundTrip(num: nat, payload: Bytes, known: nat)
    requires 1 <= num <= known && num <= 15 && |FieldBytes(num, payload)| < TWO_TO_THE_63
    ensures var d := FieldBytes(num, payload); NextField(d, 0, known) == Ok(At(Known(num, payload), |d|))
  {
    var d := FieldBytes(num, payload);
    var tag := num * 8 + 2;
    assert ReadVarint(d, 0) == Ok(At(tag, 1));
    assert FieldNum(tag) == num && WireType(tag) == 2;
    LengthRoundTrip(tag, payload, num);
  }

  // ----- a decoded field was at least as long as its encoding

  lemma {:induction false} VarintMonotone(a: nat, b: nat)
    requires a <= b
    ensures |Varint(a)| <= |Varint(b)|
  {
    if a >= 128 { VarintMonotone(a / 128, b / 128); }
  }

  lemma {:induction false} GroupsLength(d: Bytes, i: nat, k: nat)
    requires Groups(d, i, k).Ok?
    ensures var r := Groups(d, i, k).value; |Varint(r.value)| <= r.next - i
    decreases k
  {
    if d[i] >= 128 {
      GroupsLength(d, i + 1, k - 1);
      var r := Groups(d, i + 1, k - 1).value;
      assert (d[i] - 128 + 128 * r.value) / 128 == r.value;
    }
  }

  lemma KnownLength(d: Bytes, i: nat, known: nat)
    requires i < |d| && known <= 15 && NextField(d, i, known).Ok? && NextField(d, i, known).value.value.Known?
    ensures var f := NextField(d, i, known).value;
            1 <= f.value.num <= known && |FieldBytes(f.value.num, f.value.payload)| <= f.next - i
  {
    var tag := ReadVarint(d, i).value;
    GroupsLength(d, tag.next, 10);
    var n := Groups(d, tag.next, 10).value.value;
    assert n % TWO_TO_THE_64 <= n;
    VarintMonotone(n % TWO_TO_THE_64, n);
  }
}
