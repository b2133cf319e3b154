/** MsgData and TxMsgData (types/abci.pb.go) and Any (codec/types/any.pb.go): their
    encodings, and that decoding undoes them. */
module ProtoMessages {
  import opened Octets
  import opened ProtoWire
  import opened ProtoBuffer
  import ProtoFields

  // ----- MsgData

  datatype MsgData = MsgData(msgType: Bytes, data: Bytes)

  function ApplyMsgData(m: MsgData, f: Field): Result<MsgData> {
    match f
    case Unknown(_) => Ok(m)
    case Known(n, p) => Ok(if n == 1 then m.(msgType := p) else m.(data := p))
  }

  function DecodeMsgData(d: Bytes): Result<MsgData> {
    Decode(d, 0, 2, ApplyMsgData, MsgData([], []))
  }

  function EncodeMsgData(m: MsgData): Bytes {
    Optional(1, m.msgType) + Optional(2, m.data)
  }

  function MsgDataSize(m: MsgData): nat {
    OptionalSize(m.msgType) + OptionalSize(m.data)
  }

  lemma OptionalLength(num: nat, payload: Bytes)
    requires 1 <= num <= 15
    ensures |Optional(num, payload)| == OptionalSize(payload)
  {
    FieldSizeIsLength(num, payload);
  }

  /** The size pre-pass computes the length of the encoding. */
  lemma MsgDataSizeIsLength(m: MsgData)
    ensures MsgDataSize(m) == |EncodeMsgData(m)|
  {
    OptionalLength(1, m.msgType);
    OptionalLength(2, m.data);
  }

  /** Decoding one field, if it is there. */
  lemma DecodeOptional<M>(num: nat, payload: Bytes, known: nat, apply: (M, Field) -> Result<M>, m: M)
    requires 1 <= num <= known && num <= 15 && |Optional(num, payload)| < TWO_TO_THE_63
    ensures Decode(Optional(num, payload), 0, known, apply, m) == if payload == [] then Ok(m) else apply(m, Known(num, payload))
  {
    if payload != [] { FieldRoundTrip(num, payload, known); }
  }

  lemma MsgDataRoundTrip(m: MsgData)
    requires MsgDataSize(m) < TWO_TO_THE_63
    ensures DecodeMsgData(EncodeMsgData(m)) == Ok(m)
  {
    MsgDataSizeIsLength(m);
    var m1 := MsgData(m.msgType, []);
    DecodeOptional(1, m.msgType, 2, ApplyMsgData, MsgData([], []));
    DecodeOptional(2, m.data, 2, ApplyMsgData, m1);
    Concatenation(Optional(1, m.msgType), Optional(2, m.data), 2, ApplyMsgData, MsgData([], []));
  }

  // ----- where the fields stand

  /** From `i` to `next` stands a field with this tag, number and payload, or nothing when
      there is no payload. */
  predicate FieldAt(e: Bytes, i: nat, tag: Byte, num: nat, payload: Bytes, known: nat, next: nat) {
    if payload == [] then next == i
    else i < |e| && e[i] == tag && NextField(e, i, known) == Ok(At(Known(num, payload), next))
  }

  lemma FieldStands(num: nat, payload: Bytes, known: nat, e: Bytes, i: nat)
    requires 1 <= num <= known && num <= 15 && |e| < TWO_TO_THE_63
    requires i + |FieldBytes(num, payload)| <= |e| && e[i..i + |FieldBytes(num, payload)|] == FieldBytes(num, payload)
    ensures i < |e| && e[i] == num * 8 + 2
    ensures NextField(e, i, known) == Ok(At(Known(num, payload), i + |FieldBytes(num, payload)|))
  {
    hide NextField, Varint;
    var d := FieldBytes(num, payload);
    FieldRoundTrip(num, payload, known);
    assert Agree(d, 0, |d|, e, i) by {
      forall k | 0 <= k < |d| ensures d[k] == e[k + i] { assert e[i..i + |d|][k] == d[k]; }
    }
    NextFieldLocal(d, 0, known, e, i);
    assert e[i..i + |d|][0] == d[0];
  }

  lemma OptionalStands(num: nat, payload: Bytes, known: nat, e: Bytes, i: nat)
    requires 1 <= num <= known && num <= 15 && |e| < TWO_TO_THE_63
    requires i + |Optional(num, payload)| <= |e| && e[i..i + |Optional(num, payload)|] == Optional(num, payload)
    ensures FieldAt(e, i, num * 8 + 2, num, payload, known, i + |Optional(num, payload)|)
  {
    hide NextField, FieldBytes;
    if payload != [] { FieldStands(num, payload, known, e, i); }
  }

  /** The bytes of a MsgData: its type with the tag 0x0a, its data with the tag 0x12, and
      nothing after them. */
  ghost predicate MsgDataLayout(e: Bytes, m: MsgData) {
    exists mid :: FieldAt(e, 0, 0x0a, 1, m.msgType, 2, mid) && FieldAt(e, mid, 0x12, 2, m.data, 2, |e|)
  }

  lemma MsgDataLaidOut(m: MsgData)
    requires MsgDataSize(m) < TWO_TO_THE_63
    ensures MsgDataLayout(EncodeMsgData(m), m)
  {
    hide FieldAt, Optional;
    MsgDataSizeIsLength(m);
    var e, first, second := EncodeMsgData(m), Optional(1, m.msgType), Optional(2, m.data);
    assert e[0..|first|] == first && e[|first|..|first| + |second|] == second;
    OptionalStands(1, m.msgType, 2, e, 0);
    OptionalStands(2, m.data, 2, e, |first|);
  }

  method MarshalMsgData(m: MsgData, dAtA: array<Byte>, end: nat) returns (n: nat)
    requires MsgDataSize(m) <= end <= dAtA.Length
    modifies dAtA
    ensures n == MsgDataSize(m) && dAtA[end - n..end] == EncodeMsgData(m) && OnlyWithin(dAtA, end - n, end)
    ensures n < TWO_TO_THE_63 ==> MsgDataLayout(dAtA[end - n..end], m)
  {
    hide MsgDataLayout, FieldAt;
    if MsgDataSize(m) < TWO_TO_THE_63 { MsgDataLaidOut(m); }
    var i := EncodePair(dAtA, end, m.msgType, m.data);
    return end - i;
  }

  /** Of a field that comes more than once the last one counts. */
  lemma LastFieldOfMsgData(d: Bytes, num: nat, p: Bytes)
    requires 1 <= num <= 2 && |d + FieldBytes(num, p)| < TWO_TO_THE_63 && DecodeMsgData(d).Ok?
    ensures var m := DecodeMsgData(d).value;
            DecodeMsgData(d + FieldBytes(num, p)) == Ok(if num == 1 then MsgData(p, m.data) else MsgData(m.msgType, p))
  {
    hide NextField;
    FieldRoundTrip(num, p, 2);
    Concatenation(d, FieldBytes(num, p), 2, ApplyMsgData, MsgData([], []));
  }

  // ----- TxMsgData

  datatype TxMsgData = TxMsgData(data: seq<MsgData>)

  function ApplyTxMsgData(m: TxMsgData, f: Field): Result<TxMsgData> {
    match f
    case Unknown(_) => Ok(m)
    case Known(_, p) =>
      match DecodeMsgData(p)
      case Err(e) => Err(e)
      case Ok(d) => Ok(TxMsgData(m.data + [d]))
  }

  function DecodeTxMsgData(d: Bytes): Result<TxMsgData> {
    Decode(d, 0, 1, ApplyTxMsgData, TxMsgData([]))
  }

  function Entry(m: MsgData): Bytes {
    FieldBytes(1, EncodeMsgData(m))
  }

  /** The encoding of the entries from `k` on. */
  function EncodeEntries(data: seq<MsgData>, k: nat): Bytes
    requires k <= |data|
    decreases |data| - k
  {
    if k == |data| then [] else Entry(data[k]) + EncodeEntries(data, k + 1)
  }

  function EncodeTxMsgData(m: TxMsgData): Bytes {
    EncodeEntries(m.data, 0)
  }

  /** The room the entries before `k` take. */
  function EntriesLength(data: seq<MsgData>, k: nat): nat
    requires k <= |data|
  {
    if k == 0 then 0 else EntriesLength(data, k - 1) + |Entry(data[k - 1])|
  }

  lemma {:induction false} EntriesBeforeAndAfter(data: seq<MsgData>, k: nat)
    requires k <= |data|
    ensures EntriesLength(data, k) + |EncodeEntries(data, k)| == EntriesLength(data, |data|)
    decreases |data| - k
  {
    hide Entry;
    if k < |data| { EntriesBeforeAndAfter(data, k + 1); }
  }

  function EntrySize(m: MsgData): nat {
    FieldSize(MsgDataSize(m))
  }

  lemma EntrySizeIsLength(m: MsgData)
    ensures EntrySize(m) == |Entry(m)|
  {
    MsgDataSizeIsLength(m);
    FieldSizeIsLength(1, EncodeMsgData(m));
  }

  lemma EntryRoundTrip(m: MsgData, before: seq<MsgData>)
    requires |Entry(m)| < TWO_TO_THE_63
    ensures Decode(Entry(m), 0, 1, ApplyTxMsgData, TxMsgData(before)) == Ok(TxMsgData(before + [m]))
  {
    var e := EncodeMsgData(m);
    MsgDataSizeIsLength(m);
    MsgDataRoundTrip(m);
    FieldRoundTrip(1, e, 1);
  }

  lemma {:induction false} EntriesRoundTrip(data: seq<MsgData>, k: nat)
    requires k <= |data| && |EncodeEntries(data, k)| < TWO_TO_THE_63
    ensures Decode(EncodeEntries(data, k), 0, 1, ApplyTxMsgData, TxMsgData(data[..k])) == Ok(TxMsgData(data))
    decreases |data| - k
  {
    if k == |data| {
      assert data[..k] == data;
    } else {
      assert data[..k + 1] == data[..k] + [data[k]];
      EntryRoundTrip(data[k], data[..k]);
      EntriesRoundTrip(data, k + 1);
      Concatenation(Entry(data[k]), EncodeEntries(data, k + 1), 1, ApplyTxMsgData, TxMsgData(data[..k]));
    }
  }

  /** Unmarshal undoes Marshal on every message whose encoding fits a Go slice. */
  lemma TxMsgDataRoundTrip(m: TxMsgData)
    requires |EncodeTxMsgData(m)| < TWO_TO_THE_63
    ensures DecodeTxMsgData(EncodeTxMsgData(m)) == Ok(m)
  {
    EntriesRoundTrip(m.data, 0);
  }

  /** The size pre-pass. */
  method TxMsgDataSize(m: TxMsgData) returns (n: nat)
    ensures n == |EncodeTxMsgData(m)|
  {
    hide Entry, EntrySize;
    n := 0;
    for i := 0 to |m.data|
      invariant n == EntriesLength(m.data, i)
    {
      EntrySizeIsLength(m.data[i]);
      n := n + EntrySize(m.data[i]);
    }
    EntriesBeforeAndAfter(m.data, 0);
  }

  method MarshalEntry(m: MsgData, dAtA: array<Byte>, end: nat) returns (base: nat)
    requires EntrySize(m) <= end <= dAtA.Length
    modifies dAtA
    ensures base == end - EntrySize(m) && dAtA[base..end] == Entry(m) && OnlyWithin(dAtA, base, end)
  {
    hide EncodeMsgData, FieldBytes, MsgDataSize;
    MsgDataSizeIsLength(m);
    var n := MarshalMsgData(m, dAtA, end);
    base := EncodeHeader(dAtA, end - n, 1, end);
  }

  /** One more entry before those already in the buffer. */
  method PrependEntry(m: MsgData, dAtA: array<Byte>, end: nat, ghost rest: Bytes) returns (base: nat)
    requires |Entry(m)| <= end <= dAtA.Length && dAtA[end..] == rest
    modifies dAtA
    ensures base == end - |Entry(m)| && dAtA[base..] == Entry(m) + rest
  {
    EntrySizeIsLength(m);
    base := MarshalEntry(m, dAtA, end);
    assert dAtA[end..] == rest;
    assert dAtA[base..] == dAtA[base..end] + dAtA[end..];
  }

  /** The bytes of a TxMsgData: its entries in order, each with the tag 0x0a and the bytes of
      a MsgData, and nothing after them. */
  ghost predicate EntriesLayout(e: Bytes, i: nat, data: seq<MsgData>, k: nat)
    requires k <= |data|
    decreases |data| - k
  {
    if k == |data| then i == |e|
    else
      && i < |e| && e[i] == 0x0a && NextField(e, i, 1).Ok?
      && var f := NextField(e, i, 1).value;
         f.value.Known? && MsgDataLayout(f.value.payload, data[k]) && EntriesLayout(e, f.next, data, k + 1)
  }

  lemma {:induction false} EntriesLaidOut(e: Bytes, i: nat, data: seq<MsgData>, k: nat)
    requires i <= |e| < TWO_TO_THE_63 && k <= |data| && e[i..] == EncodeEntries(data, k)
    ensures EntriesLayout(e, i, data, k)
    decreases |data| - k
  {
    hide NextField, FieldBytes, EncodeMsgData, MsgDataLayout, MsgDataSize;
    if k < |data| {
      var here, rest := Entry(data[k]), EncodeEntries(data, k + 1);
      assert e[i..] == here + rest;
      assert e[i..i + |here|] == here by { assert e[i..][..|here|] == here; }
      assert e[i + |here|..] == rest by { assert e[i..][|here|..] == rest; }
      EntryFits(data[k]);
      FieldStands(1, EncodeMsgData(data[k]), 1, e, i);
      MsgDataLaidOut(data[k]);
      EntriesLaidOut(e, i + |here|, data, k + 1);
    }
  }

  lemma EntryFits(m: MsgData)
    ensures MsgDataSize(m) < |Entry(m)|
  {
    MsgDataSizeIsLength(m);
  }

  /** Marshal: the buffer of the size computed first is filled from its end, exactly. */
  method MarshalTxMsgData(m: TxMsgData) returns (r: Bytes)
    ensures r == EncodeTxMsgData(m)
    ensures |r| < TWO_TO_THE_63 ==> EntriesLayout(r, 0, m.data, 0)
  {
    hide Entry, EntriesLayout;
    if |EncodeTxMsgData(m)| < TWO_TO_THE_63 {
      assert EncodeTxMsgData(m)[0..] == EncodeTxMsgData(m);
      EntriesLaidOut(EncodeTxMsgData(m), 0, m.data, 0);
    }
    var size := TxMsgDataSize(m);
    var dAtA := new Byte[size];
    var i := size;
    for k := |m.data| downto 0
      invariant 0 <= i <= size && dAtA[i..] == EncodeEntries(m.data, k)
    {
      EntriesFit(m.data, k);
      i := PrependEntry(m.data[k], dAtA, i, EncodeEntries(m.data, k + 1));
    }
    return dAtA[i..];
  }

  lemma EntriesFit(data: seq<MsgData>, k: nat)
    requires k < |data|
    ensures |Entry(data[k])| + |EncodeEntries(data, k + 1)| <= |EncodeEntries(data, 0)|
  {
    EntriesBeforeAndAfter(data, 0);
    EntriesBeforeAndAfter(data, k);
  }

  ghost predicate AllBeyond(items: seq<ProtoFields.Item>, known: nat) {
    forall i :: 0 <= i < |items| ==> ProtoFields.WellFormed(items[i]) && items[i].num > known
  }

  lemma {:induction false} ItemsDropped<M(!new)>(items: seq<ProtoFields.Item>, k: nat, known: nat, apply: (M, Field) -> Result<M>, m: M)
    requires k <= |items| && AllBeyond(items, known) && |ProtoFields.EncodeFrom(items, k)| < TWO_TO_THE_63
    requires forall raw :: apply(m, Unknown(raw)) == Ok(m)
    ensures Decode(ProtoFields.EncodeFrom(items, k), 0, known, apply, m) == Ok(m)
    decreases |items| - k
  {
    hide NextField, ProtoFields.Encode;
    if k < |items| {
      var e := ProtoFields.Encode(items[k]);
      ProtoFields.DecodeUnknownItem(items[k], known, apply, m);
      ItemsDropped(items, k + 1, known, apply, m);
      Concatenation(e, ProtoFields.EncodeFrom(items, k + 1), known, apply, m);
    }
  }

  /** The same of a single entry. */
  lemma UnknownFieldsOfMsgDataDropped(m: MsgData, items: seq<ProtoFields.Item>)
    requires AllBeyond(items, 2) && |EncodeMsgData(m) + ProtoFields.EncodeFrom(items, 0)| < TWO_TO_THE_63
    ensures DecodeMsgData(EncodeMsgData(m) + ProtoFields.EncodeFrom(items, 0)) == Ok(m)
  {
    hide NextField, EncodeMsgData, ProtoFields.EncodeFrom;
    MsgDataSizeIsLength(m);
    MsgDataRoundTrip(m);
    ItemsDropped(items, 0, 2, ApplyMsgData, m);
    Concatenation(EncodeMsgData(m), ProtoFields.EncodeFrom(items, 0), 2, ApplyMsgData, MsgData([], []));
  }

  /** Fields a newer version may have added, groups included, do not disturb decoding. */
  lemma UnknownFieldsDropped(m: TxMsgData, items: seq<ProtoFields.Item>)
    requires AllBeyond(items, 1) && |EncodeTxMsgData(m) + ProtoFields.EncodeFrom(items, 0)| < TWO_TO_THE_63
    ensures DecodeTxMsgData(EncodeTxMsgData(m) + ProtoFields.EncodeFrom(items, 0)) == Ok(m)
  {
    hide EncodeEntries, NextField;
    TxMsgDataRoundTrip(m);
    ItemsDropped(items, 0, 1, ApplyTxMsgData, m);
    Concatenation(EncodeTxMsgData(m), ProtoFields.EncodeFrom(items, 0), 1, ApplyTxMsgData, TxMsgData([]));
  }

  /** What was read of a MsgData is at least as long as its encoding. */
  lemma {:induction false} MsgDataShorter(p: Bytes, i: nat, m: MsgData)
    requires i <= |p| && MsgDataSize(m) <= i && Decode(p, i, 2, ApplyMsgData, m).Ok?
    ensures MsgDataSize(Decode(p, i, 2, ApplyMsgData, m).value) <= |p|
    decreases |p| - i
  {
    hide NextField, FieldSize, FieldBytes;
    if i < |p| {
      var f := NextField(p, i, 2).value;
      if f.value.Known? {
        KnownLength(p, i, 2);
        FieldSizeIsLength(f.value.num, f.value.payload);
      }
      MsgDataShorter(p, f.next, ApplyMsgData(m, f.value).value);
    }
  }

  lemma MsgDataIsStable(d: Bytes)
    requires |d| < TWO_TO_THE_63 && DecodeMsgData(d).Ok?
    ensures DecodeMsgData(EncodeMsgData(DecodeMsgData(d).value)) == DecodeMsgData(d)
    ensures |EncodeMsgData(DecodeMsgData(d).value)| <= |d|
  {
    MsgDataShorter(d, 0, MsgData([], []));
    MsgDataSizeIsLength(DecodeMsgData(d).value);
    MsgDataRoundTrip(DecodeMsgData(d).value);
  }

  lemma EntryShorter(m: MsgData, p: Bytes)
    requires DecodeMsgData(p) == Ok(m)
    ensures |Entry(m)| <= |FieldBytes(1, p)|
  {
    MsgDataShorter(p, 0, MsgData([], []));
    MsgDataSizeIsLength(m);
    VarintMonotone(|EncodeMsgData(m)|, |p|);
  }

  lemma {:induction false} SameEntries(data: seq<MsgData>, more: seq<MsgData>, k: nat)
    requires k <= |data|
    ensures EntriesLength(data + more, k) == EntriesLength(data, k)
  {
    hide Entry;
    if k > 0 { SameEntries(data, more, k - 1); }
  }

  /** What was read of a TxMsgData is at least as long as the encoding of its entries. */
  lemma {:induction false} EntriesShorter(d: Bytes, i: nat, m: TxMsgData)
    requires i <= |d| && EntriesLength(m.data, |m.data|) <= i && Decode(d, i, 1, ApplyTxMsgData, m).Ok?
    ensures var r := Decode(d, i, 1, ApplyTxMsgData, m).value; EntriesLength(r.data, |r.data|) <= |d|
    decreases |d| - i
  {
    hide NextField, Entry, FieldBytes, DecodeMsgData;
    if i < |d| {
      var f := NextField(d, i, 1).value;
      var m' := ApplyTxMsgData(m, f.value).value;
      if f.value.Known? {
        KnownLength(d, i, 1);
        var e := DecodeMsgData(f.value.payload).value;
        EntryShorter(e, f.value.payload);
        SameEntries(m.data, [e], |m.data|);
        assert (m.data + [e])[|m.data|] == e;
      }
      EntriesShorter(d, f.next, m');
    }
  }

  /** Whatever Unmarshal accepts, with whatever unknown or repeated fields at both levels,
      encoding the result and decoding it again gives the same message, and the new encoding
      is no longer than the old. */
  lemma TxMsgDataIsStable(d: Bytes)
    requires |d| < TWO_TO_THE_63 && DecodeTxMsgData(d).Ok?
    ensures DecodeTxMsgData(EncodeTxMsgData(DecodeTxMsgData(d).value)) == DecodeTxMsgData(d)
    ensures |EncodeTxMsgData(DecodeTxMsgData(d).value)| <= |d|
  {
    var m := DecodeTxMsgData(d).value;
    EntriesShorter(d, 0, TxMsgData([]));
    EntriesBeforeAndAfter(m.data, 0);
    TxMsgDataRoundTrip(m);
  }

  /** Entries are collected in order, and one that does not decode is an error. */
  lemma NextEntry(d: Bytes, p: Bytes)
    requires |d + FieldBytes(1, p)| < TWO_TO_THE_63 && DecodeTxMsgData(d).Ok?
    ensures var r, e := DecodeTxMsgData(d + FieldBytes(1, p)), DecodeMsgData(p);
            && (e.Ok? ==> r == Ok(TxMsgData(DecodeTxMsgData(d).value.data + [e.value])))
            && (e.Err? ==> r.Err?)
  {
    hide NextField, DecodeMsgData;
    FieldRoundTrip(1, p, 1);
    Concatenation(d, FieldBytes(1, p), 1, ApplyTxMsgData, TxMsgData([]));
  }

  method UnmarshalTxMsgData(d: Bytes) returns (r: Result<TxMsgData>)
    ensures r == DecodeTxMsgData(d)
  {
    r := DecodeFields(d, 1, ApplyTxMsgData, TxMsgData([]));
  }

  // ----- Any

  datatype Any = Any(typeUrl: Bytes, value: Bytes, unrecognized: Bytes)

  function ApplyAny(m: Any, f: Field): Result<Any> {
    match f
    case Unknown(raw) => Ok(m.(unrecognized := m.unrecognized + raw))
    case Known(n, p) => Ok(if n == 1 then m.(typeUrl := p) else m.(value := p))
  }

  const NO_ANY := Any([], [], [])

  function DecodeAny(d: Bytes): Result<Any> {
    Decode(d, 0, 2, ApplyAny, NO_ANY)
  }

  function EncodeAny(m: Any): Bytes {
    Optional(1, m.typeUrl) + Optional(2, m.value) + m.unrecognized
  }

  function AnySize(m: Any): nat {
    OptionalSize(m.typeUrl) + OptionalSize(m.value) + |m.unrecognized|
  }

  lemma AnySizeIsLength(m: Any)
    ensures AnySize(m) == |EncodeAny(m)|
  {
    OptionalLength(1, m.typeUrl);
    OptionalLength(2, m.value);
  }

  /** The bytes of an Any: the type URL with the tag 0x0a, the value with the tag 0x12, and
      then the unrecognized bytes. */
  ghost predicate AnyLayout(e: Bytes, m: Any) {
    exists i: nat, j: nat ::
      && FieldAt(e, 0, 0x0a, 1, m.typeUrl, 2, i) && FieldAt(e, i, 0x12, 2, m.value, 2, j)
      && j <= |e| && e[j..] == m.unrecognized
  }

  lemma AnyLaidOut(m: Any)
    requires AnySize(m) < TWO_TO_THE_63
    ensures AnyLayout(EncodeAny(m), m)
  {
    hide FieldAt, Optional;
    AnySizeIsLength(m);
    var e, first, second := EncodeAny(m), Optional(1, m.typeUrl), Optional(2, m.value);
    var j := |first| + |second|;
    assert e[0..|first|] == first && e[|first|..j] == second && e[j..] == m.unrecognized;
    OptionalStands(1, m.typeUrl, 2, e, 0);
    OptionalStands(2, m.value, 2, e, |first|);
    assert FieldAt(e, 0, 0x0a, 1, m.typeUrl, 2, |first|) && FieldAt(e, |first|, 0x12, 2, m.value, 2, j);
  }

  method MarshalAny(m: Any) returns (r: Bytes)
    ensures r == EncodeAny(m)
    ensures |r| < TWO_TO_THE_63 ==> AnyLayout(r, m)
  {
    hide AnyLayout, Optional, FieldBytes, OptionalSize;
    AnySizeIsLength(m);
    if AnySize(m) < TWO_TO_THE_63 { AnyLaidOut(m); }
    var size := AnySize(m);
    var dAtA := new Byte[size];
    var i := size - |m.unrecognized|;
    CopyAt(dAtA, i, m.unrecognized);
    var j := EncodePair(dAtA, i, m.typeUrl, m.value);
    assert dAtA[i..] == m.unrecognized;
    assert dAtA[..] == dAtA[j..i] + dAtA[i..];
    return dAtA[..];
  }

  method UnmarshalAny(d: Bytes) returns (r: Result<Any>)
    ensures r == DecodeAny(d)
  {
    r := DecodeFields(d, 2, ApplyAny, NO_ANY);
  }

  /** Of a field that comes more than once the last one counts. */
  lemma LastFieldOfAny(d: Bytes, num: nat, p: Bytes)
    requires 1 <= num <= 2 && |d + FieldBytes(num, p)| < TWO_TO_THE_63 && DecodeAny(d).Ok?
    ensures var m := DecodeAny(d).value;
            DecodeAny(d + FieldBytes(num, p)) == Ok(if num == 1 then Any(p, m.value, m.unrecognized) else Any(m.typeUrl, p, m.unrecognized))
  {
    hide NextField;
    FieldRoundTrip(num, p, 2);
    Concatenation(d, FieldBytes(num, p), 2, ApplyAny, NO_ANY);
  }

  /** From index `i` on there is nothing but well-formed fields that Any does not have. */
  predicate UnknownFrom(u: Bytes, i: nat)
    decreases |u| - i
  {
    i >= |u| || (
      && NextField(u, i, 2).Ok? && NextField(u, i, 2).value.value.Unknown?
      && UnknownFrom(u, NextField(u, i, 2).value.next))
  }

  predicate AllUnknown(u: Bytes) {
    UnknownFrom(u, 0)
  }

  /** Such bytes are carried along, whatever the other fields are. */
  lemma {:induction false} UnknownDecodes(u: Bytes, i: nat, m: Any)
    requires i <= |u| && UnknownFrom(u, i)
    ensures Decode(u, i, 2, ApplyAny, m) == Ok(m.(unrecognized := m.unrecognized + u[i..]))
    decreases |u| - i
  {
    hide NextField;
    if i == |u| {
      assert m.unrecognized + u[i..] == m.unrecognized;
    } else {
      var f := NextField(u, i, 2).value;
      UnknownRaw(u, i);
      var rest := u[f.next..];
      UnknownDecodes(u, f.next, ApplyAny(m, f.value).value);
      assert m.unrecognized + f.value.raw + rest == m.unrecognized + u[i..];
    }
  }

  /** Nothing is added to the unrecognized bytes but what is read. */
  lemma {:induction false} UnrecognizedLength(u: Bytes, i: nat, m: Any)
    requires i <= |u| && Decode(u, i, 2, ApplyAny, m).Ok?
    ensures |Decode(u, i, 2, ApplyAny, m).value.unrecognized| <= |m.unrecognized| + |u| - i
    decreases |u| - i
  {
    if i < |u| {
      var f := NextField(u, i, 2).value;
      if f.value.Unknown? { UnknownRaw(u, i); }
      UnrecognizedLength(u, f.next, ApplyAny(m, f.value).value);
    }
  }

  /** When all that is read is added, there was nothing else. */
  lemma {:induction false} DecodeUnknown(u: Bytes, i: nat, m: Any)
    requires i <= |u| && Decode(u, i, 2, ApplyAny, m).Ok?
    requires |Decode(u, i, 2, ApplyAny, m).value.unrecognized| == |m.unrecognized| + |u| - i
    ensures UnknownFrom(u, i)
    decreases |u| - i
  {
    hide NextField;
    if i < |u| {
      var f := NextField(u, i, 2).value;
      var m' := ApplyAny(m, f.value).value;
      UnrecognizedLength(u, f.next, m');
      if f.value.Unknown? {
        UnknownRaw(u, i);
        DecodeUnknown(u, f.next, m');
      }
    }
  }

  lemma UnknownRaw(u: Bytes, i: nat)
    requires i < |u| && NextField(u, i, 2).Ok? && NextField(u, i, 2).value.value.Unknown?
    ensures var f := NextField(u, i, 2).value; f.value.raw == u[i..f.next]
  {}

  /** Decoding the encoding of the two known fields. */
  lemma DecodeKnownFields(m: Any)
    requires AnySize(m) < TWO_TO_THE_63
    ensures Decode(Optional(1, m.typeUrl) + Optional(2, m.value), 0, 2, ApplyAny, NO_ANY) == Ok(m.(unrecognized := []))
  {
    AnySizeIsLength(m);
    DecodeOptional(1, m.typeUrl, 2, ApplyAny, NO_ANY);
    DecodeOptional(2, m.value, 2, ApplyAny, Any(m.typeUrl, [], []));
    Concatenation(Optional(1, m.typeUrl), Optional(2, m.value), 2, ApplyAny, NO_ANY);
  }

  /** Unmarshal undoes Marshal exactly when the unrecognized bytes are a sequence of
      well-formed fields that Any does not have. */
  lemma AnyRoundTrip(m: Any)
    requires AnySize(m) < TWO_TO_THE_63
    ensures DecodeAny(EncodeAny(m)) == Ok(m) <==> AllUnknown(m.unrecognized)
  {
    var u := m.unrecognized;
    var m0 := m.(unrecognized := []);
    AnySizeIsLength(m);
    DecodeKnownFields(m);
    Concatenation(Optional(1, m.typeUrl) + Optional(2, m.value), u, 2, ApplyAny, NO_ANY);
    assert u[0..] == u && [] + u == u;
    hide Decode, UnknownFrom;
    if UnknownFrom(u, 0) { UnknownDecodes(u, 0, m0); }
    if Decode(u, 0, 2, ApplyAny, m0) == Ok(m) { DecodeUnknown(u, 0, m0); }
  }

  lemma AppendUnknown(u: Bytes, d: Bytes, i: nat)
    requires AllUnknown(u) && i < |d| && NextField(d, i, 2).Ok? && NextField(d, i, 2).value.value.Unknown?
    requires |u + NextField(d, i, 2).value.value.raw| < TWO_TO_THE_63
    ensures AllUnknown(u + NextField(d, i, 2).value.value.raw)
  {
    var r := NextField(d, i, 2).value.value.raw;
    UnknownRaw(d, i);
    NextFieldLocal(d, i, 2, r, 0 - i);
    hide NextField;
    UnknownDecodes(u, 0, NO_ANY);
    assert u[0..] == u;
    assert Decode(r, |r|, 2, ApplyAny, Any([], [], u + r)) == Ok(Any([], [], u + r));
    Concatenation(u, r, 2, ApplyAny, NO_ANY);
    DecodeUnknown(u + r, 0, NO_ANY);
  }

  lemma {:induction false} DecodedIsUnknown(d: Bytes, i: nat, m: Any)
    requires i <= |d| < TWO_TO_THE_63 && AllUnknown(m.unrecognized) && AnySize(m) <= i
    requires Decode(d, i, 2, ApplyAny, m).Ok?
    ensures var r := Decode(d, i, 2, ApplyAny, m).value; AllUnknown(r.unrecognized) && AnySize(r) <= |d|
    decreases |d| - i
  {
    if i < |d| {
      var f := NextField(d, i, 2).value;
      var m' := ApplyAny(m, f.value).value;
      if f.value.Unknown? {
        UnknownRaw(d, i);
        AppendUnknown(m.unrecognized, d, i);
      } else {
        KnownLength(d, i, 2);
        FieldSizeIsLength(f.value.num, f.value.payload);
      }
      DecodedIsUnknown(d, f.next, m');
    }
  }

  /** Whatever Unmarshal accepts, encoding the result and decoding it again gives the same
      message, unknown fields included, and the new encoding is no longer than the old. */
  lemma AnyIsStable(d: Bytes)
    requires |d| < TWO_TO_THE_63 && DecodeAny(d).Ok?
    ensures DecodeAny(EncodeAny(DecodeAny(d).value)) == DecodeAny(d)
    ensures |EncodeAny(DecodeAny(d).value)| <= |d|
  {
    DecodedIsUnknown(d, 0, NO_ANY);
    AnyRoundTrip(DecodeAny(d).value);
    AnySizeIsLength(DecodeAny(d).value);
  }

  lemma {:induction false} ItemsKept(items: seq<ProtoFields.Item>, k: nat, m: Any)
    requires k <= |items| && AllBeyond(items, 2) && |ProtoFields.EncodeFrom(items, k)| < TWO_TO_THE_63
    ensures Decode(ProtoFields.EncodeFrom(items, k), 0, 2, ApplyAny, m)
            == Ok(m.(unrecognized := m.unrecognized + ProtoFields.EncodeFrom(items, k)))
    decreases |items| - k
  {
    hide NextField, ProtoFields.Encode;
    var u := m.unrecognized;
    if k == |items| {
      assert u + [] == u;
    } else {
      var e, rest := ProtoFields.Encode(items[k]), ProtoFields.EncodeFrom(items, k + 1);
      ProtoFields.DecodeUnknownItem(items[k], 2, ApplyAny, m);
      ItemsKept(items, k + 1, m.(unrecognized := u + e));
      Concatenation(e, rest, 2, ApplyAny, m);
      assert u + e + rest == u + (e + rest);
    }
  }

  /** An Any carries unknown fields, groups included, through a round trip. */
  lemma UnknownFieldsKept(m: Any, items: seq<ProtoFields.Item>)
    requires AllBeyond(items, 2) && m.unrecognized == ProtoFields.EncodeFrom(items, 0) && AnySize(m) < TWO_TO_THE_63
    ensures DecodeAny(EncodeAny(m)) == Ok(m)
  {
    hide NextField, ProtoFields.EncodeFrom;
    ItemsKept(items, 0, NO_ANY);
    DecodeUnknown(m.unrecognized, 0, NO_ANY);
    AnyRoundTrip(m);
  }
}
