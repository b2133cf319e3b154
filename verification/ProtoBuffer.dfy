/** The generated code itself: decoders that advance an index, and encoders that fill a
    buffer from its end (types/abci.pb.go, codec/types/any.pb.go). */
module ProtoBuffer {
  import opened Octets
  import opened ProtoWire

  // ----- decoding

  /** What is left to read of a varint, put above the bits read so far. */
  ghost function Resume(wire: nat, unit: nat, rest: Result<At<nat>>): Result<At<nat>> {
    match rest
    case Err(e) => Err(e)
    case Ok(r) => Ok(At((wire + unit * r.value) % TWO_TO_THE_64, r.next))
  }

  lemma AddThenReduce(a: int, b: int)
    ensures (a % TWO_TO_THE_64 + b) % TWO_TO_THE_64 == (a + b) % TWO_TO_THE_64
  {
    var q := a / TWO_TO_THE_64;
    assert a + b == q * TWO_TO_THE_64 + (a % TWO_TO_THE_64 + b);
  }

  lemma Pow2By7(n: nat)
    ensures Pow2(n + 7) == 128 * Pow2(n)
  {
    assert Pow2(n + 7) == 4 * Pow2(n + 5);
    assert Pow2(n + 5) == 4 * Pow2(n + 3);
    assert Pow2(n + 3) == 4 * Pow2(n + 1);
  }

  lemma ResumeStep(wire: nat, unit: nat, b: Byte, rest: Result<At<nat>>)
    requires b >= 128
    ensures var here := match rest case Err(e) => Err(e) case Ok(r) => Ok(At(b - 128 + 128 * r.value, r.next));
            Resume(wire, unit, here) == Resume((wire + (b - 128) * unit) % TWO_TO_THE_64, 128 * unit, rest)
  {
    if rest.Ok? {
      var v := rest.value.value;
      assert unit * (b - 128 + 128 * v) == (b - 128) * unit + 128 * unit * v;
      AddThenReduce(wire + (b - 128) * unit, 128 * unit * v);
    }
  }

  /** The value after one more byte.  All bits of `wire` are below `shift`, so or-ing the
      new ones in is adding them. */
  function PutBits(wire: nat, b: Byte, shift: nat): (r: nat)
    ensures r < TWO_TO_THE_64
  {
    (wire + b % 128 * Pow2(shift)) % TWO_TO_THE_64
  }

  lemma PutBitsResumes(d: Bytes, i: nat, k: nat, wire: nat, shift: nat)
    requires i < |d| && k > 0
    ensures var wire' := PutBits(wire, d[i], shift);
            Resume(wire, Pow2(shift), Groups(d, i, k))
            == if d[i] < 128 then Ok(At(wire', i + 1)) else Resume(wire', Pow2(shift + 7), Groups(d, i + 1, k - 1))
  {
    var unit := Pow2(shift);
    if d[i] < 128 {
      assert unit * d[i] == d[i] % 128 * unit;
    } else {
      ResumeStep(wire, unit, d[i], Groups(d, i + 1, k - 1));
      Pow2By7(shift);
    }
  }

  lemma SumBelow(wire: nat, low: nat, unit: nat, m: nat)
    requires wire < unit && low <= 127 && m > 0
    ensures (wire + low * unit) % m < 128 * unit
  {
    RemainderAtMost(wire + low * unit, m);
    assert (127 - low) * unit >= 0;
    assert (127 - low) * unit == 127 * unit - low * unit;
  }

  lemma RemainderAtMost(x: nat, m: nat)
    requires m > 0
    ensures x % m <= x
  {
    assert x >= m ==> x % m < m;
    assert x < m ==> x % m == x;
  }

  lemma PutBitsBound(wire: nat, b: Byte, shift: nat)
    requires wire < Pow2(shift)
    ensures PutBits(wire, b, shift) < Pow2(shift + 7)
  {
    Pow2By7(shift);
    SumBelow(wire, b % 128, Pow2(shift), TWO_TO_THE_64);
  }

  method DecodeVarint(d: Bytes, start: nat) returns (r: Result<At<nat>>)
    ensures r == ReadVarint(d, start)
  {
    var wire: nat, shift: nat, i: nat := 0, 0, start;
    ghost var k: nat := 10;
    while true
      invariant shift + 7 * k == 70 && wire < Pow2(shift)
      invariant ReadVarint(d, start) == Resume(wire, Pow2(shift), Groups(d, i, k))
      decreases k
    {
      if shift >= 64 { return Err(IntOverflow); }
      if i >= |d| { return Err(UnexpectedEof); }
      PutBitsResumes(d, i, k, wire, shift);
      PutBitsBound(wire, d[i], shift);
      var b := d[i];
      i := i + 1;
      wire := PutBits(wire, b, shift);
      if b < 128 { return Ok(At(wire, i)); }
      shift, k := shift + 7, k - 1;
    }
  }

  /** The varint of an unknown field, whose value is not needed. */
  method PassVarint(d: Bytes, start: nat) returns (r: Result<nat>)
    ensures r == match Groups(d, start, 10) case Err(e) => Err(e) case Ok(v) => Ok(v.next)
  {
    var shift: nat, i: nat := 0, start;
    ghost var k: nat := 10;
    while true
      invariant shift + 7 * k == 70
      invariant match Groups(d, i, k)
                case Err(e) => Groups(d, start, 10) == Err(e)
                case Ok(v) => Groups(d, start, 10).Ok? && Groups(d, start, 10).value.next == v.next
      decreases k
    {
      if shift >= 64 { return Err(IntOverflow); }
      if i >= |d| { return Err(UnexpectedEof); }
      i := i + 1;
      if d[i - 1] < 128 { return Ok(i); }
      shift, k := shift + 7, k - 1;
    }
  }

  method SkipField(d: Bytes) returns (r: Result<nat>)
    ensures r == Skip(d, 0, 0)
  {
    hide ReadVarint, Groups, WireType;
    var i, depth := 0, 0;
    while i < |d|
      invariant Skip(d, 0, 0) == Skip(d, i, depth)
      decreases |d| - i
    {
      var tag := DecodeVarint(d, i);
      if tag.Err? { return Err(tag.error); }
      i := tag.value.next;
      var wireType := WireType(tag.value.value);
      if wireType == 0 {
        var v := PassVarint(d, i);
        if v.Err? { return Err(v.error); }
        i := v.value;
      } else if wireType == 1 {
        i := i + 8;
      } else if wireType == 2 {
        var length := DecodeVarint(d, i);
        if length.Err? { return Err(length.error); }
        if length.value.value >= TWO_TO_THE_63 { return Err(InvalidLength); }
        i := length.value.next + length.value.value;
      } else if wireType == 3 {
        depth := depth + 1;
      } else if wireType == 4 {
        if depth == 0 { return Err(UnexpectedEndOfGroup); }
        depth := depth - 1;
      } else if wireType == 5 {
        i := i + 4;
      } else {
        return Err(IllegalWireType);
      }
      if i >= TWO_TO_THE_63 { return Err(InvalidLength); }
      if depth == 0 { return Ok(i); }
    }
    return Err(UnexpectedEof);
  }

  /** One turn of an Unmarshal loop. */
  method DecodeField(d: Bytes, start: nat, known: nat) returns (r: Result<At<Field>>)
    requires start < |d|
    ensures r == NextField(d, start, known)
  {
    var tag := DecodeVarint(d, start);
    if tag.Err? { return Err(tag.error); }
    var i, fieldNum, wireType := tag.value.next, FieldNum(tag.value.value), WireType(tag.value.value);
    if wireType == 4 { return Err(EndGroup); }
    if fieldNum <= 0 { return Err(IllegalTag); }
    if fieldNum <= known {
      if wireType != 2 { return Err(WrongWireType); }
      var length := DecodeVarint(d, i);
      if length.Err? { return Err(length.error); }
      if length.value.value >= TWO_TO_THE_63 { return Err(InvalidLength); }
      i := length.value.next;
      var postIndex := i + length.value.value;
      if postIndex >= TWO_TO_THE_63 { return Err(InvalidLength); }
      if postIndex > |d| { return Err(UnexpectedEof); }
      return Ok(At(Known(fieldNum, d[i..postIndex]), postIndex));
    }
    var skippy := SkipField(d[start..]);
    if skippy.Err? { return Err(skippy.error); }
    if start + skippy.value >= TWO_TO_THE_63 { return Err(InvalidLength); }
    if start + skippy.value > |d| { return Err(UnexpectedEof); }
    return Ok(At(Unknown(d[start..start + skippy.value]), start + skippy.value));
  }

  /** The Unmarshal loop of a message with `known` fields. */
  method DecodeFields<M>(d: Bytes, known: nat, apply: (M, Field) -> Result<M>, init: M) returns (r: Result<M>)
    ensures r == Decode(d, 0, known, apply, init)
  {
    var i, m := 0, init;
    while i < |d|
      invariant i <= |d| && Decode(d, 0, known, apply, init) == Decode(d, i, known, apply, m)
      decreases |d| - i
    {
      var f := DecodeField(d, i, known);
      if f.Err? { return Err(f.error); }
      var next := apply(m, f.value.value);
      if next.Err? { return Err(next.error); }
      i, m := f.value.next, next.value;
    }
    return Ok(m);
  }

  // ----- encoding

  /** Only `a[lo..hi]` may have changed. */
  twostate predicate OnlyWithin(a: array<Byte>, lo: nat, hi: nat)
    requires lo <= hi <= a.Length
    reads a
  {
    forall k :: 0 <= k < a.Length && !(lo <= k < hi) ==> a[k] == old(a[k])
  }

  lemma VarintFirst(x: nat)
    ensures Varint(x) == if x < 128 then [x] else [128 + x % 128] + Varint(x / 128)
    ensures |Varint(x)| > 0
  {}

  method EncodeVarint(dAtA: array<Byte>, offset: nat, v: nat) returns (base: nat)
    requires Sov(v) <= offset <= dAtA.Length
    modifies dAtA
    ensures base == offset - Sov(v) && dAtA[base..offset] == Varint(v) && OnlyWithin(dAtA, base, offset)
  {
    hide Sov, Varint;
    SovIsLength(v);
    base := offset - Sov(v);
    var x, o := v, base;
    while x >= 128
      invariant base <= o && |Varint(x)| == offset - o && dAtA[base..o] + Varint(x) == Varint(v)
      invariant OnlyWithin(dAtA, base, offset)
    {
      VarintFirst(x);
      Reassociate(dAtA[base..o], 128 + x % 128, Varint(x / 128));
      PutByte(dAtA, base, o, 128 + x % 128);
      x, o := x / 128, o + 1;
    }
    VarintFirst(x);
    PutByte(dAtA, base, o, x);
  }

  method PutByte(dAtA: array<Byte>, base: nat, o: nat, b: Byte)
    requires base <= o < dAtA.Length
    modifies dAtA
    ensures dAtA[base..o + 1] == old(dAtA[base..o]) + [b] && OnlyWithin(dAtA, o, o + 1)
  {
    dAtA[o] := b;
  }

  lemma Reassociate(done: Bytes, b: Byte, rest: Bytes)
    ensures done + ([b] + rest) == done + [b] + rest
  {}

  /** The room a length-delimited field takes, as the size pre-pass computes it. */
  function FieldSize(payload: nat): nat {
    1 + payload + Sov(payload)
  }

  lemma FieldSizeIsLength(num: nat, payload: Bytes)
    requires 1 <= num <= 15
    ensures FieldSize(|payload|) == |FieldBytes(num, payload)|
  {
    SovIsLength(|payload|);
  }

  /** The length and the tag before a payload that is already in place. */
  method EncodeHeader(dAtA: array<Byte>, i: nat, num: nat, end: nat) returns (base: nat)
    requires 1 <= num <= 15 && i <= end <= dAtA.Length && 1 + Sov(end - i) <= i
    modifies dAtA
    ensures base == end - FieldSize(end - i) && dAtA[base..end] == FieldBytes(num, old(dAtA[i..end]))
    ensures OnlyWithin(dAtA, base, i)
  {
    ghost var payload := dAtA[i..end];
    var j := EncodeVarint(dAtA, i, end - i);
    base := j - 1;
    dAtA[base] := num * 8 + 2;
    assert dAtA[j..i] == Varint(end - i);
    assert dAtA[i..end] == payload;
    assert dAtA[base..end] == [dAtA[base]] + dAtA[j..i] + dAtA[i..end];
  }

  /** A field with bytes to copy; nothing is written for none. */
  method EncodeBytes(dAtA: array<Byte>, end: nat, num: nat, payload: Bytes) returns (base: nat)
    requires 1 <= num <= 15 && OptionalSize(payload) <= end <= dAtA.Length
    modifies dAtA
    ensures base == end - OptionalSize(payload) && dAtA[base..end] == Optional(num, payload) && OnlyWithin(dAtA, base, end)
  {
    if |payload| == 0 { return end; }
    var i := end - |payload|;
    CopyAt(dAtA, i, payload);
    base := EncodeHeader(dAtA, i, num, end);
  }

  /** Two optional fields, the second first. */
  method EncodePair(dAtA: array<Byte>, end: nat, first: Bytes, second: Bytes) returns (base: nat)
    requires OptionalSize(first) + OptionalSize(second) <= end <= dAtA.Length
    modifies dAtA
    ensures base == end - OptionalSize(first) - OptionalSize(second)
    ensures dAtA[base..end] == Optional(1, first) + Optional(2, second) && OnlyWithin(dAtA, base, end)
  {
    var i := EncodeBytes(dAtA, end, 2, second);
    ghost var tail := dAtA[i..end];
    base := EncodeBytes(dAtA, i, 1, first);
    assert dAtA[i..end] == tail;
    assert dAtA[base..end] == dAtA[base..i] + dAtA[i..end];
  }

  method CopyAt(dAtA: array<Byte>, i: nat, payload: Bytes)
    requires i + |payload| <= dAtA.Length
    modifies dAtA
    ensures dAtA[i..i + |payload|] == payload && OnlyWithin(dAtA, i, i + |payload|)
  {
    forall k | 0 <= k < |payload| {
      dAtA[i + k] := payload[k];
    }
  }

  function Optional(num: nat, payload: Bytes): Bytes
    requires 1 <= num <= 15
  {
    if payload == [] then [] else FieldBytes(num, payload)
  }

  function OptionalSize(payload: Bytes): nat {
    if |payload| > 0 then FieldSize(|payload|) else 0
  }
}
