/** Decimals as text: String, NewDecFromStr and SortableDecBytes (types/decimal.go). */
module DecimalText {
  import opened Wrappers
  import opened Octets
  import opened Denoms
  import opened CoinLists
  import opened Decimals

  const ZERO: Byte := 48
  const DOT: Byte := 46
  const MINUS: Byte := 45
  const PLUS: Byte := 43

  // ----- numerals

  function Pow10(w: nat): (p: nat)
    ensures p > 0
  {
    if w == 0 then 1 else 10 * Pow10(w - 1)
  }

  /** The numeral of `n` without leading zeros. */
  function Digits(n: nat): (r: Bytes)
    ensures |r| > 0
  {
    if n < 10 then [ZERO + n] else Digits(n / 10) + [ZERO + n % 10]
  }

  /** The last `w` digits of `n`. */
  function Pad(n: nat, w: nat): (r: Bytes)
    ensures |r| == w
  {
    if w == 0 then [] else Pad(n / 10, w - 1) + [ZERO + n % 10]
  }

  predicate IsDigit(c: Byte) {
    ZERO <= c <= ZERO + 9
  }

  predicate AllDigits(s: Bytes) {
    forall i :: 0 <= i < |s| ==> IsDigit(s[i])
  }

  /** The value of the first `n` digits. */
  function Value(s: Bytes, n: nat): nat
    requires n <= |s| && AllDigits(s)
  {
    if n == 0 then 0 else 10 * Value(s, n - 1) + (s[n - 1] - ZERO)
  }

  lemma {:induction false} DigitsAreDigits(n: nat)
    ensures AllDigits(Digits(n))
  {
    if n >= 10 { DigitsAreDigits(n / 10); }
  }

  lemma {:induction false} PadAreDigits(n: nat, w: nat)
    ensures AllDigits(Pad(n, w))
  {
    if w > 0 { PadAreDigits(n / 10, w - 1); }
  }

  lemma {:induction false} SameValue(s: Bytes, t: Bytes, n: nat)
    requires n <= |s| && n <= |t| && AllDigits(s) && AllDigits(t) && forall i :: 0 <= i < n ==> s[i] == t[i]
    ensures Value(s, n) == Value(t, n)
  {
    if n > 0 { SameValue(s, t, n - 1); }
  }

  lemma {:induction false} DigitsValue(n: nat)
    ensures AllDigits(Digits(n)) && Value(Digits(n), |Digits(n)|) == n
  {
    DigitsAreDigits(n);
    if n >= 10 {
      DigitsValue(n / 10);
      SameValue(Digits(n), Digits(n / 10), |Digits(n / 10)|);
    }
  }

  /** Digits followed by the last `w` digits of a smaller number. */
  lemma {:induction false} ValueOfPadded(s: Bytes, n: nat, w: nat)
    requires AllDigits(s) && n < Pow10(w)
    ensures AllDigits(s + Pad(n, w)) && Value(s + Pad(n, w), |s| + w) == Value(s, |s|) * Pow10(w) + n
  {
    PadAreDigits(n, w);
    if w == 0 {
      assert s + Pad(n, w) == s;
    } else {
      var high, last := n / 10, n % 10;
      ValueOfPadded(s, high, w - 1);
      var t, u := s + Pad(n, w), s + Pad(high, w - 1);
      SameValue(t, u, |s| + w - 1);
      assert t[|s| + w - 1] == ZERO + last;
      ShiftValue(Value(s, |s|), Pow10(w - 1), high, last);
    }
  }

  lemma ShiftValue(v: nat, p: nat, high: nat, last: nat)
    ensures 10 * (v * p + high) + last == v * (10 * p) + (10 * high + last)
  {}

  function Zeros(n: nat): (r: Bytes)
    ensures |r| == n
  {
    seq(n, i requires 0 <= i < n => ZERO)
  }

  lemma {:induction false} ShortIsSmall(n: nat, w: nat)
    requires |Digits(n)| <= w
    ensures n < Pow10(w)
  {
    if n >= 10 {
      ShortIsSmall(n / 10, w - 1);
    } else {
      assert Pow10(w) == 10 * Pow10(w - 1);
    }
  }

  lemma {:induction false} PadOfShort(n: nat, w: nat)
    requires |Digits(n)| <= w
    ensures Pad(n, w) == Zeros(w - |Digits(n)|) + Digits(n)
  {
    if n < 10 {
      PadOfZero(w - 1);
      assert n / 10 == 0;
      assert Pad(n, w) == Zeros(w - 1) + [ZERO + n];
    } else {
      PadOfShort(n / 10, w - 1);
      var zeros, high := Zeros(w - |Digits(n)|), Digits(n / 10);
      assert zeros + (high + [ZERO + n % 10]) == (zeros + high) + [ZERO + n % 10];
    }
  }

  lemma {:induction false} PadOfZero(w: nat)
    ensures Pad(0, w) == Zeros(w)
  {
    if w > 0 {
      PadOfZero(w - 1);
      assert Zeros(w) == Zeros(w - 1) + [ZERO];
    }
  }

  /** Cutting the last `w` digits off is dividing. */
  lemma {:induction false} DigitsSplit(n: nat, w: nat, high: nat, low: nat)
    requires |Digits(n)| > w && n == high * Pow10(w) + low && low < Pow10(w)
    ensures Digits(n) == Digits(high) + Pad(low, w)
  {
    if w == 0 {
      assert Digits(n) + [] == Digits(n);
    } else {
      DivideByTen(n, high, Pow10(w - 1), low);
      DigitsSplit(n / 10, w - 1, high, low / 10);
      assert Digits(n) == Digits(n / 10) + [ZERO + n % 10];
    }
  }

  lemma DivideByTen(n: nat, high: nat, q: nat, low: nat)
    requires n == high * (10 * q) + low && low < 10 * q
    ensures n / 10 == high * q + low / 10 && n % 10 == low % 10 && low / 10 < q
  {
    assert high * (10 * q) == 10 * (high * q);
  }

  lemma PrecisionPower()
    ensures Pow10(PRECISION) == ONE
  {
    assert Pow10(3) == 1000;
    assert Pow10(6) == 1000 * Pow10(3);
    assert Pow10(9) == 1000 * Pow10(6);
    assert Pow10(12) == 1000 * Pow10(9);
    assert Pow10(15) == 1000 * Pow10(12);
    assert Pow10(18) == 1000 * Pow10(15);
  }

  // ----- printing

  /** Sign, whole part, point and eighteen decimals. */
  function Text(d: int): Bytes {
    (if d < 0 then [MINUS] else []) + Digits(Abs(d) / ONE) + [DOT] + Pad(Abs(d) % ONE, PRECISION)
  }

  /** The buffer String fills from the numeral of the scaled integer. */
  method FormatDigits(bzInt: Bytes) returns (r: Bytes)
    requires |bzInt| > 0
    ensures |bzInt| <= PRECISION ==> r == [ZERO, DOT] + Zeros(PRECISION - |bzInt|) + bzInt
    ensures |bzInt| > PRECISION ==> r == bzInt[..|bzInt| - PRECISION] + [DOT] + bzInt[|bzInt| - PRECISION..]
  {
    var inputSize := |bzInt|;
    if inputSize <= PRECISION {
      var bzStr := new Byte[PRECISION + 2];
      bzStr[0] := ZERO;
      bzStr[1] := DOT;
      for i := 0 to PRECISION - inputSize
        invariant bzStr[0] == ZERO && bzStr[1] == DOT && forall k :: 2 <= k < i + 2 ==> bzStr[k] == ZERO
      {
        bzStr[i + 2] := ZERO;
      }
      var from := 2 + (PRECISION - inputSize);
      forall k | 0 <= k < inputSize { bzStr[from + k] := bzInt[k]; }
      r := bzStr[..];
    } else {
      var bzStr := new Byte[inputSize + 1];
      var place := inputSize - PRECISION;
      forall k | 0 <= k < place { bzStr[k] := bzInt[k]; }
      bzStr[place] := DOT;
      forall k | place <= k < inputSize { bzStr[k + 1] := bzInt[k]; }
      r := bzStr[..];
    }
  }

  /** String prints the whole part and exactly eighteen decimals. */
  method String(d: int) returns (r: Bytes)
    ensures r == Text(d)
  {
    hide Text, Digits;
    SignedText(d);
    var n := Abs(d);
    var bzInt := Digits(n);
    r := FormatDigits(bzInt);
    FormattedIsText(n, r);
    if d < 0 { r := [MINUS] + r; }
  }

  lemma SignedText(d: int)
    ensures Text(d) == if d < 0 then [MINUS] + Text(-d) else Text(d)
  {
    hide Digits, Pad;
    var high, low := Digits(Abs(d) / ONE), Pad(Abs(d) % ONE, PRECISION);
    assert [] + high == high;
    assert [MINUS] + high + [DOT] + low == [MINUS] + (high + [DOT] + low);
  }

  /** A minus sign for negative numbers only, digits, the point and eighteen more digits. */
  lemma TextForm(d: int)
    ensures var r, from := Text(d), if d < 0 then 1 else 0;
            && |r| > PRECISION + 1 + from && r[|r| - PRECISION - 1] == DOT && (r[0] == MINUS <==> d < 0)
            && AllDigits(r[|r| - PRECISION..]) && AllDigits(r[from..|r| - PRECISION - 1])
  {
    hide Digits, Pad;
    var sign, high, low := if d < 0 then [MINUS] else [], Digits(Abs(d) / ONE), Pad(Abs(d) % ONE, PRECISION);
    var r := sign + high + [DOT] + low;
    DigitsAreDigits(Abs(d) / ONE);
    PadAreDigits(Abs(d) % ONE, PRECISION);
    DigitAt(high, 0);
    assert r[|r| - PRECISION..] == low && r[|sign|..|r| - PRECISION - 1] == high;
  }

  lemma DigitsOfZero()
    ensures Digits(0) == [ZERO]
  {}

  lemma FormattedIsText(n: nat, r: Bytes)
    requires var s := Digits(n);
             if |s| <= PRECISION then r == [ZERO, DOT] + Zeros(PRECISION - |s|) + s
             else r == s[..|s| - PRECISION] + [DOT] + s[|s| - PRECISION..]
    ensures r == Text(n)
  {
    var s := Digits(n);
    PrecisionPower();
    hide Pow10, Pad, Digits;
    if |s| <= PRECISION {
      PadOfShort(n, PRECISION);
      ShortIsSmall(n, PRECISION);
      assert n / ONE == 0 && n % ONE == n;
      DigitsOfZero();
      assert r == [ZERO] + [DOT] + (Zeros(PRECISION - |s|) + s);
    } else {
      DigitsSplit(n, PRECISION, n / ONE, n % ONE);
      var whole, rest := Digits(n / ONE), Pad(n % ONE, PRECISION);
      assert s == whole + rest && |whole| == |s| - PRECISION;
    }
  }

  // ----- parsing

  datatype ParseError = EmptyString | InvalidLength | InvalidString | TooPrecise | NotANumber | OutOfRange

  datatype Parsed = Good(value: int) | Bad(error: ParseError)

  /** The index of the first point from `i` on, or the length. */
  function FirstDot(s: Bytes, i: nat): (k: nat)
    requires i <= |s|
    ensures i <= k <= |s|
    decreases |s| - i
  {
    if i == |s| || s[i] == DOT then i else FirstDot(s, i + 1)
  }

  /** strings.Split at the points. */
  function Split(s: Bytes): (parts: seq<Bytes>)
    ensures |parts| > 0
    decreases |s|
  {
    var k := FirstDot(s, 0);
    if k == |s| then [s] else [s[..k]] + Split(s[k + 1..])
  }

  predicate IsSign(c: Byte) {
    c == PLUS || c == MINUS
  }

  /** big.Int.SetString in base ten: digits after an optional sign. */
  function SetString(s: Bytes): Option<int> {
    var digits := if |s| > 0 && IsSign(s[0]) then s[1..] else s;
    if |digits| == 0 || !AllDigits(digits) then None
    else
      var v: int := Value(digits, |digits|);
      Some(if s[0] == MINUS then -v else v)
  }

  function Body(s: Bytes): Bytes {
    if |s| > 0 && s[0] == MINUS then s[1..] else s
  }

  function NewDecFromStr(s: Bytes): Parsed {
    if |s| == 0 then Bad(EmptyString)
    else
      var str := Body(s);
      if |str| == 0 then Bad(EmptyString)
      else
        var strs := Split(str);
        if |strs| == 2 && (|strs[0]| == 0 || |strs[1]| == 0) then Bad(InvalidLength)
        else if |strs| > 2 then Bad(InvalidString)
        else
          var decs := if |strs| == 2 then strs[1] else [];
          if |decs| > PRECISION then Bad(TooPrecise)
          else FromCombined(strs[0] + decs + Zeros(PRECISION - |decs|), s[0] == MINUS)
  }

  function FromCombined(combined: Bytes, neg: bool): Parsed {
    match SetString(combined)
    case None => Bad(NotANumber)
    case Some(v) => if !Fits(v) then Bad(OutOfRange) else Good(if neg then -v else v)
  }

  lemma {:induction false} NoDot(s: Bytes, i: nat)
    requires i <= |s| && AllDigits(s)
    ensures FirstDot(s, i) == |s|
    decreases |s| - i
  {
    if i < |s| { NoDot(s, i + 1); }
  }

  lemma {:induction false} DotAfter(s: Bytes, t: Bytes, i: nat)
    requires i <= |s| && AllDigits(s)
    ensures FirstDot(s + [DOT] + t, i) == |s|
    decreases |s| - i
  {
    if i < |s| { DotAfter(s, t, i + 1); }
  }

  lemma SplitAtDot(s: Bytes, t: Bytes)
    requires AllDigits(s) && AllDigits(t)
    ensures Split(s + [DOT] + t) == [s, t]
  {
    DotAfter(s, t, 0);
    NoDot(t, 0);
    var all := s + [DOT] + t;
    assert all[..|s|] == s && all[|s| + 1..] == t;
    assert Split(t) == [t];
  }

  ghost predicate NoDots(s: Bytes) {
    forall i :: 0 <= i < |s| ==> s[i] != DOT
  }

  lemma {:induction false} FirstDotAt(w: Bytes, t: Bytes, i: nat)
    requires i <= |w| && NoDots(w)
    ensures FirstDot(w + [DOT] + t, i) == |w| && FirstDot(w, i) == |w|
    decreases |w| - i
  {
    if i < |w| { FirstDotAt(w, t, i + 1); }
  }

  lemma SplitAtFirst(w: Bytes, t: Bytes)
    requires NoDots(w)
    ensures Split(w + [DOT] + t) == [w] + Split(t) && Split(w) == [w]
  {
    FirstDotAt(w, t, 0);
    var all := w + [DOT] + t;
    assert all[..|w|] == w && all[|w| + 1..] == t;
  }

  /** With a sign or without, but not with one in the number itself. */
  function WithSign(neg: bool, u: Bytes): Bytes {
    if neg then [MINUS] + u else u
  }

  lemma BodyOf(neg: bool, u: Bytes)
    requires |u| > 0 && (neg || u[0] != MINUS)
    ensures Body(WithSign(neg, u)) == u
  {}

  /** What is wrong with a text: it is empty, a side of the point is, there is more than one
      point, or there are too many decimals. */
  lemma ErrorsOf(neg: bool, w: Bytes, f: Bytes, g: Bytes)
    requires NoDots(w) && NoDots(f) && (neg || w == [] || w[0] != MINUS)
    ensures NewDecFromStr([]) == NewDecFromStr([MINUS]) == Bad(EmptyString)
    ensures var r := NewDecFromStr(WithSign(neg, w + [DOT] + f));
            && (w == [] || f == [] ==> r == Bad(InvalidLength))
            && (w != [] && |f| > PRECISION ==> r == Bad(TooPrecise))
    ensures NewDecFromStr(WithSign(neg, w + [DOT] + (f + [DOT] + g))) == Bad(InvalidString)
  {
    hide Split, FromCombined;
    SplitAtFirst(w, f);
    SplitAtFirst(f, g);
    SplitAtFirst(w, f + [DOT] + g);
    BodyOf(neg, w + [DOT] + f);
    BodyOf(neg, w + [DOT] + (f + [DOT] + g));
  }

  lemma ParseParts(s: Bytes, whole: Bytes, decs: Bytes, neg: bool)
    requires AllDigits(whole) && AllDigits(decs) && |whole| > 0 && |decs| == PRECISION
    requires s == (if neg then [MINUS] else []) + whole + [DOT] + decs
    ensures NewDecFromStr(s) == FromCombined(whole + decs, neg)
  {
    hide FromCombined, AllDigits;
    var body := whole + [DOT] + decs;
    assert IsDigit(whole[0]) by { DigitAt(whole, 0); }
    assert s == (if neg then [MINUS] else []) + body;
    assert Body(s) == body;
    SplitAtDot(whole, decs);
    assert whole + decs + Zeros(0) == whole + decs;
  }

  lemma DigitAt(s: Bytes, i: nat)
    requires i < |s| && AllDigits(s)
    ensures IsDigit(s[i])
  {}

  lemma SetDigits(s: Bytes)
    requires |s| > 0 && AllDigits(s)
    ensures SetString(s) == Some(Value(s, |s|))
  {}

  lemma CombinedValue(n: nat)
    ensures SetString(Digits(n / ONE) + Pad(n % ONE, PRECISION)) == Some(n)
  {
    hide Digits, Pad, Pow10, SetString;
    DigitsValue(n / ONE);
    PrecisionPower();
    ValueOfPadded(Digits(n / ONE), n % ONE, PRECISION);
    SetDigits(Digits(n / ONE) + Pad(n % ONE, PRECISION));
  }

  /** What is printed is parsed again, for every decimal in range. */
  lemma PrintThenParse(d: int)
    requires Fits(d)
    ensures NewDecFromStr(Text(d)) == Good(d)
  {
    hide Digits, Pad, NewDecFromStr, SetString;
    var n := Abs(d);
    DigitsAreDigits(n / ONE);
    PadAreDigits(n % ONE, PRECISION);
    ParseParts(Text(d), Digits(n / ONE), Pad(n % ONE, PRECISION), d < 0);
    CombinedValue(n);
  }

  // ----- what is accepted

  lemma {:induction false} ValueConcat(a: Bytes, b: Bytes, n: nat)
    requires AllDigits(a) && AllDigits(b) && n <= |b|
    ensures AllDigits(a + b) && Value(a + b, |a| + n) == Value(a, |a|) * Pow10(n) + Value(b, n)
  {
    if n == 0 {
      SameValue(a + b, a, |a|);
    } else {
      ValueConcat(a, b, n - 1);
      ShiftValue(Value(a, |a|), Pow10(n - 1), Value(b, n - 1), b[n - 1] - ZERO);
    }
  }

  function Decs(strs: seq<Bytes>): Bytes {
    if |strs| == 2 then strs[1] else []
  }

  /** The number with these digits before and after the point, scaled. */
  function Scale(whole: Bytes, decs: Bytes): nat
    requires AllDigits(whole) && AllDigits(decs) && |decs| <= PRECISION
  {
    Value(whole, |whole|) * ONE + Value(decs, |decs|) * Pow10(PRECISION - |decs|)
  }

  /** Digits, which may be missing if `empty`, and optionally a point and one to eighteen
      more digits, in range. */
  predicate IsNumber(u: Bytes, empty: bool) {
    var strs := Split(u);
    && |strs| <= 2 && AllDigits(strs[0]) && (empty || |strs[0]| > 0)
    && (|strs| == 2 ==> |strs[1]| > 0) && AllDigits(Decs(strs)) && |Decs(strs)| <= PRECISION
    && Fits(Scale(strs[0], Decs(strs)))
  }

  /** The documented form: an optional minus and a number. */
  predicate Documented(s: Bytes) {
    IsNumber(Body(s), false)
  }

  /** A sign where the number should start, after a minus or in its place, and then a number
      that may lack the digits before the point, or all of them. */
  predicate SignedForm(s: Bytes) {
    |Body(s)| > 0 && IsSign(Body(s)[0]) && IsNumber(Body(s)[1..], true)
  }

  function Unsigned(u: Bytes): nat
    requires IsNumber(u, true)
  {
    Scale(Split(u)[0], Decs(Split(u)))
  }

  /** What an accepted text stands for; two minus signs cancel. */
  function Meaning(s: Bytes): int
    requires Documented(s) || SignedForm(s)
  {
    var body := Body(s);
    var v := if |body| > 0 && IsSign(body[0]) then Signed(body[0] == MINUS, Unsigned(body[1..])) else Signed(false, Unsigned(body));
    Signed(|s| > 0 && s[0] == MINUS, v)
  }

  function Signed(neg: bool, v: int): int {
    if neg then -v else v
  }

  lemma {:induction false} FirstDotAfter(c: Byte, u: Bytes, i: nat)
    requires i <= |u|
    ensures FirstDot([c] + u, i + 1) == FirstDot(u, i) + 1
    decreases |u| - i
  {
    if i < |u| && u[i] != DOT { FirstDotAfter(c, u, i + 1); }
  }

  /** A first byte that is no point belongs to the first part. */
  lemma SplitAfter(c: Byte, u: Bytes)
    requires c != DOT
    ensures Split([c] + u) == [[c] + Split(u)[0]] + Split(u)[1..]
  {
    FirstDotAfter(c, u, 0);
    var k := FirstDot(u, 0);
    var s := [c] + u;
    assert FirstDot(s, 0) == k + 1;
    if k < |u| {
      assert s[..k + 1] == [c] + u[..k] && s[k + 2..] == u[k + 1..];
    }
  }

  lemma CombinedMeaning(whole: Bytes, decs: Bytes)
    requires |decs| <= PRECISION
    ensures var all := whole + decs + Zeros(PRECISION - |decs|);
            && (AllDigits(all) <==> AllDigits(whole) && AllDigits(decs))
            && (AllDigits(all) ==> Value(all, |all|) == Scale(whole, decs))
  {
    var n := PRECISION - |decs|;
    AllDigitsOfSum(whole, decs, n);
    if AllDigits(whole) && AllDigits(decs) {
      PrecisionPower();
      ValueOfZeros(n, n);
      ValueConcat(decs, Zeros(n), n);
      ValueConcat(whole, decs + Zeros(n), PRECISION);
      assert whole + (decs + Zeros(n)) == whole + decs + Zeros(n);
    }
  }

  lemma AllDigitsOfSum(a: Bytes, b: Bytes, n: nat)
    ensures AllDigits(a + b + Zeros(n)) <==> AllDigits(a) && AllDigits(b)
  {
    var all := a + b + Zeros(n);
    if AllDigits(all) {
      forall i | 0 <= i < |a| ensures IsDigit(a[i]) { assert all[i] == a[i]; }
      forall i | 0 <= i < |b| ensures IsDigit(b[i]) { assert all[|a| + i] == b[i]; }
    }
  }

  lemma SetUnsigned(rest: Bytes)
    requires |rest| > 0 && !IsSign(rest[0])
    ensures SetString(rest) == if AllDigits(rest) then Some(Value(rest, |rest|)) else None
  {}

  lemma SetAfterSign(s: Bytes)
    requires |s| > 1 && IsSign(s[0])
    ensures SetString(s) == if AllDigits(s[1..]) then Some(Signed(s[0] == MINUS, Value(s[1..], |s| - 1))) else None
  {}

  /** The digits after an optional sign. */
  lemma SetSigned(sign: Bytes, rest: Bytes)
    requires |rest| > 0 && ((sign == [] && !IsSign(rest[0])) || (|sign| == 1 && IsSign(sign[0])))
    ensures SetString(sign + rest)
            == if AllDigits(rest) then Some(Signed(sign == [MINUS], Value(rest, |rest|))) else None
  {
    hide AllDigits, Value, SetString;
    if sign == [] {
      assert sign + rest == rest;
      SetUnsigned(rest);
    } else {
      var s := sign + rest;
      assert s[1..] == rest && s[0] == sign[0];
      assert sign == [MINUS] <==> s[0] == MINUS;
      SetAfterSign(s);
    }
  }

  lemma ParseCombined(sign: Bytes, whole: Bytes, decs: Bytes, neg: bool)
    requires |decs| <= PRECISION
    requires (sign == [] && |whole| > 0 && !IsSign(whole[0])) || (|sign| == 1 && IsSign(sign[0]))
    ensures FromCombined(sign + whole + decs + Zeros(PRECISION - |decs|), neg)
            == if AllDigits(whole) && AllDigits(decs)
               then if Fits(Scale(whole, decs)) then Good(Signed(neg, Signed(sign == [MINUS], Scale(whole, decs)))) else Bad(OutOfRange)
               else Bad(NotANumber)
  {
    hide AllDigits, Scale, SetString;
    var rest := whole + decs + Zeros(PRECISION - |decs|);
    assert sign + whole + decs + Zeros(PRECISION - |decs|) == sign + rest;
    CombinedMeaning(whole, decs);
    SetSigned(sign, rest);
  }

  lemma SplitNonempty(u: Bytes)
    requires |u| > 0
    ensures |Split(u)| == 1 ==> Split(u)[0] == u
    ensures |Split(u)[0]| > 0 ==> Split(u)[0][0] == u[0]
  {}

  /** The body is an optional sign and the rest. */
  lemma ParseBody(s: Bytes, sign: Bytes, u: Bytes)
    requires |s| > 0 && Body(s) == sign + u && |Body(s)| > 0
    requires (sign == [] && !IsSign(u[0])) || (|sign| == 1 && IsSign(sign[0]))
    ensures var signed := sign != [];
            && (NewDecFromStr(s).Good? <==> IsNumber(u, signed))
            && (IsNumber(u, signed) ==> NewDecFromStr(s) == Good(Signed(s[0] == MINUS, Signed(sign == [MINUS], Unsigned(u)))))
  {
    hide Split, FromCombined, AllDigits, Scale, Fits;
    var strs := Split(u);
    if sign == [] {
      assert sign + u == u;
      SplitNonempty(u);
      assert sign + strs[0] == strs[0];
    } else {
      assert sign == [sign[0]];
      SplitAfter(sign[0], u);
    }
    assert Split(Body(s)) == [sign + strs[0]] + strs[1..];
    var decs := Decs(strs);
    if |strs| <= 2 && |decs| <= PRECISION && (sign != [] || |strs[0]| > 0) {
      ParseCombined(sign, strs[0], decs, s[0] == MINUS);
    }
  }

  /** Over all texts: exactly the documented form and the signed form are accepted, each for
      the number it stands for. */
  lemma AcceptsExactly(s: Bytes)
    ensures NewDecFromStr(s).Good? <==> Documented(s) || SignedForm(s)
    ensures Documented(s) || SignedForm(s) ==> NewDecFromStr(s) == Good(Meaning(s))
    ensures !(Documented(s) && SignedForm(s))
  {
    hide Split, IsNumber, Unsigned;
    var body := Body(s);
    if |body| == 0 {
      EmptyIsNoNumber();
    } else if IsSign(body[0]) {
      assert body == [body[0]] + body[1..];
      ParseBody(s, [body[0]], body[1..]);
      SignIsNoNumber(body);
    } else {
      assert body == [] + body;
      ParseBody(s, [], body);
      NumberMayBeEmpty(body);
    }
  }

  lemma NumberMayBeEmpty(u: Bytes)
    ensures IsNumber(u, false) ==> IsNumber(u, true)
  {}

  lemma EmptyIsNoNumber()
    ensures !IsNumber([], false)
  {}

  lemma SignIsNoNumber(u: Bytes)
    requires |u| > 0 && IsSign(u[0])
    ensures !IsNumber(u, false)
  {
    SplitNonempty(u);
    assert |Split(u)[0]| > 0 && AllDigits(Split(u)[0]) ==> IsDigit(Split(u)[0][0]);
  }

  /** Without an extra sign only the documented form is accepted. */
  lemma AcceptsDocumentedForm(s: Bytes)
    ensures Documented(s) <==> NewDecFromStr(s).Good? && !(|Body(s)| > 0 && IsSign(Body(s)[0]))
  {
    AcceptsExactly(s);
    hide IsNumber, NewDecFromStr;
    if |Body(s)| > 0 && IsSign(Body(s)[0]) { SignIsNoNumber(Body(s)); }
  }

  /** Two minus signs give a positive number, one digit each way. */
  lemma TwoMinusSigns(n: nat)
    requires n < 10
    ensures NewDecFromStr([MINUS, MINUS, ZERO + n]) == Good(n * ONE) && !Documented([MINUS, MINUS, ZERO + n])
  {
    var s, u := [MINUS, MINUS, ZERO + n], [ZERO + n];
    assert Body(s) == [MINUS] + u && Body(s)[1..] == u;
    NoDot(u, 0);
    assert Split(u) == [u];
    assert Value(u, 1) == 10 * Value(u, 0) + n;
    assert Value([], 0) == 0;
    hide Pow10, Value, Split, NewDecFromStr;
    assert Scale(u, []) == n * ONE + 0 * Pow10(PRECISION);
    AcceptsExactly(s);
    SignIsNoNumber(Body(s));
  }

  /** A sign alone is accepted, as zero. */
  lemma AcceptsSigns(c: Byte)
    requires IsSign(c)
    ensures NewDecFromStr([MINUS, c]) == Good(0) && !Documented([MINUS, c])
    ensures c == PLUS ==> NewDecFromStr([c]) == Good(0) && !Documented([c])
  {
    assert Split([]) == [[]];
    assert Scale([], []) == 0;
    assert Body([MINUS, c]) == [c] && [c][1..] == [];
    AcceptsExactly([MINUS, c]);
    SignIsNoNumber([c]);
    AcceptsExactly([c]);
  }

  lemma {:induction false} ValueOfZeros(w: nat, n: nat)
    requires n <= w
    ensures AllDigits(Zeros(w)) && Value(Zeros(w), n) == 0
  {
    if n > 0 { ValueOfZeros(w, n - 1); }
  }

  // ----- sortable bytes

  const MAX_SORTABLE: int := ONE * ONE

  /** MaxSortableDec is the reciprocal of the smallest decimal. */
  lemma MaxSortableIsReciprocal()
    ensures Quo(ONE, 1) == Ok(MAX_SORTABLE)
  {
    assert Quotient(Scaled(ONE), 1) == MAX_SORTABLE * ONE;
    ChopExact(MAX_SORTABLE);
  }

  function PadLeft(s: Bytes, w: nat): Bytes {
    if |s| >= w then s else Zeros(w - |s|) + s
  }

  function SortableDecBytes(d: int): Outcome<Bytes> {
    if Abs(d) > MAX_SORTABLE then Panic
    else if d == MAX_SORTABLE then Ok([109, 97, 120])
    else if d == -MAX_SORTABLE then Ok([MINUS, MINUS])
    else if d < 0 then Ok([MINUS] + PadLeft(Text(-d), 2 * PRECISION + 1))
    else Ok(PadLeft(Text(d), 2 * PRECISION + 1))
  }

  lemma {:induction false} DigitsShort(n: nat, w: nat)
    requires n < Pow10(w) && w > 0
    ensures |Digits(n)| <= w
  {
    if n >= 10 { DigitsShort(n / 10, w - 1); }
  }

  lemma PadLeftOfText(high: Bytes, low: Bytes)
    requires |high| <= PRECISION == |low|
    ensures PadLeft(high + [DOT] + low, 2 * PRECISION + 1) == Zeros(PRECISION - |high|) + high + [DOT] + low
  {
    var zeros := Zeros(PRECISION - |high|);
    assert zeros + (high + [DOT] + low) == zeros + high + [DOT] + low;
    assert |high| == PRECISION ==> zeros + high == high;
  }

  /** Below the maximum there are eighteen digits on both sides of the point. */
  lemma PaddedText(d: nat)
    requires d < MAX_SORTABLE
    ensures PadLeft(Text(d), 2 * PRECISION + 1) == Pad(d / ONE, PRECISION) + [DOT] + Pad(d % ONE, PRECISION)
  {
    hide Digits, Pad, Pow10, PadLeft;
    PrecisionPower();
    assert d / ONE < ONE;
    DigitsShort(d / ONE, PRECISION);
    PadOfShort(d / ONE, PRECISION);
    var high, low := Digits(d / ONE), Pad(d % ONE, PRECISION);
    assert [] + high == high;
    assert Text(d) == high + [DOT] + low;
    PadLeftOfText(high, low);
  }

  /** Numerals of one width are ordered like the numbers. */
  lemma {:induction false} PadOrder(m: nat, n: nat, w: nat)
    requires m < Pow10(w) && n < Pow10(w)
    ensures Less(Pad(m, w), Pad(n, w)) <==> m < n
    ensures Pad(m, w) == Pad(n, w) <==> m == n
  {
    if w > 0 {
      var a, b := Pad(m / 10, w - 1), Pad(n / 10, w - 1);
      PadOrder(m / 10, n / 10, w - 1);
      LessAppend(a, b, [ZERO + m % 10], [ZERO + n % 10]);
      LessByte(ZERO + m % 10, ZERO + n % 10);
      AppendEqual(a, b, ZERO + m % 10, ZERO + n % 10);
    }
  }

  lemma AppendEqual(a: Bytes, b: Bytes, x: Byte, y: Byte)
    requires |a| == |b|
    ensures a + [x] == b + [y] <==> a == b && x == y
  {
    var s, t := a + [x], b + [y];
    if s == t {
      assert a == s[..|a|] && b == t[..|b|] && s[|a|] == x && t[|b|] == y;
    }
  }

  /** strings.Compare, on the bytes. */
  predicate Sorts(a: Bytes, b: Bytes) {
    BeforeFrom(a, b, 0)
  }

  lemma {:induction false} LessSorts(a: Bytes, b: Bytes, i: nat, k: nat)
    requires |a| == |b| && FirstDifference(a, b, k) && a[k] < b[k] && i <= k
    ensures BeforeFrom(a, b, i)
    decreases k - i
  {
    if i < k { LessSorts(a, b, i + 1, k); }
  }

  /** Numerals start with a digit. */
  lemma PaddedStartsWithDigit(d: nat)
    requires d < MAX_SORTABLE
    ensures var s := PadLeft(Text(d), 2 * PRECISION + 1); |s| == 2 * PRECISION + 1 && IsDigit(s[0])
  {
    PaddedText(d);
    PadAreDigits(d / ONE, PRECISION);
    DigitAt(Pad(d / ONE, PRECISION), 0);
  }

  lemma PaddedOrder(d: nat, e: nat)
    requires d < e < MAX_SORTABLE
    ensures Sorts(PadLeft(Text(d), 2 * PRECISION + 1), PadLeft(Text(e), 2 * PRECISION + 1))
  {
    PaddedText(d);
    PaddedText(e);
    PrecisionPower();
    assert d / ONE < ONE && e / ONE < ONE;
    var a, b := Pad(d / ONE, PRECISION), Pad(e / ONE, PRECISION);
    var x, y := Pad(d % ONE, PRECISION), Pad(e % ONE, PRECISION);
    PadOrder(d / ONE, e / ONE, PRECISION);
    PadOrder(d % ONE, e % ONE, PRECISION);
    hide Pad, Pow10, Text, PadLeft;
    LessAppend(a, b, [DOT], [DOT]);
    LessByte(DOT, DOT);
    LessAppend(a + [DOT], b + [DOT], x, y);
    var s, t := a + [DOT] + x, b + [DOT] + y;
    assert Less(s, t);
    var k :| FirstDifference(s, t, k) && s[k] < t[k];
    LessSorts(s, t, 0, k);
  }

  lemma {:induction false} SortsAfterSign(x: Bytes, y: Bytes, i: nat)
    ensures BeforeFrom([MINUS] + x, [MINUS] + y, i + 1) == BeforeFrom(x, y, i)
    decreases |y| - i
  {
    if i < |x| && i < |y| && x[i] == y[i] { SortsAfterSign(x, y, i + 1); }
  }

  /** Two negative decimals sort the wrong way round. */
  lemma NegativesReversed(d: int, e: int)
    requires -MAX_SORTABLE < d < e < 0
    ensures SortableDecBytes(d).Ok? && SortableDecBytes(e).Ok?
    ensures !Sorts(SortableDecBytes(d).value, SortableDecBytes(e).value)
  {
    hide Text, PadLeft;
    var x, y := PadLeft(Text(-d), 2 * PRECISION + 1), PadLeft(Text(-e), 2 * PRECISION + 1);
    PaddedOrder(-e, -d);
    SortsAfterSign(x, y, 0);
    BeforeFromTotal(x, y, 0);
  }

  /** For decimals within bounds, the bytes sort like the decimals exactly when the greater
      one is not negative or the smaller one is the least of all. */
  lemma SortableOrder(d: int, e: int)
    requires -MAX_SORTABLE <= d < e <= MAX_SORTABLE
    ensures SortableDecBytes(d).Ok? && SortableDecBytes(e).Ok?
    ensures Sorts(SortableDecBytes(d).value, SortableDecBytes(e).value) <==> e >= 0 || d == -MAX_SORTABLE
  {
    hide Text, PadLeft;
    if 0 <= d { PaddedStartsWithDigit(d); }
    if 0 <= e < MAX_SORTABLE { PaddedStartsWithDigit(e); }
    if e < 0 {
      PaddedStartsWithDigit(-e);
      SortsAfterSign([MINUS], PadLeft(Text(-e), 2 * PRECISION + 1), 0);
      assert [MINUS] + [MINUS] == [MINUS, MINUS];
    }
    if 0 <= d && e < MAX_SORTABLE { PaddedOrder(d, e); }
    if e < 0 && d > -MAX_SORTABLE { NegativesReversed(d, e); }
  }
}
