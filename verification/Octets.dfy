/** Bytes, byte strings in lexicographic order, and big-endian integers. */
module Octets {
  type Byte = n: nat | n < 256
  type Bytes = seq<Byte>

  /** bytes.Compare(a, b) < 0 for strings of one length */
  ghost predicate Less(a: Bytes, b: Bytes) {
    |a| == |b| && exists i :: FirstDifference(a, b, i) && a[i] < b[i]
  }

  ghost predicate FirstDifference(a: Bytes, b: Bytes, i: int) {
    0 <= i < |a| && i < |b| && a[i] != b[i] && forall j :: 0 <= j < i ==> a[j] == b[j]
  }

  function Pow256(w: nat): nat {
    if w == 0 then 1 else 256 * Pow256(w - 1)
  }

  /** The `w` least significant bytes of `n`, most significant first. */
  function BigEndian(n: nat, w: nat): (r: Bytes)
    ensures |r| == w
  {
    if w == 0 then [] else BigEndian(n / 256, w - 1) + [n % 256]
  }

  function FromBigEndian(s: Bytes, w: nat): nat
    requires w <= |s|
  {
    if w == 0 then 0 else 256 * FromBigEndian(s, w - 1) + s[w - 1]
  }

  lemma {:induction false} BigEndianRoundTrip(n: nat, w: nat)
    requires n < Pow256(w)
    ensures FromBigEndian(BigEndian(n, w), w) == n
  {
    if w > 0 {
      BigEndianRoundTrip(n / 256, w - 1);
      SamePrefix(BigEndian(n / 256, w - 1), BigEndian(n, w), w - 1);
    }
  }

  lemma {:induction false} SamePrefix(a: Bytes, b: Bytes, w: nat)
    requires w <= |a| && w <= |b| && forall i :: 0 <= i < w ==> a[i] == b[i]
    ensures FromBigEndian(a, w) == FromBigEndian(b, w)
  {
    if w > 0 { SamePrefix(a, b, w - 1); }
  }

  lemma {:induction false} FromBigEndianBound(s: Bytes, w: nat)
    requires w <= |s|
    ensures FromBigEndian(s, w) < Pow256(w)
    ensures BigEndian(FromBigEndian(s, w), w) == s[..w]
  {
    if w > 0 {
      FromBigEndianBound(s, w - 1);
      var q := FromBigEndian(s, w - 1);
      assert (256 * q + s[w - 1]) / 256 == q && (256 * q + s[w - 1]) % 256 == s[w - 1];
      assert s[..w] == s[..w - 1] + [s[w - 1]];
    }
  }

  lemma LessIfHeadsLess(a: Bytes, b: Bytes, x: Bytes, y: Bytes)
    requires |a| == |b| && |x| == |y| && (Less(a, b) || (a == b && Less(x, y)))
    ensures Less(a + x, b + y)
  {
    if Less(a, b) {
      var i :| FirstDifference(a, b, i) && a[i] < b[i];
      assert FirstDifference(a + x, b + y, i);
    } else {
      var i :| FirstDifference(x, y, i) && x[i] < y[i];
      assert FirstDifference(a + x, b + y, |a| + i);
    }
  }

  lemma HeadsIfLess(a: Bytes, b: Bytes, x: Bytes, y: Bytes)
    requires |a| == |b| && |x| == |y| && Less(a + x, b + y)
    ensures Less(a, b) || (a == b && Less(x, y))
  {
    var s, t := a + x, b + y;
    var i :| FirstDifference(s, t, i) && s[i] < t[i];
    if i < |a| {
      assert a[i] == s[i] && b[i] == t[i];
      forall j | 0 <= j < i ensures a[j] == b[j] {
        assert s[j] == t[j];
      }
      assert FirstDifference(a, b, i);
    } else {
      assert a == s[..|a|] == t[..|a|] == b;
      var k := i - |a|;
      assert x[k] == s[i] && y[k] == t[i];
      forall j | 0 <= j < k ensures x[j] == y[j] {
        assert s[|a| + j] == t[|a| + j];
      }
      assert FirstDifference(x, y, k);
    }
  }

  /** Appending compares the longer strings by their heads first. */
  lemma LessAppend(a: Bytes, b: Bytes, x: Bytes, y: Bytes)
    requires |a| == |b| && |x| == |y|
    ensures Less(a + x, b + y) <==> Less(a, b) || (a == b && Less(x, y))
  {
    if Less(a + x, b + y) { HeadsIfLess(a, b, x, y); }
    if Less(a, b) || (a == b && Less(x, y)) { LessIfHeadsLess(a, b, x, y); }
  }

  /** Big-endian strings of one width are ordered like the numbers they encode. */
  lemma {:induction false} BigEndianOrder(m: nat, n: nat, w: nat)
    requires m < Pow256(w) && n < Pow256(w)
    ensures Less(BigEndian(m, w), BigEndian(n, w)) <==> m < n
    ensures BigEndian(m, w) == BigEndian(n, w) <==> m == n
  {
    BigEndianRoundTrip(m, w);
    BigEndianRoundTrip(n, w);
    if w > 0 {
      BigEndianOrder(m / 256, n / 256, w - 1);
      LessAppend(BigEndian(m / 256, w - 1), BigEndian(n / 256, w - 1), [m % 256], [n % 256]);
      LessByte(m % 256, n % 256);
    }
  }

  lemma LessByte(x: Byte, y: Byte)
    ensures Less([x], [y]) <==> x < y
  {
    if x < y { assert FirstDifference([x], [y], 0); }
  }
}
