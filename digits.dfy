/**
  Positional numerals in bases 2 to 16: the digit strings that Ruby's
  `Integer#to_s`, `sprintf("%b")`, `sprintf("%x")` write and that
  `String#to_i(base)` reads. Writing is lower-case; reading also accepts
  upper-case hex letters.
 */
module Digits {

  function Pow(b: nat, k: nat): nat
  {
    if k == 0 then 1 else b * Pow(b, k - 1)
  }

  predicate IsHexChar(c: char)
  {
    '0' <= c <= '9' || 'a' <= c <= 'f' || 'A' <= c <= 'F'
  }

  predicate IsLowerHexChar(c: char)
  {
    '0' <= c <= '9' || 'a' <= c <= 'f'
  }

  function CharValue(c: char): (d: nat)
    requires IsHexChar(c)
    ensures d < 16
    ensures '0' <= c <= '9' <==> d < 10
  {
    if '0' <= c <= '9' then c as int - '0' as int
    else if 'a' <= c <= 'f' then c as int - 'a' as int + 10
    else c as int - 'A' as int + 10
  }

  /** The character sprintf writes for digit value d. */
  function DigitChar(d: nat): (c: char)
    requires d < 16
    ensures IsLowerHexChar(c) && IsHexChar(c) && CharValue(c) == d
  {
    if d < 10 then ('0' as int + d) as char else ('a' as int + d - 10) as char
  }

  /** Every character is a digit of the given base (either case). */
  predicate AllDigits(s: string, base: nat)
  {
    forall i :: 0 <= i < |s| ==> IsHexChar(s[i]) && CharValue(s[i]) < base
  }

  /** Every character is a lower-case digit of the given base, as written. */
  predicate LowerDigits(s: string, base: nat)
  {
    AllDigits(s, base) && forall i :: 0 <= i < |s| ==> IsLowerHexChar(s[i])
  }

  /** The value of a digit string, most significant digit first; "" reads as 0. */
  function FromDigits(s: string, base: nat): nat
    requires AllDigits(s, base)
  {
    if s == [] then 0
    else
      AllDigitsSlice(s, base, 1, |s|);
      var d: nat, p: nat := CharValue(s[0]), Pow(base, |s| - 1);
      MulNat(d, p);
      d * p + FromDigits(s[1..], base)
  }

  lemma MulNat(d: nat, p: nat)
    ensures d * p >= 0
  {
  }

  /** The shortest digit string of v; 0 is written "0". */
  function ToDigits(v: nat, base: nat): (s: string)
    requires 2 <= base <= 16
    ensures |s| >= 1 && LowerDigits(s, base)
    ensures v == 0 || s[0] != '0'
    ensures |s| == 1 || s[0] != '0'
    decreases v
  {
    if v < base then [DigitChar(v)]
    else
      DivModFacts(v, base);
      LowerDigitsSnoc(ToDigits(v / base, base), DigitChar(v % base), base);
      ToDigits(v / base, base) + [DigitChar(v % base)]
  }

  lemma DivModFacts(v: nat, base: nat)
    requires 2 <= base <= v
    ensures 1 <= v / base < v && v % base < base
  {
    var q, r := v / base, v % base;
    assert v == q * base + r;
    MulAtLeast(base - 1, q);
    assert (base - 1) * q + q == q * base;
  }

  lemma LowerDigitsSnoc(s: string, c: char, base: nat)
    requires LowerDigits(s, base) && IsLowerHexChar(c) && CharValue(c) < base
    ensures LowerDigits(s + [c], base)
  {
    assert forall i :: 0 <= i < |s| ==> (s + [c])[i] == s[i];
  }

  function Zeros(k: nat): (z: string)
    ensures |z| == k && forall i :: 0 <= i < k ==> z[i] == '0'
  {
    seq(k, _ => '0')
  }

  /** Left-pads s with '0' to at least w characters (sprintf's `%0<w>` and `%.<w>`). */
  function ZeroPad(s: string, w: nat): (r: string)
    ensures |r| == if |s| < w then w else |s|
  {
    if |s| < w then Zeros(w - |s|) + s else s
  }

  lemma PowPositive(b: nat, k: nat)
    requires b >= 1
    ensures Pow(b, k) >= 1
  {
    if k > 0 {
      PowPositive(b, k - 1);
    }
  }

  lemma {:induction false} PowAdd(b: nat, i: nat, j: nat)
    ensures Pow(b, i + j) == Pow(b, i) * Pow(b, j)
    decreases j
  {
    if j > 0 {
      PowAdd(b, i, j - 1);
      var p, q := Pow(b, i), Pow(b, j - 1);
      assert Pow(b, i + j) == b * (p * q);
      MulSwap(b, p, q);
      assert Pow(b, j) == b * q;
    }
  }

  lemma MulSwap(a: nat, b: nat, c: nat)
    ensures a * (b * c) == b * (a * c)
  {
  }

  /** Four binary digits make one hex digit. */
  lemma {:induction false} PowTwoFour(k: nat)
    ensures Pow(2, 4 * k) == Pow(16, k)
  {
    if k > 0 {
      PowTwoFour(k - 1);
      PowAdd(2, 4 * (k - 1), 4);
      assert Pow(2, 4) == 16;
    }
  }

  lemma MulAtLeast(b: nat, p: nat)
    requires b >= 1
    ensures p <= b * p
  {
    assert b * p == (b - 1) * p + p;
  }

  lemma AllDigitsSlice(s: string, base: nat, i: nat, j: nat)
    requires AllDigits(s, base) && i <= j <= |s|
    ensures AllDigits(s[i..j], base)
  {
  }

  /** One more leading digit below the base stays below the next power. */
  lemma DigitStep(d: nat, base: nat, p: nat, r: nat)
    requires d < base && r < p
    ensures d * p + r < base * p
  {
    assert d * p + r < (d + 1) * p;
    assert (d + 1) * p <= base * p;
  }

  lemma {:induction false} FromDigitsBound(s: string, base: nat)
    requires base >= 1 && AllDigits(s, base)
    ensures FromDigits(s, base) < Pow(base, |s|)
    decreases |s|
  {
    if s != [] {
      FromDigitsBound(s[1..], base);
      DigitStep(CharValue(s[0]), base, Pow(base, |s| - 1), FromDigits(s[1..], base));
    }
  }

  lemma Horner(x: nat, p: nat, base: nat, y: nat, c: nat)
    ensures x * (base * p) + (y * base + c) == (x * p + y) * base + c
  {
  }

  /** Appending a digit multiplies by the base and adds the digit (Horner's rule). */
  lemma {:induction false} FromDigitsAppend(s: string, c: char, base: nat)
    requires AllDigits(s, base) && IsHexChar(c) && CharValue(c) < base
    ensures AllDigits(s + [c], base)
    ensures FromDigits(s + [c], base) == FromDigits(s, base) * base + CharValue(c)
    decreases |s|
  {
    var t := s + [c];
    assert AllDigits(t, base);
    if s != [] {
      assert t[0] == s[0] && t[1..] == s[1..] + [c];
      FromDigitsAppend(s[1..], c, base);
      var x := CharValue(s[0]);
      var p := Pow(base, |s| - 1);
      assert Pow(base, |s|) == base * p;
      assert FromDigits(t, base) == x * (base * p) + (FromDigits(s[1..], base) * base + CharValue(c));
      Horner(x, p, base, FromDigits(s[1..], base), CharValue(c));
    } else {
      assert t[1..] == [];
    }
  }

  lemma ToDigitsSplit(v: nat, base: nat)
    requires 2 <= base <= 16 && v >= base
    ensures v == (v / base) * base + v % base && v / base < v
    ensures ToDigits(v, base) == ToDigits(v / base, base) + [DigitChar(v % base)]
  {
    DivModFacts(v, base);
  }

  lemma AppendDigitValue(q: nat, r: nat, base: nat)
    requires 2 <= base <= 16 && r < base
    requires FromDigits(ToDigits(q, base), base) == q
    ensures FromDigits(ToDigits(q, base) + [DigitChar(r)], base) == q * base + r
  {
    FromDigitsAppend(ToDigits(q, base), DigitChar(r), base);
  }

  /** Reading back what ToDigits wrote gives the number. */
  lemma {:induction false} FromToDigits(v: nat, base: nat)
    requires 2 <= base <= 16
    ensures FromDigits(ToDigits(v, base), base) == v
    decreases v
  {
    if v < base {
      var s := ToDigits(v, base);
      assert s == [DigitChar(v)];
    } else {
      ToDigitsSplit(v, base);
      FromToDigits(v / base, base);
      AppendDigitValue(v / base, v % base, base);
    }
  }

  lemma ToDigitsInjective(v: nat, w: nat, base: nat)
    requires 2 <= base <= 16
    requires ToDigits(v, base) == ToDigits(w, base)
    ensures v == w
  {
    FromToDigits(v, base);
    FromToDigits(w, base);
  }

  lemma DivBelow(v: nat, base: nat, p: nat)
    requires base >= 1 && v < base * p
    ensures v / base < p
  {
  }

  /** A number below base^k needs at most k digits. */
  lemma {:induction false} ToDigitsLength(v: nat, base: nat, k: nat)
    requires 2 <= base <= 16 && k >= 1 && v < Pow(base, k)
    ensures |ToDigits(v, base)| <= k
    decreases v
  {
    assert Pow(base, 1) == base;
    if v >= base {
      ToDigitsSplit(v, base);
      DivBelow(v, base, Pow(base, k - 1));
      ToDigitsLength(v / base, base, k - 1);
    }
  }

  /** Leading zeros do not change the value. */
  lemma ZeroPadValue(s: string, w: nat, base: nat)
    requires base >= 1 && AllDigits(s, base)
    ensures AllDigits(ZeroPad(s, w), base)
    ensures FromDigits(ZeroPad(s, w), base) == FromDigits(s, base)
  {
    if |s| < w {
      ZerosValue(w - |s|, s, base);
    }
  }

  /** Leading zeros keep a digit string's digits and value. */
  lemma {:induction false} ZerosValue(k: nat, s: string, base: nat)
    requires base >= 1 && AllDigits(s, base)
    ensures AllDigits(Zeros(k) + s, base)
    ensures FromDigits(Zeros(k) + s, base) == FromDigits(s, base)
    decreases k
  {
    if k > 0 {
      var r := Zeros(k) + s;
      ZerosValue(k - 1, s, base);
      assert r[1..] == Zeros(k - 1) + s;
      assert forall i :: 0 < i < |r| ==> r[i] == r[1..][i - 1];
      LeadingZero(r, base);
    } else {
      assert Zeros(k) + s == s;
    }
  }

  /** A leading zero adds nothing to the value. */
  lemma LeadingZero(r: string, base: nat)
    requires AllDigits(r, base) && |r| > 0 && r[0] == '0'
    ensures AllDigits(r[1..], base) && FromDigits(r, base) == FromDigits(r[1..], base)
  {
    assert CharValue(r[0]) == 0;
    assert CharValue(r[0]) * Pow(base, |r| - 1) == 0;
  }

  lemma ZeroPadLower(s: string, w: nat, base: nat)
    requires base >= 1 && LowerDigits(s, base)
    ensures LowerDigits(ZeroPad(s, w), base)
  {
    var r := ZeroPad(s, w);
    var z := |r| - |s|;
    assert forall i :: 0 <= i < z ==> r[i] == '0';
    assert forall i :: z <= i < |r| ==> r[i] == s[i - z];
  }

  lemma MulGap(a: nat, b: nat, p: nat)
    ensures a < b ==> a * p + p <= b * p
  {
    if a < b {
      assert (a + 1) * p <= b * p;
    }
  }

  lemma LeadingDigitEqual(a: nat, b: nat, p: nat, x: nat, y: nat)
    requires x < p && y < p && a * p + x == b * p + y
    ensures a == b && x == y
  {
    MulGap(a, b, p);
    MulGap(b, a, p);
  }

  lemma LowerCharInjective(c: char, d: char)
    requires IsLowerHexChar(c) && IsLowerHexChar(d) && CharValue(c) == CharValue(d)
    ensures c == d
  {
  }

  /** Two written digit strings of the same length and the same value are equal. */
  lemma {:induction false} DigitsUnique(s: string, u: string, base: nat)
    requires base >= 1 && |s| == |u|
    requires LowerDigits(s, base) && LowerDigits(u, base)
    requires FromDigits(s, base) == FromDigits(u, base)
    ensures s == u
    decreases |s|
  {
    if s != [] {
      FromDigitsBound(s[1..], base);
      FromDigitsBound(u[1..], base);
      LeadingDigitEqual(CharValue(s[0]), CharValue(u[0]), Pow(base, |s| - 1),
                        FromDigits(s[1..], base), FromDigits(u[1..], base));
      LowerCharInjective(s[0], u[0]);
      DigitsUnique(s[1..], u[1..], base);
      assert s == [s[0]] + s[1..];
      assert u == [u[0]] + u[1..];
    }
  }

  /** The fixed-width numeral of v: the only written string of width w with value v. */
  lemma FixedWidth(v: nat, base: nat, w: nat)
    requires 2 <= base <= 16 && w >= 1 && v < Pow(base, w)
    ensures |ZeroPad(ToDigits(v, base), w)| == w
    ensures LowerDigits(ZeroPad(ToDigits(v, base), w), base)
    ensures FromDigits(ZeroPad(ToDigits(v, base), w), base) == v
  {
    ToDigitsLength(v, base, w);
    ZeroPadValue(ToDigits(v, base), w, base);
    FromToDigits(v, base);
  }

  /** k copies of the top digit of the base. */
  function TopDigits(base: nat, k: nat): (s: string)
    requires 2 <= base <= 16
    ensures |s| == k && LowerDigits(s, base)
  {
    seq(k, _ => DigitChar(base - 1))
  }

  lemma TopDigitStep(base: nat, p: nat)
    ensures (base - 1) * p + (p - 1) == base * p - 1
  {
  }

  /** A string of k top digits is the largest k-digit number, base^k - 1. */
  lemma {:induction false} TopDigitsValue(base: nat, k: nat)
    requires 2 <= base <= 16
    ensures FromDigits(TopDigits(base, k), base) == Pow(base, k) - 1
    decreases k
  {
    if k > 0 {
      var s := TopDigits(base, k);
      assert s[1..] == TopDigits(base, k - 1);
      TopDigitsValue(base, k - 1);
      PowPositive(base, k - 1);
      TopDigitStep(base, Pow(base, k - 1));
    }
  }
}
