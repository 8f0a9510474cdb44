/**
  Decimal rendering of page numbers, as the f-strings f"{n}" and f"{n:03d}"
  produce it, together with the parse that reads such digits back.
*/
module Decimal {
  import opened Text

  function DigitChar(d: nat): (c: char)
    requires d < 10
    ensures IsDigit(c) && c as int - '0' as int == d
  {
    ('0' as int + d) as char
  }

  /** f"{n}": the shortest decimal numeral of n. */
  function NatToString(n: nat): (r: string)
    ensures |r| >= 1 && IsDigits(r)
    ensures |r| > 1 ==> r[0] != '0'
    ensures n < 10 <==> |r| == 1
    ensures n < 100 <==> |r| <= 2
    ensures n < 1000 <==> |r| <= 3
    decreases n
  {
    if n < 10 then [DigitChar(n)]
    else
      var p := NatToString(n / 10);
      var r := p + [DigitChar(n % 10)];
      DigitsSnoc(p, DigitChar(n % 10));
      assert r[0] == p[0];
      assert n / 10 < 10 ==> p == [DigitChar(n / 10)];
      assert n / 10 < 10 <==> n < 100;
      assert n / 10 < 100 <==> n < 1000;
      r
  }

  lemma DigitsSnoc(p: string, c: char)
    requires IsDigits(p) && IsDigit(c)
    ensures IsDigits(p + [c])
  {
    assert forall k :: 0 <= k < |p| ==> (p + [c])[k] == p[k];
  }

  /** The value a string of digits denotes, read left to right. */
  function DigitsValue(s: string): nat
    requires IsDigits(s)
    decreases |s|
  {
    if |s| == 0 then 0
    else DigitsValue(s[..|s| - 1]) * 10 + (s[|s| - 1] as int - '0' as int)
  }

  /** Reading back a rendered number gives the number. */
  lemma {:induction false} NatToStringRoundTrip(n: nat)
    ensures DigitsValue(NatToString(n)) == n
    decreases n
  {
    var r := NatToString(n);
    if n < 10 {
      assert r[..0] == [];
    } else {
      NatToStringRoundTrip(n / 10);
      assert r[..|r| - 1] == NatToString(n / 10);
    }
  }

  lemma NatToStringInjective(m: nat, n: nat)
    requires NatToString(m) == NatToString(n)
    ensures m == n
  {
    NatToStringRoundTrip(m);
    NatToStringRoundTrip(n);
  }

  function Zeros(k: nat): (r: string)
    ensures |r| == k && IsDigits(r)
    ensures forall i :: 0 <= i < k ==> r[i] == '0'
  {
    seq(k, i => '0')
  }

  lemma {:induction false} ZerosValue(k: nat)
    ensures DigitsValue(Zeros(k)) == 0
    decreases k
  {
    if k > 0 {
      assert Zeros(k)[..k - 1] == Zeros(k - 1);
      ZerosValue(k - 1);
    }
  }

  /** Leading zeros do not change the value of a numeral. */
  lemma {:induction false} LeadingZerosValue(k: nat, d: string)
    requires IsDigits(d)
    ensures IsDigits(Zeros(k) + d) && DigitsValue(Zeros(k) + d) == DigitsValue(d)
    decreases |d|
  {
    var s := Zeros(k) + d;
    assert IsDigits(s);
    if |d| == 0 {
      assert s == Zeros(k);
      ZerosValue(k);
    } else {
      assert s[..|s| - 1] == Zeros(k) + d[..|d| - 1];
      assert s[|s| - 1] == d[|d| - 1];
      LeadingZerosValue(k, d[..|d| - 1]);
    }
  }

  /** f"{n:03d}": the numeral of n, padded with zeros on the left to width 3. */
  function ZeroPad3(n: nat): (r: string)
    ensures IsDigits(r)
    ensures |r| == if n < 1000 then 3 else |NatToString(n)|
    ensures DigitsValue(r) == n
  {
    var d := NatToString(n);
    var z := if |d| < 3 then 3 - |d| else 0;
    LeadingZerosValue(z, d);
    NatToStringRoundTrip(n);
    Zeros(z) + d
  }

  /** Distinct page numbers get distinct padded numerals. */
  lemma ZeroPad3Injective(m: nat, n: nat)
    requires ZeroPad3(m) == ZeroPad3(n)
    ensures m == n
  {
  }

  lemma ZeroPadExamples(a: nat, b: nat)
    requires a == 7 && b == 1234
    ensures ZeroPad3(a) == "007" && ZeroPad3(b) == "1234"
  {
    assert NatToString(a) == "7";
    assert NatToString(12) == "12";
    assert NatToString(123) == "123";
    assert NatToString(b) == "1234";
    assert Zeros(2) == "00";
    assert Zeros(0) == "";
  }
}
