/**
 * Decimal notation of integers, as used by Swift's `Int(_: String)` and by
 * string interpolation of an `Int`.
 */
module Decimal {

  predicate IsAsciiDigit(ch: char) { '0' <= ch <= '9' }

  predicate AllDigits(s: string) {
    forall k :: 0 <= k < |s| ==> IsAsciiDigit(s[k])
  }

  /** The value of a run of decimal digits, most significant first. */
  function DecimalValue(s: string): nat
    requires AllDigits(s)
  {
    if s == [] then 0 else 10 * DecimalValue(s[..|s| - 1]) + (s[|s| - 1] as int - '0' as int)
  }

  /** The decimal notation of a natural number: its shortest digits, which read back as `n`. */
  function ShowNat(n: nat): (s: string)
    ensures |s| > 0 && AllDigits(s) && DecimalValue(s) == n
    ensures s[0] == '0' ==> n == 0 && s == "0"
  {
    var last := ['0' + (n % 10) as char];
    if n < 10 then last
    else
      var prefix := ShowNat(n / 10);
      var s := prefix + last;
      assert s[..|s| - 1] == prefix;
      s
  }

  /** `k` zero digits. */
  function Zeros(k: nat): (z: string)
    ensures |z| == k && forall i :: 0 <= i < k ==> z[i] == '0'
    ensures AllDigits(z)
  {
    if k == 0 then [] else Zeros(k - 1) + "0"
  }

  /** Leading zeros do not change the value of a run of digits. */
  lemma {:induction false} LeadingZeros(k: nat, d: string)
    requires AllDigits(d)
    ensures AllDigits(Zeros(k) + d) && DecimalValue(Zeros(k) + d) == DecimalValue(d)
  {
    var z := Zeros(k) + d;
    assert forall i :: 0 <= i < |z| ==> z[i] == if i < k then Zeros(k)[i] else d[i - k];
    if d == [] {
      assert z == Zeros(k);
      ZerosValue(k);
    } else {
      var p := d[..|d| - 1];
      assert z[..|z| - 1] == Zeros(k) + p;
      assert forall i :: 0 <= i < |p| ==> p[i] == d[i];
      LeadingZeros(k, p);
    }
  }

  /** A run of digits whose value is 0 is all zeros. */
  lemma {:induction false} ZeroValueIsZeros(d: string)
    requires AllDigits(d) && DecimalValue(d) == 0
    ensures d == Zeros(|d|)
  {
    if d != [] {
      var p := d[..|d| - 1];
      assert DecimalValue(d) == 10 * DecimalValue(p) + (d[|d| - 1] as int - '0' as int);
      assert DecimalValue(p) == 0 && d[|d| - 1] == '0';
      ZeroValueIsZeros(p);
      assert d == p + "0";
    }
  }

  /** A run of digits whose value is a single nonzero digit is zeros followed by that digit. */
  lemma DigitRunBelowTen(d: string)
    requires |d| > 0 && AllDigits(d) && 1 <= DecimalValue(d) <= 9
    ensures '1' <= d[|d| - 1] <= '9'
    ensures d == Zeros(|d| - 1) + [d[|d| - 1]]
    ensures DecimalValue(d) == d[|d| - 1] as int - '0' as int
  {
    var p, last := d[..|d| - 1], d[|d| - 1];
    assert DecimalValue(p) == 0 && DecimalValue(d) == last as int - '0' as int by {
      var x, y := DecimalValue(p), last as int - '0' as int;
      assert DecimalValue(d) == 10 * x + y;
      assert IsAsciiDigit(last);
    }
    assert d == Zeros(|p|) + [last] by {
      ZeroValueIsZeros(p);
      assert d == p + [last];
    }
  }

  lemma {:induction false} ZerosValue(k: nat)
    ensures DecimalValue(Zeros(k)) == 0
  {
    if k > 0 {
      assert Zeros(k)[..k - 1] == Zeros(k - 1);
      ZerosValue(k - 1);
    }
  }
}
