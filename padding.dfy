/** `padLeadingZeros` (src/utils/utils.ts) and the decimal rendering of a
    non-negative integer that it starts from (`Number.prototype.toString`). */
module Padding {
  import opened Sequences

  predicate IsDigit(c: char)
  {
    '0' <= c <= '9'
  }

  predicate AllDigits(s: string)
  {
    forall i :: 0 <= i < |s| ==> IsDigit(s[i])
  }

  function DigitChar(d: nat): (c: char)
    requires d < 10
    ensures IsDigit(c)
  {
    (('0' as int) + d) as char
  }

  /** `num.toString()` for a non-negative integer: decimal, most significant
      digit first, no leading zero except for 0 itself. JavaScript switches
      to exponent form from 1e21 on and is inexact above 2^53; the tile
      numbers the grid passes are far below both. */
  function ToString(n: nat): (s: string)
    ensures |s| >= 1 && AllDigits(s)
    ensures s[0] == '0' ==> n == 0
  {
    if n < 10 then [DigitChar(n)] else ToString(n / 10) + [DigitChar(n % 10)]
  }

  /** The number a digit string denotes. */
  function DecimalValue(s: string): nat
    requires AllDigits(s)
  {
    if s == [] then 0 else DecimalValue(Init(s)) * 10 + (Last(s) as int - '0' as int)
  }

  /** Reading the rendering back gives the number. */
  lemma {:induction false} ToStringRoundTrip(n: nat)
    ensures DecimalValue(ToString(n)) == n
  {
    if n >= 10 {
      InitOfSnoc(ToString(n / 10), DigitChar(n % 10));
      ToStringRoundTrip(n / 10);
    }
  }

  lemma ToStringInjective(m: nat, n: nat)
    requires ToString(m) == ToString(n)
    ensures m == n
  {
    ToStringRoundTrip(m);
    ToStringRoundTrip(n);
  }

  function Zeros(k: nat): (s: string)
    ensures |s| == k && forall i :: 0 <= i < k ==> s[i] == '0'
  {
    seq(k, _ => '0')
  }

  /** What `padLeadingZeros(num, size)` returns: `toString(num)` preceded by
      as many '0' as it falls short of `size`. */
  function ZeroPadded(num: nat, size: int): (r: string)
    ensures |r| == if size > |ToString(num)| then size else |ToString(num)|
    ensures r[|r| - |ToString(num)|..] == ToString(num)
    ensures forall i :: 0 <= i < |r| - |ToString(num)| ==> r[i] == '0'
  {
    var t := ToString(num);
    Zeros(if size > |t| then size - |t| else 0) + t
  }

  /** The `while` loop that prepends '0' one at a time. */
  method PadLeadingZeros(num: nat, size: int) returns (s: string)
    ensures s == ZeroPadded(num, size)
  {
    var t := ToString(num);
    s := t;
    ghost var k := 0;
    while |s| < size
      invariant s == Zeros(k) + t
      invariant k == 0 || |t| + k <= size
      decreases size - |s|
    {
      PrependZero(k, t);
      s := "0" + s;
      k := k + 1;
    }
    assert k == if size > |t| then size - |t| else 0;
  }

  lemma PrependZero(k: nat, t: string)
    ensures "0" + (Zeros(k) + t) == Zeros(k + 1) + t
  {
    assert "0" + Zeros(k) == Zeros(k + 1);
  }

  lemma {:induction false} LeadingZerosValue(k: nat, s: string)
    requires AllDigits(s)
    ensures AllDigits(Zeros(k) + s) && DecimalValue(Zeros(k) + s) == DecimalValue(s)
  {
    if s == [] {
      assert Zeros(k) + s == Zeros(k);
      ZerosValue(k);
    } else {
      LeadingZerosValue(k, Init(s));
      assert Zeros(k) + s == (Zeros(k) + Init(s)) + [Last(s)];
      InitOfSnoc(Zeros(k) + Init(s), Last(s));
    }
  }

  lemma {:induction false} ZerosValue(k: nat)
    ensures DecimalValue(Zeros(k)) == 0
  {
    if k > 0 {
      assert Init(Zeros(k)) == Zeros(k - 1);
      ZerosValue(k - 1);
    }
  }

  /** Padding keeps the number: the padded string still denotes `num`. */
  lemma ZeroPaddedValue(num: nat, size: int)
    ensures AllDigits(ZeroPadded(num, size)) && DecimalValue(ZeroPadded(num, size)) == num
  {
    var t := ToString(num);
    LeadingZerosValue(if size > |t| then size - |t| else 0, t);
    ToStringRoundTrip(num);
  }

  /** Already long enough: returned unchanged. */
  lemma ZeroPaddedLongEnough(num: nat, size: int)
    requires |ToString(num)| >= size
    ensures ZeroPadded(num, size) == ToString(num)
  {
    assert Zeros(0) + ToString(num) == ToString(num);
  }

  /** Distinct numbers give distinct padded strings at the same size. */
  lemma ZeroPaddedInjective(m: nat, n: nat, size: int)
    requires ZeroPadded(m, size) == ZeroPadded(n, size)
    ensures m == n
  {
    ZeroPaddedValue(m, size);
    ZeroPaddedValue(n, size);
  }

  lemma ZeroPaddedExamples()
    ensures ZeroPadded(7, 2) == "07"
    ensures ZeroPadded(31, 2) == "31"
    ensures ZeroPadded(105, 2) == "105"
  {
    assert ToString(7) == "7";
    assert ToString(31) == ToString(3) + "1";
    assert ToString(105) == ToString(10) + "5";
    assert ToString(10) == ToString(1) + "0";
  }
}
