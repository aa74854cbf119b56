/**
 * Base-10 signed 64-bit integers as HINCRBY reads and writes them: the parts of Go's
 * strconv.ParseInt(s, 10, 64), strconv.FormatInt(n, 10) and int64 addition the handler relies on.
 */
module Decimal {
  import opened Wrappers
  import opened ByteOrder

  const TwoTo63: int := 0x8000_0000_0000_0000
  const TwoTo64: int := 0x1_0000_0000_0000_0000

  /** Go's int64. */
  newtype int64 = x: int | -0x8000_0000_0000_0000 <= x < 0x8000_0000_0000_0000

  const Plus: byte := 43   // '+'
  const Minus: byte := 45  // '-'
  const Zero: byte := 48   // '0'

  predicate IsDigit(b: byte)
  {
    Zero <= b <= Zero + 9
  }

  predicate AllDigits(s: Bytes)
  {
    forall i :: 0 <= i < |s| ==> IsDigit(s[i])
  }

  predicate InInt64(x: int)
  {
    -TwoTo63 <= x < TwoTo63
  }

  /** The number a string of decimal digits denotes, most significant digit first. */
  function DigitsValue(ds: Bytes): nat
    requires AllDigits(ds)
  {
    if ds == [] then 0 else DigitsValue(ds[..|ds| - 1]) * 10 + (ds[|ds| - 1] - Zero) as int
  }

  /**
   * strconv.ParseInt(s, 10, 64): an optional '+' or '-', then one or more decimal digits,
   * denoting a value that fits in an int64; anything else is an error (None).
   */
  function ParseInt(s: Bytes): (r: Option<int64>)
    ensures r.Some? ==> s != [] && AllDigits(s[1..])
    ensures r.Some? ==> IsDigit(s[0]) || ((s[0] == Plus || s[0] == Minus) && |s| >= 2)
    ensures r.Some? && r.value < 0 ==> s[0] == Minus
  {
    if s == [] then None
    else
      var digits := if s[0] == Plus || s[0] == Minus then s[1..] else s;
      if digits == [] || !AllDigits(digits) then None
      else
        var v: int := DigitsValue(digits);
        var n := if s[0] == Minus then -v else v;
        if InInt64(n) then Some(n as int64) else None
  }

  /** The shortest decimal digits of `n`: never a leading zero, except "0" itself. */
  function Digits(n: nat): (r: Bytes)
    ensures r != [] && AllDigits(r) && DigitsValue(r) == n
    ensures r[0] == Zero ==> r == [Zero]
    decreases n
  {
    if n < 10 then [Zero + n as byte]
    else
      var ds := Digits(n / 10);
      var r := ds + [Zero + (n % 10) as byte];
      assert r[..|r| - 1] == ds;
      r
  }

  /** strconv.FormatInt(n, 10): a '-' for negative values, then the digits of |n|. */
  function FormatInt(n: int64): (r: Bytes)
    ensures r != [] && (r[0] == Minus <==> n < 0)
  {
    if n < 0 then [Minus] + Digits(-(n as int)) else Digits(n as int)
  }

  /** Formatting then parsing gives back the integer: HINCRBY can always re-read what it wrote. */
  lemma FormatParseRoundTrip(n: int64)
    ensures ParseInt(FormatInt(n)) == Some(n)
  {
    var s := FormatInt(n);
    if n < 0 {
      assert s[1..] == Digits(-(n as int));
    } else {
      var d := Digits(n as int);
      assert IsDigit(d[0]);
    }
  }

  /** The form FormatInt produces: no '+', no leading zero, and no "-0". */
  predicate Canonical(s: Bytes)
  {
    if s == [] then false
    else if s[0] == Minus then |s| >= 2 && s[1] != Zero
    else s[0] != Plus && (s[0] == Zero ==> s == [Zero])
  }

  /** Digits with a non-zero leading digit denote a positive number. */
  lemma {:induction false} DigitsValuePositive(ds: Bytes)
    requires ds != [] && AllDigits(ds) && ds[0] != Zero
    ensures DigitsValue(ds) >= 1
    decreases |ds|
  {
    if |ds| > 1 {
      DigitsValuePositive(ds[..|ds| - 1]);
    }
  }

  /** Digits without a leading zero are the shortest digits of the number they denote. */
  lemma {:induction false} DigitsOfValue(ds: Bytes)
    requires ds != [] && AllDigits(ds) && (ds[0] == Zero ==> ds == [Zero])
    ensures Digits(DigitsValue(ds)) == ds
    decreases |ds|
  {
    var init, last := ds[..|ds| - 1], ds[|ds| - 1];
    var n, d := DigitsValue(ds), (last - Zero) as int;
    if |ds| == 1 {
      assert ds == [Zero + d as byte];
    } else {
      var v := DigitsValue(init);
      DigitsValuePositive(init);
      DigitsOfValue(init);
      assert n == v * 10 + d;
      assert n / 10 == v && n % 10 == d;
      assert Digits(n) == Digits(v) + [Zero + d as byte];
      assert ds == init + [last];
    }
  }

  /**
   * Parsing then formatting gives back a string in FormatInt's own form: such a string is
   * accepted, and denotes the value FormatInt would write it as.
   */
  lemma ParseFormatRoundTrip(s: Bytes)
    requires Canonical(s) && ParseInt(s).Some?
    ensures FormatInt(ParseInt(s).value) == s
  {
    if s[0] == Minus {
      var ds := s[1..];
      DigitsValuePositive(ds);
      DigitsOfValue(ds);
      assert s == [Minus] + ds;
    } else {
      DigitsOfValue(s);
    }
  }

  /**
   * What strconv.ParseInt accepts beyond FormatInt's form: a '+' sign, leading zeros and "-0"; a
   * bare sign or an empty string is rejected.
   */
  lemma ParseIntExamples()
    ensures ParseInt([Plus, Zero + 5]) == Some(5)
    ensures ParseInt([Zero, Zero, Zero + 7]) == Some(7)
    ensures ParseInt([Minus, Zero]) == Some(0)
    ensures ParseInt([]) == None && ParseInt([Plus]) == None && ParseInt([Minus]) == None
  {
    var plusFive: Bytes, five: Bytes := [Plus, Zero + 5], [Zero + 5];
    assert plusFive[1..] == five;
    assert DigitsValue(five) == 5 by {
      assert five[..0] == [];
    }
    var zero: Bytes, twoZeros: Bytes, zeros: Bytes := [Zero], [Zero, Zero], [Zero, Zero, Zero + 7];
    assert DigitsValue(zero) == 0 by {
      assert zero[..0] == [];
    }
    assert DigitsValue(twoZeros) == 0 by {
      assert twoZeros[..1] == zero;
    }
    assert DigitsValue(zeros) == 7 by {
      assert zeros[..2] == twoZeros;
    }
    var minusZero: Bytes := [Minus, Zero];
    assert minusZero[1..] == zero;
  }

  /** 2^63 (9223372036854775808) is out of range, but its negation is MinInt64. */
  lemma ParseIntRange(ds: Bytes)
    requires ds != [] && AllDigits(ds) && DigitsValue(ds) == TwoTo63
    ensures ParseInt(ds) == None
    ensures ParseInt([Minus] + ds) == Some(-TwoTo63 as int64)
  {
    assert ([Minus] + ds)[1..] == ds;
  }

  /** Go's `+` on int64: the result wraps around modulo 2^64 into the int64 range. */
  function Wrap64(x: int): (r: int64)
    ensures (x - r as int) % TwoTo64 == 0
    ensures InInt64(x) ==> r as int == x
  {
    ((x + TwoTo63) % TwoTo64 - TwoTo63) as int64
  }

  /** The smallest overflowing increment: MaxInt64 + 1 wraps to MinInt64. */
  lemma Wrap64Overflow()
    ensures Wrap64(TwoTo63 - 1 + 1) as int == -TwoTo63
  {
  }
}
