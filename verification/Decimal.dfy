/**
 * Decimal text: std::to_string on one side, the string-to-number loops of
 * utils.h and listpack.cpp on the other.
 */
module Decimal {
  import opened Bytes

  predicate IsDigit(b: Byte) { 48 <= b <= 57 }

  predicate AllDigits(s: Bytes) { forall i :: 0 <= i < |s| ==> IsDigit(s[i]) }

  /** std::to_string of an unsigned value. */
  function Print(n: nat): Bytes {
    if n < 10 then [ZERO + n] else Print(n / 10) + [ZERO + n % 10]
  }

  /** std::to_string of a signed value. */
  function PrintInt(v: int): Bytes {
    if v < 0 then [MINUS] + Print(-v) else Print(v)
  }

  /** The number a digit string denotes, most significant digit first. */
  function Value(s: Bytes): nat
    requires AllDigits(s)
  {
    if s == [] then 0 else Value(s[..|s| - 1]) * 10 + (s[|s| - 1] - ZERO)
  }

  function Pow10(k: nat): nat { if k == 0 then 1 else 10 * Pow10(k - 1) }

  lemma {:induction false} PrintIsCanonical(n: nat)
    ensures AllDigits(Print(n)) && |Print(n)| > 0
    ensures Value(Print(n)) == n
    ensures Print(n)[0] == ZERO <==> n == 0
    ensures n > 0 || Print(n) == [ZERO]
  {
    if n >= 10 {
      PrintIsCanonical(n / 10);
      assert Print(n)[..|Print(n)| - 1] == Print(n / 10);
    } else {
      assert Value([ZERO + n][..0]) == 0;
    }
  }

  lemma {:induction false} PrintOfValue(s: Bytes)
    requires |s| > 0 && AllDigits(s) && (s[0] != ZERO || |s| == 1)
    ensures Print(Value(s)) == s
  {
    var t := s[..|s| - 1];
    if |s| > 1 {
      PrintOfValue(t);
      LeadingDigitBound(t);
      assert Value(s) / 10 == Value(t) && Value(s) % 10 == s[|s| - 1] - ZERO;
      assert s == t + [s[|s| - 1]];
    } else {
      assert t == [];
    }
  }

  lemma {:induction false} LeadingDigitBound(s: Bytes)
    requires |s| > 0 && AllDigits(s) && s[0] != ZERO
    ensures Value(s) >= Pow10(|s| - 1) >= 1
  {
    if |s| > 1 { LeadingDigitBound(s[..|s| - 1]); }
    else { assert s[..0] == []; }
  }

  lemma {:induction false} ValueOfPrefix(s: Bytes, k: nat)
    requires AllDigits(s) && k <= |s|
    ensures Value(s[..k]) <= Value(s)
  {
    if k < |s| {
      var t := s[..|s| - 1];
      ValueOfPrefix(t, k);
      assert t[..k] == s[..k];
    } else {
      assert s[..k] == s;
    }
  }

  /**
   * convert_positive_string_to_number: accepts exactly the digit strings (the
   * empty one included) and wraps modulo 2^64.
   */
  method ConvertPositive(s: Bytes) returns (number: Option<nat>)
    ensures number == Positive(s)
  {
    var n: nat := 0;
    for i := 0 to |s|
      invariant AllDigits(s[..i])
      invariant n == Value(s[..i]) % TWO64
    {
      if !IsDigit(s[i]) { return None; }
      assert s[..i + 1][..i] == s[..i];
      WrapStep(Value(s[..i]), s[i] - ZERO);
      n := (n * 10 + (s[i] - ZERO)) % TWO64;
    }
    assert s[..|s|] == s;
    return Some(n);
  }

  function Positive(s: Bytes): Option<nat> {
    if AllDigits(s) then Some(Value(s) % TWO64) else None
  }

  lemma WrapStep(v: nat, d: nat)
    ensures (v % TWO64 * 10 + d) % TWO64 == (v * 10 + d) % TWO64
  {
    var q, r := v / TWO64, v % TWO64;
    assert v * 10 + d == (r * 10 + d) + (q * 10) * TWO64;
    ModShift(r * 10 + d, q * 10);
  }

  lemma {:induction false} ModShift(x: nat, k: nat)
    ensures (x + k * TWO64) % TWO64 == x % TWO64
    decreases k
  {
    if k > 0 {
      ModShift(x, k - 1);
      assert x + k * TWO64 == (x + (k - 1) * TWO64) + TWO64;
    }
  }

  lemma PositiveOfPrint(n: nat)
    requires n <= UINT64_MAX
    ensures Positive(Print(n)) == Some(n)
  {
    hide Print, Value, AllDigits;
    PrintIsCanonical(n);
  }

  /** What lpStringToInt64 accepts, spelled out on the text. */
  function Int64Of(s: Bytes): Option<int> {
    if s == [ZERO] then Some(0)
    else
      var negative := |s| > 0 && s[0] == MINUS;
      var d := if negative then s[1..] else s;
      if |d| == 0 || d[0] == ZERO || !AllDigits(d) then None
      else if negative then (if 0 - Value(d) >= INT64_MIN then Some(0 - Value(d)) else None)
      else if Value(d) <= INT64_MAX then Some(Value(d)) else None
  }

  /** Exactly the canonical decimals of signed 64-bit integers are accepted. */
  lemma Int64OfIsCanonical(s: Bytes, v: int)
    ensures Int64Of(s) == Some(v) <==> INT64_MIN <= v <= INT64_MAX && s == PrintInt(v)
  {
    if Int64Of(s) == Some(v) { AcceptedIsPrinted(s, v); }
    if INT64_MIN <= v <= INT64_MAX && s == PrintInt(v) { PrintedIsAccepted(v); }
  }

  lemma AcceptedIsPrinted(s: Bytes, v: int)
    requires Int64Of(s) == Some(v)
    ensures INT64_MIN <= v <= INT64_MAX && s == PrintInt(v)
  {
    if s != [ZERO] {
      var d := if s[0] == MINUS then s[1..] else s;
      LeadingDigitBound(d);
      PrintOfValue(d);
      if s[0] == MINUS { assert s == [MINUS] + d; }
    }
  }

  lemma PrintedIsAccepted(v: int)
    requires INT64_MIN <= v <= INT64_MAX
    ensures Int64Of(PrintInt(v)) == Some(v)
  {
    if v < 0 {
      PrintIsCanonical(-v);
      assert PrintInt(v)[1..] == Print(-v);
    } else {
      PrintIsCanonical(v);
      assert PrintInt(v)[0] != MINUS;
    }
  }
}
