/** Powers of ten from a table or a loop (utils/math.go). */
module TenPowers {
  import opened BigDecimal

  const MAX_INT64 := 9_223_372_036_854_775_807

  const TABLE: seq<int> := [
    1, 10, 100, 1000, 10000, 100000, 1000000, 10000000, 100000000, 1000000000,
    10000000000, 100000000000, 1000000000000, 10000000000000, 100000000000000,
    1000000000000000, 10000000000000000, 100000000000000000, 1000000000000000000]

  function TenTo(n: nat): (p: nat)
    ensures p >= 1 && (n > 0 ==> p >= 10)
  {
    if n == 0 then 1 else 10 * TenTo(n - 1)
  }

  lemma {:induction false} TableHoldsPowers(n: nat)
    requires n <= 18
    ensures TABLE[n] == TenTo(n)
  {
    if n > 0 {
      TableHoldsPowers(n - 1);
      assert TABLE[n] == 10 * TABLE[n - 1];
    }
  }

  /**
   Pow10. The argument is a 64-bit unsigned number, but the loop bound is its
   signed conversion, so from 2^63 on the loop does not run: the result is the
   power of ten exactly below that.
   */
  method Pow10(decimal: nat) returns (value: int)
    requires decimal <= 2 * MAX_INT64 + 1
    ensures value == TenTo(decimal) * BIG <==> decimal <= 9_223_372_036_854_775_807
    ensures decimal > 9_223_372_036_854_775_807 ==> value == BIG
  {
    if decimal <= 18 {
      TableHoldsPowers(decimal);
      return TABLE[decimal] * BIG;
    }
    var signed: int := if decimal > MAX_INT64 then decimal - 2 * MAX_INT64 - 2 else decimal;
    value := BIG;
    var i := 0;
    while i < signed
      invariant 0 <= i && (signed >= 0 ==> i <= signed) && (signed < 0 ==> i == 0)
      invariant value == TenTo(i) * BIG
    {
      value := value * 10;
      i := i + 1;
    }
  }
}
