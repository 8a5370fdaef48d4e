/** Duration casts: time is counted in nanoseconds, and a cast to a coarser unit truncates toward zero. */
module Durations {

  const NANOS_PER_MILLI := 1_000_000
  const NANOS_PER_SECOND := 1_000_000_000

  function TruncDiv(a: int, b: int): int
    requires b > 0
  {
    if a >= 0 then a / b else -(-a / b)
  }

  lemma TruncDivMonotone(a: int, b: int, d: int)
    requires a <= b && d > 0
    ensures TruncDiv(a, d) <= TruncDiv(b, d)
  {
    if a >= 0 {
      DivMonotone(a, b, d);
    } else if b < 0 {
      DivMonotone(-b, -a, d);
    } else {
      DivMonotone(0, b, d);
      DivMonotone(0, -a, d);
    }
  }

  lemma DivMonotone(a: int, b: int, d: int)
    requires a <= b && d > 0
    ensures a / d <= b / d
  {
    var q := b / d - a / d;
    assert d * q == d * (b / d) - d * (a / d);
    AboveMinusOne(q, d);
  }

  lemma AboveMinusOne(q: int, d: int)
    requires d > 0 && d * q > -d
    ensures q >= 0
  {
  }
}
