// Division and multiplication facts shared by the modules that deal out, slash and halve.
module Arithmetic {
  lemma Distribute(d: int, x: int, y: int)
    ensures d * (x - y) == d * x - d * y
  {
  }

  lemma MulMonotone(d: nat, x: int, y: int)
    requires x <= y
    ensures d * x <= d * y
  {
    Distribute(d, y, x);
    assert 0 <= d * (y - x);
  }

  lemma SmallMultiple(d: int, e: int)
    requires 0 < d && -d < d * e < d
    ensures e == 0
  {
    if e >= 1 {
      MulMonotone(d, 1, e);
    } else if e <= -1 {
      MulMonotone(d, e, -1);
    }
  }

  lemma DivBounds(a: int, d: nat)
    requires d > 0
    ensures d * (a / d) <= a < d * (a / d) + d
  {
  }

  lemma Quotient(a: int, d: nat, q: int)
    requires d > 0 && d * q <= a < d * q + d
    ensures a / d == q
  {
    DivBounds(a, d);
    Distribute(d, a / d, q);
    SmallMultiple(d, a / d - q);
  }

  lemma DivMonotone(a: int, b: int, d: nat)
    requires a <= b && d > 0
    ensures a / d <= b / d
  {
    DivBounds(a, d);
    DivBounds(b, d);
    if a / d > b / d {
      MulMonotone(d, b / d + 1, a / d);
    }
  }
}
