/** Facts about quotients and remainders used by the address arithmetic. */
module Modular {
  /** A multiple of d within d of zero is zero. */
  lemma SmallMultiple(d: int, q: int)
    requires d > 0
    ensures -d < d * q < d ==> q == 0
  {
  }

  /** Quotient and remainder are unique. */
  lemma DivModUnique(x: int, d: int, q: int, r: int)
    requires d > 0 && x == d * q + r && 0 <= r < d
    ensures x / d == q && x % d == r
  {
    assert x == d * (x / d) + x % d;
    assert d * (q - x / d) == x % d - r;
    SmallMultiple(d, q - x / d);
  }

  lemma SameMod(x: int, y: int, d: int)
    requires d > 0
    ensures x % d == y % d <==> (y - x) % d == 0
  {
    assert x == d * (x / d) + x % d;
    assert y == d * (y / d) + y % d;
    if x % d == y % d {
      assert y - x == d * (y / d - x / d) + 0;
      DivModUnique(y - x, d, y / d - x / d, 0);
    }
    if (y - x) % d == 0 {
      var q := (y - x) / d;
      assert y - x == d * q;
      assert y == d * (x / d + q) + x % d;
      DivModUnique(y, d, x / d + q, x % d);
    }
  }

  lemma MultipleGap(x: int, y: int, d: int)
    requires d > 0 && x % d == 0 && y % d == 0 && x < y
    ensures x + d <= y
  {
    assert y - x == d * (y / d - x / d);
    if y - x < d { SmallMultiple(d, y / d - x / d); }
  }

  lemma ModRest(x: int, d: int)
    requires d > 0
    ensures (x - x % d) % d == 0
  {
    assert x - x % d == d * (x / d) + 0;
    DivModUnique(x - x % d, d, x / d, 0);
  }

  lemma ModSum(x: int, y: int, d: int)
    requires d > 0 && x % d == 0
    ensures (x + y) % d == y % d && (y - x) % d == y % d
  {
    assert y == d * (y / d) + y % d && x == d * (x / d);
    DivModUnique(x + y, d, x / d + y / d, y % d);
    DivModUnique(y - x, d, y / d - x / d, y % d);
  }

  lemma NotNegative(d: int, q: int)
    requires d > 0
    ensures d * q > -d ==> q >= 0
  {
  }

  lemma DivMono(x: nat, y: nat, d: nat)
    requires x <= y && d > 0
    ensures x / d <= y / d
  {
    assert x == d * (x / d) + x % d && y == d * (y / d) + y % d;
    assert d * (y / d - x / d) == y - y % d - (x - x % d);
    NotNegative(d, y / d - x / d);
  }

  lemma DivSmaller(x: nat, d: nat)
    requires d > 0
    ensures x / d <= x
  {
    assert x == d * (x / d) + x % d;
    NotNegative(x / d + 1, d - 1);
    assert d * (x / d) == x / d + (d - 1) * (x / d);
  }

  lemma LessFactor(x: int, y: int, d: int)
    requires d > 0
    ensures x * d < y * d <==> x < y
  {
  }

  lemma DivShift(x: int, d: int, k: int)
    requires d > 0
    ensures (d * k + x) / d == k + x / d && (d * k + x) % d == x % d
  {
    assert x == d * (x / d) + x % d;
    assert d * k + x == d * (k + x / d) + x % d;
    DivModUnique(d * k + x, d, k + x / d, x % d);
  }

  /** A remainder by d * k leaves the remainder by d as it is. */
  lemma ModMod(x: int, d: int, k: int)
    requires d > 0 && k > 0 && d * k > 0
    ensures x % (d * k) % d == x % d
  {
    var q, r := x / (d * k), x % (d * k);
    assert x == d * k * q + r;
    assert d * k * q == d * (k * q);
    DivShift(r, d, k * q);
  }
}
