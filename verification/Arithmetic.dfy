/** Facts about remainders that the ring and queue models share, proved on repeated subtraction. */
module Arithmetic {
  function Rem(x: nat, d: nat): (r: nat)
    requires d > 0
    ensures r < d
  {
    if x < d then x else Rem(x - d, d)
  }

  lemma Multiple(k: nat, d: nat)
    requires k >= 1
    ensures k * d >= d
  {
  }

  lemma Distribute(a: nat, b: nat, d: nat)
    requires a <= b
    ensures b * d == a * d + (b - a) * d
  {
  }

  lemma SmallerQuotient(q: nat, r: nat, q': nat, r': nat, d: nat)
    requires r < d && r' < d && q * d + r == q' * d + r'
    ensures q >= q'
  {
    if q < q' {
      Distribute(q, q', d);
      Multiple(q' - q, d);
    }
  }

  lemma DivMod(x: nat, d: nat)
    requires d > 0
    ensures x == (x / d) * d + x % d
  {
  }

  /** Quotient and remainder are determined by `x == q * d + r`. */
  lemma DivModUnique(x: nat, d: nat, q: nat, r: nat)
    requires r < d && x == q * d + r
    ensures x / d == q && x % d == r
  {
    DivMod(x, d);
    SmallerQuotient(q, r, x / d, x % d, d);
    SmallerQuotient(x / d, x % d, q, r, d);
  }

  lemma ModLess(x: nat, d: nat)
    requires d > 0 && x >= d
    ensures x % d == (x - d) % d
  {
    DivMod(x - d, d);
    Distribute((x - d) / d, (x - d) / d + 1, d);
    DivModUnique(x, d, (x - d) / d + 1, (x - d) % d);
  }

  lemma {:induction false} RemIsMod(x: nat, d: nat)
    requires d > 0
    ensures x % d == Rem(x, d)
  {
    if x >= d {
      ModLess(x, d);
      RemIsMod(x - d, d);
    }
  }

  lemma {:induction false} RemNext(x: nat, d: nat)
    requires d > 0
    ensures Rem(x + 1, d) == if Rem(x, d) + 1 == d then 0 else Rem(x, d) + 1
  {
    if x >= d { RemNext(x - d, d); }
  }

  lemma {:induction false} RemDistinct(x: nat, y: nat, d: nat)
    requires x < y < x + d
    ensures Rem(x, d) != Rem(y, d)
  {
    if x >= d { RemDistinct(x - d, y - d, d); }
  }

  lemma {:induction false} RemRem(x: nat, d: nat)
    requires d > 0
    ensures Rem(Rem(x, 2 * d), d) == Rem(x, d)
  {
    if x >= 2 * d {
      RemRem(x - 2 * d, d);
      assert Rem(x, d) == Rem(x - d, d) == Rem(x - 2 * d, d);
    }
  }

  lemma {:induction false} RemPlus(x: nat, k: nat, d: nat)
    requires k < d
    ensures Rem(x + k, d) == if Rem(x, d) + k < d then Rem(x, d) + k else Rem(x, d) + k - d
  {
    if x >= d {
      RemPlus(x - d, k, d);
      assert Rem(x + k, d) == Rem(x + k - d, d);
    }
  }
}
