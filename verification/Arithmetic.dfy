/** Division, powers of two and sums: the few facts about numbers the codec proofs share. */
module Arithmetic {

  function Pow2(n: nat): (p: nat)
    ensures p > 0
  {
    if n == 0 then 1 else 2 * Pow2(n - 1)
  }

  lemma {:induction false} Pow2Add(m: nat, n: nat)
    ensures Pow2(m + n) == Pow2(m) * Pow2(n)
  {
    if m > 0 {
      Pow2Add(m - 1, n);
      MulAssociates(2, Pow2(m - 1), Pow2(n));
    }
  }

  lemma {:induction false} Pow2Monotone(m: nat, n: nat)
    requires m <= n
    ensures Pow2(m) <= Pow2(n)
    decreases n
  {
    if m < n {
      Pow2Monotone(m, n - 1);
    }
  }

  lemma Pow2Of8()
    ensures Pow2(8) == 256
  {
    assert Pow2(4) == 16;
    Pow2Add(4, 4);
  }

  lemma Pow2Of24()
    ensures Pow2(24) == 0x100_0000
  {
    Pow2Of8();
    hide Pow2;
    Pow2Add(8, 8);
    Pow2Add(16, 8);
  }

  lemma MulAssociates(a: int, b: int, c: int)
    ensures a * (b * c) == (a * b) * c
  {
  }

  lemma MulMonotone(a: nat, b: int, c: int)
    requires b <= c
    ensures a * b <= a * c
  {
  }

  /** Quotient and remainder are determined by their defining equation. */
  lemma DivUnique(u: int, d: int, q: int, r: int)
    requires 0 <= r < d && u == q * d + r
    ensures u / d == q && u % d == r
  {
    var q', r' := u / d, u % d;
    assert u == q' * d + r';
    assert (q - q') * d == r' - r;
    if q - q' >= 1 {
      MulMonotone(d, 1, q - q');
    } else if q - q' <= -1 {
      MulMonotone(d, q - q', -1);
    }
  }

  /** Splitting off one factor first: dividing by `c * d` is dividing by `c`, then by `d`. */
  lemma DivSplit(u: nat, c: nat, d: nat)
    requires c > 0 && d > 0
    ensures c * d > 0
    ensures u / (c * d) == (u / c) / d
    ensures u % (c * d) == u % c + c * ((u / c) % d)
  {
    MulMonotone(c, 1, d);
    var q, r := (u / c) / d, (u / c) % d;
    assert u == c * (u / c) + u % c;
    assert u / c == q * d + r;
    calc {
      u;
      c * (q * d + r) + u % c;
      c * (q * d) + c * r + u % c;
      { assert c * (q * d) == q * (c * d) by { MulAssociates(c, q, d); MulAssociates(q, c, d); } }
      q * (c * d) + (c * r + u % c);
    }
    MulMonotone(c, r, d - 1);
    assert c * (d - 1) == c * d - c;
    DivUnique(u, c * d, q, c * r + u % c);
  }

  /** Products and shares of naturals, as atoms. */
  function Times(a: nat, b: nat): nat
  {
    a * b
  }

  function Quotient(a: nat, b: nat): nat
    requires b > 0
  {
    a / b
  }

  function Remainder(a: nat, b: nat): (r: nat)
    requires b > 0
    ensures r < b
  {
    a % b
  }

  /** Taking a number apart by a divisor and putting it together again. */
  lemma QuotientOf(h: nat, r: nat, d: nat)
    requires r < d
    ensures Quotient(Times(h, d) + r, d) == h && Remainder(Times(h, d) + r, d) == r
  {
    DivUnique(h * d + r, d, h, r);
  }

  lemma Recombine(a: nat, d: nat)
    requires d > 0
    ensures a == Times(Quotient(a, d), d) + Remainder(a, d)
  {
  }

  lemma QuotientBelow(a: nat, b: nat, d: nat)
    requires d > 0 && a < Times(b, d)
    ensures Quotient(a, d) < b
  {
    if a / d >= b {
      MulMonotone(d, b, a / d);
      assert false;
    }
  }

  lemma TimesSum(a: nat, b: nat, d: nat)
    ensures Times(a + b, d) == Times(a, d) + Times(b, d)
  {
  }

  lemma TimesAssociates(a: nat, b: nat, c: nat)
    ensures Times(a, Times(b, c)) == Times(Times(a, b), c)
  {
    MulAssociates(a, b, c);
  }

  lemma QuotientHalf(a: nat, d: nat)
    requires d > 0
    ensures Quotient(a, 2 * d) == Quotient(a, d) / 2
  {
    DivSplit(a, d, 2);
  }

  function Min(a: nat, b: nat): nat
  {
    if a < b then a else b
  }

  /** The same number over and over. */
  function Same(v: nat, n: nat): (s: seq<nat>)
    ensures |s| == n && forall i :: 0 <= i < n ==> s[i] == v
  {
    seq(n, _ => v)
  }

  function Zeros(n: nat): (s: seq<nat>)
    ensures |s| == n
  {
    seq(n, _ => 0)
  }
}
