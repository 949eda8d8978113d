/** Bits in stream order: values are packed least significant bit first, codewords most significant
    bit first. */
module BitStream {
  import opened Arithmetic
  import opened CanonicalCode

  /** `n` bits of `v`, least significant first. */
  function Lsb(v: nat, n: nat): (bits: seq<bool>)
    ensures |bits| == n
  {
    if n == 0 then [] else [v % 2 == 1] + Lsb(v / 2, n - 1)
  }

  function FromLsb(bits: seq<bool>): (v: nat)
    ensures v < Pow2(|bits|)
  {
    if bits == [] then 0 else (if bits[0] then 1 else 0) + 2 * FromLsb(bits[1..])
  }

  lemma {:induction false} LsbOfValue(bits: seq<bool>)
    ensures Lsb(FromLsb(bits), |bits|) == bits
  {
    if bits != [] {
      LsbOfValue(bits[1..]);
      var v := FromLsb(bits);
      assert v / 2 == FromLsb(bits[1..]) && (v % 2 == 1 <==> bits[0]);
    }
  }

  lemma {:induction false} ValueOfLsb(v: nat, n: nat)
    requires v < Pow2(n)
    ensures FromLsb(Lsb(v, n)) == v
  {
    if n > 0 {
      ValueOfLsb(v / 2, n - 1);
      assert Lsb(v, n)[1..] == Lsb(v / 2, n - 1);
    }
  }

  /** Low bits first, then what is above them. */
  lemma {:induction false} LsbSplits(low: nat, high: nat, m: nat, n: nat)
    requires low < Pow2(m)
    ensures Lsb(low + high * Pow2(m), m + n) == Lsb(low, m) + Lsb(high, n)
    decreases m
  {
    if m > 0 {
      var p := Pow2(m - 1);
      assert high * Pow2(m) == 2 * (high * p) by {
        MulAssociates(high, 2, p);
        MulAssociates(2, high, p);
      }
      var v := low + high * Pow2(m);
      assert v % 2 == low % 2 && v / 2 == low / 2 + high * p;
      LsbSplits(low / 2, high, m - 1, n);
      assert (m - 1) + n == m + n - 1;
      assert [low % 2 == 1] + (Lsb(low / 2, m - 1) + Lsb(high, n)) == Lsb(low, m) + Lsb(high, n);
    } else {
      assert Pow2(0) == 1;
      assert Lsb(low, 0) + Lsb(high, n) == Lsb(high, n);
    }
  }

  /** Bits above the `n` taken do not matter. */
  lemma {:induction false} LsbIgnoresHigh(low: nat, high: nat, n: nat)
    requires low < Pow2(n)
    ensures Lsb(low + high * Pow2(n), n) == Lsb(low, n)
  {
    LsbSplits(low, high, n, 0);
    assert Lsb(low, n) + Lsb(high, 0) == Lsb(low, n);
  }

  /** Dropping high-order bits of a codeword drops its first bits. */
  lemma {:induction false} MsbTail(v: nat, m: nat, n: nat)
    requires m <= n
    ensures Msb(v, n)[n - m..] == Msb(v, m)
    decreases m
  {
    if m > 0 {
      MsbTail(v / 2, m - 1, n - 1);
      var front := Msb(v / 2, n - 1);
      assert Msb(v, n) == front + [v % 2 == 1];
      assert Msb(v, n)[n - m..] == front[n - m..] + [v % 2 == 1];
    }
  }
}
