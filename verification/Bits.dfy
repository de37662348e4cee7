/** Bits of natural numbers. */
module BitSets {
  import opened Prim

  function Pow2(n: nat): (p: nat)
    ensures p > 0
  {
    if n == 0 then 1 else 2 * Pow2(n - 1)
  }

  lemma PowersAgree(size: nat)
    ensures Pow2(size * 8) == Pow256(size)
  {
    if size > 0 {
      PowersAgree(size - 1);
      assert Pow2(size * 8) == 2 * Pow2(size * 8 - 1) == 4 * Pow2(size * 8 - 2) == 8 * Pow2(size * 8 - 3) == 16 * Pow2(size * 8 - 4);
      assert Pow2(size * 8 - 4) == 2 * Pow2(size * 8 - 5) == 4 * Pow2(size * 8 - 6) == 8 * Pow2(size * 8 - 7) == 16 * Pow2(size * 8 - 8);
    }
  }

  predicate Bit(set_: nat, i: nat) {
    if i == 0 then set_ % 2 == 1 else Bit(set_ / 2, i - 1)
  }

  /** `set | 1 << i`. */
  function SetBit(set_: nat, i: nat): nat
    decreases i
  {
    if i == 0 then set_ / 2 * 2 + 1 else SetBit(set_ / 2, i - 1) * 2 + set_ % 2
  }

  lemma {:induction false} SetBitBits(s: nat, i: nat, j: nat)
    ensures Bit(SetBit(s, i), j) <==> j == i || Bit(s, j)
    decreases i
  {
    var t := SetBit(s, i);
    if i == 0 {
      assert t % 2 == 1 && t / 2 == s / 2;
    } else {
      assert t % 2 == s % 2 && t / 2 == SetBit(s / 2, i - 1);
      if j > 0 {
        SetBitBits(s / 2, i - 1, j - 1);
      }
    }
  }

  lemma {:induction false} SetBitBound(s: nat, i: nat, n: nat)
    requires s < Pow2(n) && i < n
    ensures SetBit(s, i) < Pow2(n)
    decreases i
  {
    if i > 0 {
      SetBitBound(s / 2, i - 1, n - 1);
    }
  }

  ghost predicate AllBits(s: nat, n: nat) {
    forall i: nat | i < n :: Bit(s, i)
  }

  lemma AllBitsHalf(s: nat, n: nat)
    requires n > 0
    ensures AllBits(s, n) <==> s % 2 == 1 && AllBits(s / 2, n - 1)
  {
    if AllBits(s, n) {
      assert Bit(s, 0);
      forall i: nat | i < n - 1
        ensures Bit(s / 2, i)
      {
        assert Bit(s, i + 1);
      }
    } else {
      var i: nat :| i < n && !Bit(s, i);
      assert i > 0 ==> !Bit(s / 2, i - 1);
    }
  }

  /** Among the sets of `n` bits, the full one is the one with every bit. */
  lemma {:induction false} FullSet(s: nat, n: nat)
    requires s < Pow2(n)
    ensures s == Pow2(n) - 1 <==> AllBits(s, n)
    decreases n
  {
    if n > 0 {
      FullSet(s / 2, n - 1);
      AllBitsHalf(s, n);
    }
  }

  lemma {:induction false} NoBits(i: nat)
    ensures !Bit(0, i)
  {
    if i > 0 {
      NoBits(i - 1);
    }
  }

  /** Bit `i` is the digit of weight 2^i. */
  lemma {:induction false} BitValue(s: nat, i: nat)
    ensures Bit(s, i) <==> s / Pow2(i) % 2 == 1
    decreases i
  {
    if i == 0 {
      assert s / Pow2(0) == s;
    } else {
      BitValue(s / 2, i - 1);
      HalvesFirst(s, Pow2(i - 1));
    }
  }

  lemma HalvesFirst(s: nat, p: nat)
    requires p > 0
    ensures s / 2 / p == s / (2 * p)
  {
    var m, t := s / 2, s % 2;
    var q, r := m / p, m % p;
    assert m == q * p + r && s == 2 * m + t;
    assert s == q * (2 * p) + (2 * r + t);
    DivUnique(s, 2 * p, q, 2 * r + t);
  }

  lemma Pow2Grows(a: nat, b: nat)
    requires a < b
    ensures Pow2(a) < Pow2(b)
  {
    if a < b - 1 {
      Pow2Grows(a, b - 1);
    }
  }
}
