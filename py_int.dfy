/**
 * Python's `&` on non-negative integers. flash-fuse-imx.py reads registers with
 * `int(text, 16)`, so register values are unbounded; the bitwise operations on
 * them are stated here bit by bit.
 */
module PyInt {

  /** `a & b`, one bit at a time from the least significant end. */
  function And(a: nat, b: nat): (r: nat)
    ensures r <= a && r <= b
    decreases a
  {
    if a == 0 || b == 0 then 0 else 2 * And(a / 2, b / 2) + (a % 2) * (b % 2)
  }

  /** Bit `k` of `a` is set. */
  predicate BitOf(a: nat, k: nat)
    decreases k
  {
    if k == 0 then a % 2 == 1 else BitOf(a / 2, k - 1)
  }

  /** A bit of `a & b` is set exactly when it is set in both. */
  lemma {:induction false} AndBit(a: nat, b: nat, k: nat)
    ensures BitOf(And(a, b), k) <==> BitOf(a, k) && BitOf(b, k)
    decreases k
  {
    var r := And(a, b);
    if a == 0 || b == 0 {
      ZeroBits(k);
      if a == 0 { ZeroBits(k); assert !BitOf(a, k); } else { assert !BitOf(b, k); }
    } else {
      assert r / 2 == And(a / 2, b / 2) && r % 2 == (a % 2) * (b % 2);
      if k > 0 {
        AndBit(a / 2, b / 2, k - 1);
      }
    }
  }

  /** Zero has no bit set. */
  lemma {:induction false} ZeroBits(k: nat)
    ensures !BitOf(0, k)
    decreases k
  {
    if k > 0 {
      ZeroBits(k - 1);
    }
  }

  /** Two integers with the same bits are equal. */
  lemma {:induction false} SameBits(x: nat, y: nat)
    requires forall k: nat :: BitOf(x, k) <==> BitOf(y, k)
    ensures x == y
    decreases x + y
  {
    assert BitOf(x, 0) <==> BitOf(y, 0);
    if x + y > 0 {
      forall k: nat
        ensures BitOf(x / 2, k) <==> BitOf(y / 2, k)
      {
        assert BitOf(x, k + 1) <==> BitOf(y, k + 1);
      }
      SameBits(x / 2, y / 2);
    }
  }

  /** Every bit of `m` is set in `a`. */
  ghost predicate Covers(a: nat, m: nat)
  {
    forall k: nat :: BitOf(m, k) ==> BitOf(a, k)
  }

  /** `a & m == m` holds exactly when every bit of `m` is set in `a`. */
  lemma AndCovers(a: nat, m: nat)
    ensures And(a, m) == m <==> Covers(a, m)
  {
    forall k: nat
      ensures BitOf(And(a, m), k) <==> BitOf(a, k) && BitOf(m, k)
    {
      AndBit(a, m, k);
    }
    if Covers(a, m) {
      SameBits(And(a, m), m);
    } else {
      var k: nat :| BitOf(m, k) && !BitOf(a, k);
      assert !BitOf(And(a, m), k);
    }
  }

  /** `a & m` is non-zero exactly when `a` and `m` share a set bit. */
  lemma AndMeets(a: nat, m: nat)
    ensures And(a, m) != 0 <==> exists k: nat :: BitOf(a, k) && BitOf(m, k)
  {
    if And(a, m) != 0 {
      var k := LowestBit(And(a, m));
      AndBit(a, m, k);
    } else {
      forall k: nat
        ensures !(BitOf(a, k) && BitOf(m, k))
      {
        AndBit(a, m, k);
        ZeroBits(k);
      }
    }
  }

  /** A set bit of a non-zero integer. */
  lemma {:induction false} LowestBit(x: nat) returns (k: nat)
    requires x != 0
    ensures BitOf(x, k)
    decreases x
  {
    if x % 2 == 1 {
      k := 0;
    } else {
      var j := LowestBit(x / 2);
      k := j + 1;
    }
  }

  function Pow2(k: nat): (p: nat)
    ensures p >= 1
  {
    if k == 0 then 1 else 2 * Pow2(k - 1)
  }

  /** `2^j` has bit `j` set and no other. */
  lemma {:induction false} Pow2Bits(j: nat, k: nat)
    ensures BitOf(Pow2(j), k) <==> j == k
    decreases j
  {
    if j == 0 {
      if k > 0 {
        assert Pow2(0) / 2 == 0;
        ZeroBits(k - 1);
      }
    } else {
      assert Pow2(j) % 2 == 0 && Pow2(j) / 2 == Pow2(j - 1);
      if k > 0 {
        Pow2Bits(j - 1, k - 1);
      }
    }
  }

  /** `a & 2^j == 2^j` exactly when bit `j` of `a` is set. */
  lemma SingleBit(a: nat, j: nat)
    ensures And(a, Pow2(j)) == Pow2(j) <==> BitOf(a, j)
  {
    AndCovers(a, Pow2(j));
    forall k: nat
      ensures BitOf(Pow2(j), k) <==> j == k
    {
      Pow2Bits(j, k);
    }
  }

  /** A mask is covered by itself: `m & m == m`. */
  lemma AndSelf(m: nat)
    ensures And(m, m) == m
  {
    AndCovers(m, m);
  }
}
