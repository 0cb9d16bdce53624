/** An abelian group in which every element has a prime order, written additively, with its scalar
    multiplication. The laws are hypotheses (Valid), not axioms. */
module Groups {
  import opened NumberTheory

  datatype Group<!P(!new, ==)> = Group(
    add: (P, P) -> P,
    neg: P -> P,
    zero: P,
    gen: P,
    order: nat)
  {
    // Each law is a predicate of its own, so that a proof uses it only where it names it.
    ghost predicate AssociatesAt(a: P, b: P, c: P) { add(add(a, b), c) == add(a, add(b, c)) }
    ghost predicate CommutesAt(a: P, b: P) { add(a, b) == add(b, a) }
    ghost predicate ZeroAt(a: P) { add(a, zero) == a }
    ghost predicate NegatesAt(a: P) { add(a, neg(a)) == zero }
    ghost predicate KilledAt(a: P) { Mul(order, a) == zero }

    ghost predicate Abelian() {
      && (forall a, b, c :: AssociatesAt(a, b, c))
      && (forall a, b :: CommutesAt(a, b))
      && (forall a :: ZeroAt(a))
      && (forall a :: NegatesAt(a))
    }

    function Mul(k: nat, p: P): P {
      if k == 0 then zero else add(p, Mul(k - 1, p))
    }

    /** An abelian group in which every element has the prime order n. */
    ghost predicate Valid() {
      && Abelian()
      && Prime(order)
      && gen != zero
      && forall p :: KilledAt(p)
    }

    lemma Assoc(a: P, b: P, c: P)
      requires Abelian()
      ensures add(add(a, b), c) == add(a, add(b, c))
    {
      assert AssociatesAt(a, b, c);
    }

    lemma Comm(a: P, b: P)
      requires Abelian()
      ensures add(a, b) == add(b, a)
    {
      assert CommutesAt(a, b);
    }

    lemma Unit(a: P)
      requires Abelian()
      ensures add(a, zero) == a && add(zero, a) == a
    {
      assert ZeroAt(a);
      Comm(a, zero);
    }

    lemma Cancel(a: P, b: P, c: P)
      requires Abelian() && add(a, b) == add(a, c)
      ensures b == c
    {
      assert NegatesAt(a);
      Comm(a, neg(a));
      Assoc(neg(a), a, b);
      Assoc(neg(a), a, c);
      Unit(b);
      Unit(c);
    }

    /** (a + b) - b is a, and (a - b) + b is a. */
    lemma AddThenSubtract(a: P, b: P)
      requires Abelian()
      ensures add(add(a, b), neg(b)) == a
      ensures add(add(a, neg(b)), b) == a
    {
      Assoc(a, b, neg(b));
      Assoc(a, neg(b), b);
      Comm(b, neg(b));
      assert NegatesAt(b);
      Unit(a);
    }

    lemma {:induction false} MulAdd(j: nat, k: nat, p: P)
      requires Abelian()
      ensures Mul(j + k, p) == add(Mul(j, p), Mul(k, p))
    {
      if j == 0 {
        Unit(Mul(k, p));
      } else {
        MulAdd(j - 1, k, p);
        Assoc(p, Mul(j - 1, p), Mul(k, p));
      }
    }

    lemma {:induction false} MulZero(k: nat)
      requires Abelian()
      ensures Mul(k, zero) == zero
    {
      if k > 0 {
        MulZero(k - 1);
        Unit(zero);
      }
    }

    lemma {:induction false} MulMul(j: nat, k: nat, p: P)
      requires Abelian()
      ensures Mul(j * k, p) == Mul(j, Mul(k, p))
    {
      if j == 0 {
      } else {
        MulMul(j - 1, k, p);
        assert j * k == k + (j - 1) * k;
        MulAdd(k, (j - 1) * k, p);
      }
    }

    lemma MulMod(k: nat, p: P)
      requires Valid()
      ensures Mul(k, p) == Mul(k % order, p)
    {
      var q, r := k / order, k % order;
      assert k == q * order + r;
      MulAdd(q * order, r, p);
      MulMul(q, order, p);
      assert KilledAt(p);
      MulZero(q);
      Unit(Mul(r, p));
    }

    lemma MulCongruent(j: nat, k: nat, p: P)
      requires Valid() && j % order == k % order
      ensures Mul(j, p) == Mul(k, p)
    {
      MulMod(j, p);
      MulMod(k, p);
    }

    lemma MulOne(p: P)
      requires Abelian()
      ensures Mul(1, p) == p
    {
      assert Mul(1, p) == add(p, Mul(0, p));
      Unit(p);
    }

    lemma InverseOf(k: nat) returns (i: nat)
      requires Valid() && 0 < k < order
      ensures (i * k) % order == 1
    {
      i := Inverse(k, order);
      assert i * k == k * i;
    }

    /** Multiplication by a scalar that is not a multiple of the order kills only zero. */
    lemma NoTorsion(k: nat, p: P)
      requires Valid() && 0 < k < order && Mul(k, p) == zero
      ensures p == zero
    {
      hide Group.Mul;
      var i := InverseOf(k);
      MulMul(i, k, p);
      MulZero(i);
      MulMod(i * k, p);
      MulOne(p);
    }

    /** Equal multiples of a non-zero element come from equal scalars. */
    lemma MulInjective(j: nat, k: nat, p: P)
      requires Valid() && p != zero && j < order && k < order && Mul(j, p) == Mul(k, p)
      ensures j == k
    {
      var lo, hi := if j <= k then j else k, if j <= k then k else j;
      MulAdd(lo, hi - lo, p);
      Unit(Mul(lo, p));
      Cancel(Mul(lo, p), Mul(hi - lo, p), zero);
      if lo < hi { NoTorsion(hi - lo, p); }
    }

    lemma {:induction false} MulOfSum(k: nat, p: P, q: P)
      requires Abelian()
      ensures Mul(k, add(p, q)) == add(Mul(k, p), Mul(k, q))
    {
      if k == 0 {
        Unit(zero);
      } else {
        MulOfSum(k - 1, p, q);
        Interchange(p, q, Mul(k - 1, p), Mul(k - 1, q));
      }
    }

    lemma Interchange(a: P, b: P, c: P, d: P)
      requires Abelian()
      ensures add(add(a, b), add(c, d)) == add(add(a, c), add(b, d))
    {
      Assoc(a, b, add(c, d));
      Assoc(b, c, d);
      Comm(b, c);
      Assoc(c, b, d);
      Assoc(a, c, add(b, d));
    }
  }
}
