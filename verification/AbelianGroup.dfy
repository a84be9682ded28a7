/** Integer multiples in an arbitrary commutative group, written additively. */
module AbelianGroup {

  datatype Group<!G(!new)> = Group(add: (G, G) -> G, neg: G -> G, zero: G)

  ghost predicate Abelian<G(!new)>(g: Group<G>) {
    && (forall x, y, z :: g.add(g.add(x, y), z) == g.add(x, g.add(y, z)))
    && (forall x, y :: g.add(x, y) == g.add(y, x))
    && (forall x :: g.add(x, g.zero) == x)
    && (forall x :: g.add(x, g.neg(x)) == g.zero)
  }

  lemma Laws<G(!new)>(g: Group<G>, x: G, y: G, z: G)
    requires Abelian(g)
    ensures g.add(g.add(x, y), z) == g.add(x, g.add(y, z))
    ensures g.add(x, y) == g.add(y, x)
    ensures g.add(x, g.zero) == x && g.add(g.zero, x) == x
    ensures g.add(x, g.neg(x)) == g.zero
  {
  }

  /** (x + y) + (z + w) == (x + z) + (y + w) */
  lemma Shuffle<G(!new)>(g: Group<G>, x: G, y: G, z: G, w: G)
    requires Abelian(g)
    ensures g.add(g.add(x, y), g.add(z, w)) == g.add(g.add(x, z), g.add(y, w))
  {
    hide Abelian;
    Laws(g, x, y, g.add(z, w));
    Laws(g, y, z, w);
    Laws(g, z, y, w);
    Laws(g, x, z, g.add(y, w));
  }

  /** n x for any integer n. */
  ghost function Times<G(!new)>(g: Group<G>, n: int, x: G): G
    decreases n < 0, if n < 0 then -n else n
  {
    if n == 0 then g.zero
    else if n > 0 then g.add(Times(g, n - 1, x), x)
    else g.neg(Times(g, -n, x))
  }

  /** An element is determined by what it adds to give zero. */
  lemma NegUnique<G(!new)>(g: Group<G>, x: G, y: G)
    requires Abelian(g) && g.add(x, y) == g.zero
    ensures y == g.neg(x)
  {
    hide Abelian;
    Laws(g, x, y, g.neg(x));
    Laws(g, y, x, g.neg(x));
    Laws(g, g.neg(x), x, x);
  }

  lemma {:induction false} TimesStep<G(!new)>(g: Group<G>, n: int, x: G)
    requires Abelian(g)
    ensures Times(g, n + 1, x) == g.add(Times(g, n, x), x)
  {
    hide Abelian;
    if n < 0 {
      var m := Times(g, -n - 1, x);
      assert Times(g, -n, x) == g.add(m, x);
      // n x = -(m + x), so n x + x = -m
      Laws(g, m, x, g.neg(g.add(m, x)));
      Laws(g, m, g.add(x, g.neg(g.add(m, x))), x);
      Laws(g, x, g.neg(g.add(m, x)), x);
      Laws(g, g.add(m, x), x, x);
      NegUnique(g, m, g.add(x, g.neg(g.add(m, x))));
      if n == -1 {
        assert m == g.zero;
        Laws(g, g.neg(g.zero), g.zero, x);
        Laws(g, g.zero, x, x);
      }
    }
  }

  lemma {:induction false} TimesAdd<G(!new)>(g: Group<G>, m: int, n: int, x: G)
    requires Abelian(g)
    ensures Times(g, m + n, x) == g.add(Times(g, m, x), Times(g, n, x))
    decreases if n < 0 then -n else n
  {
    hide Abelian;
    if n == 0 {
      Laws(g, Times(g, m, x), x, x);
    } else if n > 0 {
      TimesAdd(g, m, n - 1, x);
      TimesStep(g, m + n - 1, x);
      Laws(g, Times(g, m, x), Times(g, n - 1, x), x);
    } else {
      TimesAdd(g, m, n + 1, x);
      TimesStep(g, m + n, x);
      TimesStep(g, n, x);
      Laws(g, Times(g, m, x), Times(g, n, x), x);
      CancelRight(g, Times(g, m + n, x), g.add(Times(g, m, x), Times(g, n, x)), x);
    }
  }

  lemma CancelRight<G(!new)>(g: Group<G>, x: G, y: G, z: G)
    requires Abelian(g) && g.add(x, z) == g.add(y, z)
    ensures x == y
  {
    hide Abelian;
    Laws(g, x, z, g.neg(z));
    Laws(g, y, z, g.neg(z));
    Laws(g, z, z, z);
  }

  lemma TimesNothing<G(!new)>(g: Group<G>, x: G)
    ensures Times(g, 0, x) == g.zero
  {
  }

  lemma TimesOne<G(!new)>(g: Group<G>, x: G)
    requires Abelian(g)
    ensures Times(g, 1, x) == x
  {
    hide Abelian;
    Laws(g, x, g.zero, x);
    TimesNothing(g, x);
  }

  lemma TimesNeg<G(!new)>(g: Group<G>, n: int, x: G)
    requires Abelian(g)
    ensures Times(g, -n, x) == g.neg(Times(g, n, x))
  {
    hide Abelian;
    TimesAdd(g, n, -n, x);
    TimesNothing(g, x);
    NegUnique(g, Times(g, n, x), Times(g, -n, x));
  }

  lemma {:induction false} TimesTimes<G(!new)>(g: Group<G>, m: int, n: nat, x: G)
    requires Abelian(g)
    ensures Times(g, n, Times(g, m, x)) == Times(g, m * n, x)
  {
    hide Abelian;
    if n > 0 {
      TimesTimes(g, m, n - 1, x);
      TimesAdd(g, m * (n - 1), m, x);
    }
  }
}
