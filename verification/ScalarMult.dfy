/** Scalar multiplication over an arbitrary commutative group. */
module ScalarMult {
  import opened Machine
  import opened Bits
  import opened AbelianGroup
  import Slide

  /** The sum of both recoded digit strings from position i up, as multiples of a and b. */
  ghost function Partial<G(!new)>(g: Group<G>, s: seq<int>, t: seq<int>, i: nat, a: G, b: G): G
    requires i <= |s| == |t|
  {
    g.add(Times(g, Slide.Sum(s, i), a), Times(g, Slide.Sum(t, i), b))
  }

  lemma PartialStep<G(!new)>(g: Group<G>, s: seq<int>, t: seq<int>, i: nat, a: G, b: G)
    requires Abelian(g) && i < |s| == |t|
    ensures var r := Partial(g, s, t, i + 1, a, b);
            Partial(g, s, t, i, a, b) == g.add(g.add(g.add(r, r), Times(g, s[i], a)), Times(g, t[i], b))
  {
    hide Abelian, Times, Slide.Sum;
    var m, n := Slide.Sum(s, i + 1), Slide.Sum(t, i + 1);
    Slide.SumStep(s, i);
    Slide.SumStep(t, i);
    var x, y, u, v := Times(g, m, a), Times(g, n, b), Times(g, s[i], a), Times(g, t[i], b);
    TimesAdd(g, m, m, a);
    TimesAdd(g, n, n, b);
    TimesAdd(g, 2 * m, s[i], a);
    TimesAdd(g, 2 * n, t[i], b);
    Shuffle(g, x, y, x, y);
    Shuffle(g, g.add(x, x), g.add(y, y), u, v);
    Laws(g, g.add(g.add(x, x), g.add(y, y)), u, v);
  }

  /** table[k] = (2 k + 1) x: x, 3x, 5x, ..., 15x. */
  ghost predicate OddMultiples<G(!new)>(g: Group<G>, table: seq<G>, x: G) {
    |table| == 8 && forall k | 0 <= k < 8 :: table[k] == Times(g, 2 * k + 1, x)
  }

  // p + digit x by table lookup; a digit of zero adds nothing
  method AddDigit<G(!new)>(g: Group<G>, p: G, digit: int, table: seq<G>, ghost x: G) returns (r: G)
    requires Abelian(g) && OddMultiples(g, table, x) && Slide.Digit(digit)
    ensures r == g.add(p, Times(g, digit, x))
  {
    hide Abelian, Times;
    if digit > 0 {
      assert 2 * (digit / 2) + 1 == digit;
      r := g.add(p, table[digit / 2]);
    } else if digit < 0 {
      assert 2 * (-digit / 2) + 1 == -digit;
      TimesNeg(g, -digit, x);
      r := g.add(p, g.neg(table[-digit / 2]));
    } else {
      r := p;
      TimesNothing(g, x);
      Laws(g, p, p, p);
    }
  }

  // A, 3A, 5A, ..., 15A
  method FillTable<G(!new)>(g: Group<G>, a: G) returns (table: seq<G>)
    requires Abelian(g)
    ensures OddMultiples(g, table, a)
  {
    hide Abelian, Times;
    var twice := g.add(a, a);
    table := [a];
    TimesOne(g, a);
    TimesAdd(g, 1, 1, a);
    var i := 0;
    while i < 7
      invariant 0 <= i <= 7 && |table| == i + 1
      invariant forall k | 0 <= k <= i :: table[k] == Times(g, 2 * k + 1, a)
    {
      TimesAdd(g, 2, 2 * i + 1, a);
      table := table + [g.add(twice, table[i])];
      i := i + 1;
    }
  }

  /** The integer that the digits of slide stand for. */
  ghost function Recoded(n: nat): int {
    n - (if Slide.Lost(n, 256) then Pow2(256) else 0)
  }

  lemma RecodedSmall(n: nat)
    ensures n < Pow2(255) ==> Recoded(n) == n
  {
    hide Pow2, Slide.Lost;
    if n < Pow2(255) {
      Slide.BelowHalf(n);
    }
  }

  /** r = a A + b B for scalars below 2^255, in general for those that both recodings stand for; bi holds B, 3B,
      ..., 15B. */
  method DoubleScalarMult<G(!new)>(g: Group<G>, a: array<byte>, A: G, b: array<byte>, bi: seq<G>, ghost B: G)
          returns (r: G)
    requires Abelian(g) && a.Length == 32 && b.Length == 32 && OddMultiples(g, bi, B)
    ensures r == g.add(Times(g, Recoded(Le(a[..])), A), Times(g, Recoded(Le(b[..])), B))
    ensures Le(a[..]) < Pow2(255) && Le(b[..]) < Pow2(255) ==>
              r == g.add(Times(g, Le(a[..]), A), Times(g, Le(b[..]), B))
  {
    hide Abelian, Times, Partial, Slide.Sum, Slide.Lost, Slide.Recoded, OddMultiples, Le, Pow2;
    ghost var m, n := Le(a[..]), Le(b[..]);
    var aSlide, bSlide := new int[256], new int[256];
    Slide.Recode(aSlide, a);
    ghost var s := aSlide[..];
    Slide.Recode(bSlide, b);
    assert aSlide[..] == s;
    var Ai := FillTable(g, A);
    r := Evaluate(g, aSlide, bSlide, Ai, bi, A, B);
    WholeSum(g, s, bSlide[..], m, n, A, B);
  }

  lemma WholeSum<G(!new)>(g: Group<G>, s: seq<int>, t: seq<int>, m: nat, n: nat, a: G, b: G)
    requires |s| == |t| == 256
    requires Slide.Sum(s, 0) == m - (if Slide.Lost(m, 256) then Pow2(256) else 0)
    requires Slide.Sum(t, 0) == n - (if Slide.Lost(n, 256) then Pow2(256) else 0)
    ensures Partial(g, s, t, 0, a, b) == g.add(Times(g, Recoded(m), a), Times(g, Recoded(n), b))
    ensures m < Pow2(255) && n < Pow2(255) ==> Partial(g, s, t, 0, a, b) == g.add(Times(g, m, a), Times(g, n, b))
  {
    hide Times, Slide.Sum, Slide.Lost, Pow2;
    RecodedSmall(m);
    RecodedSmall(n);
  }

  // both digit strings, from the top down
  method Evaluate<G(!new)>(g: Group<G>, aSlide: array<int>, bSlide: array<int>, Ai: seq<G>, bi: seq<G>, ghost A: G,
                           ghost B: G)
      returns (r: G)
    requires Abelian(g) && OddMultiples(g, Ai, A) && OddMultiples(g, bi, B)
    requires aSlide.Length == 256 && bSlide.Length == 256
    requires Slide.Recoded(aSlide[..], 256) && Slide.Recoded(bSlide[..], 256)
    ensures r == Partial(g, aSlide[..], bSlide[..], 0, A, B)
  {
    hide Abelian, Times, Slide.Sum, OddMultiples, Partial;
    ghost var s, t := aSlide[..], bSlide[..];
    var i := TopDigit(aSlide, bSlide);
    r := g.zero;
    PartialZero(g, s, t, i + 1, A, B);
    while i >= 0
      invariant -1 <= i <= 255
      invariant r == Partial(g, s, t, i + 1, A, B)
      decreases i
    {
      assert Slide.Digit(s[i]) && Slide.Digit(t[i]);
      var u := g.add(r, r);
      u := AddDigit(g, u, aSlide[i], Ai, A);
      u := AddDigit(g, u, bSlide[i], bi, B);
      PartialStep(g, s, t, i, A, B);
      r := u;
      i := i - 1;
    }
  }

  // the highest position with a digit in either string
  method TopDigit(aSlide: array<int>, bSlide: array<int>) returns (i: int)
    requires aSlide.Length == 256 && bSlide.Length == 256
    ensures -1 <= i <= 255 && Slide.Sum(aSlide[..], i + 1) == 0 && Slide.Sum(bSlide[..], i + 1) == 0
    ensures forall k | i < k < 256 :: aSlide[k] == 0 && bSlide[k] == 0
  {
    hide Slide.Sum;
    ghost var s, t := aSlide[..], bSlide[..];
    i := 255;
    Slide.AllZero(s, 256);
    Slide.AllZero(t, 256);
    while i >= 0
      invariant -1 <= i <= 255
      invariant Slide.Sum(s, i + 1) == 0 && Slide.Sum(t, i + 1) == 0
      invariant forall k | i < k < 256 :: aSlide[k] == 0 && bSlide[k] == 0
      decreases i
    {
      if aSlide[i] != 0 || bSlide[i] != 0 {
        break;
      }
      Slide.SumStep(s, i);
      Slide.SumStep(t, i);
      i := i - 1;
    }
  }

  lemma PartialZero<G(!new)>(g: Group<G>, s: seq<int>, t: seq<int>, i: nat, a: G, b: G)
    requires Abelian(g) && i <= |s| == |t| && Slide.Sum(s, i) == 0 && Slide.Sum(t, i) == 0
    ensures Partial(g, s, t, i, a, b) == g.zero
  {
    hide Abelian, Times;
    TimesNothing(g, a);
    TimesNothing(g, b);
    Laws(g, g.zero, a, b);
  }
}
