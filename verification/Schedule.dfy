/**
 * The order in which the scalar multiplications of group.go double and add, over any doubling and adding: what the run
 * keeps, and what it computes when the results stand for elements of a group.
 */
module Schedule {
  import opened Bits
  import opened AbelianGroup
  import Slide
  import ScalarMult
  import BaseMult

  /** Formulas on the coordinates of points. */
  datatype Formulas<!T(!new)> = Formulas(plus: (T, T) -> T, double: T -> T, negated: T -> T, identity: T)

  /** The formulas lead from points with the property to points with the property. */
  ghost predicate Keeps<T(!new)>(f: Formulas<T>, c: T -> bool) {
    c(f.identity)
    && (forall p, q {:trigger f.plus(p, q)} :: c(p) && c(q) ==> c(f.plus(p, q)))
    && (forall p {:trigger f.double(p)} :: c(p) ==> c(f.double(p)))
    && (forall p {:trigger f.negated(p)} :: c(p) ==> c(f.negated(p)))
  }

  lemma KeepsStep<T(!new)>(f: Formulas<T>, c: T -> bool, p: T, q: T)
    requires Keeps(f, c) && c(p) && c(q)
    ensures c(f.identity) && c(f.plus(p, q)) && c(f.double(p)) && c(f.negated(p))
  {
  }

  ghost predicate All<T(!new)>(points: seq<T>, c: T -> bool) {
    forall k | 0 <= k < |points| :: c(points[k])
  }

  // ---- both scalars at once ----

  /** p + n x, when table holds x, 3x, ..., 15x. */
  function PlusDigit<T(!new)>(f: Formulas<T>, p: T, n: int, table: seq<T>): T
    requires |table| == 8 && Slide.Digit(n)
  {
    if n > 0 then f.plus(p, table[n / 2]) else if n < 0 then f.plus(p, f.negated(table[-n / 2])) else p
  }

  /** The k-th odd multiple, as the table is filled: twice p is added again and again. */
  function OddPoint<T(!new)>(f: Formulas<T>, p: T, k: nat): T {
    if k == 0 then p else f.plus(f.double(p), OddPoint(f, p, k - 1))
  }

  function OddPoints<T(!new)>(f: Formulas<T>, p: T): (table: seq<T>)
    ensures |table| == 8
  {
    seq(8, k requires 0 <= k => OddPoint(f, p, k))
  }

  predicate AllDigits(s: seq<int>) {
    forall k | 0 <= k < |s| :: Slide.Digit(s[k])
  }

  /** The point after the digits from position i up. */
  function Ladder<T(!new)>(f: Formulas<T>, s: seq<int>, t: seq<int>, i: nat, a: seq<T>, b: seq<T>): T
    requires i <= |s| == |t| && |a| == |b| == 8 && AllDigits(s) && AllDigits(t)
    decreases |s| - i
  {
    if i == |s| then f.identity
    else PlusDigit(f, PlusDigit(f, f.double(Ladder(f, s, t, i + 1, a, b)), s[i], a), t[i], b)
  }

  lemma DigitKept<T(!new)>(f: Formulas<T>, c: T -> bool, p: T, n: int, table: seq<T>)
    requires |table| == 8 && Slide.Digit(n) && Keeps(f, c) && c(p) && All(table, c)
    ensures c(PlusDigit(f, p, n, table))
  {
    if n < 0 {
      KeepsStep(f, c, table[-n / 2], p);
    }
  }

  lemma {:induction false} OddKept<T(!new)>(f: Formulas<T>, c: T -> bool, p: T, k: nat)
    requires Keeps(f, c) && c(p)
    ensures c(OddPoint(f, p, k))
  {
    if k > 0 {
      OddKept(f, c, p, k - 1);
      KeepsStep(f, c, p, p);
    }
  }

  /** Every point of the run has the property. */
  lemma {:induction false} LadderKept<T(!new)>(f: Formulas<T>, c: T -> bool, s: seq<int>, t: seq<int>, i: nat,
                                               a: seq<T>, b: seq<T>)
    requires i <= |s| == |t| && |a| == |b| == 8 && AllDigits(s) && AllDigits(t)
    requires Keeps(f, c) && All(a, c) && All(b, c)
    ensures c(Ladder(f, s, t, i, a, b))
    decreases |s| - i
  {
    hide PlusDigit;
    if i < |s| {
      var p := Ladder(f, s, t, i + 1, a, b);
      LadderKept(f, c, s, t, i + 1, a, b);
      KeepsStep(f, c, p, p);
      DigitKept(f, c, f.double(p), s[i], a);
      DigitKept(f, c, PlusDigit(f, f.double(p), s[i], a), t[i], b);
    }
  }

  /** Where doubling the identity changes no coordinate, leading zero digits can be skipped. */
  lemma {:induction false} LadderZeros<T(!new)>(f: Formulas<T>, s: seq<int>, t: seq<int>, i: nat, a: seq<T>, b: seq<T>)
    requires i <= |s| == |t| && |a| == |b| == 8 && AllDigits(s) && AllDigits(t) && f.double(f.identity) == f.identity
    requires forall k | i <= k < |s| :: s[k] == 0 && t[k] == 0
    ensures Ladder(f, s, t, i, a, b) == f.identity
    decreases |s| - i
  {
    if i < |s| {
      LadderZeros(f, s, t, i + 1, a, b);
    }
  }

  // ---- one scalar, by rows of multiples ----

  /** n x, when row holds x, 2x, ..., 8x. */
  function Chosen<T(!new)>(f: Formulas<T>, row: seq<T>, n: int): T
    requires |row| == 8 && -8 <= n <= 8
  {
    if n == 0 then f.identity else if n > 0 then row[n - 1] else f.negated(row[-n - 1])
  }

  predicate Rows<T(!new)>(rows: seq<seq<T>>) {
    |rows| == 32 && forall i | 0 <= i < 32 :: |rows[i]| == 8
  }

  /** The point after m digits of one parity. */
  function Stride<T(!new)>(f: Formulas<T>, start: T, e: seq<int>, p: nat, m: nat, rows: seq<seq<T>>): T
    requires |e| == 64 && BaseMult.SignedDigits(e) && Rows(rows) && p <= 1 && m <= 32
  {
    if m == 0 then start
    else f.plus(Stride(f, start, e, p, m - 1, rows), Chosen(f, rows[m - 1], e[2 * (m - 1) + p]))
  }

  function Repeated<T(!new)>(f: Formulas<T>, p: T, n: nat): T {
    if n == 0 then p else f.double(Repeated(f, p, n - 1))
  }

  /** Odd digits, four doublings, even digits. */
  function Rowwise<T(!new)>(f: Formulas<T>, e: seq<int>, rows: seq<seq<T>>): T
    requires |e| == 64 && BaseMult.SignedDigits(e) && Rows(rows)
  {
    Stride(f, Repeated(f, Stride(f, f.identity, e, 1, 32, rows), 4), e, 0, 32, rows)
  }

  lemma {:induction false} StrideKept<T(!new)>(f: Formulas<T>, c: T -> bool, start: T, e: seq<int>, p: nat, m: nat,
                                               rows: seq<seq<T>>)
    requires |e| == 64 && BaseMult.SignedDigits(e) && Rows(rows) && p <= 1 && m <= 32
    requires Keeps(f, c) && c(start) && forall i | 0 <= i < 32 :: All(rows[i], c)
    ensures c(Stride(f, start, e, p, m, rows))
  {
    if m > 0 {
      StrideKept(f, c, start, e, p, m - 1, rows);
      var row, n := rows[m - 1], e[2 * (m - 1) + p];
      assert All(row, c);
      if n < 0 {
        KeepsStep(f, c, row[-n - 1], start);
      }
      KeepsStep(f, c, Stride(f, start, e, p, m - 1, rows), Chosen(f, row, n));
    }
  }

  lemma {:induction false} RepeatedKept<T(!new)>(f: Formulas<T>, c: T -> bool, p: T, n: nat)
    requires Keeps(f, c) && c(p)
    ensures c(Repeated(f, p, n))
  {
    if n > 0 {
      RepeatedKept(f, c, p, n - 1);
      KeepsStep(f, c, Repeated(f, p, n - 1), p);
    }
  }

  lemma RowwiseKept<T(!new)>(f: Formulas<T>, c: T -> bool, e: seq<int>, rows: seq<seq<T>>)
    requires |e| == 64 && BaseMult.SignedDigits(e) && Rows(rows)
    requires Keeps(f, c) && forall i | 0 <= i < 32 :: All(rows[i], c)
    ensures c(Rowwise(f, e, rows))
  {
    hide Stride, Repeated;
    var p := Stride(f, f.identity, e, 1, 32, rows);
    StrideKept(f, c, f.identity, e, 1, 32, rows);
    RepeatedKept(f, c, p, 4);
    StrideKept(f, c, Repeated(f, p, 4), e, 0, 32, rows);
  }

  // ---- what the schedules compute in a group ----

  /** What points stand for: the proper ones are elements of a group. */
  datatype Meaning<!T(!new), !G(!new)> = Meaning(group: Group<G>, proper: T -> bool, value: T -> G)

  /** On proper points the formulas add, double and negate. */
  ghost predicate Homomorphic<T(!new), G(!new)>(m: Meaning<T, G>, f: Formulas<T>) {
    Abelian(m.group) && Keeps(f, m.proper) && m.value(f.identity) == m.group.zero
    && (forall p, q {:trigger f.plus(p, q)} :: m.proper(p) && m.proper(q) ==>
          m.value(f.plus(p, q)) == m.group.add(m.value(p), m.value(q)))
    && (forall p {:trigger f.double(p)} :: m.proper(p) ==>
          m.value(f.double(p)) == m.group.add(m.value(p), m.value(p)))
    && (forall p {:trigger f.negated(p)} :: m.proper(p) ==> m.value(f.negated(p)) == m.group.neg(m.value(p)))
  }

  lemma Steps<T(!new), G(!new)>(m: Meaning<T, G>, f: Formulas<T>, p: T, q: T)
    requires Homomorphic(m, f) && m.proper(p) && m.proper(q)
    ensures m.proper(f.plus(p, q)) && m.value(f.plus(p, q)) == m.group.add(m.value(p), m.value(q))
    ensures m.proper(f.double(p)) && m.value(f.double(p)) == m.group.add(m.value(p), m.value(p))
    ensures m.proper(f.negated(p)) && m.value(f.negated(p)) == m.group.neg(m.value(p))
  {
  }

  lemma Proper<T(!new), G(!new)>(m: Meaning<T, G>, f: Formulas<T>)
    requires Homomorphic(m, f)
    ensures m.proper(f.identity) && m.value(f.identity) == m.group.zero && Abelian(m.group)
  {
  }

  /** table holds x, 3x, ..., 15x. */
  ghost predicate OddMeaning<T(!new), G(!new)>(m: Meaning<T, G>, table: seq<T>, x: G) {
    |table| == 8 && forall k | 0 <= k < 8 :: m.proper(table[k]) && m.value(table[k]) == Times(m.group, 2 * k + 1, x)
  }

  lemma DigitMeaning<T(!new), G(!new)>(m: Meaning<T, G>, f: Formulas<T>, p: T, n: int, table: seq<T>, x: G)
    requires Homomorphic(m, f) && m.proper(p) && Slide.Digit(n) && OddMeaning(m, table, x)
    ensures var r := PlusDigit(f, p, n, table);
            m.proper(r) && m.value(r) == m.group.add(m.value(p), Times(m.group, n, x))
  {
    hide Homomorphic, Times, Abelian;
    Proper(m, f);
    if n > 0 {
      assert 2 * (n / 2) + 1 == n;
      Steps(m, f, p, table[n / 2]);
    } else if n < 0 {
      assert 2 * (-n / 2) + 1 == -n;
      var q := table[-n / 2];
      Steps(m, f, q, q);
      Steps(m, f, p, f.negated(q));
      TimesNeg(m.group, -n, x);
    } else {
      TimesNothing(m.group, x);
      Laws(m.group, m.value(p), x, x);
    }
  }

  lemma {:induction false} OddPointMeaning<T(!new), G(!new)>(m: Meaning<T, G>, f: Formulas<T>, p: T, k: nat)
    requires Homomorphic(m, f) && m.proper(p)
    ensures var q := OddPoint(f, p, k); m.proper(q) && m.value(q) == Times(m.group, 2 * k + 1, m.value(p))
  {
    hide Homomorphic, Times, Abelian;
    var g, x := m.group, m.value(p);
    Proper(m, f);
    Steps(m, f, p, p);
    TimesOne(g, x);
    if k > 0 {
      OddPointMeaning(m, f, p, k - 1);
      Steps(m, f, f.double(p), OddPoint(f, p, k - 1));
      TimesAdd(g, 1, 1, x);
      TimesAdd(g, 2, 2 * k - 1, x);
    }
  }

  lemma OddPointsMeaning<T(!new), G(!new)>(m: Meaning<T, G>, f: Formulas<T>, p: T)
    requires Homomorphic(m, f) && m.proper(p)
    ensures OddMeaning(m, OddPoints(f, p), m.value(p))
  {
    hide Homomorphic, Times, OddPoint;
    forall k | 0 <= k < 8
      ensures m.proper(OddPoint(f, p, k)) && m.value(OddPoint(f, p, k)) == Times(m.group, 2 * k + 1, m.value(p))
    {
      OddPointMeaning(m, f, p, k);
    }
  }

  /** The run over both digit strings computes the partial sums of both multiples. */
  lemma {:induction false} LadderMeaning<T(!new), G(!new)>(m: Meaning<T, G>, f: Formulas<T>, s: seq<int>, t: seq<int>,
                                                           i: nat, a: seq<T>, b: seq<T>, x: G, y: G)
    requires Homomorphic(m, f) && OddMeaning(m, a, x) && OddMeaning(m, b, y)
    requires i <= |s| == |t| && AllDigits(s) && AllDigits(t)
    ensures var p := Ladder(f, s, t, i, a, b); m.proper(p) && m.value(p) == ScalarMult.Partial(m.group, s, t, i, x, y)
    decreases |s| - i
  {
    hide Homomorphic, Times, Abelian, PlusDigit;
    Proper(m, f);
    if i == |s| {
      ScalarMult.PartialZero(m.group, s, t, i, x, y);
    } else {
      hide ScalarMult.Partial;
      var p := Ladder(f, s, t, i + 1, a, b);
      LadderMeaning(m, f, s, t, i + 1, a, b, x, y);
      Steps(m, f, p, p);
      DigitMeaning(m, f, f.double(p), s[i], a, x);
      DigitMeaning(m, f, PlusDigit(f, f.double(p), s[i], a), t[i], b, y);
      ScalarMult.PartialStep(m.group, s, t, i, x, y);
    }
  }

  /** With the table as it is filled from p: the run computes both multiples. */
  lemma LadderComputes<T(!new), G(!new)>(m: Meaning<T, G>, f: Formulas<T>, p: T, points: seq<T>, s: seq<int>,
                                         t: seq<int>, a: nat, b: nat, y: G)
    requires Homomorphic(m, f) && m.proper(p) && OddMeaning(m, points, y) && |s| == |t| && AllDigits(s) && AllDigits(t)
    requires Slide.Sum(s, 0) == ScalarMult.Recoded(a) && Slide.Sum(t, 0) == ScalarMult.Recoded(b)
    ensures var q, g := Ladder(f, s, t, 0, OddPoints(f, p), points), m.group;
            m.value(q) == g.add(Times(g, ScalarMult.Recoded(a), m.value(p)), Times(g, ScalarMult.Recoded(b), y))
            && (a < Pow2(255) && b < Pow2(255) ==>
                  m.value(q) == g.add(Times(g, a, m.value(p)), Times(g, b, y)))
  {
    hide Homomorphic, Times, Ladder, OddPoint, OddPoints, OddMeaning, Slide.Sum, Slide.Lost, Pow2, ScalarMult.Recoded;
    OddPointsMeaning(m, f, p);
    OddSize(m, points, y);
    LadderMeaning(m, f, s, t, 0, OddPoints(f, p), points, m.value(p), y);
    ScalarMult.RecodedSmall(a);
    ScalarMult.RecodedSmall(b);
  }

  lemma OddSize<T(!new), G(!new)>(m: Meaning<T, G>, table: seq<T>, x: G)
    requires OddMeaning(m, table, x)
    ensures |table| == 8
  {
  }

  /** rows[i][j] stands for (j + 1) 256^i x. */
  ghost predicate RowMeaning<T(!new), G(!new)>(m: Meaning<T, G>, rows: seq<seq<T>>, x: G)
    requires Rows(rows)
  {
    forall i, j | 0 <= i < 32 && 0 <= j < 8 ::
      m.proper(rows[i][j]) && m.value(rows[i][j]) == Times(m.group, j + 1, Times(m.group, Pow2(8 * i), x))
  }

  lemma ChosenMeaning<T(!new), G(!new)>(m: Meaning<T, G>, f: Formulas<T>, rows: seq<seq<T>>, i: nat, n: int, x: G)
    requires Rows(rows) && Homomorphic(m, f) && RowMeaning(m, rows, x) && i < 32 && -8 <= n <= 8
    ensures var q := Chosen(f, rows[i], n); m.proper(q) && m.value(q) == Times(m.group, n * Pow2(8 * i), x)
  {
    hide Homomorphic, Times, Abelian, Pow2;
    Proper(m, f);
    var g := m.group;
    BaseMult.ScaledTerm(g, n, Pow2(8 * i), x);
    if n < 0 {
      var q := rows[i][-n - 1];
      Steps(m, f, q, q);
      TimesNeg(g, -n, Times(g, Pow2(8 * i), x));
    } else if n == 0 {
      TimesNothing(g, Times(g, Pow2(8 * i), x));
    }
  }

  lemma {:induction false} StrideMeaning<T(!new), G(!new)>(m: Meaning<T, G>, f: Formulas<T>, start: T, e: seq<int>,
                                                           p: nat, n: nat, rows: seq<seq<T>>, x: G)
    requires Rows(rows) && Homomorphic(m, f) && m.proper(start) && RowMeaning(m, rows, x)
    requires |e| == 64 && BaseMult.SignedDigits(e) && p <= 1 && n <= 32
    ensures var q := Stride(f, start, e, p, n, rows);
            m.proper(q) && m.value(q) == m.group.add(m.value(start), Times(m.group, BaseMult.Strided(e, p, n), x))
  {
    hide Homomorphic, Times, Abelian, Pow2, RowMeaning, Chosen, BaseMult.Strided;
    Proper(m, f);
    StridedStep(e, p, n);
    if n == 0 {
      TimesNothing(m.group, x);
      Laws(m.group, m.value(start), x, x);
    } else {
      var digit, before := e[2 * (n - 1) + p], Stride(f, start, e, p, n - 1, rows);
      StrideMeaning(m, f, start, e, p, n - 1, rows, x);
      ChosenMeaning(m, f, rows, n - 1, digit, x);
      Steps(m, f, before, Chosen(f, rows[n - 1], digit));
      Gather(m.group, m.value(start), BaseMult.Strided(e, p, n - 1), digit * Pow2(8 * (n - 1)), x);
    }
  }

  lemma StridedStep(e: seq<int>, p: nat, n: nat)
    requires |e| == 64 && p <= 1 && n <= 32
    ensures BaseMult.Strided(e, p, n)
            == if n == 0 then 0 else BaseMult.Strided(e, p, n - 1) + e[2 * (n - 1) + p] * Pow2(8 * (n - 1))
  {
  }

  // (a + k x) + n x
  lemma Gather<G(!new)>(g: Group<G>, a: G, k: int, n: int, x: G)
    requires Abelian(g)
    ensures g.add(g.add(a, Times(g, k, x)), Times(g, n, x)) == g.add(a, Times(g, k + n, x))
  {
    hide Abelian, Times;
    TimesAdd(g, k, n, x);
    Laws(g, a, Times(g, k, x), Times(g, n, x));
  }

  lemma {:induction false} RepeatedMeaning<T(!new), G(!new)>(m: Meaning<T, G>, f: Formulas<T>, p: T, k: int, n: nat,
                                                             x: G)
    requires Homomorphic(m, f) && m.proper(p) && m.value(p) == Times(m.group, k, x)
    ensures m.proper(Repeated(f, p, n)) && m.value(Repeated(f, p, n)) == Times(m.group, Pow2(n) * k, x)
  {
    hide Homomorphic, Times, Abelian;
    if n > 0 {
      RepeatedMeaning(m, f, p, k, n - 1, x);
      Proper(m, f);
      Steps(m, f, Repeated(f, p, n - 1), p);
      TimesAdd(m.group, Pow2(n - 1) * k, Pow2(n - 1) * k, x);
      assert Pow2(n) * k == Pow2(n - 1) * k + Pow2(n - 1) * k;
    }
  }

  /** The schedule over the rows computes the multiple that the digits spell. */
  lemma RowwiseMeaning<T(!new), G(!new)>(m: Meaning<T, G>, f: Formulas<T>, e: seq<int>, rows: seq<seq<T>>, x: G)
    requires Rows(rows) && |e| == 64 && BaseMult.SignedDigits(e) && Homomorphic(m, f) && RowMeaning(m, rows, x)
    ensures var q := Rowwise(f, e, rows);
            m.proper(q) && m.value(q) == Times(m.group, BaseMult.Weighted(e, 64), x)
  {
    hide Homomorphic, Times, Abelian, Repeated, RowMeaning, Stride, BaseMult.Strided, BaseMult.Weighted;
    Proper(m, f);
    var odd, even := BaseMult.Strided(e, 1, 32), BaseMult.Strided(e, 0, 32);
    var p := OddHalf(m, f, e, rows, x);
    Sixteenfold(m, f, p, odd, x);
    StrideMeaning(m, f, Repeated(f, p, 4), e, 0, 32, rows, x);
    TimesAdd(m.group, 16 * odd, even, x);
    assert 16 * odd + even == BaseMult.Weighted(e, 64) by { BaseMult.Halves(e, 32); }
  }

  lemma OddHalf<T(!new), G(!new)>(m: Meaning<T, G>, f: Formulas<T>, e: seq<int>, rows: seq<seq<T>>, x: G)
      returns (p: T)
    requires Rows(rows) && |e| == 64 && BaseMult.SignedDigits(e) && Homomorphic(m, f) && RowMeaning(m, rows, x)
    ensures p == Stride(f, f.identity, e, 1, 32, rows)
    ensures m.proper(p) && m.value(p) == Times(m.group, BaseMult.Strided(e, 1, 32), x)
  {
    hide Homomorphic, Times, Abelian, RowMeaning, Stride, BaseMult.Strided;
    Proper(m, f);
    p := Stride(f, f.identity, e, 1, 32, rows);
    StrideMeaning(m, f, f.identity, e, 1, 32, rows, x);
    Laws(m.group, Times(m.group, BaseMult.Strided(e, 1, 32), x), x, x);
  }

  lemma Sixteenfold<T(!new), G(!new)>(m: Meaning<T, G>, f: Formulas<T>, p: T, k: int, x: G)
    requires Homomorphic(m, f) && m.proper(p) && m.value(p) == Times(m.group, k, x)
    ensures m.proper(Repeated(f, p, 4)) && m.value(Repeated(f, p, 4)) == Times(m.group, 16 * k, x)
  {
    hide Homomorphic, Times, Repeated;
    RepeatedMeaning(m, f, p, k, 4, x);
    assert Pow2(4) == 16;
  }
}
