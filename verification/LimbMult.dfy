/** The scalar multiplications of group.go on limbs: every step stands for the schedule on integer coordinates. */
module LimbMult {
  import opened Machine
  import opened Bits
  import opened FieldLimbs
  import opened FieldElement
  import opened EdwardsCurve
  import opened GroupElement
  import opened Schedule
  import Slide
  import ScalarMult
  import BaseMult
  import FieldProduct
  import PointDecoding

  const IDENTITY := Point(0, 1, 1, 0)

  /** The formulas of the curve on integer coordinates, between extended points. */
  ghost function Curve(): Formulas<Point> {
    Formulas((p, q) => EdwardsCurve.ToExtended(Sum(p, q, d)), p => EdwardsCurve.ToExtended(Twin(p)), p => Negated(p),
             IDENTITY)
  }

  ghost predicate IsCurve(f: Formulas<Point>) {
    (forall p, q {:trigger Sum(p, q, d)} :: f.plus(p, q) == EdwardsCurve.ToExtended(Sum(p, q, d)))
    && (forall p {:trigger Twin(p)} :: f.double(p) == EdwardsCurve.ToExtended(Twin(p)))
    && (forall p {:trigger Negated(p)} :: f.negated(p) == Negated(p)) && f.identity == IDENTITY
  }

  lemma CurveIsCurve()
    ensures IsCurve(Curve())
  {
    hide Sum, Twin, EdwardsCurve.ToExtended, Negated;
  }

  lemma CurveIs(f: Formulas<Point>, p: Point, q: Point)
    requires IsCurve(f)
    ensures f.plus(p, q) == EdwardsCurve.ToExtended(Sum(p, q, d))
    ensures f.double(p) == EdwardsCurve.ToExtended(Twin(p))
    ensures f.negated(p) == Negated(p) && f.identity == IDENTITY
  {
    hide Sum, Twin, EdwardsCurve.ToExtended, Negated;
  }

  lemma NegatedIs(f: Formulas<Point>, p: Point)
    requires IsCurve(f)
    ensures f.negated(p) == Negated(p) && f.identity == IDENTITY
  {
    hide Negated;
  }

  ghost predicate Here(p: Point) {
    OnCurve(p, d)
  }

  /** Whatever the formulas are applied to, they stay on the curve. */
  lemma CurveKept(f: Formulas<Point>)
    requires IsCurve(f)
    ensures Keeps(f, Here)
  {
    hide OnCurve, Sum, Twin, EdwardsCurve.ToExtended, Negated;
    IdentityOnCurve(d);
    forall p, q {:trigger f.plus(p, q)} | Here(p) && Here(q) ensures Here(f.plus(p, q)) {
      SumOnCurve(p, q, d);
    }
    forall p {:trigger f.double(p)} | Here(p) ensures Here(f.double(p)) {
      TwinOnCurve(p, d);
    }
    forall p {:trigger f.negated(p)} | Here(p) ensures Here(f.negated(p)) {
      NegatedOnCurve(p, d);
    }
  }

  lemma IdentityOnCurve(e: int)
    ensures OnCurve(IDENTITY, e)
  {
  }

  lemma IdentityTwice()
    ensures EdwardsCurve.ToExtended(Twin(IDENTITY)) == IDENTITY
  {
    hide Twin, EdwardsCurve.ToExtended;
    TwinUnit(IDENTITY);
    ExtendedUnit(Completed(0, 1, 1, 1));
  }

  lemma TwinUnit(p: Point)
    requires p.x == 0 && p.y == 1 && p.z == 1
    ensures Twin(p) == Completed(0, 1, 1, 1)
  {
    Unit(p.x, p.x);
    Unit(p.y, p.x + p.y);
    Unit(p.y, p.y);
    Unit(p.z, p.z);
  }

  lemma ExtendedUnit(c: Completed)
    requires c.x == 0 && c.y == 1 && c.z == 1 && c.t == 1
    ensures EdwardsCurve.ToExtended(c) == IDENTITY
  {
    Unit(c.x, c.t);
    Unit(c.y, c.z);
    Unit(c.z, c.t);
    Unit(c.x, c.y);
  }

  lemma Unit(x: int, y: int)
    ensures x == 0 ==> x * y == 0
    ensures x == 1 ==> x * y == y
  {
  }

  ghost predicate CachedTable(table: seq<CachedGroupElement>, points: seq<Point>)
    reads set c | c in table
  {
    |table| == |points| && forall k | 0 <= k < |table| :: table[k].Stands(points[k])
  }

  ghost predicate PreComputedTable(table: seq<PreComputedGroupElement>, points: seq<Point>)
    reads set c | c in table
  {
    |table| == |points| && forall k | 0 <= k < |table| :: table[k].Stands(points[k])
  }

  lemma IdentityStands()
    ensures Repr(Zero(), 0, 1) && Repr(One(), 1, 1) && Repr(One(), 1, 2)
  {
    hide Eval, Congruent;
    PointDecoding.OneStands();
    FieldProduct.ZeroVal(Zero());
    CongruentRefl(0);
  }

  // ---- r = a A + b B ----

  // t, and through u the point of the table that the digit selects
  method AddCached(t: CompletedGroupElement, u: ExtendedGroupElement, n: int, table: seq<CachedGroupElement>,
                   ghost c: Completed, ghost points: seq<Point>, ghost f: Formulas<Point>)
      returns (ghost r: Completed)
    requires IsCurve(f) && t.Stands(c) && Slide.Digit(n) && |points| == 8 && CachedTable(table, points)
    modifies t, u
    ensures t.Stands(r) && EdwardsCurve.ToExtended(r) == PlusDigit(f, EdwardsCurve.ToExtended(c), n, points)
  {
    hide Repr, Sum, EdwardsCurve.ToExtended, Negated, IsCurve;
    r := c;
    ghost var p := EdwardsCurve.ToExtended(c);
    if n > 0 {
      CurveIs(f, p, points[n / 2]);
      t.ToExtended(u, c);
      GeAdd(t, u, table[n / 2], p, points[n / 2]);
      r := Sum(p, points[n / 2], d);
    } else if n < 0 {
      CurveIs(f, points[-n / 2], p);
      CurveIs(f, p, Negated(points[-n / 2]));
      t.ToExtended(u, c);
      GeSub(t, u, table[-n / 2], p, points[-n / 2]);
      r := Sum(p, Negated(points[-n / 2]), d);
    }
  }

  method AddMixed(t: CompletedGroupElement, u: ExtendedGroupElement, n: int, table: seq<PreComputedGroupElement>,
                  ghost c: Completed, ghost points: seq<Point>, ghost f: Formulas<Point>)
      returns (ghost r: Completed)
    requires IsCurve(f) && t.Stands(c) && Slide.Digit(n) && |points| == 8 && PreComputedTable(table, points)
    modifies t, u
    ensures t.Stands(r) && EdwardsCurve.ToExtended(r) == PlusDigit(f, EdwardsCurve.ToExtended(c), n, points)
  {
    hide Repr, Sum, EdwardsCurve.ToExtended, Negated, IsCurve;
    r := c;
    ghost var p := EdwardsCurve.ToExtended(c);
    if n > 0 {
      CurveIs(f, p, points[n / 2]);
      t.ToExtended(u, c);
      GeMixedAdd(t, u, table[n / 2], p, points[n / 2]);
      r := Sum(p, points[n / 2], d);
    } else if n < 0 {
      CurveIs(f, points[-n / 2], p);
      CurveIs(f, p, Negated(points[-n / 2]));
      t.ToExtended(u, c);
      GeMixedSub(t, u, table[-n / 2], p, points[-n / 2]);
      r := Sum(p, Negated(points[-n / 2]), d);
    }
  }

  // A, 3A, 5A, ..., 15A
  method FillTable(A: ExtendedGroupElement, ghost p: Point, ghost f: Formulas<Point>)
      returns (Ai: seq<CachedGroupElement>)
    requires IsCurve(f) && A.Stands(p)
    ensures CachedTable(Ai, OddPoints(f, p)) && forall c | c in Ai :: fresh(c)
  {
    hide Repr, Sum, Twin, EdwardsCurve.ToExtended, OddPoint, IsCurve;
    CurveIs(f, p, p);
    var t := new CompletedGroupElement();
    var u := new ExtendedGroupElement();
    var A2 := new ExtendedGroupElement();
    var first := new CachedGroupElement();
    A.ToCached(first, p);
    Ai := [first];
    OddNext(f, p, 0);
    A.Double(t, p);
    t.ToExtended(A2, Twin(p));
    var i := 0;
    while i < 7
      invariant 0 <= i <= 7 && |Ai| == i + 1 && A2.Stands(f.double(p))
      invariant forall k | 0 <= k <= i :: fresh(Ai[k]) && Ai[k].Stands(OddPoint(f, p, k))
    {
      var next := NextOdd(t, u, A2, Ai[i], p, i, f);
      Ai := Ai + [next];
      i := i + 1;
    }
  }

  // twice A added to an odd multiple
  method NextOdd(t: CompletedGroupElement, u: ExtendedGroupElement, A2: ExtendedGroupElement, Ai: CachedGroupElement,
                 ghost p: Point, ghost k: nat, ghost f: Formulas<Point>)
      returns (next: CachedGroupElement)
    requires IsCurve(f) && u != A2 && A2.Stands(f.double(p)) && Ai.Stands(OddPoint(f, p, k))
    modifies t, u
    ensures fresh(next) && next.Stands(OddPoint(f, p, k + 1))
  {
    hide Repr, Sum, Twin, EdwardsCurve.ToExtended, OddPoint, IsCurve;
    ghost var twice, odd := f.double(p), OddPoint(f, p, k);
    CurveIs(f, twice, odd);
    GeAdd(t, A2, Ai, twice, odd);
    t.ToExtended(u, Sum(twice, odd, d));
    OddNext(f, p, k + 1);
    next := new CachedGroupElement();
    u.ToCached(next, OddPoint(f, p, k + 1));
  }

  lemma OddNext(f: Formulas<Point>, p: Point, k: nat)
    ensures OddPoint(f, p, k)
            == if k == 0 then p else f.plus(f.double(p), OddPoint(f, p, k - 1))
  {
    
  }

  /**
   * GeDoubleScalarMultVartime on limbs: r stands for the point that the schedule over both recoded scalars reaches, and
   * that point is on the curve.
   */
  method DoubleScalarMult(r: ProjectiveGroupElement, a: array<byte>, A: ExtendedGroupElement, b: array<byte>,
                          bi: seq<PreComputedGroupElement>, ghost p: Point, ghost points: seq<Point>,
                          ghost f: Formulas<Point>)
      returns (ghost q: Point, ghost s: seq<int>, ghost t: seq<int>)
    requires a.Length == 32 && b.Length == 32 && |points| == 8
    requires IsCurve(f) && A.Stands(p) && PreComputedTable(bi, points)
    modifies r
    ensures |s| == |t| == 256 && AllDigits(s) && AllDigits(t)
    ensures Slide.Sum(s, 0) == ScalarMult.Recoded(Le(a[..])) && Slide.Sum(t, 0) == ScalarMult.Recoded(Le(b[..]))
    ensures q == Ladder(f, s, t, 0, OddPoints(f, p), points) && r.Stands(q.x, q.y, q.z)
    ensures Here(p) && All(points, Here) ==> Here(q)
  {
    hide Repr, Here, All, Le, Ladder, OddPoints, Slide.Sum, Slide.Lost, Pow2, IsCurve;
    var aSlide, bSlide := new int[256], new int[256];
    Slide.Recode(aSlide, a);
    s := aSlide[..];
    Slide.Recode(bSlide, b);
    t := bSlide[..];
    assert aSlide[..] == s;
    var Ai := FillTable(A, p, f);
    q := Evaluate(r, aSlide, bSlide, Ai, bi, OddPoints(f, p), points, f);
    if Here(p) && All(points, Here) {
      CurveKept(f);
      OddPointsHere(f, p);
      LadderKept(f, Here, s, t, 0, OddPoints(f, p), points);
    }
  }

  lemma OddPointsHere(f: Formulas<Point>, p: Point)
    requires IsCurve(f) && Here(p)
    ensures All(OddPoints(f, p), Here)
  {
    hide Here, OddPoint, IsCurve;
    CurveKept(f);
    forall k | 0 <= k < 8 ensures Here(OddPoint(f, p, k)) {
      OddKept(f, Here, p, k);
    }
  }

  // both digit strings, from the top down
  method Evaluate(r: ProjectiveGroupElement, aSlide: array<int>, bSlide: array<int>, Ai: seq<CachedGroupElement>,
                  bi: seq<PreComputedGroupElement>, ghost x: seq<Point>, ghost y: seq<Point>, ghost f: Formulas<Point>)
      returns (ghost q: Point)
    requires IsCurve(f) && aSlide.Length == bSlide.Length == 256 && AllDigits(aSlide[..]) && AllDigits(bSlide[..])
    requires |x| == |y| == 8 && CachedTable(Ai, x) && PreComputedTable(bi, y)
    modifies r
    ensures q == Ladder(f, aSlide[..], bSlide[..], 0, x, y) && r.Stands(q.x, q.y, q.z)
  {
    hide Repr, Sum, Twin, EdwardsCurve.ToExtended, PlusDigit, Ladder, IsCurve;
    ghost var m, n := aSlide[..], bSlide[..];
    var t := new CompletedGroupElement();
    var u := new ExtendedGroupElement();
    IdentityStands();
    r.X, r.Y, r.Z := Zero(), One(), One();
    q := IDENTITY;
    var i := ScalarMult.TopDigit(aSlide, bSlide);
    CurveIs(f, q, q);
    IdentityTwice();
    LadderZeros(f, m, n, i + 1, x, y);
    while i >= 0
      invariant -1 <= i <= 255 && r.Stands(q.x, q.y, q.z) && q == Ladder(f, m, n, i + 1, x, y)
      decreases i
    {
      CurveIs(f, q, q);
      r.Double(t, q);
      ghost var c := AddCached(t, u, aSlide[i], Ai, Twin(q), x, f);
      c := AddMixed(t, u, bSlide[i], bi, c, y, f);
      LadderStep(f, m, n, i, x, y);
      t.ToProjective(r, c);
      q := EdwardsCurve.ToExtended(c);
      Coordinates(c);
      i := i - 1;
    }
  }

  lemma LadderStep(f: Formulas<Point>, s: seq<int>, t: seq<int>, i: nat, a: seq<Point>, b: seq<Point>)
    requires i < |s| == |t| && |a| == |b| == 8 && AllDigits(s) && AllDigits(t)
    ensures Ladder(f, s, t, i, a, b)
            == PlusDigit(f, PlusDigit(f, f.double(Ladder(f, s, t, i + 1, a, b)), s[i], a), t[i], b)
  {
    hide PlusDigit, IsCurve;
  }

  lemma Coordinates(c: Completed)
    ensures var q := EdwardsCurve.ToExtended(c); q.x == c.x * c.t && q.y == c.y * c.z && q.z == c.z * c.t
  {
  }

  // ---- h = a B ----

  // PreComputedGroupElementCMove: limb by limb, CMove
  method CMove(t: PreComputedGroupElement, u: PreComputedGroupElement, b: bv32, ghost p: Point, ghost q: Point)
    requires t.Stands(p) && u.Stands(q)
    modifies t
    ensures t.Stands(if b == 1 then q else p)
  {
    t.yPlusX := BaseMult.Moved(t.yPlusX, u.yPlusX, b);
    t.yMinusX := BaseMult.Moved(t.yMinusX, u.yMinusX, b);
    t.xy2d := BaseMult.Moved(t.xy2d, u.xy2d, b);
  }

  /** Every entry of the row is visited, and the one that b selects is kept, negated for a negative b. */
  method SelectPoint(t: PreComputedGroupElement, row: seq<PreComputedGroupElement>, b: int, ghost points: seq<Point>,
                     ghost f: Formulas<Point>)
    requires IsCurve(f) && |points| == 8 && -8 <= b <= 8 && PreComputedTable(row, points) && t !in row
    modifies t
    ensures t.Stands(Chosen(f, points, b))
  {
    hide Repr, Negated, IsCurve, BaseMult.Equal, BaseMult.Negative, BaseMult.Abs, BaseMult.Word, BaseMult.Small;
    var bNegative := BaseMult.Negative(BaseMult.Word(b));
    var bAbs := BaseMult.Abs(BaseMult.Word(b));
    ghost var n := if b < 0 then -b else b;
    BaseMult.WordParts(b);
    PutIdentity(t);
    ghost var p := IDENTITY;
    var i := 0;
    while i < 8
      invariant 0 <= i <= 8 && t.Stands(p) && p == if 1 <= n <= i then points[n - 1] else IDENTITY
    {
      BaseMult.SmallEqual(n, i + 1);
      CMove(t, row[i], BaseMult.Equal(bAbs, BaseMult.Small(i + 1)), p, points[i]);
      p := if n == i + 1 then points[i] else p;
      i := i + 1;
    }
    NegatedIs(f, p);
    NegateIf(t, bNegative, p);
  }

  method PutIdentity(t: PreComputedGroupElement)
    modifies t
    ensures t.Stands(IDENTITY)
  {
    hide Repr;
    IdentityStands();
    OneZero();
    t.yPlusX, t.yMinusX, t.xy2d := One(), One(), Zero();
  }

  // the negated point, moved over t if the digit is negative
  method NegateIf(t: PreComputedGroupElement, bNegative: bv32, ghost p: Point)
    requires t.Stands(p)
    modifies t
    ensures t.Stands(if bNegative == 1 then Negated(p) else p)
  {
    hide Repr;
    var minusT := new PreComputedGroupElement();
    minusT.yPlusX, minusT.yMinusX, minusT.xy2d := t.yMinusX, t.yPlusX, Neg(t.xy2d);
    PointDecoding.ReprNeg(t.xy2d, p.t * (2 * d));
    NegatedTerm(p);
    CMove(t, minusT, bNegative, p, Negated(p));
  }

  lemma OneZero()
    ensures 0 * (2 * d) == 0
  {
  }

  lemma NegatedTerm(p: Point)
    ensures -(p.t * (2 * d)) == Negated(p).t * (2 * d)
  {
  }

  ghost predicate BaseRows(base: seq<seq<PreComputedGroupElement>>, rows: seq<seq<Point>>)
    reads set i, c | 0 <= i < |base| && c in base[i] :: c
  {
    Rows(rows) && |base| == 32 && forall i | 0 <= i < 32 :: PreComputedTable(base[i], rows[i])
  }

  // add the digits e[p], e[p+2], ... to h
  method AddStride(h: ExtendedGroupElement, e: array<int>, p: nat, base: seq<seq<PreComputedGroupElement>>,
                   ghost start: Point, ghost rows: seq<seq<Point>>, ghost f: Formulas<Point>)
    requires e.Length == 64 && BaseMult.SignedDigits(e[..]) && p <= 1
    requires IsCurve(f) && BaseRows(base, rows) && h.Stands(start)
    modifies h
    ensures h.Stands(Stride(f, start, e[..], p, 32, rows))
  {
    hide Repr, Sum, EdwardsCurve.ToExtended, Chosen, Stride, IsCurve;
    var t := new PreComputedGroupElement();
    var r := new CompletedGroupElement();
    ghost var q, digits := start, e[..];
    var i := p;
    StrideNext(f, start, digits, p, 0, rows);
    while i < 64
      invariant p <= i <= 64 + p && (i - p) % 2 == 0
      invariant h.Stands(q) && q == Stride(f, start, digits, p, (i - p) / 2, rows)
    {
      assert i / 2 == (i - p) / 2 && 2 * (i / 2) + p == i;
      StrideNext(f, start, digits, p, i / 2 + 1, rows);
      SelectPoint(t, base[i / 2], e[i], rows[i / 2], f);
      ghost var chosen := Chosen(f, rows[i / 2], e[i]);
      CurveIs(f, q, chosen);
      GeMixedAdd(r, h, t, q, chosen);
      r.ToExtended(h, Sum(q, chosen, d));
      q := f.plus(q, chosen);
      i := i + 2;
    }
  }

  lemma StrideNext(f: Formulas<Point>, start: Point, e: seq<int>, p: nat, m: nat, rows: seq<seq<Point>>)
    requires |e| == 64 && BaseMult.SignedDigits(e) && Rows(rows) && p <= 1 && m <= 32
    ensures Stride(f, start, e, p, m, rows)
            == if m == 0 then start
               else f.plus(Stride(f, start, e, p, m - 1, rows), Chosen(f, rows[m - 1], e[2 * (m - 1) + p]))
  {
    hide Chosen, IsCurve;
  }

  /** GeScalarMultBase on limbs: h stands for the point that the schedule over the digits of a reaches. */
  method ScalarMultBase(h: ExtendedGroupElement, a: array<byte>, base: seq<seq<PreComputedGroupElement>>,
                        ghost rows: seq<seq<Point>>, ghost f: Formulas<Point>)
      returns (ghost q: Point, ghost digits: seq<int>)
    requires IsCurve(f) && a.Length == 32 && a[31] <= 127 && BaseRows(base, rows)
    modifies h
    ensures |digits| == 64 && BaseMult.SignedDigits(digits) && BaseMult.Weighted(digits, 64) == Le(a[..])
    ensures q == Rowwise(f, digits, rows) && h.Stands(q)
    ensures (forall i | 0 <= i < 32 :: All(rows[i], Here)) ==> Here(q)
  {
    hide Repr, Here, All, Stride, Repeated, IsCurve, Le, Pow2, BaseMult.Weighted;
    var e := Digits(a);
    digits := e[..];
    IdentityStands();
    NegatedIs(f, IDENTITY);
    h.X, h.Y, h.Z, h.T := Zero(), One(), One(), Zero();
    AddStride(h, e, 1, base, IDENTITY, rows, f);
    q := Stride(f, IDENTITY, digits, 1, 32, rows);
    q := FourDoublings(h, q, f);
    AddStride(h, e, 0, base, q, rows, f);
    q := Stride(f, q, digits, 0, 32, rows);
    if forall i | 0 <= i < 32 :: All(rows[i], Here) {
      CurveKept(f);
      RowwiseKept(f, Here, digits, rows);
    }
  }

  // the signed digits of a in radix 16
  method Digits(a: array<byte>) returns (e: array<int>)
    requires a.Length == 32 && a[31] <= 127
    ensures fresh(e) && e.Length == 64 && BaseMult.SignedDigits(e[..])
    ensures BaseMult.Weighted(e[..], 64) == Le(a[..])
  {
    hide Le, Pow2, Field, BaseMult.Weighted;
    ghost var n := Le(a[..]);
    e := new int[64];
    BaseMult.Split(e, a);
    BaseMult.NibbleBounds(n, a[..]);
    BaseMult.Nibbles(e[..], n, 64);
    WholeField(a[..]);
    BaseMult.Carry(e);
  }

  method FourDoublings(h: ExtendedGroupElement, ghost p: Point, ghost f: Formulas<Point>) returns (ghost q: Point)
    requires IsCurve(f) && h.Stands(p)
    modifies h
    ensures q == Repeated(f, p, 4) && h.Stands(q)
  {
    hide Repr, Twin, EdwardsCurve.ToExtended, IsCurve;
    var r := new CompletedGroupElement();
    var s := new ProjectiveGroupElement();
    h.Double(r, p);
    r.ToProjective(s, Twin(p));
    q := OnceMore(f, p, p, 0);
    s.Double(r, q);
    r.ToProjective(s, Twin(q));
    q := OnceMore(f, p, q, 1);
    s.Double(r, q);
    r.ToProjective(s, Twin(q));
    q := OnceMore(f, p, q, 2);
    s.Double(r, q);
    r.ToExtended(h, Twin(q));
    q := OnceMore(f, p, q, 3);
  }

  lemma OnceMore(f: Formulas<Point>, p: Point, q: Point, n: nat) returns (r: Point)
    requires IsCurve(f)
    requires q == Repeated(f, p, n)
    ensures r == Repeated(f, p, n + 1) == EdwardsCurve.ToExtended(Twin(q))
    ensures var c := Twin(q); r.x == c.x * c.t && r.y == c.y * c.z && r.z == c.z * c.t
  {
    hide Twin, IsCurve, EdwardsCurve.ToExtended;
    CurveIs(f, q, q);
    Coordinates(Twin(q));
    r := EdwardsCurve.ToExtended(Twin(q));
  }
}
