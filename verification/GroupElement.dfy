/** Points of the curve in the coordinate systems of group.go, and the formulas between them. */
module GroupElement {
  import opened FieldLimbs
  import opened FieldProduct
  import opened FieldElement
  import opened EdwardsCurve

  // d, 2 d and a square root of -1
  const D: Limbs := [-10913610, 13857413, -15372611, 6949391, 114729, -8787816, -6275908, -3247719, -18696448,
    -12055116]
  const D2: Limbs := [-21827239, -5839606, -30745221, 13898782, 229458, 15978800, -12551817, -6495438, 29715968,
    9444199]
  const SQRT_M1: Limbs := [-32595792, -7943725, 9377950, 3500415, 12389472, -272473, -25146209, -2005654, 326686,
    11406482]

  ghost const d: int := Eval(D)

  // the integers that the three constants stand for
  const D_VALUE := -0x2dfc_9311_d490_018c_7338_bf86_8886_1767_ff8f_f5b2_bebe_2754_8a14_b235_eca6_874a
  const ROOT_VALUE := 0x2b83_2480_4fc1_df0b_2b4d_0099_3dfb_d7a7_2f43_1806_ad2f_e478_c4ee_1b27_4a0e_a0b0

  lemma ConstantValues()
    ensures Eval(D) == D_VALUE
    ensures Eval(D2) == 2 * D_VALUE - -1 * P
  {
    ValueOfD();
    ValueOfD2();
  }

  lemma ValueOfD()
    ensures Eval(D) == D_VALUE
  {
    assert EvalFrom(D, 7) == -27145708590102748434023;
    assert EvalFrom(D, 4) == -4102143500788730614037692568875898404249419735;
  }

  lemma ValueOfD2()
    ensures Eval(D2) == 2 * D_VALUE - -1 * P
  {
    assert EvalFrom(D2, 7) == 21266446545708826551090;
    assert EvalFrom(D2, 4) == 3213694540070217820390902617844164282563133522;
  }

  lemma RootValue()
    ensures Eval(SQRT_M1) == ROOT_VALUE
  {
    assert EvalFrom(SQRT_M1, 7) == 25685114053365896144234;
    assert EvalFrom(SQRT_M1, 4) == 3881424694857574519461357669058246044135787616;
  }

  /** d = -121665/121666, d2 = 2 d and sqrtM1^2 = -1, modulo p. */
  lemma Constants()
    ensures Congruent(121666 * Eval(D), -121665)
    ensures Congruent(2 * Eval(D), Eval(D2))
    ensures Congruent(Eval(SQRT_M1) * Eval(SQRT_M1), -1)
  {
    hide Eval, Congruent;
    ConstantValues();
    RootValue();
    CongruentBy(121666 * D_VALUE, -121665, -43711);
    CongruentBy(2 * D_VALUE, 2 * D_VALUE - -1 * P, -1);
    CongruentBy(ROOT_VALUE * ROOT_VALUE, -1,
      0xeca_a2e2_f6a2_302c_cedb_31ac_0572_0688_238c_ed20_78f3_eb0e_c9f2_2e8f_6219_72e5);
  }

  /** f stands for v modulo p; its limbs are at most k times those of a reduced element. */
  ghost predicate Repr(f: Limbs, v: int, k: nat) {
    Bounded(f, k * 0x200_0000, k * 0x102_0000) && Congruent(v, Eval(f))
  }

  lemma ReprAdd(f: Limbs, v: int, i: nat, g: Limbs, w: int, j: nat)
    requires Repr(f, v, i) && Repr(g, w, j) && i + j <= 3
    ensures Repr(Add(f, g), v + w, i + j)
  {
    hide Congruent, Eval;
    AddExact(f, g, i * 0x200_0000, i * 0x102_0000, j * 0x200_0000, j * 0x102_0000);
    CongruentAdd(v, Eval(f), w, Eval(g));
  }

  lemma ReprSub(f: Limbs, v: int, i: nat, g: Limbs, w: int, j: nat)
    requires Repr(f, v, i) && Repr(g, w, j) && i + j <= 3
    ensures Repr(Sub(f, g), v - w, i + j)
  {
    hide Congruent, Eval;
    SubExact(f, g, i * 0x200_0000, i * 0x102_0000, j * 0x200_0000, j * 0x102_0000);
    CongruentSub(v, Eval(f), w, Eval(g));
  }

  /** The products of group.go meet FeMul's bound: their operands are sums of at most three reduced elements. */
  lemma ReprMul(f: Limbs, v: int, i: nat, g: Limbs, w: int, j: nat)
    requires Repr(f, v, i) && Repr(g, w, j) && i <= 3 && j <= 3
    ensures Repr(Mul(f, g), v * w, 1)
  {
    hide Congruent, Eval, Mul;
    MulExact(f, g);
    CongruentMul(v, Eval(f), w, Eval(g));
    CongruentTrans(v * w, Eval(f) * Eval(g), Eval(Mul(f, g)));
  }

  lemma ReprSquare(f: Limbs, v: int, i: nat)
    requires Repr(f, v, i) && i <= 3
    ensures Repr(Square(f), v * v, 1) && Repr(Square2(f), 2 * (v * v), 1)
  {
    hide Congruent, Eval, Mul, Square, Square2;
    ReprMul(f, v, i, f, v, i);
    SquareIsMul(f);
    Square2Exact(f);
    CongruentMul(v, Eval(f), v, Eval(f));
    CongruentScale(2, v * v, Eval(f) * Eval(f));
    CongruentTrans(2 * (v * v), 2 * (Eval(f) * Eval(f)), Eval(Square2(f)));
  }

  lemma ReprWiden(f: Limbs, v: int, i: nat, j: nat)
    requires Repr(f, v, i) && i <= j
    ensures Repr(f, v, j)
  {
  }

  class ProjectiveGroupElement {
    var X: Limbs
    var Y: Limbs
    var Z: Limbs

    constructor ()
      ensures X == Y == Z == Zero()
    {
      X, Y, Z := Zero(), Zero(), Zero();
    }

    ghost predicate Stands(x: int, y: int, z: int)
      reads this
    {
      Repr(X, x, 1) && Repr(Y, y, 1) && Repr(Z, z, 1)
    }

    method Double(r: CompletedGroupElement, ghost p: Point)
      requires Stands(p.x, p.y, p.z)
      modifies r
      ensures r.Stands(Twin(p))
    {
      hide Repr, Square, Square2, Add, Sub;
      r.X := Square(X);
      r.Z := Square(Y);
      r.T := Square2(Z);
      r.Y := Add(X, Y);
      ReprSquare(X, p.x, 1);
      ReprSquare(Y, p.y, 1);
      ReprSquare(Z, p.z, 1);
      ReprAdd(X, p.x, 1, Y, p.y, 1);
      var t0 := Square(r.Y);
      ReprSquare(r.Y, p.x + p.y, 2);
      ReprAdd(r.Z, p.y * p.y, 1, r.X, p.x * p.x, 1);
      ReprSub(r.Z, p.y * p.y, 1, r.X, p.x * p.x, 1);
      r.Y := Add(r.Z, r.X);
      r.Z := Sub(r.Z, r.X);
      ReprSub(t0, (p.x + p.y) * (p.x + p.y), 1, r.Y, p.y * p.y + p.x * p.x, 2);
      r.X := Sub(t0, r.Y);
      ReprSub(r.T, 2 * (p.z * p.z), 1, r.Z, p.y * p.y - p.x * p.x, 2);
      r.T := Sub(r.T, r.Z);
      ReprWiden(r.Z, p.y * p.y - p.x * p.x, 2, 3);
    }
  }

  class CompletedGroupElement {
    var X: Limbs
    var Y: Limbs
    var Z: Limbs
    var T: Limbs

    constructor ()
      ensures X == Y == Z == T == Zero()
    {
      X, Y, Z, T := Zero(), Zero(), Zero(), Zero();
    }

    /** Sums of two or three reduced elements. */
    ghost predicate Stands(c: Completed)
      reads this
    {
      Repr(X, c.x, 3) && Repr(Y, c.y, 2) && Repr(Z, c.z, 3) && Repr(T, c.t, 3)
    }

    method ToProjective(r: ProjectiveGroupElement, ghost c: Completed)
      requires Stands(c)
      modifies r
      ensures r.Stands(c.x * c.t, c.y * c.z, c.z * c.t)
    {
      hide Repr, Mul;
      r.X := Mul(X, T);
      r.Y := Mul(Y, Z);
      r.Z := Mul(Z, T);
      ReprMul(X, c.x, 3, T, c.t, 3);
      ReprMul(Y, c.y, 2, Z, c.z, 3);
      ReprMul(Z, c.z, 3, T, c.t, 3);
    }

    method ToExtended(r: ExtendedGroupElement, ghost c: Completed)
      requires Stands(c)
      modifies r
      ensures r.Stands(EdwardsCurve.ToExtended(c))
    {
      hide Repr, Mul;
      r.X := Mul(X, T);
      r.Y := Mul(Y, Z);
      r.Z := Mul(Z, T);
      r.T := Mul(X, Y);
      ReprMul(X, c.x, 3, T, c.t, 3);
      ReprMul(Y, c.y, 2, Z, c.z, 3);
      ReprMul(Z, c.z, 3, T, c.t, 3);
      ReprMul(X, c.x, 3, Y, c.y, 2);
    }
  }

  class ExtendedGroupElement {
    var X: Limbs
    var Y: Limbs
    var Z: Limbs
    var T: Limbs

    constructor ()
      ensures X == Y == Z == T == Zero()
    {
      X, Y, Z, T := Zero(), Zero(), Zero(), Zero();
    }

    ghost predicate Stands(p: Point)
      reads this
    {
      Repr(X, p.x, 1) && Repr(Y, p.y, 1) && Repr(Z, p.z, 1) && Repr(T, p.t, 1)
    }

    method ToCached(r: CachedGroupElement, ghost p: Point)
      requires Stands(p)
      modifies r
      ensures r.Stands(p)
    {
      hide Repr, Mul, Add, Sub;
      r.yPlusX := Add(Y, X);
      r.yMinusX := Sub(Y, X);
      r.Z := Z;
      r.T2d := Mul(T, D2);
      ReprAdd(Y, p.y, 1, X, p.x, 1);
      ReprSub(Y, p.y, 1, X, p.x, 1);
      TwoD();
      ReprMul(T, p.t, 1, D2, 2 * d, 1);
    }

    method ToProjective(r: ProjectiveGroupElement)
      modifies r
      ensures r.X == X && r.Y == Y && r.Z == Z
    {
      r.X := X;
      r.Y := Y;
      r.Z := Z;
    }

    method Double(r: CompletedGroupElement, ghost p: Point)
      requires Stands(p)
      modifies r
      ensures r.Stands(Twin(p))
    {
      hide Repr;
      var q := new ProjectiveGroupElement();
      ToProjective(q);
      q.Double(r, p);
    }
  }

  class CachedGroupElement {
    var yPlusX: Limbs
    var yMinusX: Limbs
    var Z: Limbs
    var T2d: Limbs

    constructor ()
      ensures yPlusX == yMinusX == Z == T2d == Zero()
    {
      yPlusX, yMinusX, Z, T2d := Zero(), Zero(), Zero(), Zero();
    }

    ghost predicate Stands(p: Point)
      reads this
    {
      && Repr(yPlusX, p.y + p.x, 2) && Repr(yMinusX, p.y - p.x, 2)
      && Repr(Z, p.z, 1) && Repr(T2d, p.t * (2 * d), 1)
    }
  }

  /** A point with z = 1, as the precomputed tables store it. */
  class PreComputedGroupElement {
    var yPlusX: Limbs
    var yMinusX: Limbs
    var xy2d: Limbs

    constructor ()
      ensures yPlusX == yMinusX == xy2d == Zero()
    {
      yPlusX, yMinusX, xy2d := Zero(), Zero(), Zero();
    }

    ghost predicate Stands(p: Point)
      reads this
    {
      p.z == 1 && Repr(yPlusX, p.y + p.x, 2) && Repr(yMinusX, p.y - p.x, 2) && Repr(xy2d, p.t * (2 * d), 1)
    }
  }

  lemma TwoD()
    ensures Repr(D2, 2 * d, 1)
  {
    hide Eval, Congruent;
    Constants();
  }

  lemma SumPlain(a: Point, b: Point)
    ensures var u, v, w, z := (a.y + a.x) * (b.y + b.x), (a.y - a.x) * (b.y - b.x), b.t * (2 * d) * a.t, a.z * b.z;
            Sum(a, b, d) == Completed(u - v, u + v, z + z + w, z + z - w)
    ensures b.z == 1 ==> a.z * b.z == a.z
  {
  }

  /** Swapping y + x with y - x and the sign of the cached t term negates the second point. */
  lemma SumNegated(a: Point, b: Point)
    ensures var u, v, w, z := (a.y + a.x) * (b.y - b.x), (a.y - a.x) * (b.y + b.x), b.t * (2 * d) * a.t, a.z * b.z;
            Sum(a, Negated(b), d) == Completed(u - v, u + v, z + z - w, z + z + w)
    ensures b.z == 1 ==> a.z * b.z == a.z
  {
    assert -b.t * (2 * d) * a.t == -(b.t * (2 * d) * a.t);
  }

  method GeAdd(r: CompletedGroupElement, p: ExtendedGroupElement, q: CachedGroupElement, ghost a: Point, ghost b: Point)
    requires p.Stands(a) && q.Stands(b)
    modifies r
    ensures r.Stands(Sum(a, b, d))
  {
    hide Repr, Mul, Add, Sub;
    ghost var u, v, w, z := (a.y + a.x) * (b.y + b.x), (a.y - a.x) * (b.y - b.x), b.t * (2 * d) * a.t, a.z * b.z;
    ReprAdd(p.Y, a.y, 1, p.X, a.x, 1);
    ReprSub(p.Y, a.y, 1, p.X, a.x, 1);
    r.X := Add(p.Y, p.X);
    r.Y := Sub(p.Y, p.X);
    ReprMul(r.X, a.y + a.x, 2, q.yPlusX, b.y + b.x, 2);
    r.Z := Mul(r.X, q.yPlusX);
    ReprMul(r.Y, a.y - a.x, 2, q.yMinusX, b.y - b.x, 2);
    r.Y := Mul(r.Y, q.yMinusX);
    ReprMul(q.T2d, b.t * (2 * d), 1, p.T, a.t, 1);
    r.T := Mul(q.T2d, p.T);
    var t0: Limbs;
    ReprMul(p.Z, a.z, 1, q.Z, b.z, 1);
    r.X := Mul(p.Z, q.Z);
    ReprAdd(r.X, z, 1, r.X, z, 1);
    t0 := Add(r.X, r.X);
    ReprSub(r.Z, u, 1, r.Y, v, 1);
    ReprAdd(r.Z, u, 1, r.Y, v, 1);
    r.X := Sub(r.Z, r.Y);
    r.Y := Add(r.Z, r.Y);
    ReprAdd(t0, z + z, 2, r.T, w, 1);
    ReprSub(t0, z + z, 2, r.T, w, 1);
    r.Z := Add(t0, r.T);
    r.T := Sub(t0, r.T);
    ReprWiden(r.X, u - v, 2, 3);
    SumPlain(a, b);
  }

  method GeSub(r: CompletedGroupElement, p: ExtendedGroupElement, q: CachedGroupElement, ghost a: Point, ghost b: Point)
    requires p.Stands(a) && q.Stands(b)
    modifies r
    ensures r.Stands(Sum(a, Negated(b), d))
  {
    hide Repr, Mul, Add, Sub;
    ghost var u, v, w, z := (a.y + a.x) * (b.y - b.x), (a.y - a.x) * (b.y + b.x), b.t * (2 * d) * a.t, a.z * b.z;
    ReprAdd(p.Y, a.y, 1, p.X, a.x, 1);
    ReprSub(p.Y, a.y, 1, p.X, a.x, 1);
    r.X := Add(p.Y, p.X);
    r.Y := Sub(p.Y, p.X);
    ReprMul(r.X, a.y + a.x, 2, q.yMinusX, b.y - b.x, 2);
    r.Z := Mul(r.X, q.yMinusX);
    ReprMul(r.Y, a.y - a.x, 2, q.yPlusX, b.y + b.x, 2);
    r.Y := Mul(r.Y, q.yPlusX);
    ReprMul(q.T2d, b.t * (2 * d), 1, p.T, a.t, 1);
    r.T := Mul(q.T2d, p.T);
    var t0: Limbs;
    ReprMul(p.Z, a.z, 1, q.Z, b.z, 1);
    r.X := Mul(p.Z, q.Z);
    ReprAdd(r.X, z, 1, r.X, z, 1);
    t0 := Add(r.X, r.X);
    ReprSub(r.Z, u, 1, r.Y, v, 1);
    ReprAdd(r.Z, u, 1, r.Y, v, 1);
    r.X := Sub(r.Z, r.Y);
    r.Y := Add(r.Z, r.Y);
    ReprAdd(t0, z + z, 2, r.T, w, 1);
    ReprSub(t0, z + z, 2, r.T, w, 1);
    r.Z := Sub(t0, r.T);
    r.T := Add(t0, r.T);
    ReprWiden(r.X, u - v, 2, 3);
    SumNegated(a, b);
  }

  method GeMixedAdd(r: CompletedGroupElement, p: ExtendedGroupElement, q: PreComputedGroupElement, ghost a: Point,
                    ghost b: Point)
    requires p.Stands(a) && q.Stands(b)
    modifies r
    ensures r.Stands(Sum(a, b, d))
  {
    hide Repr, Mul, Add, Sub;
    ghost var u, v, w, z := (a.y + a.x) * (b.y + b.x), (a.y - a.x) * (b.y - b.x), b.t * (2 * d) * a.t, a.z;
    ReprAdd(p.Y, a.y, 1, p.X, a.x, 1);
    ReprSub(p.Y, a.y, 1, p.X, a.x, 1);
    r.X := Add(p.Y, p.X);
    r.Y := Sub(p.Y, p.X);
    ReprMul(r.X, a.y + a.x, 2, q.yPlusX, b.y + b.x, 2);
    r.Z := Mul(r.X, q.yPlusX);
    ReprMul(r.Y, a.y - a.x, 2, q.yMinusX, b.y - b.x, 2);
    r.Y := Mul(r.Y, q.yMinusX);
    ReprMul(q.xy2d, b.t * (2 * d), 1, p.T, a.t, 1);
    r.T := Mul(q.xy2d, p.T);
    var t0: Limbs;
    ReprAdd(p.Z, z, 1, p.Z, z, 1);
    t0 := Add(p.Z, p.Z);
    ReprSub(r.Z, u, 1, r.Y, v, 1);
    ReprAdd(r.Z, u, 1, r.Y, v, 1);
    r.X := Sub(r.Z, r.Y);
    r.Y := Add(r.Z, r.Y);
    ReprAdd(t0, z + z, 2, r.T, w, 1);
    ReprSub(t0, z + z, 2, r.T, w, 1);
    r.Z := Add(t0, r.T);
    r.T := Sub(t0, r.T);
    ReprWiden(r.X, u - v, 2, 3);
    SumPlain(a, b);
  }

  method GeMixedSub(r: CompletedGroupElement, p: ExtendedGroupElement, q: PreComputedGroupElement, ghost a: Point,
                    ghost b: Point)
    requires p.Stands(a) && q.Stands(b)
    modifies r
    ensures r.Stands(Sum(a, Negated(b), d))
  {
    hide Repr, Mul, Add, Sub;
    ghost var u, v, w, z := (a.y + a.x) * (b.y - b.x), (a.y - a.x) * (b.y + b.x), b.t * (2 * d) * a.t, a.z;
    ReprAdd(p.Y, a.y, 1, p.X, a.x, 1);
    ReprSub(p.Y, a.y, 1, p.X, a.x, 1);
    r.X := Add(p.Y, p.X);
    r.Y := Sub(p.Y, p.X);
    ReprMul(r.X, a.y + a.x, 2, q.yMinusX, b.y - b.x, 2);
    r.Z := Mul(r.X, q.yMinusX);
    ReprMul(r.Y, a.y - a.x, 2, q.yPlusX, b.y + b.x, 2);
    r.Y := Mul(r.Y, q.yPlusX);
    ReprMul(q.xy2d, b.t * (2 * d), 1, p.T, a.t, 1);
    r.T := Mul(q.xy2d, p.T);
    var t0: Limbs;
    ReprAdd(p.Z, z, 1, p.Z, z, 1);
    t0 := Add(p.Z, p.Z);
    ReprSub(r.Z, u, 1, r.Y, v, 1);
    ReprAdd(r.Z, u, 1, r.Y, v, 1);
    r.X := Sub(r.Z, r.Y);
    r.Y := Add(r.Z, r.Y);
    ReprAdd(t0, z + z, 2, r.T, w, 1);
    ReprSub(t0, z + z, 2, r.T, w, 1);
    r.Z := Sub(t0, r.T);
    r.T := Add(t0, r.T);
    ReprWiden(r.X, u - v, 2, 3);
    SumNegated(a, b);
  }
}
