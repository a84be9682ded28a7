/** Which encoded points have a root: ExtendedGroupElement.FromBytes finds one wherever there is one. */
module PointRoots {
  import opened Bits
  import opened Machine
  import opened FieldLimbs
  import opened FieldProduct
  import opened EdwardsCurve
  import opened GroupElement
  import opened FieldPower
  import opened PointDecoding

  // ---- powers ----

  lemma {:induction false} PowerTimes(x: int, y: int, n: nat)
    ensures Power(x * y, n) == Power(x, n) * Power(y, n)
  {
    if n > 0 {
      PowerTimes(x, y, n - 1);
      Rearrange(x, y, Power(x, n - 1), Power(y, n - 1));
    }
  }

  lemma Rearrange(x: int, y: int, u: int, v: int)
    ensures x * y * (u * v) == x * u * (y * v)
  {
  }

  lemma {:induction false} PowerPower(x: int, m: nat, n: nat)
    ensures Power(Power(x, m), n) == Power(x, m * n)
  {
    hide Power;
    PowerNone(Power(x, m));
    PowerNone(x);
    if n > 0 {
      PowerPower(x, m, n - 1);
      PowerNext(Power(x, m), n - 1);
      PowerAdd(x, m, m * (n - 1));
      assert m * n == m + m * (n - 1);
    }
  }

  lemma PowerNone(x: int)
    ensures Power(x, 0) == 1
  {
  }

  lemma PowerNext(x: int, n: nat)
    ensures Power(x, n + 1) == x * Power(x, n)
  {
  }

  lemma {:induction false} CongruentPower(x: int, y: int, n: nat)
    requires Congruent(x, y)
    ensures Congruent(Power(x, n), Power(y, n))
  {
    hide Congruent;
    CongruentRefl(1);
    if n > 0 {
      CongruentPower(x, y, n - 1);
      CongruentMul(x, y, Power(x, n - 1), Power(y, n - 1));
    }
  }

  lemma SmallPowers(b: int)
    ensures Power(b, 1) == b && Power(b, 2) == b * b && Power(b, 3) == b * b * b
  {
    hide Power;
    PowerNone(b);
    PowerNext(b, 0);
    PowerNext(b, 1);
    PowerNext(b, 2);
    assert b * (b * b) == b * b * b;
  }

  // ---- the candidate, when a = x^2 b ----

  // (p - 5) / 8
  function Eighth(): (e: nat)
    ensures 8 * e + 5 == P
  {
    WholePower();
    PowAdd(252, 3);
    assert Pow2(3) == 8;
    Pow2(252) - 3
  }

  /** v^(8 e + 4) x^(2 e + 2) is what u v^3 (u v^7)^e comes to. */
  lemma CandidateIs(x: int, b: int)
    ensures Root(x * x * b, b) == Power(b, P - 1) * Power(x, 2 * Eighth() + 2)
  {
    hide Power, Pow2;
    var e := Eighth();
    var a, c := x * x * b, b * b * b;
    SmallPowers(b);
    SmallPowers(x);
    PowerAdd(b, 3, 3);
    PowerAdd(b, 6, 1);
    PowerAdd(b, 7, 1);
    PowerAdd(b, 3, 1);
    assert c * c * b * a == Power(b, 8) * Power(x, 2) by {
      Regrouped(Power(b, 7), x * x, b);
    }
    PowerTimes(Power(b, 8), Power(x, 2), e);
    PowerPower(b, 8, e);
    PowerPower(x, 2, e);
    PowerAdd(b, 8 * e, 4);
    PowerAdd(x, 2 * e, 2);
    RootIs(a, b);
    assert c * a == Power(b, 4) * Power(x, 2) by {
      Regrouped(c, x * x, b);
    }
    Gathered(Power(b, 8 * e), Power(x, 2 * e), c, a, Power(b, 4), Power(x, 2));
  }

  // (b8 x8) c a
  lemma Gathered(u: int, v: int, c: int, a: int, w: int, z: int)
    requires c * a == w * z
    ensures u * v * c * a == u * w * (v * z)
  {
    assert u * v * c * a == u * v * (c * a);
  }

  lemma Regrouped(u: int, s: int, b: int)
    ensures u * (s * b) == b * u * s == u * b * s
  {
  }

  lemma RootIs(a: int, b: int)
    ensures Root(a, b) == Power(b * b * b * (b * b * b) * b * a, Eighth()) * (b * b * b) * a
  {
    hide Power, Pow2;
  }

  lemma CongruentRoot(a: int, a': int, b: int)
    requires Congruent(a, a')
    ensures Congruent(Root(a, b), Root(a', b))
  {
    hide Congruent, Power;
    var c, e := b * b * b, Eighth();
    var t := c * c * b;
    RootIs(a, b);
    RootIs(a', b);
    CongruentScale(t, a, a');
    CongruentPower(t * a, t * a', e);
    CongruentScale(c, Power(t * a, e), Power(t * a', e));
    CongruentMul(c * Power(t * a, e), c * Power(t * a', e), a, a');
  }

  /** Raised to (p - 1) / 2 a number that is not zero gives 1 or -1. Euler's criterion has this for all of them. */
  ghost predicate EulerAt(v: int) {
    v % P == 0 || Congruent(Power(v, (P - 1) / 2), 1) || Congruent(Power(v, (P - 1) / 2), -1)
  }

  lemma FermatAt(v: int)
    requires EulerAt(v) && v % P != 0
    ensures Congruent(Power(v, P - 1), 1)
  {
    hide Congruent, Power;
    var h := (P - 1) / 2;
    PowerAdd(v, h, h);
    var s := if Congruent(Power(v, h), 1) then 1 else -1;
    CongruentMul(Power(v, h), s, Power(v, h), s);
  }

  // the square of the candidate, times b
  lemma SquareIs(x: int, b: int)
    ensures Times(Times(Root(x * x * b, b), Root(x * x * b, b)), b)
            == Power(b, P - 1) * Power(b, P - 1) * Power(x, (P - 1) / 2) * (x * x * b)
  {
    hide Power, Root;
    var e := Eighth();
    CandidateIs(x, b);
    assert (P - 1) / 2 == 4 * e + 2;
    PowerAdd(x, 2 * e + 2, 2 * e + 2);
    PowerAdd(x, 4 * e + 2, 2);
    SmallPowers(x);
    Squared2(Power(b, P - 1), Power(x, 2 * e + 2), Power(x, 4 * e + 2), x * x, b);
  }

  lemma Squared2(u: int, v: int, w: int, s: int, b: int)
    requires v * v == w * s
    ensures u * v * (u * v) * b == u * u * w * (s * b)
  {
    assert u * v * (u * v) == u * u * (v * v);
  }

  /** Wherever x^2 b = a has a solution, the candidate fits. */
  lemma RootComplete(a: int, b: int, x: int)
    requires Congruent(x * x * b, a) && EulerAt(b) && EulerAt(x)
    ensures HasRoot(a, b)
  {
    hide Congruent, Power, Root;
    var a' := x * x * b;
    CongruentMod(a', a);
    if a % P == 0 {
      ZeroHasRoot(a, b);
    } else {
      ZeroProduct(x, b);
      FermatAt(b);
      var u, v := Power(b, P - 1), Power(x, (P - 1) / 2);
      var s := if Congruent(v, 1) then 1 else -1;
      CongruentMul(u, 1, u, 1);
      CongruentMul(u * u, 1, v, s);
      CongruentMul(u * u * v, s, a', a);
      SquareIs(x, b);
      SameSquare(a, a', b);
      CongruentSymm(Tested(a', b), Tested(a, b));
      CongruentTrans(Tested(a, b), Tested(a', b), s * a);
    }
  }

  lemma ZeroProduct(x: int, b: int)
    ensures x % P == 0 || b % P == 0 ==> x * x * b % P == 0
  {
    if b % P == 0 {
      ZeroTimes(b, x * x);
      assert b * (x * x) == x * x * b;
    } else if x % P == 0 {
      ZeroTimes(x, x * b);
      assert x * (x * b) == x * x * b;
    }
  }

  // what the candidate is tested by
  ghost function Tested(a: int, b: int): int {
    Times(Times(Root(a, b), Root(a, b)), b)
  }

  lemma SameSquare(a: int, a': int, b: int)
    requires Congruent(a', a)
    ensures Congruent(Tested(a', b), Tested(a, b))
  {
    hide Congruent, Root;
    var w, w' := Root(a, b), Root(a', b);
    CongruentRoot(a', a, b);
    CongruentMul(w', w, w', w);
    CongruentScale(b, w' * w', w * w);
  }

  // ---- decoding ----

  function At(x: int, y: int): Point {
    Point(x, y, 1, x * y)
  }

  /** The curve has a point with this y. */
  ghost predicate HasPoint(y: int) {
    exists x :: OnCurve(At(x, y), d)
  }

  /** FromBytes accepts a y only if the curve has a point with it, and, by Euler's criterion, whenever it has. */
  lemma AcceptedIff(s: seq<byte>)
    requires |s| == 32
    ensures Accepted(s) ==> HasPoint(Low(Le(s), 255))
    ensures (forall v :: EulerAt(v)) ==> (Accepted(s) <==> HasPoint(Low(Le(s), 255)))
  {
    hide OnCurve, HasRoot, Le, Low, EulerAt, Congruent;
    var y := Low(Le(s), 255);
    if Accepted(s) {
      var w := RootOf(y * y - 1, y * y * d + 1);
      RootOnCurve(w, y);
      assert OnCurve(At(w, y), d);
    } else if x :| OnCurve(At(x, y), d) {
      EquationAt(x, y);
      if forall v :: EulerAt(v) {
        RootComplete(y * y - 1, y * y * d + 1, x);
      }
    }
  }

  /** Where the candidate fits, it or its product with sqrt(-1) is a root. */
  lemma RootOf(a: int, b: int) returns (w: int)
    requires HasRoot(a, b)
    ensures Congruent(Times(Times(w, w), b), a)
  {
    hide Congruent, Root, Eval;
    w := Root(a, b);
    if !Congruent(Times(Times(w, w), b), a) {
      OneStands();
      TimesRoot(w, Eval(SQRT_M1), a, b);
      w := Times(w, Eval(SQRT_M1));
    }
  }

  // the curve equation, solved for x^2
  lemma EquationAt(x: int, y: int)
    requires OnCurve(At(x, y), d)
    ensures Congruent(x * x * (y * y * d + 1), y * y - 1)
  {
    hide Congruent;
    var s, t := x * x, y * y;
    CongruentRefl(s - 1);
    CongruentAdd(t - s, 1 * 1 + d * ((x * y) * (x * y)), s - 1, s - 1);
    CongruentSymm(t - s + (s - 1), 1 * 1 + d * ((x * y) * (x * y)) + (s - 1));
    Expanded(x, y, d);
  }

  lemma Expanded(x: int, y: int, k: int)
    ensures 1 * 1 + k * ((x * y) * (x * y)) + (x * x - 1) == x * x * (y * y * k + 1)
  {
  }
}
