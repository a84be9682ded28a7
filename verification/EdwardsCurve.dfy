/** The twisted Edwards curve -x^2 + y^2 = 1 + d x^2 y^2 in projective coordinates modulo 2^255 - 19. */
module EdwardsCurve {
  import opened FieldLimbs

  lemma CongruentSub(x: int, y: int, u: int, v: int)
    requires Congruent(x, y) && Congruent(u, v)
    ensures Congruent(x - u, y - v)
  {
    CongruentScale(-1, u, v);
    CongruentAdd(x, y, -1 * u, -1 * v);
  }

  lemma CongruentMul(x: int, y: int, u: int, v: int)
    requires Congruent(x, y) && Congruent(u, v)
    ensures Congruent(x * u, y * v)
  {
    CongruentScale(u, x, y);
    CongruentScale(y, u, v);
    assert u * x == x * u && u * y == y * u;
    CongruentTrans(x * u, y * u, y * v);
  }

  lemma CongruentSymm(x: int, y: int)
    requires Congruent(x, y)
    ensures Congruent(y, x)
  {
    CongruentScale(-1, x, y);
  }

  /** Extended coordinates: x = x/z, y = y/z, xy = zt. Completed coordinates: x = x/z, y = y/t. */
  datatype Point = Point(x: int, y: int, z: int, t: int)
  datatype Completed = Completed(x: int, y: int, z: int, t: int)

  /** xy = zt and the curve equation -x^2 + y^2 = z^2 + d t^2, both modulo p. */
  ghost predicate Extended(p: Point) {
    Congruent(p.x * p.y, p.z * p.t)
  }

  ghost predicate OnCurve(p: Point, d: int) {
    Extended(p) && Congruent(p.y * p.y - p.x * p.x, p.z * p.z + d * (p.t * p.t))
  }

  /** The sum of two extended points, as geAdd combines their coordinates. */
  function Sum(p: Point, q: Point, d: int): Completed {
    var a := (p.y + p.x) * (q.y + q.x);
    var b := (p.y - p.x) * (q.y - q.x);
    var c := q.t * (2 * d) * p.t;
    var z := p.z * q.z + p.z * q.z;
    Completed(a - b, a + b, z + c, z - c)
  }

  /** Twice a point, as Double combines its coordinates. */
  function Twin(p: Point): Completed {
    var h, g := p.y * p.y + p.x * p.x, p.y * p.y - p.x * p.x;
    Completed((p.x + p.y) * (p.x + p.y) - h, h, g, 2 * (p.z * p.z) - g)
  }

  function Negated(p: Point): Point {
    Point(-p.x, p.y, p.z, -p.t)
  }

  function ToExtended(c: Completed): Point {
    Point(c.x * c.t, c.y * c.z, c.z * c.t, c.x * c.y)
  }

  /** Whatever the completed point is, its extended form satisfies xy = zt. */
  lemma ToExtendedIsExtended(c: Completed)
    ensures Extended(ToExtended(c))
  {
    assert (c.x * c.t) * (c.y * c.z) == (c.z * c.t) * (c.x * c.y);
  }

  // x1 y2 + x2 y1 and y1 y2 + x1 x2
  function Cross(p: Point, q: Point): int {
    p.x * q.y + q.x * p.y
  }

  function Dot(p: Point, q: Point): int {
    p.y * q.y + p.x * q.x
  }

  lemma SumParts(p: Point, q: Point, d: int)
    ensures var a, e := p.z * q.z, d * (p.t * q.t);
            Sum(p, q, d) == Completed(2 * Cross(p, q), 2 * Dot(p, q), 2 * (a + e), 2 * (a - e))
  {
    assert q.t * (2 * d) * p.t == 2 * (d * (p.t * q.t));
  }

  /** geAdd followed by ToExtended computes the addition law: with x = X/Z and y = Y/Z, cross-multiplied,
      x3 = (x1 y2 + x2 y1) / (1 + d x1 x2 y1 y2) and y3 = (y1 y2 + x1 x2) / (1 - d x1 x2 y1 y2). */
  lemma AdditionLaw(p: Point, q: Point, d: int)
    requires Extended(p) && Extended(q)
    ensures var r, a := ToExtended(Sum(p, q, d)), p.z * q.z;
            var w := d * ((p.x * p.y) * (q.x * q.y));
            && Congruent(r.x * (a * a + w), r.z * (a * Cross(p, q)))
            && Congruent(r.y * (a * a - w), r.z * (a * Dot(p, q)))
  {
    hide Congruent, Sum, Cross, Dot;
    var c, a := Sum(p, q, d), p.z * q.z;
    var w := d * ((p.x * p.y) * (q.x * q.y));
    CompletedLaw(p, q, d);
    CongruentScale(c.t, c.x * (a * a + w), c.z * (a * Cross(p, q)));
    CongruentScale(c.z, c.y * (a * a - w), c.t * (a * Dot(p, q)));
    Spread3(c.t, c.x, a * a + w);
    Spread3(c.t, c.z, a * Cross(p, q));
    Spread3(c.z, c.y, a * a - w);
    Spread3(c.z, c.t, a * Dot(p, q));
  }

  lemma Spread3(x: int, y: int, z: int)
    ensures x * (y * z) == (y * x) * z == (x * y) * z
  {
  }

  // the same for the completed point
  lemma CompletedLaw(p: Point, q: Point, d: int)
    requires Extended(p) && Extended(q)
    ensures var c, a := Sum(p, q, d), p.z * q.z;
            var w := d * ((p.x * p.y) * (q.x * q.y));
            && Congruent(c.x * (a * a + w), c.z * (a * Cross(p, q)))
            && Congruent(c.y * (a * a - w), c.t * (a * Dot(p, q)))
  {
    hide Congruent, Sum, Cross, Dot;
    var a, e := p.z * q.z, d * (p.t * q.t);
    var w := d * ((p.x * p.y) * (q.x * q.y));
    SumParts(p, q, d);
    CongruentMul(p.x * p.y, p.z * p.t, q.x * q.y, q.z * q.t);
    CongruentScale(d, (p.x * p.y) * (q.x * q.y), (p.z * p.t) * (q.z * q.t));
    Swap(d, p.z, p.t, q.z, q.t);
    CongruentScale(-1, w, e * a);
    Clear(Cross(p, q), a, w, e);
    Clear(Dot(p, q), a, -1 * w, -1 * e);
  }

  lemma Swap(d: int, z1: int, t1: int, z2: int, t2: int)
    ensures d * ((z1 * t1) * (z2 * t2)) == d * (t1 * t2) * (z1 * z2)
    ensures -1 * (d * (t1 * t2) * (z1 * z2)) == -1 * (d * (t1 * t2)) * (z1 * z2)
  {
  }

  lemma Clear(n: int, a: int, w: int, e: int)
    requires Congruent(w, e * a)
    ensures Congruent(2 * n * (a * a + w), 2 * (a + e) * (a * n))
  {
    hide Congruent;
    CongruentScale(2 * n, w, e * a);
    CongruentRefl(2 * n * (a * a));
    CongruentAdd(2 * n * (a * a), 2 * n * (a * a), 2 * n * w, 2 * n * (e * a));
    assert 2 * n * (a * a) + 2 * n * w == 2 * n * (a * a + w);
    assert 2 * n * (a * a) + 2 * n * (e * a) == 2 * (a + e) * (a * n);
  }

  // ---- the sum of two curve points is a curve point ----

  // x^2 + y^2
  function Norm(p: Point): int {
    p.x * p.x + p.y * p.y
  }

  lemma CrossDot(p: Point, q: Point)
    ensures Dot(p, q) * Dot(p, q) - Cross(p, q) * Cross(p, q) == (p.y * p.y - p.x * p.x) * (q.y * q.y - q.x * q.x)
    ensures Cross(p, q) * Dot(p, q) == (p.x * p.y) * Norm(q) + (q.x * q.y) * Norm(p)
    ensures Dot(p, q) * Dot(p, q) + Cross(p, q) * Cross(p, q) == Norm(p) * Norm(q) + 4 * ((p.x * p.y) * (q.x * q.y))
  {
    Brahmagupta(p.y, p.x, q.y, q.x);
    TwiceNorm(p.x, p.y, q.x, q.y);
    MixedProduct(p.x, p.y, q.x, q.y);
  }

  lemma Brahmagupta(a: int, b: int, c: int, d: int)
    ensures (a * c + b * d) * (a * c + b * d) - (b * c + d * a) * (b * c + d * a) == (a * a - b * b) * (c * c - d * d)
  {
  }

  lemma MixedProduct(x1: int, y1: int, x2: int, y2: int)
    ensures (x1 * y2 + x2 * y1) * (y1 * y2 + x1 * x2)
         == (x1 * y1) * (x2 * x2 + y2 * y2) + (x2 * y2) * (x1 * x1 + y1 * y1)
  {
  }

  lemma TwiceNorm(x1: int, y1: int, x2: int, y2: int)
    ensures (y1 * y2 + x1 * x2) * (y1 * y2 + x1 * x2) + (x1 * y2 + x2 * y1) * (x1 * y2 + x2 * y1)
         == (x1 * x1 + y1 * y1) * (x2 * x2 + y2 * y2) + 4 * ((x1 * y1) * (x2 * y2))
  {
  }

  lemma NormSquare(p: Point)
    ensures Norm(p) * Norm(p) == (p.y * p.y - p.x * p.x) * (p.y * p.y - p.x * p.x) + 4 * ((p.x * p.y) * (p.x * p.y))
  {
  }

  lemma Core(a: int, u: int, b: int, v: int)
    ensures (a + u) * (b + v) * (a * b + u * v)
         == (a * b - u * v) * (a * b - u * v) + a * u * ((b + v) * (b + v)) + b * v * ((a + u) * (a + u))
  {
    var x, y := a * b, u * v;
    assert (a + u) * (b + v) == x + y + a * v + u * b;
    assert a * u * ((b + v) * (b + v)) == u * b * x + 2 * (x * y) + a * v * y;
    assert b * v * ((a + u) * (a + u)) == a * v * x + 2 * (x * y) + u * b * y;
  }

  // a = z1^2, u = t1^2, b = z2^2, v = t2^2, m = z1 t1 z2 t2
  lemma Balance(a: int, u: int, b: int, v: int, d: int, m: int, n: int, g: int, h: int)
    requires m * m == (a * u) * (b * v) && g == a + d * u && h == b + d * v
    ensures g * h * (a * b + (d * u) * (d * v)) + 2 * (d * m) * (n + 4 * m)
         == (a * b - (d * u) * (d * v)) * (a * b - (d * u) * (d * v))
            + d * ((a * u) * (h * h + 4 * (b * v)) + 2 * m * n + (b * v) * (g * g + 4 * (a * u)))
  {
    Core(a, d * u, b, d * v);
    Spread(d, a * u, h * h, b * v, g * g, m, n);
    assert a * (d * u) == d * (a * u) && b * (d * v) == d * (b * v);
  }

  lemma Spread(d: int, x: int, hh: int, y: int, gg: int, m: int, n: int)
    requires m * m == x * y
    ensures d * (x * (hh + 4 * y) + 2 * m * n + y * (gg + 4 * x)) == d * x * hh + d * y * gg + 2 * (d * m) * (n + 4 * m)
  {
    assert d * (x * (hh + 4 * y)) == d * x * hh + 4 * (d * (x * y));
    assert d * (y * (gg + 4 * x)) == d * y * gg + 4 * (d * (x * y));
    assert 2 * (d * m) * (n + 4 * m) == 2 * (d * m) * n + 8 * (d * (m * m));
  }

  // z t and z^2 + d t^2, which the curve equates with x y and y^2 - x^2
  function Edge(p: Point): int {
    p.z * p.t
  }

  function Face(p: Point, d: int): int {
    p.z * p.z + d * (p.t * p.t)
  }

  lemma NormTerm(p: Point, d: int)
    requires OnCurve(p, d)
    ensures Congruent(Norm(p) * Norm(p), Face(p, d) * Face(p, d) + 4 * (Edge(p) * Edge(p)))
  {
    hide Congruent, Norm;
    var g, u := p.y * p.y - p.x * p.x, p.x * p.y;
    NormSquare(p);
    CongruentMul(g, Face(p, d), g, Face(p, d));
    CongruentMul(u, Edge(p), u, Edge(p));
    CongruentScale(4, u * u, Edge(p) * Edge(p));
    CongruentAdd(g * g, Face(p, d) * Face(p, d), 4 * (u * u), 4 * (Edge(p) * Edge(p)));
  }

  /** (k l)^2 for k = Cross and l = Dot, with each square of a norm rewritten by the curve equation. */
  lemma ProductSquare(p: Point, q: Point, d: int)
    requires OnCurve(p, d) && OnCurve(q, d)
    ensures var k, v1, v2 := Cross(p, q) * Dot(p, q), Edge(p), Edge(q);
            var h1, h2 := Face(p, d), Face(q, d);
            Congruent(k * k, (v1 * v1) * (h2 * h2 + 4 * (v2 * v2)) + 2 * (v1 * v2) * (Norm(p) * Norm(q))
                             + (v2 * v2) * (h1 * h1 + 4 * (v1 * v1)))
  {
    hide Congruent, Norm, Cross, Dot;
    var k, v1, v2 := Cross(p, q) * Dot(p, q), Edge(p), Edge(q);
    var n1, n2 := Norm(p), Norm(q);
    var s1, s2 := Face(p, d) * Face(p, d) + 4 * (v1 * v1), Face(q, d) * Face(q, d) + 4 * (v2 * v2);
    CrossDot(p, q);
    CongruentScale(n2, p.x * p.y, v1);
    CongruentScale(n1, q.x * q.y, v2);
    CongruentAdd(n2 * (p.x * p.y), n2 * v1, n1 * (q.x * q.y), n1 * v2);
    var r := n2 * v1 + n1 * v2;
    assert k == n2 * (p.x * p.y) + n1 * (q.x * q.y);
    CongruentMul(k, r, k, r);
    BinomialSquare(n2, v1, n1, v2);
    NormTerm(p, d);
    NormTerm(q, d);
    CongruentScale(v1 * v1, n2 * n2, s2);
    CongruentScale(v2 * v2, n1 * n1, s1);
    var mid := 2 * (v1 * v2) * (n1 * n2);
    CongruentRefl(mid);
    CongruentAdd((v1 * v1) * (n2 * n2), (v1 * v1) * s2, mid, mid);
    CongruentAdd((v1 * v1) * (n2 * n2) + mid, (v1 * v1) * s2 + mid, (v2 * v2) * (n1 * n1), (v2 * v2) * s1);
    CongruentTrans(k * k, r * r, (v1 * v1) * s2 + mid + (v2 * v2) * s1);
  }

  lemma BinomialSquare(a: int, b: int, c: int, d: int)
    ensures (a * b + c * d) * (a * b + c * d) == (b * b) * (a * a) + 2 * (b * d) * (c * a) + (d * d) * (c * c)
  {
  }

  lemma LeftSide(p: Point, q: Point, d: int, m: int, n: int)
    requires OnCurve(p, d) && OnCurve(q, d)
    ensures var k, l := Cross(p, q), Dot(p, q);
            Congruent(m * (l * l - k * k) + n * (l * l + k * k),
                      m * (Face(p, d) * Face(q, d)) + n * (Norm(p) * Norm(q) + 4 * (Edge(p) * Edge(q))))
  {
    hide Congruent, Norm, Cross, Dot;
    var g1, g2, u1, u2 := p.y * p.y - p.x * p.x, q.y * q.y - q.x * q.x, p.x * p.y, q.x * q.y;
    var n1, n2 := Norm(p), Norm(q);
    CrossDot(p, q);
    CongruentMul(g1, Face(p, d), g2, Face(q, d));
    CongruentScale(m, g1 * g2, Face(p, d) * Face(q, d));
    CongruentMul(u1, Edge(p), u2, Edge(q));
    CongruentScale(4, u1 * u2, Edge(p) * Edge(q));
    CongruentRefl(n1 * n2);
    CongruentAdd(n1 * n2, n1 * n2, 4 * (u1 * u2), 4 * (Edge(p) * Edge(q)));
    CongruentScale(n, n1 * n2 + 4 * (u1 * u2), n1 * n2 + 4 * (Edge(p) * Edge(q)));
    CongruentAdd(m * (g1 * g2), m * (Face(p, d) * Face(q, d)),
                 n * (n1 * n2 + 4 * (u1 * u2)), n * (n1 * n2 + 4 * (Edge(p) * Edge(q))));
  }

  /** The sum of two points on the curve is on the curve, in extended coordinates. */
  lemma SumOnCurve(p: Point, q: Point, d: int)
    requires OnCurve(p, d) && OnCurve(q, d)
    ensures OnCurve(ToExtended(Sum(p, q, d)), d)
  {
    hide Congruent, Norm, Cross, Dot, Sum, OnCurve;
    var k, l, a, e := Cross(p, q), Dot(p, q), p.z * q.z, d * (p.t * q.t);
    var v1, v2, n := Edge(p), Edge(q), Norm(p) * Norm(q);
    LeftSide(p, q, d, a * a + e * e, 2 * (a * e));
    ProductSquare(p, q, d);
    var s := (v1 * v1) * (Face(q, d) * Face(q, d) + 4 * (v2 * v2)) + 2 * (v1 * v2) * n
             + (v2 * v2) * (Face(p, d) * Face(p, d) + 4 * (v1 * v1));
    var f := (a * a - e * e) * (a * a - e * e);
    CongruentScale(d, (k * l) * (k * l), s);
    CongruentSymm(d * ((k * l) * (k * l)), d * s);
    CongruentRefl(f);
    CongruentAdd(f, f, d * s, d * ((k * l) * (k * l)));
    MiddleTerms(p, q, d, n);
    var lhs := (a * a + e * e) * (l * l - k * k) + 2 * (a * e) * (l * l + k * k);
    CongruentTrans(lhs, f + d * s, f + d * ((k * l) * (k * l)));
    CongruentScale(16, lhs, f + d * ((k * l) * (k * l)));
    SumParts(p, q, d);
    Doubled(k, l, a, e, d);
    ToExtendedIsExtended(Sum(p, q, d));
    assert OnCurve(ToExtended(Sum(p, q, d)), d) by { IsOnCurve(ToExtended(Sum(p, q, d)), d); }
  }

  lemma IsOnCurve(p: Point, d: int)
    requires Extended(p) && Congruent(p.y * p.y - p.x * p.x, p.z * p.z + d * (p.t * p.t))
    ensures OnCurve(p, d)
  {
  }

  lemma MiddleTerms(p: Point, q: Point, d: int, n: int)
    ensures var a, e, v1, v2 := p.z * q.z, d * (p.t * q.t), Edge(p), Edge(q);
            var g, h := Face(p, d), Face(q, d);
            (a * a + e * e) * (g * h) + 2 * (a * e) * (n + 4 * (v1 * v2))
            == (a * a - e * e) * (a * a - e * e)
               + d * ((v1 * v1) * (h * h + 4 * (v2 * v2)) + 2 * (v1 * v2) * n + (v2 * v2) * (g * g + 4 * (v1 * v1)))
  {
    Squares(p.z, p.t, q.z, q.t, d);
    Balance(p.z * p.z, p.t * p.t, q.z * q.z, q.t * q.t, d, Edge(p) * Edge(q), n, Face(p, d), Face(q, d));
  }

  lemma Exchange(a: int, b: int, c: int, e: int)
    ensures (a * b) * (c * e) == (a * c) * (b * e)
  {
    assert (a * b) * (c * e) == a * (b * c * e) == (a * c) * (b * e);
  }

  lemma Squares(z1: int, t1: int, z2: int, t2: int, d: int)
    ensures (z1 * t1) * (z1 * t1) == (z1 * z1) * (t1 * t1) && (z2 * t2) * (z2 * t2) == (z2 * z2) * (t2 * t2)
    ensures (z1 * z2) * (z1 * z2) == (z1 * z1) * (z2 * z2)
    ensures (d * (t1 * t2)) * (d * (t1 * t2)) == (d * (t1 * t1)) * (d * (t2 * t2))
    ensures (z1 * z2) * (d * (t1 * t2)) == d * ((z1 * t1) * (z2 * t2))
    ensures ((z1 * t1) * (z2 * t2)) * ((z1 * t1) * (z2 * t2)) == ((z1 * z1) * (t1 * t1)) * ((z2 * z2) * (t2 * t2))
  {
    Exchange(z1, t1, z1, t1);
    Exchange(z2, t2, z2, t2);
    Exchange(z1, z2, z1, z2);
    Exchange(d, t1 * t2, d, t1 * t2);
    Exchange(t1, t2, t1, t2);
    Exchange(d, t1 * t1, d, t2 * t2);
    Exchange(z1, z2, t1, t2);
    Exchange(z1 * t1, z2 * t2, z1 * t1, z2 * t2);
  }

  // the completed sum carries a factor 2 in each coordinate
  lemma Doubled(k: int, l: int, a: int, e: int, d: int)
    ensures var r := ToExtended(Completed(2 * k, 2 * l, 2 * (a + e), 2 * (a - e)));
            && r.y * r.y - r.x * r.x == 16 * ((a * a + e * e) * (l * l - k * k) + 2 * (a * e) * (l * l + k * k))
            && r.z * r.z + d * (r.t * r.t) == 16 * ((a * a - e * e) * (a * a - e * e) + d * ((k * l) * (k * l)))
  {
  }

  // ---- doubling and negation ----

  lemma CancelTwo(x: int, y: int)
    requires Congruent(2 * x, 2 * y)
    ensures Congruent(x, y)
  {
    hide Congruent;
    var k := Apart(2 * x, 2 * y);
    assert P % 2 == 1;
    CongruentBy(x, y, k / 2);
  }

  /** On the curve, Double yields the coordinates of the sum of the point with itself, up to the factor 2
      that both numerators and denominators share. */
  lemma TwinIsSum(p: Point, d: int)
    requires OnCurve(p, d)
    ensures var s, t := Sum(p, p, d), Twin(p);
            Congruent(s.z, 2 * t.z) && Congruent(s.t, 2 * t.t) && s.x == 2 * t.x && s.y == 2 * t.y
  {
    hide Congruent, Sum, Twin;
    var g, h := p.y * p.y - p.x * p.x, p.z * p.z + d * (p.t * p.t);
    TwinParts(p, d);
    CongruentSymm(g, h);
    CongruentScale(2, h, g);
    CongruentScale(-2, h, g);
    CongruentRefl(4 * (p.z * p.z));
    CongruentAdd(4 * (p.z * p.z), 4 * (p.z * p.z), -2 * h, -2 * g);
  }

  lemma TwinParts(p: Point, d: int)
    ensures var s, t := Sum(p, p, d), Twin(p);
            var g, h := p.y * p.y - p.x * p.x, p.z * p.z + d * (p.t * p.t);
            s.x == 2 * t.x && s.y == 2 * t.y && s.z == 2 * h && t.z == g
            && s.t == 4 * (p.z * p.z) + -2 * h && 2 * t.t == 4 * (p.z * p.z) + -2 * g
  {
    SumParts(p, p, d);
    SquareOfSum(p.x, p.y);
    hide Sum;
  }

  lemma SquareOfSum(x: int, y: int)
    ensures (x + y) * (x + y) == x * x + 2 * (x * y) + y * y && x * y == y * x
  {
  }

  lemma TwinOnCurve(p: Point, d: int)
    requires OnCurve(p, d)
    ensures OnCurve(ToExtended(Twin(p)), d)
  {
    hide Congruent, Sum, Twin;
    var s, t := Sum(p, p, d), Twin(p);
    TwinIsSum(p, d);
    SumOnCurve(p, p, d);
    ToExtendedIsExtended(t);
    var r := ToExtended(t);
    var w := ToExtended(s);
    CongruentMul(s.y, 2 * t.y, s.z, 2 * t.z);
    CongruentMul(s.x, 2 * t.x, s.t, 2 * t.t);
    CongruentMul(s.z, 2 * t.z, s.t, 2 * t.t);
    FourTimes(t);
    CongruentRefl(4 * r.t);
    ScaledCurve(w, r, d);
  }

  lemma FourTimes(t: Completed)
    ensures (2 * t.y) * (2 * t.z) == 4 * (t.y * t.z) && (2 * t.x) * (2 * t.t) == 4 * (t.x * t.t)
    ensures (2 * t.z) * (2 * t.t) == 4 * (t.z * t.t) && (2 * t.x) * (2 * t.y) == 4 * (t.x * t.y)
  {
  }

  // w is four times r in every coordinate
  lemma ScaledCurve(w: Point, r: Point, d: int)
    requires OnCurve(w, d) && Extended(r)
    requires Congruent(w.x, 4 * r.x) && Congruent(w.y, 4 * r.y) && Congruent(w.z, 4 * r.z) && Congruent(w.t, 4 * r.t)
    ensures OnCurve(r, d)
  {
    hide Congruent;
    CongruentMul(w.x, 4 * r.x, w.x, 4 * r.x);
    CongruentMul(w.y, 4 * r.y, w.y, 4 * r.y);
    CongruentMul(w.z, 4 * r.z, w.z, 4 * r.z);
    CongruentMul(w.t, 4 * r.t, w.t, 4 * r.t);
    CongruentScale(d, w.t * w.t, (4 * r.t) * (4 * r.t));
    CongruentSub(w.y * w.y, (4 * r.y) * (4 * r.y), w.x * w.x, (4 * r.x) * (4 * r.x));
    CongruentAdd(w.z * w.z, (4 * r.z) * (4 * r.z), d * (w.t * w.t), d * ((4 * r.t) * (4 * r.t)));
    var g, h := r.y * r.y - r.x * r.x, r.z * r.z + d * (r.t * r.t);
    var g', h' := (4 * r.y) * (4 * r.y) - (4 * r.x) * (4 * r.x), (4 * r.z) * (4 * r.z) + d * ((4 * r.t) * (4 * r.t));
    CongruentSymm(w.y * w.y - w.x * w.x, g');
    CongruentTrans(g', w.y * w.y - w.x * w.x, w.z * w.z + d * (w.t * w.t));
    CongruentTrans(g', w.z * w.z + d * (w.t * w.t), h');
    SixteenTimes(r, d);
    CancelTwo(8 * g, 8 * h);
    CancelTwo(4 * g, 4 * h);
    CancelTwo(2 * g, 2 * h);
    CancelTwo(g, h);
  }

  lemma SixteenTimes(r: Point, d: int)
    ensures (4 * r.y) * (4 * r.y) - (4 * r.x) * (4 * r.x) == 2 * (8 * (r.y * r.y - r.x * r.x))
    ensures (4 * r.z) * (4 * r.z) + d * ((4 * r.t) * (4 * r.t)) == 2 * (8 * (r.z * r.z + d * (r.t * r.t)))
  {
  }

  lemma NegatedOnCurve(p: Point, d: int)
    requires OnCurve(p, d)
    ensures OnCurve(Negated(p), d)
  {
    hide Congruent;
    CongruentScale(-1, p.x * p.y, p.z * p.t);
    assert -1 * (p.x * p.y) == -p.x * p.y && -1 * (p.z * p.t) == p.z * -p.t;
    assert -p.x * -p.x == p.x * p.x && -p.t * -p.t == p.t * p.t;
  }
}
