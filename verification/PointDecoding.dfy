/** Decoding a point: ExtendedGroupElement.FromBytes. */
module PointDecoding {
  import opened Machine
  import opened Bits
  import opened FieldLimbs
  import opened FieldProduct
  import opened FieldBytes
  import opened FieldElement
  import opened EdwardsCurve
  import opened GroupElement
  import opened FieldPower

  // the canonical bytes of an element
  method Encode(f: Limbs, ghost v: int, ghost k: nat) returns (s: seq<byte>)
    requires Repr(f, v, k) && k <= 3
    ensures |s| == 32 && Le(s) == v % P
  {
    hide Eval, Le, Pack, Frozen, Congruent;
    ToBytesExact(f);
    CongruentMod(v, Eval(f));
    s := FieldBytes.ToBytes(f);
  }

  // the or of all bytes, folded into one bit
  method IsNonZero(f: Limbs, ghost v: int, ghost k: nat) returns (b: bool)
    requires Repr(f, v, k) && k <= 3
    ensures b <==> v % P != 0
  {
    hide Repr, Le;
    var s := Encode(f, v, k);
    var i := 0;
    b := false;
    while i < 32
      invariant 0 <= i <= 32
      invariant b <==> exists j :: 0 <= j < i && s[j] != 0
    {
      b := b || s[i] != 0;
      i := i + 1;
    }
    ZeroBytes(s);
  }

  lemma ZeroBytes(s: seq<byte>)
    ensures Le(s) == 0 <==> forall j | 0 <= j < |s| :: s[j] == 0
  {
    ZeroBytesFrom(s, 0);
  }

  lemma {:induction false} ZeroBytesFrom(s: seq<byte>, i: nat)
    requires i <= |s|
    ensures LeFrom(s, i) == 0 <==> forall j | i <= j < |s| :: s[j] == 0
    decreases |s| - i
  {
    if i < |s| {
      ZeroBytesFrom(s, i + 1);
    }
  }

  // s[0] & 1
  method IsNegative(f: Limbs, ghost v: int, ghost k: nat) returns (b: bool)
    requires Repr(f, v, k) && k <= 3
    ensures b <==> v % P % 2 == 1
  {
    hide Repr, LeFrom, Le;
    var s := Encode(f, v, k);
    b := s[0] % 2 == 1;
    LowByteParity(s);
  }

  lemma ReprTimes(f: Limbs, v: int, i: nat, g: Limbs, w: int, j: nat)
    requires Repr(f, v, i) && Repr(g, w, j) && i <= 3 && j <= 3
    ensures Repr(Mul(f, g), Times(v, w), 1)
  {
    hide Mul, Repr;
    ReprMul(f, v, i, g, w, j);
  }

  lemma ReprTimesSquare(f: Limbs, v: int, i: nat)
    requires Repr(f, v, i) && i <= 3
    ensures Repr(Square(f), Times(v, v), 1)
  {
    hide Square, Square2, Repr;
    ReprSquare(f, v, i);
  }

  lemma BigPower()
    ensures Pow2(252) > 3
  {
    assert Pow2(2) == 4;
    PowAdd(2, 250);
  }

  /** u v^3 (u v^7)^((p-5)/8), the candidate for the square root of u/v, from u = a and v = b. */
  ghost function Root(a: int, b: int): int {
    BigPower();
    var c := Times(Times(b, b), b);
    Times(Times(Power(Times(Times(Times(c, c), b), a), Pow2(252) - 3), c), a)
  }

  /** Whether the candidate squares to u/v or to -u/v. */
  ghost predicate HasRoot(a: int, b: int) {
    var z := Times(Times(Root(a, b), Root(a, b)), b);
    Congruent(z, a) || Congruent(z, -a)
  }

  method Candidate(u: Limbs, v: Limbs, ghost a: int, ghost b: int) returns (x: Limbs)
    requires Repr(u, a, 2) && Repr(v, b, 2)
    ensures Repr(x, Root(a, b), 1)
  {
    hide Repr, Mul, Square, Power, Pow2, Times;
    var v3 := Square(v);
    ReprTimesSquare(v, b, 2);
    ReprTimes(v3, Times(b, b), 1, v, b, 2);
    v3 := Mul(v3, v);
    ghost var c := Times(Times(b, b), b);
    x := Square(v3);
    ReprTimesSquare(v3, c, 1);
    ReprTimes(x, Times(c, c), 1, v, b, 2);
    x := Mul(x, v);
    ReprTimes(x, Times(Times(c, c), b), 1, u, a, 2);
    x := Mul(x, u);
    ghost var e := Times(Times(Times(c, c), b), a);
    x := Pow22523(x, e);
    BigPower();
    ghost var r := Power(e, Pow2(252) - 3);
    PowerStands(x, e, Pow2(252) - 3);
    ReprTimes(x, r, 1, v3, c, 1);
    x := Mul(x, v3);
    ReprTimes(x, Times(r, c), 1, u, a, 2);
    x := Mul(x, u);
  }

  lemma PowerStands(f: Limbs, v: int, n: nat)
    requires IsPower(f, v, n)
    ensures Repr(f, Power(v, n), 1)
  {
  }

  // x with v x^2 = u, from a candidate that may be off by a square root of -1
  method Adjust(x0: Limbs, u: Limbs, v: Limbs, ghost w0: int, ghost a: int, ghost b: int)
    returns (ok: bool, x: Limbs, ghost w: int)
    requires Repr(x0, w0, 1) && Repr(u, a, 2) && Repr(v, b, 2)
    ensures ok ==> Repr(x, w, 1) && Congruent(Times(Times(w, w), b), a)
    ensures ok ==> w == w0 || w == Times(w0, Eval(SQRT_M1))
    ensures ok <==> Congruent(Times(Times(w0, w0), b), a) || Congruent(Times(Times(w0, w0), b), -a)
  {
    hide Repr, Mul, Square, Add, Sub, Times, Congruent, Eval;
    x, w := x0, w0;
    var vxx := Square(x);
    ghost var z := Times(Times(w, w), b);
    ZeroDifference(z, a);
    ZeroDifference(z, -a);
    ReprTimesSquare(x, w, 1);
    ReprTimes(vxx, Times(w, w), 1, v, b, 2);
    vxx := Mul(vxx, v);
    ReprSub(vxx, z, 1, u, a, 2);
    var nonZero := IsNonZero(Sub(vxx, u), z - a, 3);
    ok := true;
    if nonZero {
      ReprAdd(vxx, z, 1, u, a, 2);
      nonZero := IsNonZero(Add(vxx, u), z + a, 3);
      if nonZero {
        ok := false;
        return;
      }
      OneStands();
      ghost var i := Eval(SQRT_M1);
      ReprTimes(x, w, 1, SQRT_M1, i, 1);
      x := Mul(x, SQRT_M1);
      TimesRoot(w, i, a, b);
      w := Times(w, i);
    }
  }

  lemma TimesRoot(w: int, i: int, a: int, b: int)
    requires Congruent(i * i, -1) && Congruent(Times(Times(w, w), b), -a)
    ensures Congruent(Times(Times(Times(w, i), Times(w, i)), b), a)
  {
    hide Congruent;
    CongruentMul(w * w * b, -a, i * i, -1);
    assert (w * i) * (w * i) * b == w * w * b * (i * i);
    assert -a * -1 == a;
  }

  lemma ReprNeg(f: Limbs, v: int)
    requires Repr(f, v, 1)
    ensures Repr(Neg(f), -v, 1)
  {
    hide Congruent, Eval;
    NegExact(f, 0x200_0000, 0x102_0000);
    CongruentScale(-1, v, Eval(f));
  }

  lemma NegParity(v: int)
    requires v % P != 0
    ensures -v % P % 2 == 1 <==> v % P % 2 == 0
  {
    var x := v % P;
    assert -v == P * (-(v / P) - 1) + (P - x);
    ModUnique(-v, P, -(v / P) - 1, P - x);
    assert P == 2 * ((P - 1) / 2) + 1;
  }

  lemma RootOnCurve(x: int, y: int)
    requires Congruent(x * x * (y * y * d + 1), y * y - 1)
    ensures OnCurve(Point(x, y, 1, x * y), d)
  {
    hide Congruent;
    var v, u := x * x * (y * y * d + 1), y * y - 1;
    CongruentRefl(x * y);
    CongruentSymm(v, u);
    CongruentRefl(1 - x * x);
    CongruentAdd(u, v, 1 - x * x, 1 - x * x);
    assert v + (1 - x * x) == 1 * 1 + d * ((x * y) * (x * y));
  }

  /** A decoded point is on the curve, its y is the low 255 bits of the string, and the parity of a
      nonzero x is the top bit. */
  method FromBytes(p: ExtendedGroupElement, s: array<byte>) returns (ok: bool, ghost q: Point)
    requires s.Length == 32
    modifies p
    ensures ok ==> p.Stands(q) && OnCurve(q, d) && q.z == 1 && q.y == Low(Le(s[..]), 255)
    ensures ok ==> q.x % P == 0 || (q.x % P % 2 == 1 <==> s[31] >= 128)
    ensures ok ==> (q.x % P == 0 <==> q.y * q.y % P == 1)
    ensures var y := Low(Le(s[..]), 255); ok <==> HasRoot(y * y - 1, y * y * d + 1)
  {
    hide Repr, Mul, Le, Low, Congruent, OnCurve, Root, Eval, Loaded, Combine, FieldBytes.FromBytes, One;
    ghost var bytes := s[..];
    ghost var y := Low(Le(bytes), 255);
    DecodeY(bytes);
    OneStands();
    p.Y := FieldBytes.FromBytes(s[..]);
    p.Z := One();
    assert s[..] == bytes;
    ghost var a, b := y * y - 1, y * y * d + 1;
    var u, v := Fraction(p.Y, y);
    var x := Candidate(u, v, a, b);
    ghost var w;
    ok, x, w := Adjust(x, u, v, Root(a, b), a, b);
    q := Point(w, y, 1, w * y);
    if !ok {
      return;
    }
    RootOnCurve(w, y);
    RootZero(w, a, b);
    ghost var w0 := w;
    x, w := WithSign(x, w, s[31] / 128 == 1);
    NegatedOnCurve(Point(w0, y, 1, w0 * y), d);
    assert -(w0 * y) == -w0 * y;
    NegZero(w0);
    NegZero(-w0);
    YZero(y);
    p.X := x;
    ReprMul(x, w, 1, p.Y, y, 1);
    p.T := Mul(x, p.Y);
    q := Point(w, y, 1, w * y);
  }

  // u = y^2 - 1 and v = d y^2 + 1
  method Fraction(f: Limbs, ghost y: int) returns (u: Limbs, v: Limbs)
    requires Repr(f, y, 1)
    ensures Repr(u, y * y - 1, 2) && Repr(v, y * y * d + 1, 2)
  {
    hide Repr, Mul, Square, Add, Sub, Eval;
    OneStands();
    u := Square(f);
    ReprSquare(f, y, 1);
    ReprMul(u, y * y, 1, D, d, 1);
    v := Mul(u, D);
    ReprSub(u, y * y, 1, One(), 1, 1);
    u := Sub(u, One());
    ReprAdd(v, y * y * d, 1, One(), 1, 1);
    v := Add(v, One());
  }

  // x or -x, whichever has the parity asked for
  method WithSign(x0: Limbs, ghost w0: int, odd: bool) returns (x: Limbs, ghost w: int)
    requires Repr(x0, w0, 1)
    ensures Repr(x, w, 1) && (w == w0 || w == -w0)
    ensures w % P == 0 || (w % P % 2 == 1 <==> odd)
  {
    hide Repr;
    x, w := x0, w0;
    var negative := IsNegative(x, w, 1);
    if negative != odd {
      ReprNeg(x, w);
      x := Neg(x);
      if w % P != 0 {
        NegParity(w);
      }
      NegZero(w);
      w := -w;
    }
  }

  lemma NegZero(v: int)
    ensures v % P == 0 ==> -v % P == 0
  {
    if v % P == 0 {
      MultipleOfP(-(v / P));
    }
  }

  // ---- when x is zero ----

  /** The candidate is a multiple of a, so a root is zero exactly if a is. */
  lemma RootZero(w: int, a: int, b: int)
    requires w == Root(a, b) || w == Times(Root(a, b), Eval(SQRT_M1))
    requires Congruent(Times(Times(w, w), b), a)
    ensures w % P == 0 <==> a % P == 0
  {
    hide Congruent, Root, Eval;
    CongruentMod(Times(Times(w, w), b), a);
    if w % P == 0 {
      ZeroTimes(w, w * b);
      assert w * (w * b) == Times(Times(w, w), b);
    }
    if a % P == 0 {
      var r := RootFactor(a, b);
      assert r * a * Eval(SQRT_M1) == a * (r * Eval(SQRT_M1));
      ZeroTimes(a, if w == Root(a, b) then r else r * Eval(SQRT_M1));
    }
  }

  lemma RootFactor(a: int, b: int) returns (r: int)
    ensures Root(a, b) == a * r
  {
    hide Power, Pow2;
    BigPower();
    var c := Times(Times(b, b), b);
    r := Times(Power(Times(Times(Times(c, c), b), a), Pow2(252) - 3), c);
  }

  lemma ZeroTimes(x: int, y: int)
    requires x % P == 0
    ensures x * y % P == 0
  {
    assert x * y == P * (x / P * y);
    MultipleOfP(x / P * y);
  }

  lemma YZero(y: int)
    ensures (y * y - 1) % P == 0 <==> y * y % P == 1
  {
    var z := y * y;
    if z % P == 1 {
      MultipleOfP(z / P);
    } else if (z - 1) % P == 0 {
      ModUnique(z, P, (z - 1) / P, 1);
    }
  }

  /** A multiple of p has the root zero, so the square roots of 1 in y are accepted. */
  lemma ZeroHasRoot(a: int, b: int)
    requires a % P == 0
    ensures HasRoot(a, b)
  {
    hide Root, Congruent;
    var w := Root(a, b);
    var r := RootFactor(a, b);
    ZeroTimes(a, r);
    ZeroTimes(w, w * b);
    assert w * (w * b) == Times(Times(w, w), b);
    CongruentIs(Times(Times(w, w), b), a);
  }

  lemma DecodeY(b: seq<byte>)
    requires |b| == 32
    ensures Repr(FieldBytes.FromBytes(b), Low(Le(b), 255), 1)
  {
    hide Eval, Le, Low, Congruent, Loaded, Combine;
    LoadedExact(b);
    CombineExact(Loaded(b));
  }

  lemma OneStands()
    ensures Repr(One(), 1, 1) && Repr(D, d, 1) && Repr(SQRT_M1, Eval(SQRT_M1), 1)
    ensures Congruent(Eval(SQRT_M1) * Eval(SQRT_M1), -1)
  {
    hide Congruent;
    Constants();
    CongruentRefl(1);
    CongruentRefl(Eval(D));
    CongruentRefl(Eval(SQRT_M1));
  }

  lemma LowByteParity(s: seq<byte>)
    requires |s| > 0
    ensures Le(s) % 2 == s[0] as int % 2
  {
    assert Le(s) == s[0] as int + 256 * LeFrom(s, 1);
  }

  // ---- encoding ----

  lemma TopBit(s: seq<byte>, b: nat)
    requires |s| == 32 && Le(s) < P && b <= 1
    ensures s[31] < 128 && Xor(s[31], Shl(b, 7)) == s[31] + 128 * b
    ensures s[31] + 128 * b < 256
    ensures Le(s[31 := s[31] + 128 * b]) == Le(s) + b * (P + 19)
  {
    hide LeFrom, Le, Xor, Shl, Pow2;
    TopByte(s);
    XorTop(s[31], b);
    LeTop(s, b);
  }

  lemma XorTop(x: nat, b: nat)
    requires x < 128
    ensures Xor(x, Shl(b, 7)) == x + 128 * b
  {
    hide Xor, Shl, Pow2;
    Seven();
    OrShifted(x, b, 7);
    ShlSeven(b);
  }

  lemma LeTop(s: seq<byte>, b: nat)
    requires |s| == 32 && b <= 1 && s[31] < 128
    ensures Le(s[31 := s[31] + 128 * b]) == Le(s) + b * (P + 19)
  {
    hide LeFrom, Pow2;
    LeUpdate(s, 31, s[31] + 128 * b, 0);
    Weight31();
    AddBit(s[31], b, Pow2(8 * 31));
  }

  lemma AddBit(x: int, b: nat, w: int)
    requires b <= 1
    ensures (x + 128 * b - x) * w == b * (w * 128)
  {
  }

  lemma TopByte(s: seq<byte>)
    requires |s| == 32 && Le(s) < P
    ensures s[31] < 128
  {
    hide LeFrom, Shr, Low, Pow2;
    WholePower();
    LeByte(s, 31);
    Seven();
    ShrBound(Le(s), 248, 7);
    FieldJoin(Le(s), 248, 7, 1);
    SmallLow(Shr(Le(s), 248), 7);
    TopZero(Le(s));
  }

  lemma ShlSeven(b: nat)
    ensures Shl(b, 7) == 128 * b
  {
    Seven();
  }

  lemma TopZero(n: nat)
    requires n < Pow2(255)
    ensures Field(n, 255, 1) == 0
  {
    hide Pow2, Low, Shr;
    SmallLow(n, 255);
    ZeroLow();
  }

  lemma ZeroLow()
    ensures Low(0, 1) == 0
  {
  }

  lemma Weight31()
    ensures Pow2(8 * 31) * 128 == P + 19
  {
    hide Pow2;
    WholePower();
    Seven();
    PowAdd(248, 7);
  }

  lemma {:induction false} LeUpdate(s: seq<byte>, k: nat, x: byte, i: nat)
    requires i <= k < |s|
    ensures LeFrom(s[k := x], i) == LeFrom(s, i) + (x - s[k]) * Pow2(8 * (k - i))
    decreases k - i
  {
    hide Pow2;
    PowZero();
    if i == k {
      SameTail(s, s[k := x], k + 1);
    } else {
      LeUpdate(s, k, x, i + 1);
      PowAdd(8, 8 * (k - i - 1));
      PowValues();
      assert 256 * ((x - s[k]) * Pow2(8 * (k - i - 1))) == (x - s[k]) * Pow2(8 * (k - i));
    }
  }

  lemma {:induction false} SameTail(s: seq<byte>, t: seq<byte>, i: nat)
    requires |s| == |t| && i <= |s| && forall k | i <= k < |s| :: s[k] == t[k]
    ensures LeFrom(s, i) == LeFrom(t, i)
    decreases |s| - i
  {
    if i < |s| {
      SameTail(s, t, i + 1);
    }
  }

  /** The encoding of section 5.1.2 of RFC 8032: y in the low 255 bits and the parity of x above them, for
      x = X Z^(p-2) and y = Y Z^(p-2) modulo p. */
  method ToBytes(p: ExtendedGroupElement, s: array<byte>, ghost q: Point)
    requires s.Length == 32 && p.Stands(q)
    modifies s
    ensures var r := Power(q.z, P - 2);
            Le(s[..]) == q.y * r % P + (q.x * r % P % 2) * (P + 19)
  {
    hide Repr, Mul, Xor, Shl, Le, Power;
    var recip := Invert(p.Z, q.z);
    ghost var r := Power(q.z, P - 2);
    PowerStands(recip, q.z, P - 2);
    var x, y := Mul(p.X, recip), Mul(p.Y, recip);
    ReprMul(p.X, q.x, 1, recip, r, 1);
    ReprMul(p.Y, q.y, 1, recip, r, 1);
    var bytes := Encode(y, q.y * r, 1);
    var negative := IsNegative(x, q.x * r, 1);
    var b := if negative then 1 else 0;
    TopBit(bytes, b);
    forall i | 0 <= i < 32 {
      s[i] := bytes[i];
    }
    s[31] := Xor(s[31], Shl(b, 7));
    assert s[..] == bytes[31 := bytes[31] + 128 * b];
  }

  // ---- decoding, then encoding ----

  lemma {:induction false} OnePower(n: nat)
    ensures Power(1, n) == 1
  {
    if n > 0 {
      OnePower(n - 1);
    }
  }

  lemma {:induction false} LeInjective(a: seq<byte>, b: seq<byte>, i: nat)
    requires |a| == |b| && i <= |a| && LeFrom(a, i) == LeFrom(b, i)
    ensures a[i..] == b[i..]
    decreases |a| - i
  {
    if i < |a| {
      LeInjective(a, b, i + 1);
      assert a[i..] == [a[i]] + a[i + 1..] && b[i..] == [b[i]] + b[i + 1..];
    }
  }

  lemma SameBytes(a: seq<byte>, b: seq<byte>)
    requires |a| == |b|
    ensures a == b <==> Le(a) == Le(b)
  {
    if Le(a) == Le(b) {
      LeInjective(a, b, 0);
      assert a[0..] == a && b[0..] == b;
    }
  }

  // the bytes of a y and a sign bit
  lemma LeSigned(s: seq<byte>)
    requires |s| == 32
    ensures Le(s) == Low(Le(s), 255) + (if s[31] >= 128 then P + 19 else 0)
  {
    hide LeFrom, Le, Shr, Low, Pow2;
    WholePower();
    Seven();
    LeByte(s, 31);
    WholeField(s);
    FieldJoin(Le(s), 0, 255, 1);
    FieldZero(Le(s), 255);
    FieldField(Le(s), 248, 8, 7, 1);
    OneTopBit(s[31]);
  }

  lemma OneTopBit(x: byte)
    ensures Field(x, 7, 1) == if x >= 128 then 1 else 0
  {
    Seven();
    assert Pow2(1) == 2;
  }

  /**
   * A decoded point is encoded again to the bytes it came from exactly if y is below p and the sign bit is not set on
   * an x of zero.
   */
  lemma DecodedEncodes(s: seq<byte>, q: Point, n: int)
    requires |s| == 32 && q.z == 1 && q.y == Low(Le(s), 255) && (q.x % P == 0 || (q.x % P % 2 == 1 <==> s[31] >= 128))
    requires var r := Power(q.z, P - 2); n == q.y * r % P + (q.x * r % P % 2) * (P + 19)
    ensures n == Le(s) <==> Low(Le(s), 255) < P && !(q.x % P == 0 && s[31] >= 128)
  {
    hide LeFrom, Le, Low, Pow2, Power;
    OnePower(P - 2);
    LeSigned(s);
    FieldZero(Le(s), 255);
    WholePower();
    BelowP(q.y);
  }

  lemma BelowP(y: nat)
    ensures 0 <= y % P < P && (y % P == y <==> y < P)
  {
  }

  /** The input is what ToBytes writes for the point: y is below p, and no sign bit where x is zero, at y^2 = 1. */
  predicate Canonical(s: seq<byte>)
    requires |s| == 32
  {
    var y := Low(Le(s), 255);
    y < P && !(y * y % P == 1 && s[31] >= 128)
  }

  /** The input has a point: the equation has a candidate root at its y. */
  ghost predicate Accepted(s: seq<byte>)
    requires |s| == 32
  {
    var y := Low(Le(s), 255);
    HasRoot(y * y - 1, y * y * d + 1)
  }

  /** ToBytes after FromBytes: it writes the canonical ones of the accepted inputs back, and no others. */
  method Recode(p: ExtendedGroupElement, s: array<byte>, out: array<byte>) returns (ok: bool, ghost q: Point)
    requires s.Length == 32 && out.Length == 32 && out != s
    modifies p, out
    ensures ok <==> Accepted(s[..])
    ensures ok ==> p.Stands(q) && OnCurve(q, d) && q.y == Low(Le(s[..]), 255)
    ensures ok ==> (out[..] == s[..] <==> Canonical(s[..]))
  {
    hide Le, Low, Power, OnCurve, HasRoot;
    ok, q := FromBytes(p, s);
    if ok {
      ToBytes(p, out, q);
      DecodedEncodes(s[..], q, Le(out[..]));
      SameBytes(out[..], s[..]);
    }
  }

  // ---- accepted inputs that are not written back ----

  /** p + 1, a second name of y = 1. */
  const BEYOND: seq<byte> := seq(32, i => if i == 0 then 0xEE else if i == 31 then 0x7F else 0xFF)

  /** y = 1, where x is zero, with the sign bit. */
  const NEGATIVE_ZERO: seq<byte> := seq(32, i => if i == 0 then 1 else if i == 31 then 0x80 else 0)

  /** Both are accepted; neither is what ToBytes writes. */
  lemma NotWrittenBack(s: seq<byte>)
    requires s == BEYOND || s == NEGATIVE_ZERO
    ensures |s| == 32 && Accepted(s) && !Canonical(s) && Low(Le(s), 255) == if s == BEYOND then P + 1 else 1
  {
    hide Le, Low, HasRoot;
    BeyondValue();
    NegativeZeroValue();
    LeSigned(s);
    var y := Low(Le(s), 255);
    OneSquared(y);
    YZero(y);
    ZeroHasRoot(y * y - 1, y * y * d + 1);
  }

  lemma OneSquared(y: nat)
    requires y == P + 1 || y == 1
    ensures y * y % P == 1
  {
    if y == P + 1 {
      ModUnique((P + 1) * (P + 1), P, P + 2, 1);
    }
  }

  lemma BeyondValue()
    ensures Le(BEYOND) == P + 1
  {
    hide LeFrom, Pow2;
    var ones: seq<byte> := seq(32, _ => 0xFF);
    LeOnes(ones, 0);
    LeUpdate(ones, 31, 0x7F, 0);
    LeUpdate(ones[31 := 0x7F], 0, 0xEE, 0);
    assert ones[31 := 0x7F][0 := 0xEE] == BEYOND;
    Weight31();
    Seven();
    WholePower();
    PowAdd(248, 8);
    PowValues();
    PowZero();
  }

  lemma {:induction false} LeOnes(s: seq<byte>, i: nat)
    requires i <= |s| && forall k | i <= k < |s| :: s[k] == 0xFF
    ensures LeFrom(s, i) == Pow2(8 * (|s| - i)) - 1
    decreases |s| - i
  {
    hide Pow2;
    PowZero();
    if i < |s| {
      LeOnes(s, i + 1);
      PowAdd(8, 8 * (|s| - i - 1));
      PowValues();
    }
  }

  lemma NegativeZeroValue()
    ensures Le(NEGATIVE_ZERO) == P + 20
  {
    hide LeFrom, Pow2;
    var zeros: seq<byte> := seq(32, _ => 0);
    ZeroBytes(zeros);
    LeUpdate(zeros, 31, 0x80, 0);
    LeUpdate(zeros[31 := 0x80], 0, 1, 0);
    assert zeros[31 := 0x80][0 := 1] == NEGATIVE_ZERO;
    Weight31();
    PowZero();
  }
}
