/** Field elements modulo 2^255 - 19 as five unsigned limbs of 51 bits: the amd64 representation. */
module Field51 {
  import opened Machine
  import opened Bits

  const P := 0x8000_0000_0000_0000_0000_0000_0000_0000_0000_0000_0000_0000_0000_0000_0000_0000 - 19
  const RADIX := 0x8_0000_0000_0000

  type Limbs = t: seq<int> | |t| == 5 witness [0, 0, 0, 0, 0]

  /** t[0] + 2^51 t[1] + 2^102 t[2] + 2^153 t[3] + 2^204 t[4] */
  function EvalFrom(t: Limbs, i: nat): int
    requires i <= 5
    decreases 5 - i
  {
    if i == 5 then 0 else t[i] + 0x8_0000_0000_0000 * EvalFrom(t, i + 1)
  }

  function Eval(t: Limbs): int {
    EvalFrom(t, 0)
  }

  predicate Below(t: Limbs, b: int) {
    forall k | 0 <= k < 5 :: 0 <= t[k] < b
  }

  // ---- FeFromBytes ----

  function Limb0(x: seq<byte>): nat
    requires |x| == 32
  {
    Or(Or(Or(Or(Or(Or(x[0], Shl(x[1], 8)), Shl(x[2], 16)), Shl(x[3], 24)), Shl(x[4], 32)), Shl(x[5], 40)),
      Shl(And(7, x[6]), 48))
  }

  function Limb1(x: seq<byte>): nat
    requires |x| == 32
  {
    Or(Or(Or(Or(Or(Or(Shr(x[6], 3), Shl(x[7], 5)), Shl(x[8], 13)), Shl(x[9], 21)), Shl(x[10], 29)), Shl(x[11], 37)),
      Shl(And(63, x[12]), 45))
  }

  function Limb2(x: seq<byte>): nat
    requires |x| == 32
  {
    Or(Or(Or(Or(Or(Or(Or(Shr(x[12], 6), Shl(x[13], 2)), Shl(x[14], 10)), Shl(x[15], 18)), Shl(x[16], 26)),
      Shl(x[17], 34)), Shl(x[18], 42)), Shl(And(1, x[19]), 50))
  }

  function Limb3(x: seq<byte>): nat
    requires |x| == 32
  {
    Or(Or(Or(Or(Or(Or(Shr(x[19], 1), Shl(x[20], 7)), Shl(x[21], 15)), Shl(x[22], 23)), Shl(x[23], 31)),
      Shl(x[24], 39)), Shl(And(15, x[25]), 47))
  }

  function Limb4(x: seq<byte>): nat
    requires |x| == 32
  {
    Or(Or(Or(Or(Or(Or(Shr(x[25], 4), Shl(x[26], 4)), Shl(x[27], 12)), Shl(x[28], 20)), Shl(x[29], 28)),
      Shl(x[30], 36)), Shl(And(127, x[31]), 44))
  }

  function FromBytes(x: seq<byte>): Limbs
    requires |x| == 32
  {
    var v: seq<int> := [Limb0(x), Limb1(x), Limb2(x), Limb3(x), Limb4(x)];
    v
  }

  lemma TopPart(x: seq<byte>, i: nat, s: nat)
    requires i < |x| && s <= 8
    ensures Shr(x[i], s) == Field(Le(x), 8 * i + s, 8 - s)
  {
    hide Le, Shr, Low;
    LeByte(x, i);
    LowShr(Shr(Le(x), 8 * i), 8, s);
    Twice(Le(x), 8 * i, s);
  }

  lemma BottomPart(x: seq<byte>, i: nat, w: nat)
    requires i < |x| && w <= 8
    ensures And([0, 1, 3, 7, 15, 31, 63, 127, 255][w], x[i]) == Field(Le(x), 8 * i, w)
  {
    hide Le, Shr, And;
    LeByte(x, i);
    AndMask(w, x[i]);
    LowLow(Shr(Le(x), 8 * i), 8, w);
    assert Pow2(2) == 4 && Pow2(4) == 16 && Pow2(6) == 64 && Pow2(8) == 256;
  }

  lemma Limb0Field(x: seq<byte>)
    requires |x| == 32
    ensures Limb0(x) == Field(Le(x), 0, 51)
  {
    hide And, Or, Le, LeFrom, Field, Shl, Pow2;
    var n := Le(x);
    LeByte(x, 0);
    LeByte(x, 1);
    OrField(n, 0, 8, 8);
    LeByte(x, 2);
    OrField(n, 0, 16, 8);
    LeByte(x, 3);
    OrField(n, 0, 24, 8);
    LeByte(x, 4);
    OrField(n, 0, 32, 8);
    LeByte(x, 5);
    OrField(n, 0, 40, 8);
    BottomPart(x, 6, 3);
    OrField(n, 0, 48, 3);
  }

  lemma Limb1Field(x: seq<byte>)
    requires |x| == 32
    ensures Limb1(x) == Field(Le(x), 51, 51)
  {
    hide And, Or, Le, LeFrom, Field, Shl, Pow2;
    var n := Le(x);
    TopPart(x, 6, 3);
    LeByte(x, 7);
    OrField(n, 51, 5, 8);
    LeByte(x, 8);
    OrField(n, 51, 13, 8);
    LeByte(x, 9);
    OrField(n, 51, 21, 8);
    LeByte(x, 10);
    OrField(n, 51, 29, 8);
    LeByte(x, 11);
    OrField(n, 51, 37, 8);
    BottomPart(x, 12, 6);
    OrField(n, 51, 45, 6);
  }

  lemma Limb2Field(x: seq<byte>)
    requires |x| == 32
    ensures Limb2(x) == Field(Le(x), 102, 51)
  {
    hide And, Or, Le, LeFrom, Field, Shl, Pow2;
    var n := Le(x);
    TopPart(x, 12, 6);
    LeByte(x, 13);
    OrField(n, 102, 2, 8);
    LeByte(x, 14);
    OrField(n, 102, 10, 8);
    LeByte(x, 15);
    OrField(n, 102, 18, 8);
    LeByte(x, 16);
    OrField(n, 102, 26, 8);
    LeByte(x, 17);
    OrField(n, 102, 34, 8);
    LeByte(x, 18);
    OrField(n, 102, 42, 8);
    BottomPart(x, 19, 1);
    OrField(n, 102, 50, 1);
  }

  lemma Limb3Field(x: seq<byte>)
    requires |x| == 32
    ensures Limb3(x) == Field(Le(x), 153, 51)
  {
    hide And, Or, Le, LeFrom, Field, Shl, Pow2;
    var n := Le(x);
    TopPart(x, 19, 1);
    LeByte(x, 20);
    OrField(n, 153, 7, 8);
    LeByte(x, 21);
    OrField(n, 153, 15, 8);
    LeByte(x, 22);
    OrField(n, 153, 23, 8);
    LeByte(x, 23);
    OrField(n, 153, 31, 8);
    LeByte(x, 24);
    OrField(n, 153, 39, 8);
    BottomPart(x, 25, 4);
    OrField(n, 153, 47, 4);
  }

  lemma Limb4Field(x: seq<byte>)
    requires |x| == 32
    ensures Limb4(x) == Field(Le(x), 204, 51)
  {
    hide And, Or, Le, LeFrom, Field, Shl, Pow2;
    var n := Le(x);
    TopPart(x, 25, 4);
    LeByte(x, 26);
    OrField(n, 204, 4, 8);
    LeByte(x, 27);
    OrField(n, 204, 12, 8);
    LeByte(x, 28);
    OrField(n, 204, 20, 8);
    LeByte(x, 29);
    OrField(n, 204, 28, 8);
    LeByte(x, 30);
    OrField(n, 204, 36, 8);
    BottomPart(x, 31, 7);
    OrField(n, 204, 44, 7);
  }

  /** FeFromBytes reads 255 bits into reduced limbs. */
  lemma FromBytesExact(x: seq<byte>)
    requires |x| == 32
    ensures Below(FromBytes(x), RADIX)
    ensures Eval(FromBytes(x)) == Low(Le(x), 255)
  {
    hide Limb0, Limb1, Limb2, Limb3, Limb4, Le, Pow2, Field;
    var n := Le(x);
    Limb0Field(x);
    Limb1Field(x);
    Limb2Field(x);
    Limb3Field(x);
    Limb4Field(x);
    PowValues();
    FieldZero(n, 255);
    FieldJoin(n, 0, 51, 204);
    FieldJoin(n, 51, 51, 153);
    FieldJoin(n, 102, 51, 102);
    FieldJoin(n, 153, 51, 51);
  }

  // ---- carries ----

  // t[i+1] += t[i] >> 51; t[i] &= mask; the top limb carries nineteen-fold into limb 0
  function Carry(t: Limbs, i: nat): Limbs
    requires i < 5
  {
    var c, low := t[i] / 0x8_0000_0000_0000, t[i] % 0x8_0000_0000_0000;
    if i < 4 then t[i := low][i + 1 := Uint64(t[i + 1] + c)]
    else t[4 := low][0 := Uint64(t[0] + Uint64(c * 19))]
  }

  function Carried(t: Limbs): Limbs {
    Carry(Carry(Carry(Carry(Carry(t, 0), 1), 2), 3), 4)
  }

  lemma Sums(t: Limbs)
    ensures Eval(t) == t[0] + 0x8_0000_0000_0000 * (t[1] + 0x8_0000_0000_0000 * (t[2]
            + 0x8_0000_0000_0000 * (t[3] + 0x8_0000_0000_0000 * t[4])))
  {
  }

  /** One pass of carries keeps the element and leaves every limb but the lowest below 2^51. */
  lemma CarriedExact(v: Limbs) returns (q: int)
    requires Below(v, 0x8000_0000_0000_0000)
    ensures var t := Carried(v);
            && Eval(t) == Eval(v) - q * P && 0 <= q <= 0x1001
            && 0 <= t[0] < RADIX + 0x1_4000
            && (forall k | 1 <= k < 5 :: 0 <= t[k] < RADIX)
  {
    hide Uint64, Eval;
    var t1 := Carry(v, 0);
    var t2 := Carry(t1, 1);
    var t3 := Carry(t2, 2);
    var t4 := Carry(t3, 3);
    q := t4[4] / 0x8_0000_0000_0000;
    Sums(v);
    Sums(Carried(v));
    Telescope(v, t1[1], t2[2], t3[3], t4[4], q);
  }

  lemma Telescope(v: Limbs, a: int, b: int, c: int, d: int, q: int)
    requires a == v[1] + v[0] / 0x8_0000_0000_0000 && b == v[2] + a / 0x8_0000_0000_0000
    requires c == v[3] + b / 0x8_0000_0000_0000 && d == v[4] + c / 0x8_0000_0000_0000 && q == d / 0x8_0000_0000_0000
    ensures v[0] % 0x8_0000_0000_0000 + 19 * q + 0x8_0000_0000_0000 * (a % 0x8_0000_0000_0000
            + 0x8_0000_0000_0000 * (b % 0x8_0000_0000_0000 + 0x8_0000_0000_0000 * (c % 0x8_0000_0000_0000
            + 0x8_0000_0000_0000 * (d % 0x8_0000_0000_0000))))
         == v[0] + 0x8_0000_0000_0000 * (v[1] + 0x8_0000_0000_0000 * (v[2]
            + 0x8_0000_0000_0000 * (v[3] + 0x8_0000_0000_0000 * v[4]))) - q * P
  {
  }

  // c = (t_i + c) >> 51, from limb i up
  function CarryBit(t: Limbs, i: nat, c: int): int
    requires i <= 5
    decreases 5 - i
  {
    if i == 5 then c else CarryBit(t, i + 1, Uint64(t[i] + c) / 0x8_0000_0000_0000)
  }

  // the second pass of carries; what leaves limb 4 is dropped
  function Settled(t: Limbs): Limbs {
    var u := Carry(Carry(Carry(Carry(t, 0), 1), 2), 3);
    u[4 := u[4] % 0x8_0000_0000_0000]
  }

  function Reduced(v: Limbs): Limbs {
    var t := Carried(v);
    Settled(t[0 := Uint64(t[0] + Uint64(19 * CarryBit(t, 0, 19)))])
  }

  // limbs after the first pass
  predicate Nearly(t: Limbs) {
    0 <= t[0] < RADIX + 0x1_4000 && (forall k | 1 <= k < 5 :: 0 <= t[k] < RADIX)
  }

  lemma CarryBitExact(t: Limbs)
    requires Nearly(t)
    ensures CarryBit(t, 0, 19) == if Eval(t) >= P then 1 else 0
  {
    hide Eval, Uint64;
    Sums(t);
    var c0 := (t[0] + 19) / 0x8_0000_0000_0000;
    var c1 := (t[1] + c0) / 0x8_0000_0000_0000;
    var c2 := (t[2] + c1) / 0x8_0000_0000_0000;
    var c3 := (t[3] + c2) / 0x8_0000_0000_0000;
    var c4 := (t[4] + c3) / 0x8_0000_0000_0000;
    CarrySteps(t, c0, c1, c2, c3, c4);
    NestedFloor(t[0], t[1], t[2], t[3], t[4], c0, c1, c2, c3, c4);
  }

  lemma CarrySteps(t: Limbs, c0: int, c1: int, c2: int, c3: int, c4: int)
    requires Nearly(t) && c0 == (t[0] + 19) / 0x8_0000_0000_0000 && c1 == (t[1] + c0) / 0x8_0000_0000_0000
    requires c2 == (t[2] + c1) / 0x8_0000_0000_0000 && c3 == (t[3] + c2) / 0x8_0000_0000_0000
    requires c4 == (t[4] + c3) / 0x8_0000_0000_0000
    ensures CarryBit(t, 0, 19) == c4
  {
    hide Uint64;
    assert CarryBit(t, 3, c2) == c4;
    assert CarryBit(t, 1, c0) == c4;
  }

  lemma NestedFloor(t0: int, t1: int, t2: int, t3: int, t4: int, c0: int, c1: int, c2: int, c3: int, c4: int)
    requires 0 <= t0 < RADIX + 0x1_4000 && 0 <= t1 < RADIX && 0 <= t2 < RADIX && 0 <= t3 < RADIX && 0 <= t4 < RADIX
    requires c0 == (t0 + 19) / 0x8_0000_0000_0000 && c1 == (t1 + c0) / 0x8_0000_0000_0000
    requires c2 == (t2 + c1) / 0x8_0000_0000_0000 && c3 == (t3 + c2) / 0x8_0000_0000_0000
    requires c4 == (t4 + c3) / 0x8_0000_0000_0000
    ensures var v := t0 + 0x8_0000_0000_0000 * (t1 + 0x8_0000_0000_0000 * (t2
                     + 0x8_0000_0000_0000 * (t3 + 0x8_0000_0000_0000 * t4)));
            c4 == if v >= P then 1 else 0
  {
  }

  lemma SettledExact(t: Limbs) returns (q: int)
    requires 0 <= t[0] < RADIX + 0x2_0000 && (forall k | 1 <= k < 5 :: 0 <= t[k] < RADIX)
    ensures Below(Settled(t), RADIX) && Eval(Settled(t)) == Eval(t) - q * (P + 19)
  {
    hide Uint64, Eval;
    var t1 := Carry(t, 0);
    var t2 := Carry(t1, 1);
    var t3 := Carry(t2, 2);
    var t4 := Carry(t3, 3);
    q := t4[4] / 0x8_0000_0000_0000;
    Sums(t);
    Sums(Settled(t));
    Telescope(t, t1[1], t2[2], t3[3], t4[4], q);
  }

  lemma BelowRange(t: Limbs)
    requires Below(t, RADIX)
    ensures 0 <= Eval(t) < P + 19
  {
    hide Eval;
    Sums(t);
  }

  /** feReduce yields the unique limbs below 2^51 of the residue in [0, p). */
  lemma ReducedExact(v: Limbs)
    requires Below(v, 0x8000_0000_0000_0000)
    ensures Below(Reduced(v), RADIX) && Eval(Reduced(v)) == Eval(v) % P
  {
    hide Uint64, Eval, Carried, Settled, CarryBit;
    var q := CarriedExact(v);
    var t := Carried(v);
    CarryBitExact(t);
    var c := CarryBit(t, 0, 19);
    var u := t[0 := t[0] + 19 * c];
    var q' := SettledExact(u);
    Sums(t);
    Sums(u);
    BelowRange(Reduced(v));
    Residue(Eval(v), Eval(t), q, c, q', Eval(Reduced(v)), t);
  }

  lemma Residue(v: int, x: int, q: int, c: int, q': int, r: int, t: Limbs)
    requires x == v - q * P && Nearly(t) && x == Eval(t)
    requires c == (if x >= P then 1 else 0) && r == x + 19 * c - q' * (P + 19) && 0 <= r < P + 19
    ensures r == v % P
  {
    hide Eval;
    Sums(t);
    assert 0 <= x < P + 19 + 0x1_4000;
    assert q' == c;
    assert v == P * (q + c) + r;
    ModUnique(v, P, q + c, r);
  }

  // ---- FeAdd and FeSub ----

  function Add(a: Limbs, b: Limbs): Limbs {
    seq(5, k requires 0 <= k < 5 => Uint64(a[k] + b[k]))
  }

  // a multiple of p is added first, so that no limb goes below zero
  function Sub(a: Limbs, b: Limbs): Limbs {
    var t := Carried(b);
    [Uint64(Uint64(a[0] + 0xF_FFFF_FFFF_FFDA) - t[0]), Uint64(Uint64(a[1] + 0xF_FFFF_FFFF_FFFE) - t[1]),
     Uint64(Uint64(a[2] + 0xF_FFFF_FFFF_FFFE) - t[2]), Uint64(Uint64(a[3] + 0xF_FFFF_FFFF_FFFE) - t[3]),
     Uint64(Uint64(a[4] + 0xF_FFFF_FFFF_FFFE) - t[4])]
  }

  lemma AddExact(a: Limbs, b: Limbs)
    requires Below(a, 0x8000_0000_0000_0000) && Below(b, 0x8000_0000_0000_0000)
    ensures Eval(Add(a, b)) == Eval(a) + Eval(b)
  {
    hide Uint64, Eval;
    Sums(a);
    Sums(b);
    Sums(Add(a, b));
  }

  /** FeSub is subtraction modulo p; no limb wraps, and limbs grow by less than 2^52. */
  lemma SubExact(a: Limbs, b: Limbs) returns (q: int)
    requires Below(a, 0x8000_0000_0000_0000) && Below(b, 0x8000_0000_0000_0000)
    ensures Eval(Sub(a, b)) == Eval(a) - Eval(b) + q * P
    ensures forall k | 0 <= k < 5 :: 0 <= Sub(a, b)[k] < a[k] + 0x10_0000_0000_0000
  {
    hide Uint64, Eval, Carried;
    q := CarriedExact(b);
    Sums(a);
    Sums(Carried(b));
    Sums(Sub(a, b));
    q := q + 2;
  }

  // ---- FeToBytes ----

  // byte(t_k >> s)
  function Byte1(t: Limbs, k: nat, s: nat): byte
    requires k < 5
  {
    LowByte(Shr(t[k], s))
  }

  // byte(t_k >> s) ^ byte(t_{k+1} << (51 - s) & mask), the mask keeping the bits above position 51 - s
  function Byte2(t: Limbs, k: nat, s: nat): byte
    requires k < 4 && t[k] >= 0 && t[k + 1] >= 0 && 44 <= s <= 51
  {
    XorByte(LowByte(Shr(t[k], s)), LowByte(And(Mask(51 - s), Shl(t[k + 1], 51 - s))))
  }

  function Mask(a: nat): nat
    requires a <= 8
  {
    [0xff, 0xfe, 0xfc, 0xf8, 0xf0, 0xe0, 0xc0, 0x80, 0][a]
  }

  function XorByte(x: byte, y: byte): byte {
    LowByte(Xor(x, y))
  }

  function Pack(t: Limbs): (b: seq<byte>)
    requires forall k | 0 <= k < 5 :: t[k] >= 0
    ensures |b| == 32
  {
    [Byte1(t, 0, 0), Byte1(t, 0, 8), Byte1(t, 0, 16), Byte1(t, 0, 24), Byte1(t, 0, 32), Byte1(t, 0, 40),
     Byte2(t, 0, 48), Byte1(t, 1, 5), Byte1(t, 1, 13), Byte1(t, 1, 21), Byte1(t, 1, 29), Byte1(t, 1, 37),
     Byte2(t, 1, 45), Byte1(t, 2, 2), Byte1(t, 2, 10), Byte1(t, 2, 18), Byte1(t, 2, 26), Byte1(t, 2, 34),
     Byte1(t, 2, 42), Byte2(t, 2, 50), Byte1(t, 3, 7), Byte1(t, 3, 15), Byte1(t, 3, 23), Byte1(t, 3, 31),
     Byte1(t, 3, 39), Byte2(t, 3, 47), Byte1(t, 4, 4), Byte1(t, 4, 12), Byte1(t, 4, 20), Byte1(t, 4, 28),
     Byte1(t, 4, 36), Byte1(t, 4, 44)]
  }

  function ToBytes(v: Limbs): seq<byte>
    requires forall k | 0 <= k < 5 :: Reduced(v)[k] >= 0
  {
    Pack(Reduced(v))
  }

  lemma {:induction false} DigitFields(t: Limbs, v: int, i: nat)
    requires Below(t, RADIX) && i <= 5 && EvalFrom(t, i) == Shr(v, 51 * i)
    ensures forall k | i <= k < 5 :: t[k] == Field(v, 51 * k, 51)
    decreases 5 - i
  {
    hide Shr, Low, Pow2;
    if i < 5 {
      PowValues();
      Unique(EvalFrom(t, i), 51, EvalFrom(t, i + 1), t[i]);
      Twice(v, 51 * i, 51);
      DigitFields(t, v, i + 1);
    }
  }

  lemma LimbFields(t: Limbs)
    requires Below(t, RADIX)
    ensures var v := Eval(t);
            && 0 <= v < Pow2(255)
            && (forall k | 0 <= k < 4 :: t[k] == Field(v, 51 * k, 51))
            && t[4] == Field(v, 204, 52)
  {
    hide EvalFrom, Field, Pow2;
    BelowRange(t);
    TwoTo255();
    ShiftNone(Eval(t));
    DigitFields(t, Eval(t), 0);
    ShrBound(Eval(t), 204, 51);
    assert Pow2(256) == 2 * Pow2(255) by { PowNext(255); }
    ShrBound(Eval(t), 204, 52);
  }

  lemma TwoTo255()
    ensures Pow2(255) == P + 19
  {
    hide Pow2;
    PowValues();
    PowAdd(51, 51);
    PowAdd(102, 102);
    PowAdd(204, 51);
  }

  lemma AndDouble(x: nat, y: nat)
    ensures And(2 * x, 2 * y) == 2 * And(x, y)
  {
  }

  lemma ShlNext(x: int, a: nat)
    requires a > 0
    ensures Shl(x, a) == 2 * Shl(x, a - 1)
  {
  }

  lemma {:induction false} AndShifted(x: nat, y: nat, a: nat)
    ensures And(Shl(x, a), Shl(y, a)) == Shl(And(x, y), a)
  {
    hide And;
    if a == 0 {
      assert Shl(x, 0) == x && Shl(y, 0) == y && Shl(And(x, y), 0) == And(x, y);
    } else {
      AndShifted(x, y, a - 1);
      ShlNext(x, a);
      ShlNext(y, a);
      ShlNext(And(x, y), a);
      AndDouble(Shl(x, a - 1), Shl(y, a - 1));
    }
  }

  // the masked shift keeps the low 8 - a bits of the next limb, a positions up
  lemma MaskedShift(y: nat, a: nat)
    requires a <= 8
    ensures LowByte(And(Mask(a), Shl(y, a))) == Shl(Low(y, 8 - a), a)
  {
    hide And, Low, LowByte;
    MaskIs(a);
    AndShifted(Pow2(8 - a) - 1, y, a);
    AndMask(8 - a, y);
    PowAdd(8 - a, a);
    ShiftedByte(Low(y, 8 - a), a);
  }

  lemma MaskIs(a: nat)
    requires a <= 8
    ensures Mask(a) == Shl(Pow2(8 - a) - 1, a)
  {
    assert Pow2(1) == 2 && Pow2(2) == 4 && Pow2(3) == 8 && Pow2(4) == 16;
    assert Pow2(5) == 32 && Pow2(6) == 64 && Pow2(7) == 128 && Pow2(8) == 256;
  }

  lemma ShiftedByte(x: nat, a: nat)
    requires a <= 8 && x < Pow2(8 - a)
    ensures LowByte(Shl(x, a)) == Shl(x, a)
  {
    hide Pow2;
    PowAdd(8 - a, a);
    PowValues();
    BelowProduct(x, Pow2(8 - a), Pow2(a));
    SmallLow(Shl(x, a), 8);
  }

  lemma BelowProduct(x: int, m: int, k: int)
    requires 0 <= x < m && k > 0
    ensures 0 <= x * k < m * k
  {
  }

  lemma Byte2Field(t: Limbs, v: int, k: nat, s: nat, w: nat)
    requires k < 4 && t[k] == Field(v, 51 * k, 51) && t[k + 1] == Field(v, 51 * (k + 1), w) && w >= 8 && 44 <= s <= 51
    ensures Byte2(t, k, s) == Field(v, 51 * k + s, 8)
  {
    hide And, Xor, Shr, Low, Shl, Pow2;
    var a := 51 - s;
    LowShr(Shr(v, 51 * k), 51, s);
    Twice(v, 51 * k, s);
    var low := Field(v, 51 * k + s, a);
    assert Shr(t[k], s) == low;
    LowLow(Shr(v, 51 * k + s), a, a);
    SmallByte(low, a);
    MaskedShift(t[k + 1], a);
    LowLow(Shr(v, 51 * (k + 1)), w, 8 - a);
    OrField(v, 51 * k + s, a, 8 - a);
    SmallByte(Field(v, 51 * k + s, 8), 8);
  }

  lemma SmallByte(x: nat, a: nat)
    requires a <= 8 && x < Pow2(a)
    ensures LowByte(x) == x
  {
    hide Pow2;
    PowAdd(a, 8 - a);
    BelowScaled(x, Pow2(a), Pow2(8 - a));
    SmallLow(x, 8);
  }

  lemma BelowScaled(x: int, m: int, k: int)
    requires 0 <= x < m && k > 0
    ensures x < m * k
  {
  }

  lemma PackAt(t: Limbs, i: nat)
    requires (forall k | 0 <= k < 5 :: t[k] >= 0) && i < 32
    ensures var k, s := 8 * i / 51, 8 * i % 51;
            Pack(t)[i] == if s + 8 <= 51 || i == 31 then Byte1(t, k, s) else Byte2(t, k, s)
  {
    hide Byte1, Byte2;
  }

  lemma PackExact(t: Limbs)
    requires Below(t, RADIX)
    ensures forall k | 0 <= k < 5 :: t[k] >= 0
    ensures Le(Pack(t)) == Eval(t)
  {
    hide Eval, Field, Pow2, Le, Low, Byte1, Byte2, Pack;
    var v := Eval(t);
    LimbFields(t);
    forall i | 0 <= i < 32
      ensures Pack(t)[i] == Field(v, 8 * i, 8)
    {
      PackAt(t, i);
      var k, s := 8 * i / 51, 8 * i % 51;
      if s + 8 <= 51 || i == 31 {
        Byte1Field(t, v, k, s, if k == 4 then 52 else 51);
      } else {
        Byte2Field(t, v, k, s, if k == 3 then 52 else 51);
      }
    }
    LeOfFields(Pack(t), v);
    PowNext(255);
    SmallLow(v, 256);
  }

  lemma Byte1Field(t: Limbs, v: int, k: nat, s: nat, w: nat)
    requires k < 5 && t[k] == Field(v, 51 * k, w) && s + 8 <= w
    ensures Byte1(t, k, s) == Field(v, 51 * k + s, 8)
  {
    ByteInside(v, 51 * k, w, s);
  }

  /** FeToBytes writes the canonical encoding; decoding first keeps the low 255 bits modulo p. */
  lemma ToBytesExact(v: Limbs)
    requires Below(v, 0x8000_0000_0000_0000)
    ensures forall k | 0 <= k < 5 :: Reduced(v)[k] >= 0
    ensures Le(ToBytes(v)) == Eval(v) % P
  {
    hide Eval, Le, Pack, Reduced;
    ReducedExact(v);
    PackExact(Reduced(v));
  }

  lemma RoundTrip(x: seq<byte>)
    requires |x| == 32
    ensures forall k | 0 <= k < 5 :: Reduced(FromBytes(x))[k] >= 0
    ensures Le(ToBytes(FromBytes(x))) == Low(Le(x), 255) % P
  {
    hide FromBytes, Eval, Le, Low, Reduced, ToBytes;
    FromBytesExact(x);
    ToBytesExact(FromBytes(x));
  }

  // ---- the operations, on five-limb buffers ----

  method CarryLimb(t: array<int>, i: nat)
    requires t.Length == 5 && i < 5
    modifies t
    ensures t[..] == Carry(old(t[..]), i)
  {
    hide Uint64;
    var c := t[i] / 0x8_0000_0000_0000;
    if i < 4 {
      t[i + 1] := Uint64(t[i + 1] + c);
      t[i] := t[i] % 0x8_0000_0000_0000;
    } else {
      t[0] := Uint64(t[0] + Uint64(c * 19));
      t[4] := t[4] % 0x8_0000_0000_0000;
    }
  }

  method CarryLimbs(t: array<int>)
    requires t.Length == 5
    modifies t
    ensures t[..] == Carried(old(t[..]))
  {
    hide Carry;
    CarryLimb(t, 0);
    CarryLimb(t, 1);
    CarryLimb(t, 2);
    CarryLimb(t, 3);
    CarryLimb(t, 4);
  }

  method FeReduce(t: array<int>, v: array<int>)
    requires t.Length == 5 && v.Length == 5 && Below(v[..], 0x8000_0000_0000_0000)
    modifies t
    ensures t[..] == Reduced(old(v[..]))
    ensures Below(t[..], RADIX) && Eval(t[..]) == old(Eval(v[..])) % P
  {
    hide Carry, Carried, Uint64, Eval;
    ghost var x := v[..];
    ReducedExact(x);
    forall k | 0 <= k < 5 {
      t[k] := v[k];
    }
    assert t[..] == x;
    CarryLimbs(t);
    ghost var first := t[..];
    var c := Uint64(t[0] + 19) / 0x8_0000_0000_0000;
    c := Uint64(t[1] + c) / 0x8_0000_0000_0000;
    c := Uint64(t[2] + c) / 0x8_0000_0000_0000;
    c := Uint64(t[3] + c) / 0x8_0000_0000_0000;
    c := Uint64(t[4] + c) / 0x8_0000_0000_0000;
    assert c == CarryBit(first, 0, 19);
    t[0] := Uint64(t[0] + Uint64(19 * c));
    CarryLimb(t, 0);
    CarryLimb(t, 1);
    CarryLimb(t, 2);
    CarryLimb(t, 3);
    t[4] := t[4] % 0x8_0000_0000_0000;
  }

  method FeSub(out: array<int>, a: array<int>, b: array<int>)
    requires out.Length == 5 && a.Length == 5 && b.Length == 5
    requires Below(a[..], 0x8000_0000_0000_0000) && Below(b[..], 0x8000_0000_0000_0000)
    modifies out
    ensures out[..] == Sub(old(a[..]), old(b[..]))
    ensures (Eval(out[..]) - old(Eval(a[..]) - Eval(b[..]))) % P == 0
    ensures forall k | 0 <= k < 5 :: 0 <= out[k] < old(a[k]) + 0x10_0000_0000_0000
  {
    hide Carried, Uint64, Eval;
    ghost var x, y := a[..], b[..];
    ghost var q := SubExact(x, y);
    assert q * P % P == 0;
    var t := new int[5];
    forall k | 0 <= k < 5 {
      t[k] := b[k];
    }
    assert t[..] == y;
    CarryLimbs(t);
    assert a[..] == x && t[..] == Carried(y);
    var r := [Uint64(Uint64(a[0] + 0xF_FFFF_FFFF_FFDA) - t[0]), Uint64(Uint64(a[1] + 0xF_FFFF_FFFF_FFFE) - t[1]),
              Uint64(Uint64(a[2] + 0xF_FFFF_FFFF_FFFE) - t[2]), Uint64(Uint64(a[3] + 0xF_FFFF_FFFF_FFFE) - t[3]),
              Uint64(Uint64(a[4] + 0xF_FFFF_FFFF_FFFE) - t[4])];
    assert r == Sub(x, y);
    forall k | 0 <= k < 5 {
      out[k] := r[k];
    }
    assert out[..] == r;
  }

  method FeToBytes(r: array<byte>, v: array<int>)
    requires r.Length == 32 && v.Length == 5 && Below(v[..], 0x8000_0000_0000_0000)
    modifies r
    ensures Le(r[..]) == old(Eval(v[..])) % P
  {
    hide Reduced, Eval, Le, Pack;
    ghost var x := v[..];
    var t := new int[5];
    FeReduce(t, v);
    PackExact(t[..]);
    var bytes := Pack(t[..]);
    forall i | 0 <= i < 32 {
      r[i] := bytes[i];
    }
    assert r[..] == bytes;
  }
}
