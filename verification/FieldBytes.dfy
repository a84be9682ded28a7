/** Between 32-byte strings and field elements in radix 2^25.5. */
module FieldBytes {
  import opened Machine
  import opened Bits
  import opened FieldLimbs

  // ---- FeFromBytes ----

  // 8388607 & x
  function Mask23(x: nat): nat {
    And(0x7F_FFFF, x)
  }

  // load3(src[i:]) << s
  function Shifted(b: seq<byte>, i: nat, s: nat): nat
    requires i + 3 <= |b|
  {
    Shl(Load3(b, i), s)
  }

  // (load3(src[29:]) & 8388607) << 2
  function TopLimb(b: seq<byte>): nat
    requires |b| == 32
  {
    Shl(Mask23(Load3(b, 29)), 2)
  }

  function Loaded(b: seq<byte>): Limbs
    requires |b| == 32
  {
    var h: seq<int> := [Load4(b, 0), Shifted(b, 4, 6), Shifted(b, 7, 5), Shifted(b, 10, 3), Shifted(b, 13, 2),
     Load4(b, 16), Shifted(b, 20, 7), Shifted(b, 23, 5), Shifted(b, 26, 4), TopLimb(b)];
    h
  }

  function FromBytes(b: seq<byte>): Limbs
    requires |b| == 32
  {
    Combine(Loaded(b))
  }

  // the ten fields of a 255-bit number that Loaded picks
  lemma TenFields(n: int)
    ensures Low(n, 255) == Field(n, 0, 32) + 0x1_0000_0000 * (Field(n, 32, 24) + 0x100_0000 * (Field(n, 56, 24)
            + 0x100_0000 * (Field(n, 80, 24) + 0x100_0000 * (Field(n, 104, 24) + 0x100_0000 * (Field(n, 128, 32)
            + 0x1_0000_0000 * (Field(n, 160, 24) + 0x100_0000 * (Field(n, 184, 24) + 0x100_0000 * (Field(n, 208, 24)
            + 0x100_0000 * Field(n, 232, 23)))))))))
  {
    hide Field, Pow2;
    PowValues();
    FieldZero(n, 255);
    FieldJoin(n, 0, 32, 223);
    FieldJoin(n, 32, 24, 199);
    FieldJoin(n, 56, 24, 175);
    FieldJoin(n, 80, 24, 151);
    FieldJoin(n, 104, 24, 127);
    FieldJoin(n, 128, 32, 95);
    FieldJoin(n, 160, 24, 71);
    FieldJoin(n, 184, 24, 47);
    FieldJoin(n, 208, 24, 23);
  }

  lemma ShiftedLow(b: seq<byte>)
    requires |b| == 32
    ensures Shifted(b, 4, 6) == 0x40 * Field(Le(b), 32, 24) && Shifted(b, 7, 5) == 0x20 * Field(Le(b), 56, 24)
    ensures Shifted(b, 10, 3) == 0x8 * Field(Le(b), 80, 24) && Shifted(b, 13, 2) == 0x4 * Field(Le(b), 104, 24)
  {
    hide Load3, Load4, Field, Le;
    Loads(b, 4);
    Loads(b, 7);
    Loads(b, 10);
    Loads(b, 13);
  }

  lemma ShiftedHigh(b: seq<byte>)
    requires |b| == 32
    ensures Shifted(b, 20, 7) == 0x80 * Field(Le(b), 160, 24) && Shifted(b, 23, 5) == 0x20 * Field(Le(b), 184, 24)
    ensures Shifted(b, 26, 4) == 0x10 * Field(Le(b), 208, 24) && TopLimb(b) == 0x4 * Field(Le(b), 232, 23)
  {
    hide Load3, Load4, Field, Le, Mask23;
    Loads(b, 20);
    Loads(b, 23);
    Loads(b, 26);
    Loads(b, 29);
    TopBits(Le(b), Load3(b, 29));
  }

  lemma LoadedFields(b: seq<byte>)
    requires |b| == 32
    ensures var n := Le(b);
            Loaded(b) == [Field(n, 0, 32), 0x40 * Field(n, 32, 24), 0x20 * Field(n, 56, 24), 0x8 * Field(n, 80, 24),
                          0x4 * Field(n, 104, 24), Field(n, 128, 32), 0x80 * Field(n, 160, 24),
                            0x20 * Field(n, 184, 24),
                          0x10 * Field(n, 208, 24), 0x4 * Field(n, 232, 23)]
  {
    hide Load3, Load4, Field, Le, Shifted, TopLimb;
    Loads(b, 0);
    Loads(b, 16);
    ShiftedLow(b);
    ShiftedHigh(b);
  }

  lemma TopBits(n: nat, x: nat)
    requires x == Field(n, 232, 24)
    ensures Mask23(x) == Field(n, 232, 23)
  {
    hide And, Shr, Pow2;
    PowValues();
    AndMask(23, x);
    LowLow(Shr(n, 232), 24, 23);
  }

  lemma EvalLoaded(x: Limbs)
    ensures Eval([x[0], 0x40 * x[1], 0x20 * x[2], 0x8 * x[3], 0x4 * x[4],
                  x[5], 0x80 * x[6], 0x20 * x[7], 0x10 * x[8], 0x4 * x[9]])
            == x[0] + 0x1_0000_0000 * (x[1] + 0x100_0000 * (x[2] + 0x100_0000 * (x[3] + 0x100_0000 * (x[4]
               + 0x100_0000 * (x[5] + 0x1_0000_0000 * (x[6] + 0x100_0000 * (x[7]
               + 0x100_0000 * (x[8] + 0x100_0000 * x[9]))))))))
  {
  }

  /** FeFromBytes reads 255 bits, ignoring the top one. */
  lemma LoadedExact(b: seq<byte>)
    requires |b| == 32
    ensures Eval(Loaded(b)) == Low(Le(b), 255)
    ensures Bounded(Loaded(b), 0x1_0000_0000, 0x1_0000_0000)
  {
    hide Loaded, Field, Le, Low, Pow2, Eval;
    var n := Le(b);
    LoadedFields(b);
    TenFields(n);
    PowValues();
    EvalLoaded([Field(n, 0, 32), Field(n, 32, 24), Field(n, 56, 24), Field(n, 80, 24), Field(n, 104, 24),
                Field(n, 128, 32), Field(n, 160, 24), Field(n, 184, 24), Field(n, 208, 24), Field(n, 232, 23)]);
  }

  // ---- FeToBytes ----

  // q = (h_i + q) >> width, from limb i up
  function Chain(h: Limbs, i: nat, q: int): int
    requires i <= 10
    decreases 10 - i
  {
    if i == 10 then q else Chain(h, i + 1, Int32(h[i] + q) / Weight(i))
  }

  // (19 h_9 + 2^24) >> 25 starts the chain
  function Quotient(h: Limbs): int {
    Chain(h, 0, Int32(Int32(19 * h[9]) + 0x100_0000) / 0x200_0000)
  }

  // carry_i = h_i >> width; h_{i+1} += carry_i; h_i -= carry_i << width; the last carry is dropped
  function FloorCarry(h: Limbs, i: nat): Limbs
    requires i < 10
  {
    var c := h[i] / Weight(i);
    var r := h[i := Int32(h[i] - Int32(c * Weight(i)))];
    if i < 9 then r[i + 1 := Int32(r[i + 1] + c)] else r
  }

  function Settled(h: Limbs, n: nat): Limbs
    requires n <= 10
    decreases n
  {
    if n == 0 then h else FloorCarry(Settled(h, n - 1), n - 1)
  }

  function Frozen(h: Limbs): Limbs {
    Settled(h[0 := Int32(h[0] + Int32(19 * Quotient(h)))], 10)
  }

  /** Weight of everything above limb i - 1. */
  function Top(i: nat): (w: int)
    requires i <= 10
    ensures w > 0
    decreases 10 - i
  {
    if i == 10 then 1 else Weight(i) * Top(i + 1)
  }

  /** c is x / m rounded down. */
  predicate IsFloor(c: int, x: int, m: int) {
    c * m <= x < (c + 1) * m
  }

  /** The nested shifts round the whole sum down once. */
  lemma {:induction false} ChainFloor(h: Limbs, i: nat, q: int)
    requires i <= 10 && Bounded(h, LIMB_E, LIMB_O) && -0x100 <= q <= 0x100
    ensures IsFloor(Chain(h, i, q), EvalFrom(h, i) + q, Top(i))
    decreases 10 - i
  {
    hide Int32, Weight, IsFloor;
    if i == 10 {
      assert IsFloor(q, q, 1) by { UnitFloor(q); }
    } else {
      var x := h[i] + q;
      var c := x / Weight(i);
      SmallQuotient(x, i);
      ChainFloor(h, i + 1, c);
      Nested(x, Weight(i), EvalFrom(h, i + 1), c, Chain(h, i + 1, c), Top(i + 1));
    }
  }

  lemma UnitFloor(q: int)
    ensures IsFloor(q, q, 1)
  {
  }

  lemma SmallQuotient(x: int, i: nat)
    requires if i % 2 == 0 then -LIMB_E - 0x100 <= x <= LIMB_E + 0x100 else -LIMB_O - 0x100 <= x <= LIMB_O + 0x100
    ensures -3 <= x / Weight(i) <= 3 && Int32(x) == x
    ensures 0 <= x - Weight(i) * (x / Weight(i)) < Weight(i)
  {
  }

  lemma Nested(x: int, w: int, e: int, c: int, q: int, m: int)
    requires w > 0 && m > 0 && 0 <= x - w * c < w && IsFloor(q, e + c, m)
    ensures IsFloor(q, x + w * e, w * m)
  {
    var y, t := e + c, x - w * c;
    assert w * (q * m) <= w * y <= w * ((q + 1) * m - 1);
    assert x + w * e == t + w * y;
    assert w * (q * m) == q * (w * m) && w * ((q + 1) * m) == (q + 1) * (w * m);
  }

  // limbs 0 .. 8 together stay below 2^232
  lemma LowBound(h: Limbs)
    requires Bounded(h, LIMB_E, LIMB_O)
    ensures var low := Eval(h) - h[9] * 0x40_0000_0000_0000_0000_0000_0000_0000_0000_0000_0000_0000_0000_0000_0000;
            -0x100_0000_0000_0000_0000_0000_0000_0000_0000_0000_0000_0000_0000_0000_0000 < low
            < 0x100_0000_0000_0000_0000_0000_0000_0000_0000_0000_0000_0000_0000_0000_0000
  {
    hide EvalFrom;
    Unfold(h, 9);
    Unfold(h, 8);
    Unfold(h, 7);
    Unfold(h, 6);
    Unfold(h, 5);
    Unfold(h, 4);
    Unfold(h, 3);
    Unfold(h, 2);
    Unfold(h, 1);
    Unfold(h, 0);
  }

  lemma Unfold(h: Limbs, i: nat)
    requires i < 10 && Bounded(h, LIMB_E, LIMB_O)
    ensures EvalFrom(h, i) == h[i] + Weight(i) * EvalFrom(h, i + 1) && EvalFrom(h, 10) == 0
    ensures -LIMB_E <= h[i] <= LIMB_E
  {
  }

  lemma TopIsTwoTo255()
    ensures Top(0) == P + 19
  {
    assert Top(8) == 0x8_0000_0000_0000;
    assert Top(6) == 0x8_0000_0000_0000 * Top(8);
    assert Top(4) == 0x8_0000_0000_0000 * Top(6);
    assert Top(2) == 0x8_0000_0000_0000 * Top(4);
  }

  /** The estimate built on limb 9 alone is the exact quotient by p: adding it never moves h across a
      multiple of 2^255 - 19. */
  lemma QuotientExact(h: Limbs)
    requires Bounded(h, LIMB_E, LIMB_O)
    ensures IsFloor(Quotient(h), Eval(h), P)
    ensures -2 <= Quotient(h) <= 1
  {
    hide Chain, Int32, EvalFrom, Top;
    var q0 := (19 * h[9] + 0x100_0000) / 0x200_0000;
    assert -LIMB_O <= h[9] <= LIMB_O;
    ChainFloor(h, 0, q0);
    TopIsTwoTo255();
    LowBound(h);
  }

  lemma CarryVal(h: Limbs, i: nat, c: int)
    requires i < 10
    ensures i < 9 ==> Eval(h[i := h[i] + -c * Weight(i)][i + 1 := h[i + 1] + c]) == Eval(h)
    ensures i == 9 ==> Eval(h[9 := h[9] + -c * Weight(9)]) == Eval(h) - c * (P + 19)
  {
    hide Eval;
    if i < 9 {
      RoundVal(h, i, c);
    } else {
      EvalAdd(h, 9, -c * Weight(9));
      TopScale();
      assert c * Weight(9) * Scale(9) == c * (Weight(9) * Scale(9));
    }
  }

  lemma FloorCarryExact(h: Limbs, i: nat)
    requires i < 10 && -0x700_0000 <= h[i] <= 0x700_0000
    requires i < 9 ==> -0x700_0000 <= h[i + 1] <= 0x700_0000
    ensures var r, c := FloorCarry(h, i), h[i] / Weight(i);
            && 0 <= r[i] < Weight(i) && -4 <= c <= 4
            && (i < 9 ==> r[i + 1] == h[i + 1] + c && Eval(r) == Eval(h))
            && (i == 9 ==> Eval(r) == Eval(h) - c * (P + 19))
            && (forall k | 0 <= k < 10 && k != i && k != i + 1 :: r[k] == h[k])
  {
    hide Eval, Int32;
    CarryVal(h, i, h[i] / Weight(i));
  }

  /** After n carries limbs 0 .. n-1 are digits and the element is unchanged. */
  lemma {:induction false} SettledExact(h: Limbs, n: nat)
    requires n <= 9 && Bounded(h, 0x6FF_FFF0, 0x6FF_FFF0)
    ensures var r := Settled(h, n);
            && Eval(r) == Eval(h)
            && (forall k | 0 <= k < n :: 0 <= r[k] < Weight(k))
            && h[n] - 4 <= r[n] <= h[n] + 4
            && (forall k | n < k < 10 :: r[k] == h[k])
  {
    hide Eval, FloorCarry, Weight;
    assert forall k | 0 <= k < 10 :: -0x6FF_FFF0 <= h[k] <= 0x6FF_FFF0;
    if n > 0 {
      SettledExact(h, n - 1);
      FloorCarryExact(Settled(h, n - 1), n - 1);
    }
  }

  predicate Digits(h: Limbs) {
    forall k | 0 <= k < 10 :: 0 <= h[k] < Weight(k)
  }

  lemma {:induction false} DigitsBound(h: Limbs, i: nat)
    requires Digits(h) && i <= 10
    ensures 0 <= EvalFrom(h, i) < Top(i)
    decreases 10 - i
  {
    hide Weight;
    if i < 10 {
      DigitsBound(h, i + 1);
      DigitBound(h[i], Weight(i), EvalFrom(h, i + 1), Top(i + 1));
    }
  }

  lemma DigitBound(x: int, w: int, e: int, m: int)
    requires 0 <= x < w && 0 <= e < m
    ensures 0 <= x + w * e < w * m
  {
    assert w * e <= w * (m - 1);
  }

  /** The carries turn h into the digits of its residue in [0, p). */
  lemma FrozenExact(h: Limbs)
    requires Bounded(h, LIMB_E, LIMB_O)
    ensures Digits(Frozen(h)) && Eval(Frozen(h)) == Eval(h) % P
  {
    hide Eval, EvalFrom, Top, Int32, Settled, FloorCarry, Quotient;
    var q := Quotient(h);
    QuotientExact(h);
    assert forall k | 0 <= k < 10 :: -LIMB_E <= h[k] <= LIMB_E;
    var g := h[0 := h[0] + 19 * q];
    EvalAdd(h, 0, 19 * q);
    TopScale();
    SettledExact(g, 9);
    var r := Settled(g, 9);
    FloorCarryExact(r, 9);
    var c := r[9] / Weight(9);
    assert Frozen(h) == FloorCarry(r, 9) by { LastCarry(g); }
    DigitsBound(Frozen(h), 0);
    TopIsTwoTo255();
    EvalIs(Frozen(h));
    Residue(Eval(h), q, c, Eval(Frozen(h)));
  }

  lemma LastCarry(g: Limbs)
    ensures Settled(g, 10) == FloorCarry(Settled(g, 9), 9)
  {
  }

  lemma EvalIs(h: Limbs)
    ensures Eval(h) == EvalFrom(h, 0)
  {
  }

  lemma Residue(x: int, q: int, c: int, e: int)
    requires IsFloor(q, x, P) && -2 <= q <= 1
    requires 0 <= e < P + 19 && x + 19 * q == e + c * (P + 19)
    ensures e == x % P
  {
    assert c == q;
  }

  // byte(h_k >> t)
  function Byte1(h: Limbs, k: nat, t: nat): byte
    requires k < 10
  {
    LowByte(Shr(h[k], t))
  }

  // byte((h_k >> t) | (h_{k+1} << (width - t))); cutting the operands to 32 bits cannot change the low byte
  function Byte2(h: Limbs, k: nat, t: nat): byte
    requires k < 9 && h[k] >= 0 && h[k + 1] >= 0 && t <= Width(k)
  {
    LowByte(Or(Shr(h[k], t), Shl(h[k + 1], Width(k) - t)))
  }

  function Pack(h: Limbs): (b: seq<byte>)
    requires forall k | 0 <= k < 10 :: h[k] >= 0
    ensures |b| == 32
  {
    [Byte1(h, 0, 0), Byte1(h, 0, 8), Byte1(h, 0, 16), Byte2(h, 0, 24), Byte1(h, 1, 6), Byte1(h, 1, 14),
     Byte2(h, 1, 22), Byte1(h, 2, 5), Byte1(h, 2, 13), Byte2(h, 2, 21), Byte1(h, 3, 3), Byte1(h, 3, 11),
     Byte2(h, 3, 19), Byte1(h, 4, 2), Byte1(h, 4, 10), Byte1(h, 4, 18), Byte1(h, 5, 0), Byte1(h, 5, 8),
     Byte1(h, 5, 16), Byte2(h, 5, 24), Byte1(h, 6, 7), Byte1(h, 6, 15), Byte2(h, 6, 23), Byte1(h, 7, 5),
     Byte1(h, 7, 13), Byte2(h, 7, 21), Byte1(h, 8, 4), Byte1(h, 8, 12), Byte2(h, 8, 20), Byte1(h, 9, 2),
     Byte1(h, 9, 10), Byte1(h, 9, 18)]
  }

  function ToBytes(h: Limbs): seq<byte>
    requires forall k | 0 <= k < 10 :: Frozen(h)[k] >= 0
  {
    Pack(Frozen(h))
  }

  /** The lowest bit of limb k, and the limb that holds bit 8 i. */
  function Pos(k: nat): nat {
    if k == 0 then 0 else Pos(k - 1) + Width(k - 1)
  }

  function LimbOf(i: nat): (k: nat)
    ensures k < 10
  {
    if i < 4 then 0 else if i < 7 then 1 else if i < 10 then 2 else if i < 13 then 3 else if i < 16 then 4
    else if i < 20 then 5 else if i < 23 then 6 else if i < 26 then 7 else if i < 29 then 8 else 9
  }

  lemma PosOf(i: nat)
    requires i < 32
    ensures var k := LimbOf(i);
            Pos(k) <= 8 * i < Pos(k) + Width(k) && (8 * i + 8 > Pos(k) + Width(k) && i < 31 ==> k < 9)
    ensures Pos(10) == 255
  {
    assert Pos(2) == 51;
    assert Pos(4) == 102;
    assert Pos(6) == 153;
    assert Pos(8) == 204;
  }

  lemma PackAt(h: Limbs, i: nat)
    requires (forall k | 0 <= k < 10 :: h[k] >= 0) && i < 32
    ensures var k := LimbOf(i); var t := 8 * i - Pos(k);
            && 0 <= t <= Width(k) && (if i == 31 then k == 9 && t == 18 else t + 8 > Width(k) ==> k < 9)
            && Pack(h)[i] == if t + 8 <= Width(k) || i == 31 then Byte1(h, k, t) else Byte2(h, k, t)
  {
    hide Byte1, Byte2;
    PosOf(i);
    NinthPos();
    if i < 16 {
      assert i == 0 || i == 1 || i == 2 || i == 3 || i == 4 || i == 5 || i == 6 || i == 7 || i == 8 || i == 9 || i == 10
        || i == 11 || i == 12 || i == 13 || i == 14 || i == 15;
    }
  }

  lemma {:induction false} PosScale(i: nat)
    ensures Pow2(Width(i)) == Weight(i)
    ensures Pos(i + 1) == Pos(i) + Width(i)
  {
    PowValues();
  }

  /** Digits are the consecutive fields of their sum. */
  lemma {:induction false} DigitFields(h: Limbs, v: int, i: nat)
    requires Digits(h) && i <= 10 && EvalFrom(h, i) == Shr(v, Pos(i))
    ensures forall k | i <= k < 10 :: h[k] == Field(v, Pos(k), Width(k))
    decreases 10 - i
  {
    hide Width, Weight, Shr, Low, Pos, Pow2;
    if i < 10 {
      PosScale(i);
      Unique(EvalFrom(h, i), Width(i), EvalFrom(h, i + 1), h[i]);
      Twice(v, Pos(i), Width(i));
      DigitFields(h, v, i + 1);
    }
  }

  lemma LimbFields(h: Limbs)
    requires Digits(h)
    ensures var v := Eval(h);
            && 0 <= v < Pow2(255)
            && (forall k | 0 <= k < 9 :: h[k] == Field(v, Pos(k), Width(k)))
            && h[9] == Field(v, 230, 26)
  {
    hide EvalFrom, Top, Field, Pow2;
    DigitsBound(h, 0);
    TopIsTwoTo255();
    PowValues();
    PowAdd(51, 51);
    PowAdd(102, 102);
    PowAdd(204, 51);
    ShiftNone(Eval(h));
    DigitFields(h, Eval(h), 0);
    LastField(Eval(h));
  }

  lemma LastField(v: int)
    requires 0 <= v < Pow2(255)
    ensures Pos(9) == 230 && Field(v, 230, 26) == Field(v, 230, 25)
  {
    hide Field, Pow2;
    assert Pos(8) == 204 by { assert Pos(4) == 102; }
    ShrBound(v, 230, 25);
    Wider(v);
  }

  lemma Wider(v: int)
    requires 0 <= v < Pow2(255)
    ensures Shr(v, 230) == Field(v, 230, 26)
  {
    assert Pow2(256) == 2 * Pow2(255);
    ShrBound(v, 230, 26);
  }

  lemma PackExact(h: Limbs)
    requires Digits(h)
    ensures forall k | 0 <= k < 10 :: h[k] >= 0
    ensures Le(Pack(h)) == Eval(h)
  {
    hide Eval, Field, Pow2, Le, Low, Byte1, Byte2, Pack, Pos, LimbOf;
    var v := Eval(h);
    LimbFields(h);
    forall i | 0 <= i < 32
      ensures Pack(h)[i] == Field(v, 8 * i, 8)
    {
      PackAt(h, i);
      ByteFields(h, v, LimbOf(i), 8 * i - Pos(LimbOf(i)));
    }
    LeOfFields(Pack(h), v);
    assert Pow2(256) > Pow2(255) by { PowNext(255); }
    SmallLow(v, 256);
  }

  lemma ByteFields(h: Limbs, v: int, k: nat, t: nat)
    requires k < 10 && t <= Width(k) && (forall j | 0 <= j < 10 :: h[j] >= 0)
    requires forall j | 0 <= j < 9 :: h[j] == Field(v, Pos(j), Width(j))
    requires h[9] == Field(v, 230, 26)
    ensures t + 8 <= Width(k) || (k == 9 && t == 18) ==> Byte1(h, k, t) == Field(v, Pos(k) + t, 8)
    ensures t + 8 > Width(k) && k < 9 ==> Byte2(h, k, t) == Field(v, Pos(k) + t, 8)
  {
    hide Field, Shr, Shl, Or, LowByte, Pos;
    var w := if k == 9 then 26 else Width(k);
    if t + 8 <= w {
      ByteInside(v, Pos(k), w, t);
    }
    PosScale(k);
    if t + 8 > Width(k) && k < 9 {
      ByteAcross(v, Pos(k), Width(k), if k == 8 then 26 else Width(k + 1), t);
    }
    NinthPos();
  }

  lemma NinthPos()
    ensures Pos(9) == 230
  {
    assert Pos(4) == 102;
    assert Pos(8) == 204;
  }

  /** FeToBytes writes the canonical encoding of the element. */
  lemma ToBytesExact(h: Limbs)
    requires Bounded(h, LIMB_E, LIMB_O)
    ensures forall k | 0 <= k < 10 :: Frozen(h)[k] >= 0
    ensures Le(ToBytes(h)) == Eval(h) % P
  {
    hide Eval, Frozen, Le, Pack;
    FrozenExact(h);
    PackExact(Frozen(h));
  }

  /** Decoding and encoding again reduces the low 255 bits modulo p. */
  lemma RoundTrip(b: seq<byte>)
    requires |b| == 32
    ensures forall k | 0 <= k < 10 :: Frozen(FromBytes(b))[k] >= 0
    ensures Le(ToBytes(FromBytes(b))) == Low(Le(b), 255) % P
  {
    hide Eval, Frozen, Le, Pack, Loaded, Low, Combine, ToBytes;
    LoadedExact(b);
    CombineExact(Loaded(b));
    ToBytesExact(FromBytes(b));
    CongruentMod(Eval(Loaded(b)), Eval(FromBytes(b)));
  }
}
