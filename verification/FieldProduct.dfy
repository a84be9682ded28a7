/** The limb products behind FeMul and FeSquare in radix 2^25.5. */
module FieldProduct {
  import opened Machine
  import opened FieldLimbs

  // h0 .. h9 of FeMul. The doubled and nineteen-fold limbs are 32-bit products.
  function MulColumns(f: Limbs, g: Limbs): (h: Limbs) {
    var f1_2, f3_2, f5_2, f7_2, f9_2 := Int32(2 * f[1]), Int32(2 * f[3]), Int32(2 * f[5]), Int32(2 * f[7]),
      Int32(2 * f[9]);
    var g1_19, g2_19, g3_19 := Int32(19 * g[1]), Int32(19 * g[2]), Int32(19 * g[3]);
    var g4_19, g5_19, g6_19 := Int32(19 * g[4]), Int32(19 * g[5]), Int32(19 * g[6]);
    var g7_19, g8_19, g9_19 := Int32(19 * g[7]), Int32(19 * g[8]), Int32(19 * g[9]);
    [Int64(Times(f[0], g[0]) + Times(f1_2, g9_19) + Times(f[2], g8_19) + Times(f3_2, g7_19) + Times(f[4], g6_19)
           + Times(f5_2, g5_19) + Times(f[6], g4_19) + Times(f7_2, g3_19) + Times(f[8], g2_19) + Times(f9_2, g1_19)),
     Int64(Times(f[0], g[1]) + Times(f[1], g[0]) + Times(f[2], g9_19) + Times(f[3], g8_19) + Times(f[4], g7_19)
           + Times(f[5], g6_19) + Times(f[6], g5_19) + Times(f[7], g4_19) + Times(f[8], g3_19) + Times(f[9], g2_19)),
     Int64(Times(f[0], g[2]) + Times(f1_2, g[1]) + Times(f[2], g[0]) + Times(f3_2, g9_19) + Times(f[4], g8_19)
           + Times(f5_2, g7_19) + Times(f[6], g6_19) + Times(f7_2, g5_19) + Times(f[8], g4_19) + Times(f9_2, g3_19)),
     Int64(Times(f[0], g[3]) + Times(f[1], g[2]) + Times(f[2], g[1]) + Times(f[3], g[0]) + Times(f[4], g9_19)
           + Times(f[5], g8_19) + Times(f[6], g7_19) + Times(f[7], g6_19) + Times(f[8], g5_19) + Times(f[9], g4_19)),
     Int64(Times(f[0], g[4]) + Times(f1_2, g[3]) + Times(f[2], g[2]) + Times(f3_2, g[1]) + Times(f[4], g[0])
           + Times(f5_2, g9_19) + Times(f[6], g8_19) + Times(f7_2, g7_19) + Times(f[8], g6_19) + Times(f9_2, g5_19)),
     Int64(Times(f[0], g[5]) + Times(f[1], g[4]) + Times(f[2], g[3]) + Times(f[3], g[2]) + Times(f[4], g[1])
           + Times(f[5], g[0]) + Times(f[6], g9_19) + Times(f[7], g8_19) + Times(f[8], g7_19) + Times(f[9], g6_19)),
     Int64(Times(f[0], g[6]) + Times(f1_2, g[5]) + Times(f[2], g[4]) + Times(f3_2, g[3]) + Times(f[4], g[2])
           + Times(f5_2, g[1]) + Times(f[6], g[0]) + Times(f7_2, g9_19) + Times(f[8], g8_19) + Times(f9_2, g7_19)),
     Int64(Times(f[0], g[7]) + Times(f[1], g[6]) + Times(f[2], g[5]) + Times(f[3], g[4]) + Times(f[4], g[3])
           + Times(f[5], g[2]) + Times(f[6], g[1]) + Times(f[7], g[0]) + Times(f[8], g9_19) + Times(f[9], g8_19)),
     Int64(Times(f[0], g[8]) + Times(f1_2, g[7]) + Times(f[2], g[6]) + Times(f3_2, g[5]) + Times(f[4], g[4])
           + Times(f5_2, g[3]) + Times(f[6], g[2]) + Times(f7_2, g[1]) + Times(f[8], g[0]) + Times(f9_2, g9_19)),
     Int64(Times(f[0], g[9]) + Times(f[1], g[8]) + Times(f[2], g[7]) + Times(f[3], g[6]) + Times(f[4], g[5])
           + Times(f[5], g[4]) + Times(f[6], g[3]) + Times(f[7], g[2]) + Times(f[8], g[1]) + Times(f[9], g[0]))]
  }

  // h0 .. h9 of feSquare. The doubled limbs are 32-bit products, the other multiples 64-bit.
  function SquareColumns(f: Limbs): (h: Limbs) {
    var f0_2, f1_2, f2_2, f3_2 := Int32(2 * f[0]), Int32(2 * f[1]), Int32(2 * f[2]), Int32(2 * f[3]);
    var f4_2, f5_2, f6_2, f7_2 := Int32(2 * f[4]), Int32(2 * f[5]), Int32(2 * f[6]), Int32(2 * f[7]);
    var f5_38, f6_19, f7_38 := Int64(38 * f[5]), Int64(19 * f[6]), Int64(38 * f[7]);
    var f8_19, f9_38 := Int64(19 * f[8]), Int64(38 * f[9]);
    [Int64(Times(f[0], f[0]) + Times(f1_2, f9_38) + Times(f2_2, f8_19) + Times(f3_2, f7_38) + Times(f4_2, f6_19)
           + Times(f[5], f5_38)),
     Int64(Times(f0_2, f[1]) + Times(f[2], f9_38) + Times(f3_2, f8_19) + Times(f[4], f7_38) + Times(f5_2, f6_19)),
     Int64(Times(f0_2, f[2]) + Times(f1_2, f[1]) + Times(f3_2, f9_38) + Times(f4_2, f8_19) + Times(f5_2, f7_38)
           + Times(f[6], f6_19)),
     Int64(Times(f0_2, f[3]) + Times(f1_2, f[2]) + Times(f[4], f9_38) + Times(f5_2, f8_19) + Times(f[6], f7_38)),
     Int64(Times(f0_2, f[4]) + Times(f1_2, f3_2) + Times(f[2], f[2]) + Times(f5_2, f9_38) + Times(f6_2, f8_19)
           + Times(f[7], f7_38)),
     Int64(Times(f0_2, f[5]) + Times(f1_2, f[4]) + Times(f2_2, f[3]) + Times(f[6], f9_38) + Times(f7_2, f8_19)),
     Int64(Times(f0_2, f[6]) + Times(f1_2, f5_2) + Times(f2_2, f[4]) + Times(f3_2, f[3]) + Times(f7_2, f9_38)
           + Times(f[8], f8_19)),
     Int64(Times(f0_2, f[7]) + Times(f1_2, f[6]) + Times(f2_2, f[5]) + Times(f3_2, f[4]) + Times(f[8], f9_38)),
     Int64(Times(f0_2, f[8]) + Times(f1_2, f7_2) + Times(f2_2, f[6]) + Times(f3_2, f5_2) + Times(f[4], f[4])
           + Times(f[9], f9_38)),
     Int64(Times(f0_2, f[9]) + Times(f1_2, f[8]) + Times(f2_2, f[7]) + Times(f3_2, f[6]) + Times(f4_2, f[5]))]
  }

  function Times(x: int, y: int): int {
    x * y
  }

  /** Limb k of 2^(25.5 i) * g before reduction: limb (k - i) mod 10 of g, doubled when both odd halves
      meet and multiplied by 19 when it wraps around 2^255. */
  function Coef(k: nat, i: nat): nat
    requires k < 10 && i < 10
  {
    (if i > k then 19 else 1) * (if i % 2 == 1 && Other(k, i) % 2 == 1 then 2 else 1)
  }

  function Other(k: nat, i: nat): (j: nat)
    requires k < 10 && i < 10
    ensures j < 10
  {
    if i > k then k + 10 - i else k - i
  }

  /** Column k of f * g, from limb i of f upwards. */
  function Conv(f: Limbs, g: Limbs, k: nat, i: nat): int
    requires k < 10 && i <= 10
    decreases 10 - i
  {
    if i == 10 then 0 else Coef(k, i) * Times(f[i], g[Other(k, i)]) + Conv(f, g, k, i + 1)
  }

  function ConvSeq(f: Limbs, g: Limbs, i: nat): Limbs
    requires i <= 10
  {
    seq(10, k requires 0 <= k < 10 => Conv(f, g, k, i))
  }

  lemma ConvTerms(f: Limbs, g: Limbs, k: nat)
    requires k < 10
    ensures Conv(f, g, k, 0)
         == Coef(k, 0) * Times(f[0], g[Other(k, 0)]) + Coef(k, 1) * Times(f[1], g[Other(k, 1)])
            + Coef(k, 2) * Times(f[2], g[Other(k, 2)]) + Coef(k, 3) * Times(f[3], g[Other(k, 3)])
            + Coef(k, 4) * Times(f[4], g[Other(k, 4)]) + Coef(k, 5) * Times(f[5], g[Other(k, 5)])
            + Coef(k, 6) * Times(f[6], g[Other(k, 6)]) + Coef(k, 7) * Times(f[7], g[Other(k, 7)])
            + Coef(k, 8) * Times(f[8], g[Other(k, 8)]) + Coef(k, 9) * Times(f[9], g[Other(k, 9)])
  {
    hide Coef, Times, Other;
  }

  lemma MulTerms(f: Limbs, g: Limbs)
    ensures Conv(f, g, 0, 0)
         == Times(f[0], g[0]) + 38 * Times(f[1], g[9]) + 19 * Times(f[2], g[8]) + 38 * Times(f[3], g[7])
            + 19 * Times(f[4], g[6]) + 38 * Times(f[5], g[5]) + 19 * Times(f[6], g[4]) + 38 * Times(f[7], g[3])
            + 19 * Times(f[8], g[2]) + 38 * Times(f[9], g[1])
    ensures Conv(f, g, 1, 0)
         == Times(f[0], g[1]) + Times(f[1], g[0]) + 19 * Times(f[2], g[9]) + 19 * Times(f[3], g[8])
            + 19 * Times(f[4], g[7]) + 19 * Times(f[5], g[6]) + 19 * Times(f[6], g[5]) + 19 * Times(f[7], g[4])
            + 19 * Times(f[8], g[3]) + 19 * Times(f[9], g[2])
    ensures Conv(f, g, 2, 0)
         == Times(f[0], g[2]) + 2 * Times(f[1], g[1]) + Times(f[2], g[0]) + 38 * Times(f[3], g[9])
            + 19 * Times(f[4], g[8]) + 38 * Times(f[5], g[7]) + 19 * Times(f[6], g[6]) + 38 * Times(f[7], g[5])
            + 19 * Times(f[8], g[4]) + 38 * Times(f[9], g[3])
    ensures Conv(f, g, 3, 0)
         == Times(f[0], g[3]) + Times(f[1], g[2]) + Times(f[2], g[1]) + Times(f[3], g[0]) + 19 * Times(f[4], g[9])
            + 19 * Times(f[5], g[8]) + 19 * Times(f[6], g[7]) + 19 * Times(f[7], g[6]) + 19 * Times(f[8], g[5])
            + 19 * Times(f[9], g[4])
    ensures Conv(f, g, 4, 0)
         == Times(f[0], g[4]) + 2 * Times(f[1], g[3]) + Times(f[2], g[2]) + 2 * Times(f[3], g[1]) + Times(f[4], g[0])
            + 38 * Times(f[5], g[9]) + 19 * Times(f[6], g[8]) + 38 * Times(f[7], g[7]) + 19 * Times(f[8], g[6])
            + 38 * Times(f[9], g[5])
    ensures Conv(f, g, 5, 0)
         == Times(f[0], g[5]) + Times(f[1], g[4]) + Times(f[2], g[3]) + Times(f[3], g[2]) + Times(f[4], g[1])
            + Times(f[5], g[0]) + 19 * Times(f[6], g[9]) + 19 * Times(f[7], g[8]) + 19 * Times(f[8], g[7])
            + 19 * Times(f[9], g[6])
    ensures Conv(f, g, 6, 0)
         == Times(f[0], g[6]) + 2 * Times(f[1], g[5]) + Times(f[2], g[4]) + 2 * Times(f[3], g[3]) + Times(f[4], g[2])
            + 2 * Times(f[5], g[1]) + Times(f[6], g[0]) + 38 * Times(f[7], g[9]) + 19 * Times(f[8], g[8])
            + 38 * Times(f[9], g[7])
    ensures Conv(f, g, 7, 0)
         == Times(f[0], g[7]) + Times(f[1], g[6]) + Times(f[2], g[5]) + Times(f[3], g[4]) + Times(f[4], g[3])
            + Times(f[5], g[2]) + Times(f[6], g[1]) + Times(f[7], g[0]) + 19 * Times(f[8], g[9])
              + 19 * Times(f[9], g[8])
    ensures Conv(f, g, 8, 0)
         == Times(f[0], g[8]) + 2 * Times(f[1], g[7]) + Times(f[2], g[6]) + 2 * Times(f[3], g[5]) + Times(f[4], g[4])
            + 2 * Times(f[5], g[3]) + Times(f[6], g[2]) + 2 * Times(f[7], g[1]) + Times(f[8], g[0])
            + 38 * Times(f[9], g[9])
    ensures Conv(f, g, 9, 0)
         == Times(f[0], g[9]) + Times(f[1], g[8]) + Times(f[2], g[7]) + Times(f[3], g[6]) + Times(f[4], g[5])
            + Times(f[5], g[4]) + Times(f[6], g[3]) + Times(f[7], g[2]) + Times(f[8], g[1]) + Times(f[9], g[0])
  {
    hide Conv, Times;
    ConvTerms(f, g, 0);
    ConvTerms(f, g, 1);
    ConvTerms(f, g, 2);
    ConvTerms(f, g, 3);
    ConvTerms(f, g, 4);
    ConvTerms(f, g, 5);
    ConvTerms(f, g, 6);
    ConvTerms(f, g, 7);
    ConvTerms(f, g, 8);
    ConvTerms(f, g, 9);
  }

  // ---- the value of a product ----

  /** g times 2^26 and g times 2^51, with 2^255 replaced by 19. */
  function Times26(g: Limbs): Limbs {
    [38 * g[9], g[0], 2 * g[1], g[2], 2 * g[3], g[4], 2 * g[5], g[6], 2 * g[7], g[8]]
  }

  function Times51(g: Limbs): Limbs {
    [19 * g[8], 19 * g[9], g[0], g[1], g[2], g[3], g[4], g[5], g[6], g[7]]
  }

  function Row(g: Limbs, i: nat): Limbs {
    if i == 0 then g else if i == 1 then Times26(g) else Times51(Row(g, i - 2))
  }

  lemma {:induction false} RowAt(g: Limbs, i: nat, k: nat)
    requires i < 10 && k < 10
    ensures Row(g, i)[k] == Coef(k, i) * g[Other(k, i)]
  {
    if i >= 2 {
      hide Coef, Other, Times51;
      RowAt(g, i - 2, Behind(k));
      Times51At(Row(g, i - 2), k);
      CoefBehind(k, i);
    } else if i == 1 {
      Times26At(g, k);
    }
  }

  // the limb that moves to position k when a number is shifted by two limbs
  function Behind(k: nat): (j: nat)
    requires k < 10
    ensures j < 10
  {
    if k < 2 then k + 8 else k - 2
  }

  lemma Times51At(g: Limbs, k: nat)
    requires k < 10
    ensures Times51(g)[k] == (if k < 2 then 19 else 1) * g[Behind(k)]
  {
  }

  lemma Times26At(g: Limbs, k: nat)
    requires k < 10
    ensures Times26(g)[k] == Coef(k, 1) * g[Other(k, 1)]
  {
  }

  lemma CoefBehind(k: nat, i: nat)
    requires k < 10 && 2 <= i < 10
    ensures Other(k, i) == Other(Behind(k), i - 2)
    ensures Coef(k, i) == (if k < 2 then 19 else 1) * Coef(Behind(k), i - 2)
  {
  }

  lemma Times26Val(g: Limbs)
    ensures Eval(Times26(g)) == 0x400_0000 * Eval(g) - P * (2 * g[9])
  {
  }

  lemma Times51Val(g: Limbs)
    ensures Eval(Times51(g)) == 0x8_0000_0000_0000 * Eval(g) - P * (g[8] + 0x400_0000 * g[9])
  {
  }

  lemma {:induction false} RowVal(g: Limbs, i: nat)
    requires i < 10
    ensures Congruent(Scale(i) * Eval(g), Eval(Row(g, i)))
  {
    hide Eval, Times26, Times51, Congruent, Scale;
    ScaleStep(i);
    if i == 0 {
      CongruentRefl(Eval(g));
    } else if i == 1 {
      Times26Val(g);
      CongruentBy(0x400_0000 * Eval(g), Eval(Times26(g)), 2 * g[9]);
    } else {
      var r := Row(g, i - 2);
      RowVal(g, i - 2);
      Times51Val(r);
      CongruentScale(0x8_0000_0000_0000, Scale(i - 2) * Eval(g), Eval(r));
      CongruentBy(0x8_0000_0000_0000 * Eval(r), Eval(Times51(r)), r[8] + 0x400_0000 * r[9]);
      assert Scale(i) * Eval(g) == 0x8_0000_0000_0000 * (Scale(i - 2) * Eval(g));
      CongruentTrans(Scale(i) * Eval(g), 0x8_0000_0000_0000 * Eval(r), Eval(Times51(r)));
    }
  }

  lemma ScaleStep(i: nat)
    ensures i == 0 ==> Scale(i) == 1
    ensures i == 1 ==> Scale(i) == 0x400_0000
    ensures i >= 2 ==> Scale(i) == 0x8_0000_0000_0000 * Scale(i - 2)
  {
  }

  lemma {:induction false} ConvVal(f: Limbs, g: Limbs, i: nat)
    requires i <= 10
    ensures Congruent(Scale(i) * EvalFrom(f, i) * Eval(g), Eval(ConvSeq(f, g, i)))
    decreases 10 - i
  {
    hide Eval, Congruent, Conv, Weight, Row, ConvSeq, Scale;
    if i == 10 {
      ConvEnd(f, g);
      ZeroVal(ConvSeq(f, g, 10));
      CongruentRefl(0);
    } else {
      ConvVal(f, g, i + 1);
      ScaleNext(i);
      AddRow(f, g, i, Scale(i + 1) * EvalFrom(f, i + 1) * Eval(g));
      Unfold(f[i], Weight(i), Scale(i), EvalFrom(f, i + 1), Eval(g));
    }
  }

  lemma AddRow(f: Limbs, g: Limbs, i: nat, rest: int)
    requires i < 10 && Congruent(rest, Eval(ConvSeq(f, g, i + 1)))
    ensures Congruent(rest + f[i] * (Scale(i) * Eval(g)), Eval(ConvSeq(f, g, i)))
  {
    hide Eval, EvalFrom, Congruent, Conv, Weight, Row, ConvSeq, Scale;
    RowVal(g, i);
    ConvStep(f, g, i);
    EvalSum(ConvSeq(f, g, i), ConvSeq(f, g, i + 1), f[i], Row(g, i));
    CongruentScale(f[i], Scale(i) * Eval(g), Eval(Row(g, i)));
    CongruentAdd(rest, Eval(ConvSeq(f, g, i + 1)), f[i] * (Scale(i) * Eval(g)), f[i] * Eval(Row(g, i)));
  }

  lemma ScaleNext(i: nat)
    ensures Scale(i + 1) == Weight(i) * Scale(i)
  {
  }

  lemma ConvEnd(f: Limbs, g: Limbs)
    ensures forall k | 0 <= k < 10 :: ConvSeq(f, g, 10)[k] == 0
  {
  }

  lemma ConvStep(f: Limbs, g: Limbs, i: nat)
    requires i < 10
    ensures forall k | 0 <= k < 10 :: ConvSeq(f, g, i)[k] == ConvSeq(f, g, i + 1)[k] + f[i] * Row(g, i)[k]
  {
    hide Coef, Other, Row;
    forall k | 0 <= k < 10
      ensures ConvSeq(f, g, i)[k] == ConvSeq(f, g, i + 1)[k] + f[i] * Row(g, i)[k]
    {
      RowAt(g, i, k);
      assert Coef(k, i) * (f[i] * g[Other(k, i)]) == f[i] * (Coef(k, i) * g[Other(k, i)]);
    }
  }

  lemma Unfold(x: int, w: int, s: int, e: int, g: int)
    ensures s * (x + w * e) * g == w * s * e * g + x * (s * g)
  {
  }

  lemma EvalSum(h: Limbs, a: Limbs, x: int, b: Limbs)
    requires forall k | 0 <= k < 10 :: h[k] == a[k] + x * b[k]
    ensures Eval(h) == Eval(a) + x * Eval(b)
  {
    hide EvalFrom;
    EvalLinear(h, a, x, b, 0);
  }

  lemma ZeroVal(h: Limbs)
    requires forall k | 0 <= k < 10 :: h[k] == 0
    ensures Eval(h) == 0
  {
  }

  // ---- bounds ----

  lemma {:induction false} ConvBound(f: Limbs, g: Limbs, k: nat, i: nat)
    requires k < 10 && i <= 10
    requires Bounded(f, LIMB_E, LIMB_O) && Bounded(g, LIMB_E, LIMB_O)
    ensures -(10 - i) * TERM_MAX <= Conv(f, g, k, i) <= (10 - i) * TERM_MAX
    decreases 10 - i
  {
    hide Times, Coef, Other;
    if i < 10 {
      ConvBound(f, g, k, i + 1);
      CoefBound(k, i);
      var j := Other(k, i);
      assert -LIMB_E <= g[j] <= LIMB_E;
      TermBound(f[i], g[j], Coef(k, i));
    }
  }

  lemma CoefBound(k: nat, i: nat)
    requires k < 10 && i < 10
    ensures Coef(k, i) <= 38 && (i % 2 == 0 ==> Coef(k, i) <= 19)
  {
  }

  const TERM_MAX := 0x400_0000_0000_0000

  /** Even limbs meet at most 19, odd ones at most 38 but are half as long. */
  lemma TermBound(x: int, y: int, c: int)
    requires -LIMB_E <= x <= LIMB_E && -LIMB_E <= y <= LIMB_E && 0 <= c
    requires c <= 19 || (c <= 38 && -LIMB_O <= x <= LIMB_O)
    ensures -TERM_MAX <= c * Times(x, y) <= TERM_MAX
  {
    var m := if c <= 19 then LIMB_E else LIMB_O;
    ProductBound(x, m, y, LIMB_E);
    ProductBound(c, if c <= 19 then 19 else 38, x * y, m * LIMB_E);
  }

  lemma ProductBound(x: int, a: int, y: int, b: int)
    requires -a <= x <= a && -b <= y <= b
    ensures -(a * b) <= x * y <= a * b
  {
    var m := if x >= 0 then x else -x;
    Between(m, y, b);
    Between(b, m, a);
    assert x * y == if x >= 0 then m * y else -(m * y);
    assert b * a == a * b && b * m == m * b;
  }

  lemma Between(m: int, y: int, b: int)
    requires m >= 0 && -b <= y <= b
    ensures -(m * b) <= m * y <= m * b
  {
  }

  // ---- the source's products are the columns ----

  lemma NarrowProducts(f: Limbs)
    requires Bounded(f, LIMB_E, LIMB_O)
    ensures forall k | 0 <= k < 10 :: Int32(2 * f[k]) == 2 * f[k] && Int32(19 * f[k]) == 19 * f[k]
    ensures forall k | 0 <= k < 10 :: Int64(19 * f[k]) == 19 * f[k] && Int64(38 * f[k]) == 38 * f[k]
  {
    hide Int32, Int64;
    assert forall k | 0 <= k < 10 :: -LIMB_E <= f[k] <= LIMB_E;
  }

  lemma TimesScaled(x: int, y: int, c: int, d: int)
    ensures Times(c * x, d * y) == c * d * Times(x, y) && Times(x, y) == Times(y, x)
    ensures Times(x, d * y) == d * Times(x, y) && Times(c * x, y) == c * Times(x, y)
  {
    assert (c * x) * (d * y) == c * d * (x * y);
  }

  lemma MulMultiples(f: Limbs, g: Limbs)
    requires Bounded(f, LIMB_E, LIMB_O) && Bounded(g, LIMB_E, LIMB_O)
    ensures forall i, j | 0 <= i < 10 && 0 <= j < 10 :: Times(f[i], Int32(19 * g[j])) == 19 * Times(f[i], g[j])
    ensures forall i, j | 0 <= i < 10 && 0 <= j < 10 :: Times(Int32(2 * f[i]), g[j]) == 2 * Times(f[i], g[j])
    ensures forall i, j | 0 <= i < 10
            && 0 <= j < 10 :: Times(Int32(2 * f[i]), Int32(19 * g[j])) == 38 * Times(f[i], g[j])
  {
    NarrowProducts(f);
    NarrowProducts(g);
    hide Int32, Times, Bounded;
    forall i, j | 0 <= i < 10 && 0 <= j < 10
      ensures Times(f[i], Int32(19 * g[j])) == 19 * Times(f[i], g[j])
      ensures Times(Int32(2 * f[i]), g[j]) == 2 * Times(f[i], g[j])
      ensures Times(Int32(2 * f[i]), Int32(19 * g[j])) == 38 * Times(f[i], g[j])
    {
      TimesScaled(f[i], g[j], 2, 19);
    }
  }

  lemma SquareMultiples(f: Limbs)
    requires Bounded(f, LIMB_E, LIMB_O)
    ensures forall i, j | 0 <= i < 10 && 0 <= j < 10 :: Times(f[i], f[j]) == Times(f[j], f[i])
    ensures forall i, j | 0 <= i < 10 && 0 <= j < 10 :: Times(Int32(2 * f[i]), f[j]) == 2 * Times(f[i], f[j])
    ensures forall i, j | 0 <= i < 10 && 0 <= j < 10 :: Times(Int32(2 * f[i]), Int32(2 * f[j])) == 4 * Times(f[i], f[j])
    ensures forall i, j | 0 <= i < 10 && 0 <= j < 10 :: Times(f[i], Int64(19 * f[j])) == 19 * Times(f[i], f[j])
    ensures forall i, j | 0 <= i < 10 && 0 <= j < 10 :: Times(f[i], Int64(38 * f[j])) == 38 * Times(f[i], f[j])
    ensures forall i, j | 0 <= i < 10
            && 0 <= j < 10 :: Times(Int32(2 * f[i]), Int64(19 * f[j])) == 38 * Times(f[i], f[j])
    ensures forall i, j | 0 <= i < 10
            && 0 <= j < 10 :: Times(Int32(2 * f[i]), Int64(38 * f[j])) == 76 * Times(f[i], f[j])
  {
    NarrowProducts(f);
    hide Int32, Int64, Times, Bounded;
    forall i, j | 0 <= i < 10 && 0 <= j < 10
      ensures Times(f[i], f[j]) == Times(f[j], f[i])
      ensures Times(Int32(2 * f[i]), f[j]) == 2 * Times(f[i], f[j])
      ensures Times(Int32(2 * f[i]), Int32(2 * f[j])) == 4 * Times(f[i], f[j])
      ensures Times(f[i], Int64(19 * f[j])) == 19 * Times(f[i], f[j])
      ensures Times(f[i], Int64(38 * f[j])) == 38 * Times(f[i], f[j])
      ensures Times(Int32(2 * f[i]), Int64(19 * f[j])) == 38 * Times(f[i], f[j])
      ensures Times(Int32(2 * f[i]), Int64(38 * f[j])) == 76 * Times(f[i], f[j])
    {
      TimesScaled(f[i], f[j], 2, 2);
      TimesScaled(f[i], f[j], 2, 19);
      TimesScaled(f[i], f[j], 2, 38);
    }
  }

  /** The ten sums of FeMul are the columns of f * g. */
  lemma MulColumnsExact(f: Limbs, g: Limbs)
    requires Bounded(f, LIMB_E, LIMB_O) && Bounded(g, LIMB_E, LIMB_O)
    ensures forall k | 0 <= k < 10 :: MulColumns(f, g)[k] == Int64(Conv(f, g, k, 0))
  {
    hide Int32, Int64, Conv, Times;
    MulMultiples(f, g);
    MulTerms(f, g);
  }

  lemma SquareColumnsExact(f: Limbs)
    requires Bounded(f, LIMB_E, LIMB_O)
    ensures forall k | 0 <= k < 10 :: SquareColumns(f)[k] == Int64(Conv(f, f, k, 0))
  {
    hide Int32, Int64, Conv, Times;
    SquareMultiples(f);
    MulTerms(f, f);
  }

  // ---- FeMul, FeSquare, FeSquare2 ----

  function Mul(f: Limbs, g: Limbs): Limbs {
    Combine(MulColumns(f, g))
  }

  function Square(f: Limbs): Limbs {
    Combine(SquareColumns(f))
  }

  function Square2(f: Limbs): Limbs {
    var h := SquareColumns(f);
    Combine(seq(10, k requires 0 <= k < 10 => Int64(h[k] + h[k])))
  }

  lemma ColumnsValue(f: Limbs, g: Limbs, h: Limbs)
    requires Bounded(f, LIMB_E, LIMB_O) && Bounded(g, LIMB_E, LIMB_O)
    requires forall k | 0 <= k < 10 :: h[k] == Int64(Conv(f, g, k, 0))
    ensures Bounded(h, 10 * TERM_MAX, 10 * TERM_MAX)
    ensures Congruent(Eval(f) * Eval(g), Eval(h))
  {
    hide Int64, Conv, Congruent, EvalFrom;
    forall k | 0 <= k < 10
      ensures h[k] == Conv(f, g, k, 0) && -10 * TERM_MAX <= h[k] <= 10 * TERM_MAX
    {
      ConvBound(f, g, k, 0);
    }
    assert h == ConvSeq(f, g, 0);
    ConvVal(f, g, 0);
    ScaleStep(0);
  }

  /** Within 1.65 * 2^26 and 1.65 * 2^25, FeMul multiplies modulo 2^255 - 19 and never overflows. */
  lemma MulExact(f: Limbs, g: Limbs)
    requires Bounded(f, LIMB_E, LIMB_O) && Bounded(g, LIMB_E, LIMB_O)
    ensures Congruent(Eval(f) * Eval(g), Eval(Mul(f, g)))
    ensures Bounded(Mul(f, g), 0x200_0000, 0x102_0000)
  {
    hide MulColumns, Combine, Eval, Congruent;
    var h := MulColumns(f, g);
    MulColumnsExact(f, g);
    ColumnsValue(f, g, h);
    CombineExact(h);
    CongruentTrans(Eval(f) * Eval(g), Eval(h), Eval(Combine(h)));
  }

  /** Limb for limb, FeSquare is FeMul of an element with itself. */
  lemma SquareIsMul(f: Limbs)
    requires Bounded(f, LIMB_E, LIMB_O)
    ensures Square(f) == Mul(f, f)
  {
    hide MulColumns, SquareColumns, Combine, Conv;
    MulColumnsExact(f, f);
    SquareColumnsExact(f);
    assert MulColumns(f, f) == SquareColumns(f);
  }

  lemma Square2Exact(f: Limbs)
    requires Bounded(f, LIMB_E, LIMB_O)
    ensures Congruent(2 * (Eval(f) * Eval(f)), Eval(Square2(f)))
    ensures Bounded(Square2(f), 0x200_0000, 0x102_0000)
  {
    hide SquareColumns, Combine, Eval, Congruent, Int64;
    var h := SquareColumns(f);
    SquareColumnsExact(f);
    ColumnsValue(f, f, h);
    var d: Limbs := seq(10, k requires 0 <= k < 10 => Int64(h[k] + h[k]));
    assert forall k | 0 <= k < 10 :: -10 * TERM_MAX <= h[k] <= 10 * TERM_MAX;
    assert forall k | 0 <= k < 10 :: d[k] == h[k] + 1 * h[k];
    EvalSum(d, h, 1, h);
    CombineExact(d);
    CongruentScale(2, Eval(f) * Eval(f), Eval(h));
    CongruentTrans(2 * (Eval(f) * Eval(f)), Eval(d), Eval(Combine(d)));
  }
}
