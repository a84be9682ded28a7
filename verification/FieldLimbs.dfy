/** Field elements modulo 2^255 - 19 as ten signed limbs of alternately 26 and 25 bits. */
module FieldLimbs {
  import opened Machine
  import opened Bits

  const P := 0x8000_0000_0000_0000_0000_0000_0000_0000_0000_0000_0000_0000_0000_0000_0000_0000 - 19

  /** 1.65 * 2^26 and 1.65 * 2^25: how long limbs may get between reductions. */
  const LIMB_E := 110729625
  const LIMB_O := 55364812

  type Limbs = f: seq<int> | |f| == 10 witness [0, 0, 0, 0, 0, 0, 0, 0, 0, 0]

  /** Width in bits of limb i, and 2^width. */
  function Width(i: nat): nat {
    if i % 2 == 0 then 26 else 25
  }

  function Weight(i: nat): (w: int)
    ensures w > 0
  {
    if i % 2 == 0 then 0x400_0000 else 0x200_0000
  }

  /** h[i] + Weight(i) * (h[i+1] + Weight(i+1) * ...): the integer that limbs i.. stand for. */
  function EvalFrom(h: Limbs, i: nat): int
    requires i <= 10
    decreases 10 - i
  {
    if i == 10 then 0 else h[i] + Weight(i) * EvalFrom(h, i + 1)
  }

  /** h[0] + 2^26 h[1] + 2^51 h[2] + 2^77 h[3] + ... + 2^230 h[9] */
  function Eval(h: Limbs): int {
    EvalFrom(h, 0)
  }

  /** Weight of limb i in Eval. */
  function Scale(i: nat): (w: int)
    ensures w > 0
  {
    if i == 0 then 1 else Weight(i - 1) * Scale(i - 1)
  }

  /** p again, in a form that keeps the solver from calculating with its digits. */
  function Modulus(): (m: int)
    ensures m > 0
  {
    WholePower();
    Pow2(255) - 19
  }

  lemma WholePower()
    ensures Pow2(255) == P + 19
  {
    hide Pow2;
    PowValues();
    PowAdd(51, 51);
    PowAdd(102, 102);
    PowAdd(204, 51);
  }

  ghost predicate Congruent(x: int, y: int) {
    x % Modulus() == y % Modulus()
  }

  lemma CongruentIs(x: int, y: int)
    ensures Congruent(x, y) <==> x % P == y % P
  {
    hide Pow2;
    WholePower();
  }

  /** |h[i]| is at most e on even positions and o on odd ones. */
  predicate Bounded(h: Limbs, e: int, o: int) {
    forall i | 0 <= i < 10 :: if i % 2 == 0 then -e <= h[i] <= e else -o <= h[i] <= o
  }

  lemma {:induction false} EvalLinear(h: Limbs, a: Limbs, x: int, b: Limbs, i: nat)
    requires i <= 10 && forall k | i <= k < 10 :: h[k] == a[k] + x * b[k]
    ensures EvalFrom(h, i) == EvalFrom(a, i) + x * EvalFrom(b, i)
    decreases 10 - i
  {
    hide Weight;
    if i < 10 {
      EvalLinear(h, a, x, b, i + 1);
      Distribute(Weight(i), EvalFrom(a, i + 1), x, b[i], EvalFrom(b, i + 1));
    }
  }

  lemma Distribute(w: int, a: int, x: int, y: int, b: int)
    ensures w * (a + x * b) + x * y == w * a + x * (y + w * b)
  {
    assert w * (x * b) == x * (w * b);
  }

  lemma {:induction false} EvalSuffix(h: Limbs, t: Limbs, i: nat)
    requires i <= 10 && forall k | i <= k < 10 :: h[k] == t[k]
    ensures EvalFrom(h, i) == EvalFrom(t, i)
    decreases 10 - i
  {
    if i < 10 {
      EvalSuffix(h, t, i + 1);
    }
  }

  /** Adding d to limb k adds d times its weight. */
  lemma EvalAdd(h: Limbs, k: nat, d: int)
    requires k < 10
    ensures Eval(h[k := h[k] + d]) == Eval(h) + d * Scale(k)
  {
    hide Scale, EvalFrom;
    EvalAddFrom(h, k, d, 0);
    TopScale();
  }

  lemma {:induction false} EvalAddFrom(h: Limbs, k: nat, d: int, i: nat)
    requires i <= k < 10
    ensures Scale(i) * (EvalFrom(h[k := h[k] + d], i) - EvalFrom(h, i)) == d * Scale(k)
    decreases k - i
  {
    hide Weight;
    var t := h[k := h[k] + d];
    if i == k {
      EvalSuffix(t, h, i + 1);
      assert EvalFrom(t, i) - EvalFrom(h, i) == d;
    } else {
      EvalAddFrom(h, k, d, i + 1);
      Regroup(Weight(i), Scale(i), EvalFrom(t, i + 1), EvalFrom(h, i + 1), h[i]);
    }
  }

  lemma Regroup(w: int, s: int, x: int, y: int, z: int)
    ensures s * ((z + w * x) - (z + w * y)) == w * s * (x - y)
  {
  }

  // c = (h_i + half) >> width; h_{i+1} += c; h_i -= c << width; limb 9 carries 19 c into limb 0
  function Round(h: Limbs, i: nat): Limbs
    requires i < 10
  {
    var c := Int64(h[i] + Weight(i) / 2) / Weight(i);
    var r := h[i := Int64(h[i] - Int64(c * Weight(i)))];
    if i < 9 then r[i + 1 := Int64(r[i + 1] + c)] else r[0 := Int64(r[0] + Int64(c * 19))]
  }

  // FeCombine: twelve carries, then each limb is cut to 32 bits
  function Combine(h: Limbs): Limbs {
    var r := Round(Round(Round(Round(Round(Round(h, 0), 4), 1), 5), 2), 6);
    Narrow(Round(Round(Round(Round(Round(Round(r, 3), 7), 4), 8), 9), 0))
  }

  function Narrow(h: Limbs): Limbs {
    [Int32(h[0]), Int32(h[1]), Int32(h[2]), Int32(h[3]), Int32(h[4]),
     Int32(h[5]), Int32(h[6]), Int32(h[7]), Int32(h[8]), Int32(h[9])]
  }

  const MAX_IN := 0x7000_0000_0000_0000

  lemma RoundVal(h: Limbs, i: nat, c: int)
    requires i < 10
    ensures i < 9 ==> Eval(h[i := h[i] + -c * Weight(i)][i + 1 := h[i + 1] + c]) == Eval(h)
    ensures i == 9 ==> Eval(h[9 := h[9] + -c * Weight(9)][0 := h[0] + 19 * c]) == Eval(h) - c * P
  {
    hide Eval, Scale, Weight;
    var mid := h[i := h[i] + -c * Weight(i)];
    EvalAdd(h, i, -c * Weight(i));
    if i < 9 {
      EvalAdd(mid, i + 1, c);
      ScaleUp(i);
      Cancels(c, Weight(i), Scale(i));
    } else {
      EvalAdd(mid, 0, 19 * c);
      TopScale();
      Cancels(c, Weight(9), Scale(9));
    }
  }

  lemma ScaleUp(i: nat)
    ensures Scale(i + 1) == Weight(i) * Scale(i)
  {
  }

  lemma Cancels(c: int, w: int, s: int)
    ensures -c * w * s == -(c * (w * s))
  {
  }

  lemma TopScale()
    ensures Scale(0) == 1
    ensures Weight(9) * Scale(9) == P + 19
  {
    assert Scale(2) == 0x8_0000_0000_0000;
    assert Scale(4) == 0x8_0000_0000_0000 * Scale(2);
    assert Scale(6) == 0x8_0000_0000_0000 * Scale(4);
    assert Scale(8) == 0x8_0000_0000_0000 * Scale(6);
  }

  /** A carry keeps the element, centres limb i and moves at most b / 2^width + 1 (nineteen-fold at the top) onwards. */
  lemma RoundExact(h: Limbs, i: nat, b: int)
    requires i < 10
    requires -b <= h[i] <= b && b <= MAX_IN + 0x200_0000_0000
    requires var n := if i < 9 then i + 1 else 0; -MAX_IN <= h[n] <= MAX_IN
    ensures var r := Round(h, i);
            var n := if i < 9 then i + 1 else 0;
            var m := (b / Weight(i) + 1) * (if i < 9 then 1 else 19);
            && Congruent(Eval(h), Eval(r))
            && -(Weight(i) / 2) <= r[i] <= Weight(i) / 2
            && h[n] - m <= r[n] <= h[n] + m
            && (forall k | 0 <= k < 10 && k != i && k != n :: r[k] == h[k])
  {
    hide Eval, Round, Congruent;
    var c := (h[i] + Weight(i) / 2) / Weight(i);
    CarrySize(h[i], i, b);
    assert Round(h, i) == if i < 9 then h[i := h[i] + -c * Weight(i)][i + 1 := h[i + 1] + c]
                          else h[9 := h[9] + -c * Weight(9)][0 := h[0] + 19 * c] by {
      RoundWords(h, i, b);
    }
    RoundVal(h, i, c);
    CongruentBy(Eval(h), Eval(Round(h, i)), if i < 9 then 0 else c);
  }

  lemma CarrySize(x: int, i: nat, b: int)
    requires i < 10 && -b <= x <= b
    ensures var c := (x + Weight(i) / 2) / Weight(i);
            && 0 <= x + Weight(i) / 2 - c * Weight(i) < Weight(i)
            && -(b / Weight(i) + 1) <= c <= b / Weight(i) + 1
  {
  }

  // nothing wraps
  lemma RoundWords(h: Limbs, i: nat, b: int)
    requires i < 10
    requires -b <= h[i] <= b && b <= MAX_IN + 0x200_0000_0000
    requires var n := if i < 9 then i + 1 else 0; -MAX_IN <= h[n] <= MAX_IN
    ensures var c := (h[i] + Weight(i) / 2) / Weight(i);
            Round(h, i) == if i < 9 then h[i := h[i] + -c * Weight(i)][i + 1 := h[i + 1] + c]
                           else h[9 := h[9] + -c * Weight(9)][0 := h[0] + 19 * c]
  {
    CarrySize(h[i], i, b);
  }

  lemma CongruentRefl(x: int)
    ensures Congruent(x, x)
  {
  }

  lemma CongruentBy(x: int, y: int, k: int)
    requires y == x - P * k
    ensures Congruent(x, y)
  {
    hide Congruent;
    CongruentIs(x, y);
    Shifted(x, P, k);
  }

  lemma Shifted(x: int, m: int, k: int)
    requires m > 0
    ensures (x - m * k) % m == x % m
  {
    assert x - m * k == m * (x / m - k) + x % m;
    ModUnique(x - m * k, m, x / m - k, x % m);
  }

  lemma Apart(x: int, y: int) returns (k: int)
    requires Congruent(x, y)
    ensures y == x - P * k
  {
    hide Congruent;
    CongruentIs(x, y);
    k := x / P - y / P;
  }

  /** Congruent elements are those whose difference is zero mod p. */
  lemma ZeroDifference(x: int, y: int)
    ensures Congruent(x, y) <==> (x - y) % P == 0
  {
    hide Congruent;
    if Congruent(x, y) {
      var k := Apart(x, y);
      MultipleOfP(k);
    } else if (x - y) % P == 0 {
      CongruentBy(x, y, (x - y) / P);
    }
  }

  lemma CongruentAdd(x: int, y: int, u: int, v: int)
    requires Congruent(x, y) && Congruent(u, v)
    ensures Congruent(x + u, y + v)
  {
    hide Congruent;
    var k := Apart(x, y);
    var m := Apart(u, v);
    CongruentBy(x + u, y + v, k + m);
  }

  lemma CongruentScale(c: int, x: int, y: int)
    requires Congruent(x, y)
    ensures Congruent(c * x, c * y)
  {
    hide Congruent;
    var k := Apart(x, y);
    assert c * y == c * x - P * (c * k);
    CongruentBy(c * x, c * y, c * k);
  }

  lemma CongruentMod(x: int, y: int)
    requires Congruent(x, y)
    ensures x % P == y % P
  {
    hide Congruent;
    CongruentIs(x, y);
  }

  lemma CongruentTrans(x: int, y: int, z: int)
    requires Congruent(x, y) && Congruent(y, z)
    ensures Congruent(x, z)
  {
  }

  lemma MultipleOfP(c: int)
    ensures c * P % P == 0
  {
  }

  lemma Narrowed(h: Limbs)
    requires Bounded(h, 0x7FFF_FFFF, 0x7FFF_FFFF)
    ensures Narrow(h) == h
  {
    hide Int32;
  }

  // the first six carries
  lemma CombineStart(h: Limbs) returns (r: Limbs)
    requires Bounded(h, MAX_IN, MAX_IN)
    ensures r == Round(Round(Round(Round(Round(Round(h, 0), 4), 1), 5), 2), 6)
    ensures Congruent(Eval(h), Eval(r))
    ensures -0x200_0000 <= r[0] <= 0x200_0000 && -0x100_0000 <= r[1] <= 0x100_0000
    ensures -0x200_0000 <= r[2] <= 0x200_0000 && -MAX_IN - 0x200_0000_0000 <= r[3] <= MAX_IN + 0x200_0000_0000
    ensures -0x200_0000 <= r[4] <= 0x200_0000 && -0x100_0000 <= r[5] <= 0x100_0000
    ensures -0x200_0000 <= r[6] <= 0x200_0000 && -MAX_IN - 0x200_0000_0000 <= r[7] <= MAX_IN + 0x200_0000_0000
    ensures r[8] == h[8] && r[9] == h[9]
  {
    hide Round, Eval, Congruent;
    RoundExact(h, 0, MAX_IN);
    var h1 := Round(h, 0);
    RoundExact(h1, 4, MAX_IN);
    var h2 := Round(h1, 4);
    RoundExact(h2, 1, MAX_IN + 0x200_0000_0000);
    var h3 := Round(h2, 1);
    RoundExact(h3, 5, MAX_IN + 0x200_0000_0000);
    var h4 := Round(h3, 5);
    RoundExact(h4, 2, MAX_IN + 0x200_0000_0000);
    var h5 := Round(h4, 2);
    RoundExact(h5, 6, MAX_IN + 0x200_0000_0000);
    r := Round(h5, 6);
    CongruentTrans(Eval(h), Eval(h1), Eval(h2));
    CongruentTrans(Eval(h), Eval(h2), Eval(h3));
    CongruentTrans(Eval(h), Eval(h3), Eval(h4));
    CongruentTrans(Eval(h), Eval(h4), Eval(h5));
    CongruentTrans(Eval(h), Eval(h5), Eval(r));
  }

  // the last six carries
  lemma CombineFinish(h: Limbs) returns (r: Limbs)
    requires -0x200_0000 <= h[0] <= 0x200_0000 && -0x100_0000 <= h[1] <= 0x100_0000
    requires -0x200_0000 <= h[2] <= 0x200_0000 && -MAX_IN - 0x200_0000_0000 <= h[3] <= MAX_IN + 0x200_0000_0000
    requires -0x200_0000 <= h[4] <= 0x200_0000 && -0x100_0000 <= h[5] <= 0x100_0000
    requires -0x200_0000 <= h[6] <= 0x200_0000 && -MAX_IN - 0x200_0000_0000 <= h[7] <= MAX_IN + 0x200_0000_0000
    requires -MAX_IN <= h[8] <= MAX_IN && -MAX_IN <= h[9] <= MAX_IN
    ensures r == Round(Round(Round(Round(Round(Round(h, 3), 7), 4), 8), 9), 0)
    ensures Congruent(Eval(h), Eval(r))
    ensures Bounded(r, 0x200_0000, 0x102_0000)
  {
    hide Round, Eval, Congruent;
    RoundExact(h, 3, MAX_IN + 0x200_0000_0000);
    var h1 := Round(h, 3);
    RoundExact(h1, 7, MAX_IN + 0x200_0000_0000);
    var h2 := Round(h1, 7);
    RoundExact(h2, 4, 0x40_0000_0000);
    var h3 := Round(h2, 4);
    RoundExact(h3, 8, MAX_IN + 0x200_0000_0000);
    var h4 := Round(h3, 8);
    RoundExact(h4, 9, MAX_IN + 0x200_0000_0000);
    var h5 := Round(h4, 9);
    RoundExact(h5, 0, 0x500_0000_0000);
    r := Round(h5, 0);
    CongruentTrans(Eval(h), Eval(h1), Eval(h2));
    CongruentTrans(Eval(h), Eval(h2), Eval(h3));
    CongruentTrans(Eval(h), Eval(h3), Eval(h4));
    CongruentTrans(Eval(h), Eval(h4), Eval(h5));
    CongruentTrans(Eval(h), Eval(h5), Eval(r));
  }

  /** FeCombine keeps the element and leaves limbs within 2^25 and 1.01 * 2^24, without overflow. */
  lemma CombineExact(h: Limbs)
    requires Bounded(h, MAX_IN, MAX_IN)
    ensures Congruent(Eval(h), Eval(Combine(h)))
    ensures Bounded(Combine(h), 0x200_0000, 0x102_0000)
  {
    hide Round, Eval, Congruent;
    var a := CombineStart(h);
    var b := CombineFinish(a);
    Narrowed(b);
    CongruentTrans(Eval(h), Eval(a), Eval(b));
  }
}
