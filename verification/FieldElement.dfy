/** The operations on field elements, as updates of ten-limb buffers. A destination may overlap its operands. */
module FieldElement {
  import opened Machine
  import opened Bits
  import opened FieldLimbs
  import opened FieldProduct
  import opened FieldBytes

  function Add(a: Limbs, b: Limbs): Limbs {
    seq(10, k requires 0 <= k < 10 => Int32(a[k] + b[k]))
  }

  function Sub(a: Limbs, b: Limbs): Limbs {
    seq(10, k requires 0 <= k < 10 => Int32(a[k] - b[k]))
  }

  function Neg(a: Limbs): Limbs {
    seq(10, k requires 0 <= k < 10 => Int32(-a[k]))
  }

  /** Limbwise sums are exact while limbs stay within 32 bits. */
  lemma AddExact(a: Limbs, b: Limbs, e: int, o: int, e': int, o': int)
    requires Bounded(a, e, o) && Bounded(b, e', o')
    requires 0 <= e + e' < 0x8000_0000 && 0 <= o + o' < 0x8000_0000
    ensures Eval(Add(a, b)) == Eval(a) + Eval(b) && Bounded(Add(a, b), e + e', o + o')
  {
    hide Int32, EvalFrom;
    EvalSum(Add(a, b), a, 1, b);
  }

  lemma SubExact(a: Limbs, b: Limbs, e: int, o: int, e': int, o': int)
    requires Bounded(a, e, o) && Bounded(b, e', o')
    requires 0 <= e + e' < 0x8000_0000 && 0 <= o + o' < 0x8000_0000
    ensures Eval(Sub(a, b)) == Eval(a) - Eval(b) && Bounded(Sub(a, b), e + e', o + o')
  {
    hide Int32, EvalFrom;
    EvalSum(Sub(a, b), a, -1, b);
  }

  lemma NegExact(a: Limbs, e: int, o: int)
    requires Bounded(a, e, o) && 0 <= e < 0x8000_0000 && 0 <= o < 0x8000_0000
    ensures Eval(Neg(a)) == -Eval(a) && Bounded(Neg(a), e, o)
  {
    hide Int32, EvalFrom;
    EvalSum(Neg(a), Zero(), -1, a);
    ZeroVal(Zero());
  }

  function Zero(): Limbs {
    [0, 0, 0, 0, 0, 0, 0, 0, 0, 0]
  }

  function One(): Limbs {
    [1, 0, 0, 0, 0, 0, 0, 0, 0, 0]
  }

  method Put(dst: array<int>, x: Limbs)
    requires dst.Length == 10
    modifies dst
    ensures dst[..] == x
  {
    forall k | 0 <= k < 10 {
      dst[k] := x[k];
    }
  }

  method FeAdd(dst: array<int>, a: array<int>, b: array<int>)
    requires dst.Length == 10 && a.Length == 10 && b.Length == 10
    requires Bounded(a[..], LIMB_E, LIMB_O) && Bounded(b[..], LIMB_E, LIMB_O)
    modifies dst
    ensures Eval(dst[..]) == old(Eval(a[..]) + Eval(b[..]))
    ensures Bounded(dst[..], 2 * LIMB_E, 2 * LIMB_O)
  {
    hide Int32, EvalFrom, Bounded;
    AddExact(a[..], b[..], LIMB_E, LIMB_O, LIMB_E, LIMB_O);
    ghost var sum := Add(a[..], b[..]);
    forall k | 0 <= k < 10 {
      dst[k] := Int32(a[k] + b[k]);
    }
    assert dst[..] == sum;
  }

  method FeSub(dst: array<int>, a: array<int>, b: array<int>)
    requires dst.Length == 10 && a.Length == 10 && b.Length == 10
    requires Bounded(a[..], LIMB_E, LIMB_O) && Bounded(b[..], LIMB_E, LIMB_O)
    modifies dst
    ensures Eval(dst[..]) == old(Eval(a[..]) - Eval(b[..]))
    ensures Bounded(dst[..], 2 * LIMB_E, 2 * LIMB_O)
  {
    hide Int32, EvalFrom, Bounded;
    SubExact(a[..], b[..], LIMB_E, LIMB_O, LIMB_E, LIMB_O);
    ghost var difference := Sub(a[..], b[..]);
    forall k | 0 <= k < 10 {
      dst[k] := Int32(a[k] - b[k]);
    }
    assert dst[..] == difference;
  }

  method FeNeg(h: array<int>, f: array<int>)
    requires h.Length == 10 && f.Length == 10 && Bounded(f[..], LIMB_E, LIMB_O)
    modifies h
    ensures Eval(h[..]) == old(-Eval(f[..]))
    ensures Bounded(h[..], LIMB_E, LIMB_O)
  {
    hide Int32, EvalFrom, Bounded;
    NegExact(f[..], LIMB_E, LIMB_O);
    ghost var negated := Neg(f[..]);
    forall k | 0 <= k < 10 {
      h[k] := Int32(-f[k]);
    }
    assert h[..] == negated;
  }

  method FeCombine(h: array<int>, x: Limbs)
    requires h.Length == 10
    modifies h
    ensures h[..] == Combine(x)
    ensures Bounded(x, MAX_IN, MAX_IN) ==> Congruent(Eval(x), Eval(h[..])) && Bounded(h[..], 0x200_0000, 0x102_0000)
  {
    hide Round, Eval, Congruent, Bounded;
    if Bounded(x, MAX_IN, MAX_IN) {
      CombineExact(x);
    }
    var r := Round(x, 0);
    r := Round(r, 4);
    r := Round(r, 1);
    r := Round(r, 5);
    r := Round(r, 2);
    r := Round(r, 6);
    r := Round(r, 3);
    r := Round(r, 7);
    r := Round(r, 4);
    r := Round(r, 8);
    r := Round(r, 9);
    r := Round(r, 0);
    Put(h, Narrow(r));
  }

  method FeMul(h: array<int>, f: array<int>, g: array<int>)
    requires h.Length == 10 && f.Length == 10 && g.Length == 10
    requires Bounded(f[..], LIMB_E, LIMB_O) && Bounded(g[..], LIMB_E, LIMB_O)
    modifies h
    ensures h[..] == Mul(old(f[..]), old(g[..]))
    ensures Congruent(old(Eval(f[..]) * Eval(g[..])), Eval(h[..]))
    ensures Bounded(h[..], 0x200_0000, 0x102_0000)
  {
    hide MulColumns, Eval, Congruent;
    MulExact(f[..], g[..]);
    FeCombine(h, MulColumns(f[..], g[..]));
  }

  method FeSquare(h: array<int>, f: array<int>)
    requires h.Length == 10 && f.Length == 10
    requires Bounded(f[..], LIMB_E, LIMB_O)
    modifies h
    ensures h[..] == Square(old(f[..]))
    ensures Congruent(old(Eval(f[..]) * Eval(f[..])), Eval(h[..]))
    ensures Bounded(h[..], 0x200_0000, 0x102_0000)
  {
    hide SquareColumns, Eval, Congruent, Mul;
    MulExact(f[..], f[..]);
    SquareIsMul(f[..]);
    FeCombine(h, SquareColumns(f[..]));
  }

  method FeSquare2(h: array<int>, f: array<int>)
    requires h.Length == 10 && f.Length == 10
    requires Bounded(f[..], LIMB_E, LIMB_O)
    modifies h
    ensures h[..] == Square2(old(f[..]))
    ensures Congruent(old(2 * (Eval(f[..]) * Eval(f[..]))), Eval(h[..]))
    ensures Bounded(h[..], 0x200_0000, 0x102_0000)
  {
    hide SquareColumns, Eval, Congruent, Combine;
    Square2Exact(f[..]);
    var x := SquareColumns(f[..]);
    var d: Limbs := seq(10, k requires 0 <= k < 10 => Int64(x[k] + x[k]));
    FeCombine(h, d);
  }

  method FeFromBytes(dst: array<int>, src: array<byte>)
    requires dst.Length == 10 && src.Length == 32
    modifies dst
    ensures Congruent(Low(Le(src[..]), 255), Eval(dst[..]))
    ensures Bounded(dst[..], 0x200_0000, 0x102_0000)
  {
    hide Loaded, Eval, Congruent, Le, Low, Combine;
    LoadedExact(src[..]);
    CombineExact(Loaded(src[..]));
    ghost var bytes := src[..];
    FeCombine(dst, Loaded(src[..]));
    assert src[..] == bytes;
  }

  method FloorLimb(h: array<int>, i: nat)
    requires h.Length == 10 && i < 10
    modifies h
    ensures h[..] == FloorCarry(old(h[..]), i)
  {
    var c := h[i] / Weight(i);
    if i < 9 {
      h[i + 1] := Int32(h[i + 1] + c);
    }
    h[i] := Int32(h[i] - Int32(c * Weight(i)));
  }

  // q = floor(h / p), by carrying through the limbs
  method Estimate(h: array<int>) returns (q: int)
    requires h.Length == 10
    ensures q == Quotient(h[..])
  {
    hide Int32;
    q := Int32(Int32(19 * h[9]) + 0x100_0000) / 0x200_0000;
    q := Int32(h[0] + q) / 0x400_0000;
    q := Int32(h[1] + q) / 0x200_0000;
    q := Int32(h[2] + q) / 0x400_0000;
    q := Int32(h[3] + q) / 0x200_0000;
    q := Int32(h[4] + q) / 0x400_0000;
    q := Int32(h[5] + q) / 0x200_0000;
    q := Int32(h[6] + q) / 0x400_0000;
    q := Int32(h[7] + q) / 0x200_0000;
    q := Int32(h[8] + q) / 0x400_0000;
    q := Int32(h[9] + q) / 0x200_0000;
  }

  method FeToBytes(s: array<byte>, h: array<int>)
    requires s.Length == 32 && h.Length == 10 && Bounded(h[..], LIMB_E, LIMB_O)
    modifies s, h
    ensures Le(s[..]) == old(Eval(h[..])) % P
    ensures Digits(h[..]) && Eval(h[..]) == old(Eval(h[..])) % P
  {
    hide Eval, Le, Pack, FloorCarry, Digits, Quotient;
    ghost var x := h[..];
    var q := Estimate(h);
    h[0] := Int32(h[0] + Int32(19 * q));
    FloorLimb(h, 0);
    FloorLimb(h, 1);
    FloorLimb(h, 2);
    FloorLimb(h, 3);
    FloorLimb(h, 4);
    FloorLimb(h, 5);
    FloorLimb(h, 6);
    FloorLimb(h, 7);
    FloorLimb(h, 8);
    FloorLimb(h, 9);
    ghost var frozen := h[..];
    assert frozen == Frozen(x);
    FrozenExact(x);
    PackExact(h[..]);
    var bytes := Pack(h[..]);
    forall i | 0 <= i < 32 {
      s[i] := bytes[i];
    }
    assert s[..] == bytes && h[..] == frozen;
  }
}
