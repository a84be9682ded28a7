/** Between little-endian byte strings and 21-bit limbs. */
module ScalarBytes {
  import opened Machine
  import opened Bits
  import opened ScalarReduction

  // 2097151 & x
  function Mask21(x: nat): nat {
    And(0x1F_FFFF, x)
  }

  function Limb3(b: seq<byte>, i: nat, s: nat): nat
    requires i + 3 <= |b|
  {
    Mask21(Shr(Load3(b, i), s))
  }

  function Limb4(b: seq<byte>, i: nat, s: nat): nat
    requires i + 4 <= |b|
  {
    Mask21(Shr(Load4(b, i), s))
  }

  // a[0..32] as a0 .. a11; the top limb is not masked
  function Unpack12(b: seq<byte>): (s: seq<int>)
    requires |b| == 32
    ensures |s| == 12
  {
    [Limb3(b, 0, 0), Limb4(b, 2, 5), Limb3(b, 5, 2), Limb4(b, 7, 7), Limb4(b, 10, 4), Limb3(b, 13, 1),
     Limb4(b, 15, 6), Limb3(b, 18, 3), Limb3(b, 21, 0), Limb4(b, 23, 5), Limb3(b, 26, 2), Shr(Load4(b, 28), 7)]
  }

  // s[0..64] as s0 .. s23; the top limb is not masked
  function Unpack24(b: seq<byte>): (s: seq<int>)
    requires |b| == 64
    ensures |s| == 24
  {
    [Limb3(b, 0, 0), Limb4(b, 2, 5), Limb3(b, 5, 2), Limb4(b, 7, 7), Limb4(b, 10, 4), Limb3(b, 13, 1),
     Limb4(b, 15, 6), Limb3(b, 18, 3), Limb3(b, 21, 0), Limb4(b, 23, 5), Limb3(b, 26, 2), Limb4(b, 28, 7),
     Limb4(b, 31, 4), Limb3(b, 34, 1), Limb4(b, 36, 6), Limb3(b, 39, 3), Limb3(b, 42, 0), Limb4(b, 44, 5),
     Limb3(b, 47, 2), Limb4(b, 49, 7), Limb4(b, 52, 4), Limb3(b, 55, 1), Limb4(b, 57, 6), Shr(Load4(b, 60), 3)]
  }

  lemma MaskLow(x: nat)
    ensures Mask21(x) == Low(x, 21)
  {
    hide And;
    PowValues();
    AndMask(21, x);
  }

  lemma LimbField(b: seq<byte>, i: nat, s: nat)
    requires i + 3 <= |b|
    ensures s <= 3 ==> Limb3(b, i, s) == Field(Le(b), 8 * i + s, 21)
    ensures i + 4 <= |b| && s <= 11 ==> Limb4(b, i, s) == Field(Le(b), 8 * i + s, 21)
  {
    hide Mask21, Load3, Load4, Le, Field;
    Loads(b, i);
    MaskShr(Load3(b, i), s);
    if s <= 3 {
      FieldField(Le(b), 8 * i, 24, s, 21);
    }
    if i + 4 <= |b| && s <= 11 {
      MaskShr(Load4(b, i), s);
      FieldField(Le(b), 8 * i, 32, s, 21);
    }
  }

  lemma MaskShr(x: nat, s: nat)
    ensures Mask21(Shr(x, s)) == Field(x, s, 21)
  {
    hide Mask21;
    MaskLow(Shr(x, s));
  }

  lemma {:induction false} RadixPow(k: nat)
    ensures Radix(k) == Pow2(21 * k)
  {
    hide Pow2;
    if k > 0 {
      RadixPow(k - 1);
      PowAdd(21, 21 * (k - 1));
      PowValues();
    } else {
      PowZero();
    }
  }

  lemma {:induction false} ValFields(s: seq<int>, n: int, p: nat)
    requires forall k | 0 <= k < |s| :: s[k] == Field(n, p + 21 * k, 21)
    ensures Val(s) == Field(n, p, 21 * |s|)
  {
    hide Field, Pow2;
    if |s| > 0 {
      forall k | 0 <= k < |s[1..]|
        ensures s[1..][k] == Field(n, (p + 21) + 21 * k, 21)
      {
        assert s[1..][k] == s[k + 1];
      }
      ValFields(s[1..], n, p + 21);
      FieldJoin(n, p, 21, 21 * (|s| - 1));
      PowValues();
    } else {
      assert Field(n, p, 0) == 0 by { NoField(n, p); }
    }
  }

  // limbs that are consecutive fields of n, the last one taking all the rest
  lemma ValWithTop(s: seq<int>, n: nat)
    requires |s| > 0
    requires forall k | 0 <= k < |s| - 1 :: s[k] == Field(n, 21 * k, 21)
    requires s[|s| - 1] == Shr(n, 21 * (|s| - 1))
    ensures Val(s) == n
  {
    hide Val, Radix, Pow2;
    var m := |s| - 1;
    SplitAt(s, m);
    ValFields(s[..m], n, 0);
    FieldZero(n, 21 * m);
    RadixPow(m);
    Parts(n, 21 * m);
  }

  // byte(s_k >> t)
  function Byte1(s: seq<int>, k: nat, t: nat): byte
    requires k < |s|
  {
    LowByte(Shr(s[k], t))
  }

  // byte((s_k >> t) | (s_{k+1} << (21 - t)))
  function Byte2(s: seq<int>, k: nat, t: nat): byte
    requires k + 1 < |s| && s[k] >= 0 && s[k + 1] >= 0 && t <= 21
  {
    LowByte(Or(Shr(s[k], t), Shl(s[k + 1], 21 - t)))
  }

  function Pack(s: seq<int>): (b: seq<byte>)
    requires |s| >= 12 && forall k | 0 <= k < 12 :: s[k] >= 0
    ensures |b| == 32
  {
    [Byte1(s, 0, 0), Byte1(s, 0, 8), Byte2(s, 0, 16), Byte1(s, 1, 3), Byte1(s, 1, 11), Byte2(s, 1, 19),
     Byte1(s, 2, 6), Byte2(s, 2, 14), Byte1(s, 3, 1), Byte1(s, 3, 9), Byte2(s, 3, 17), Byte1(s, 4, 4),
     Byte1(s, 4, 12), Byte2(s, 4, 20), Byte1(s, 5, 7), Byte2(s, 5, 15), Byte1(s, 6, 2), Byte1(s, 6, 10),
     Byte2(s, 6, 18), Byte1(s, 7, 5), Byte1(s, 7, 13), Byte1(s, 8, 0), Byte1(s, 8, 8), Byte2(s, 8, 16),
     Byte1(s, 9, 3), Byte1(s, 9, 11), Byte2(s, 9, 19), Byte1(s, 10, 6), Byte2(s, 10, 14), Byte1(s, 11, 1),
     Byte1(s, 11, 9), Byte1(s, 11, 17)]
  }

  lemma TopLoad(b: seq<byte>, i: nat, s: nat)
    requires i + 4 == |b|
    requires s <= 32
    ensures Shr(Load4(b, i), s) == Shr(Le(b), 8 * i + s)
    ensures 0 <= Shr(Load4(b, i), s) < Pow2(32 - s)
  {
    hide Load4, Le, Pow2, Shr, Low;
    Loads(b, i);
    LeShr(b, i);
    LeBound(b, i);
    SmallLow(LeFrom(b, i), 32);
    LowShr(LeFrom(b, i), 32, s);
    Twice(Le(b), 8 * i, s);
  }

  lemma Unpack12Exact(b: seq<byte>)
    requires |b| == 32
    ensures Val(Unpack12(b)) == Le(b)
    ensures Digits(Unpack12(b)[..11]) && 0 <= Unpack12(b)[11] < 0x200_0000
  {
    hide Limb3, Limb4, Le, Val, Load4, Pow2, Shr, Field;
    var s := Unpack12(b);
    LimbField(b, 0, 0);
    LimbField(b, 2, 5);
    LimbField(b, 5, 2);
    LimbField(b, 7, 7);
    LimbField(b, 10, 4);
    LimbField(b, 13, 1);
    LimbField(b, 15, 6);
    LimbField(b, 18, 3);
    LimbField(b, 21, 0);
    LimbField(b, 23, 5);
    LimbField(b, 26, 2);
    TopLoad(b, 28, 7);
    ValWithTop(s, Le(b));
    PowValues();
  }

  lemma Unpack24Exact(b: seq<byte>)
    requires |b| == 64
    ensures Val(Unpack24(b)) == Le(b)
    ensures Digits(Unpack24(b)[..23]) && 0 <= Unpack24(b)[23] < 0x2000_0000
  {
    hide Limb3, Limb4, Le, Val, Load4, Pow2, Shr, Field;
    var s := Unpack24(b);
    LimbField(b, 0, 0);
    LimbField(b, 2, 5);
    LimbField(b, 5, 2);
    LimbField(b, 7, 7);
    LimbField(b, 10, 4);
    LimbField(b, 13, 1);
    LimbField(b, 15, 6);
    LimbField(b, 18, 3);
    LimbField(b, 21, 0);
    LimbField(b, 23, 5);
    LimbField(b, 26, 2);
    LimbField(b, 28, 7);
    LimbField(b, 31, 4);
    LimbField(b, 34, 1);
    LimbField(b, 36, 6);
    LimbField(b, 39, 3);
    LimbField(b, 42, 0);
    LimbField(b, 44, 5);
    LimbField(b, 47, 2);
    LimbField(b, 49, 7);
    LimbField(b, 52, 4);
    LimbField(b, 55, 1);
    LimbField(b, 57, 6);
    TopLoad(b, 60, 3);
    ValWithTop(s, Le(b));
    PowValues();
  }

  lemma Byte1Field(s: seq<int>, v: int, k: nat, t: nat, w: nat)
    requires k < |s| && s[k] == Field(v, 21 * k, w) && t + 8 <= w
    ensures Byte1(s, k, t) == Field(v, 21 * k + t, 8)
  {
    ByteInside(v, 21 * k, w, t);
  }

  lemma Byte2Field(s: seq<int>, v: int, k: nat, t: nat, w: nat)
    requires k + 1 < |s| && s[k] == Field(v, 21 * k, 21) && s[k + 1] == Field(v, 21 * (k + 1), w)
    requires t <= 21 && 8 <= 21 - t + w
    ensures Byte2(s, k, t) == Field(v, 21 * k + t, 8)
  {
    hide LowByte, Field;
    ByteAcross(v, 21 * k, 21, w, t);
  }

  // the digits of a limb sum are fields of it
  lemma {:induction false} DigitFields(s: seq<int>, v: int, p: nat)
    requires Digits(s) && Val(s) == Field(v, p, 21 * |s|)
    ensures forall k | 0 <= k < |s| :: s[k] == Field(v, p + 21 * k, 21)
  {
    hide Field, Pow2;
    if |s| > 0 {
      PowValues();
      FieldJoin(v, p, 21, 21 * (|s| - 1));
      SameDigit(s[0], Val(s[1..]), Field(v, p, 21), Field(v, p + 21, 21 * (|s| - 1)));
      DigitFields(s[1..], v, p + 21);
      forall k | 1 <= k < |s|
        ensures s[k] == Field(v, p + 21 * k, 21)
      {
        assert s[k] == s[1..][k - 1] == Field(v, (p + 21) + 21 * (k - 1), 21);
      }
    }
  }

  lemma SameDigit(x: int, y: int, x': int, y': int)
    requires 0 <= x < 0x20_0000 && 0 <= x' < 0x20_0000 && x + 0x20_0000 * y == x' + 0x20_0000 * y'
    ensures x == x' && y == y'
  {
  }

  lemma LimbFields(s: seq<int>)
    requires |s| >= 12 && (forall k | 12 <= k < |s| :: s[k] == 0)
    requires Digits(s[..11]) && 0 <= s[11] < 0x200_0000
    ensures forall k | 0 <= k < 11 :: s[k] == Field(Val(s), 21 * k, 21)
    ensures s[11] == Field(Val(s), 231, 25) && 0 <= Val(s) < Pow2(256)
  {
    hide Val, Field, Pow2, Radix, Low, Shr;
    var v := Val(s);
    ValSplit(s, 12);
    ValZero(s[12..]);
    SplitAt(s[..12], 11);
    assert s[..12][..11] == s[..11];
    DigitsVal(s[..11]);
    RadixPow(11);
    Unique(v, 231, s[11], Val(s[..11]));
    FieldZero(v, 231);
    DigitFields(s[..11], v, 0);
    PowValues();
    PowAdd(231, 25);
    ScaledBound(Pow2(231), Pow2(25), s[11], Val(s[..11]));
    ShrBound(v, 231, 25);
  }

  // byte i holds bits 8i .. 8i+8 of the limb sum: they lie in limb 8i/21, or straddle it and the next
  lemma PackAt(s: seq<int>, i: nat)
    requires |s| >= 12 && (forall k | 0 <= k < 12 :: s[k] >= 0) && i < 32
    ensures Pack(s)[i] == if 8 * i % 21 + 8 <= 21 || i >= 29 then Byte1(s, 8 * i / 21, 8 * i % 21)
            else Byte2(s, 8 * i / 21, 8 * i % 21)
  {
    hide Byte1, Byte2;
    if i < 8 {
      assert i == 0 || i == 1 || i == 2 || i == 3 || i == 4 || i == 5 || i == 6 || i == 7;
    } else if i < 16 {
      assert i == 8 || i == 9 || i == 10 || i == 11 || i == 12 || i == 13 || i == 14 || i == 15;
    } else if i < 24 {
      assert i == 16 || i == 17 || i == 18 || i == 19 || i == 20 || i == 21 || i == 22 || i == 23;
    } else {
      assert i == 24 || i == 25 || i == 26 || i == 27 || i == 28 || i == 29 || i == 30 || i == 31;
    }
  }

  lemma PackExact(s: seq<int>)
    requires |s| >= 12 && (forall k | 12 <= k < |s| :: s[k] == 0)
    requires Digits(s[..11]) && 0 <= s[11] < 0x200_0000
    requires forall k | 0 <= k < 12 :: s[k] >= 0
    ensures Le(Pack(s)) == Val(s)
  {
    hide Val, Field, Pow2, Le, Low, Byte1, Byte2, Digits, Pack;
    var v := Val(s);
    LimbFields(s);
    forall i | 0 <= i < 32
      ensures Pack(s)[i] == Field(v, 8 * i, 8)
    {
      PackAt(s, i);
      var k, t := 8 * i / 21, 8 * i % 21;
      var w := if k >= 10 then 25 else 21;
      if t + 8 <= 21 || i >= 29 {
        Byte1Field(s, v, k, t, if k == 11 then 25 else 21);
      } else {
        Byte2Field(s, v, k, t, if k == 10 then 25 else 21);
      }
    }
    LeOfFields(Pack(s), v);
    SmallLow(v, 256);
  }
}
