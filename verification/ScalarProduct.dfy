/** The schoolbook product of two scalars on 21-bit limbs. */
module ScalarProduct {
  import opened Machine
  import opened ScalarReduction

  // s0 .. s23 of a * b + c. Addition and multiplication commute with wrapping, so one wrap per limb suffices.
  function Columns(a: seq<int>, b: seq<int>, c: seq<int>): (s: seq<int>)
    requires |a| == 12 && |b| == 12 && |c| == 12
    ensures |s| == 24
  {
    [Int64(c[0] + a[0]*b[0]),
     Int64(c[1] + a[0]*b[1] + a[1]*b[0]),
     Int64(c[2] + a[0]*b[2] + a[1]*b[1] + a[2]*b[0]),
     Int64(c[3] + a[0]*b[3] + a[1]*b[2] + a[2]*b[1] + a[3]*b[0]),
     Int64(c[4] + a[0]*b[4] + a[1]*b[3] + a[2]*b[2] + a[3]*b[1] + a[4]*b[0]),
     Int64(c[5] + a[0]*b[5] + a[1]*b[4] + a[2]*b[3] + a[3]*b[2] + a[4]*b[1] + a[5]*b[0]),
     Int64(c[6] + a[0]*b[6] + a[1]*b[5] + a[2]*b[4] + a[3]*b[3] + a[4]*b[2] + a[5]*b[1] + a[6]*b[0]),
     Int64(c[7] + a[0]*b[7] + a[1]*b[6] + a[2]*b[5]
           + a[3]*b[4] + a[4]*b[3] + a[5]*b[2] + a[6]*b[1] + a[7]*b[0]),
     Int64(c[8] + a[0]*b[8] + a[1]*b[7] + a[2]*b[6] + a[3]*b[5]
           + a[4]*b[4] + a[5]*b[3] + a[6]*b[2] + a[7]*b[1] + a[8]*b[0]),
     Int64(c[9] + a[0]*b[9] + a[1]*b[8] + a[2]*b[7] + a[3]*b[6]
           + a[4]*b[5] + a[5]*b[4] + a[6]*b[3] + a[7]*b[2] + a[8]*b[1] + a[9]*b[0]),
     Int64(c[10] + a[0]*b[10] + a[1]*b[9] + a[2]*b[8] + a[3]*b[7] + a[4]*b[6]
           + a[5]*b[5] + a[6]*b[4] + a[7]*b[3] + a[8]*b[2] + a[9]*b[1] + a[10]*b[0]),
     Int64(c[11] + a[0]*b[11] + a[1]*b[10] + a[2]*b[9] + a[3]*b[8] + a[4]*b[7]
           + a[5]*b[6] + a[6]*b[5] + a[7]*b[4] + a[8]*b[3] + a[9]*b[2] + a[10]*b[1] + a[11]*b[0]),
     Int64(a[1]*b[11] + a[2]*b[10] + a[3]*b[9] + a[4]*b[8] + a[5]*b[7]
           + a[6]*b[6] + a[7]*b[5] + a[8]*b[4] + a[9]*b[3] + a[10]*b[2] + a[11]*b[1]),
     Int64(a[2]*b[11] + a[3]*b[10] + a[4]*b[9] + a[5]*b[8] + a[6]*b[7]
           + a[7]*b[6] + a[8]*b[5] + a[9]*b[4] + a[10]*b[3] + a[11]*b[2]),
     Int64(a[3]*b[11] + a[4]*b[10] + a[5]*b[9] + a[6]*b[8]
           + a[7]*b[7] + a[8]*b[6] + a[9]*b[5] + a[10]*b[4] + a[11]*b[3]),
     Int64(a[4]*b[11] + a[5]*b[10] + a[6]*b[9] + a[7]*b[8]
           + a[8]*b[7] + a[9]*b[6] + a[10]*b[5] + a[11]*b[4]),
     Int64(a[5]*b[11] + a[6]*b[10] + a[7]*b[9] + a[8]*b[8] + a[9]*b[7] + a[10]*b[6] + a[11]*b[5]),
     Int64(a[6]*b[11] + a[7]*b[10] + a[8]*b[9] + a[9]*b[8] + a[10]*b[7] + a[11]*b[6]),
     Int64(a[7]*b[11] + a[8]*b[10] + a[9]*b[9] + a[10]*b[8] + a[11]*b[7]),
     Int64(a[8]*b[11] + a[9]*b[10] + a[10]*b[9] + a[11]*b[8]),
     Int64(a[9]*b[11] + a[10]*b[10] + a[11]*b[9]),
     Int64(a[10]*b[11] + a[11]*b[10]),
     Int64(a[11] * b[11]),
     0]
  }

  function At(s: seq<int>, k: int): int {
    if 0 <= k < |s| then s[k] else 0
  }

  /** Sum of a[j] * b[k - j] over j >= i. */
  function Conv(a: seq<int>, b: seq<int>, k: int, i: nat): int
    requires |a| == 12 && i <= 12
    decreases 12 - i
  {
    if i == 12 then 0 else a[i] * At(b, k - i) + Conv(a, b, k, i + 1)
  }

  lemma LowColumns(a: seq<int>, b: seq<int>)
    requires |a| == 12 && |b| == 12
    ensures Conv(a, b, 0, 0) == a[0]*b[0]
    ensures Conv(a, b, 1, 0) == a[0]*b[1] + a[1]*b[0]
    ensures Conv(a, b, 2, 0) == a[0]*b[2] + a[1]*b[1] + a[2]*b[0]
    ensures Conv(a, b, 3, 0) == a[0]*b[3] + a[1]*b[2] + a[2]*b[1] + a[3]*b[0]
    ensures Conv(a, b, 4, 0) == a[0]*b[4] + a[1]*b[3] + a[2]*b[2] + a[3]*b[1] + a[4]*b[0]
    ensures Conv(a, b, 5, 0) == a[0]*b[5] + a[1]*b[4] + a[2]*b[3] + a[3]*b[2] + a[4]*b[1] + a[5]*b[0]
    ensures Conv(a, b, 6, 0) == a[0]*b[6] + a[1]*b[5] + a[2]*b[4] + a[3]*b[3] + a[4]*b[2] + a[5]*b[1] + a[6]*b[0]
    ensures Conv(a, b, 7, 0) == a[0]*b[7] + a[1]*b[6] + a[2]*b[5] + a[3]*b[4]
            + a[4]*b[3] + a[5]*b[2] + a[6]*b[1] + a[7]*b[0]
  {
  }

  lemma MiddleColumns(a: seq<int>, b: seq<int>)
    requires |a| == 12 && |b| == 12
    ensures Conv(a, b, 8, 0) == a[0]*b[8] + a[1]*b[7] + a[2]*b[6] + a[3]*b[5]
            + a[4]*b[4] + a[5]*b[3] + a[6]*b[2] + a[7]*b[1] + a[8]*b[0]
    ensures Conv(a, b, 9, 0) == a[0]*b[9] + a[1]*b[8] + a[2]*b[7] + a[3]*b[6] + a[4]*b[5]
            + a[5]*b[4] + a[6]*b[3] + a[7]*b[2] + a[8]*b[1] + a[9]*b[0]
    ensures Conv(a, b, 10, 0) == a[0]*b[10] + a[1]*b[9] + a[2]*b[8] + a[3]*b[7] + a[4]*b[6]
            + a[5]*b[5] + a[6]*b[4] + a[7]*b[3] + a[8]*b[2] + a[9]*b[1] + a[10]*b[0]
    ensures Conv(a, b, 11, 0) == a[0]*b[11] + a[1]*b[10] + a[2]*b[9] + a[3]*b[8] + a[4]*b[7] + a[5]*b[6]
            + a[6]*b[5] + a[7]*b[4] + a[8]*b[3] + a[9]*b[2] + a[10]*b[1] + a[11]*b[0]
    ensures Conv(a, b, 12, 0) == a[1]*b[11] + a[2]*b[10] + a[3]*b[9] + a[4]*b[8] + a[5]*b[7]
            + a[6]*b[6] + a[7]*b[5] + a[8]*b[4] + a[9]*b[3] + a[10]*b[2] + a[11]*b[1]
    ensures Conv(a, b, 13, 0) == a[2]*b[11] + a[3]*b[10] + a[4]*b[9] + a[5]*b[8] + a[6]*b[7]
            + a[7]*b[6] + a[8]*b[5] + a[9]*b[4] + a[10]*b[3] + a[11]*b[2]
    ensures Conv(a, b, 14, 0) == a[3]*b[11] + a[4]*b[10] + a[5]*b[9] + a[6]*b[8]
            + a[7]*b[7] + a[8]*b[6] + a[9]*b[5] + a[10]*b[4] + a[11]*b[3]
    ensures Conv(a, b, 15, 0) == a[4]*b[11] + a[5]*b[10] + a[6]*b[9] + a[7]*b[8]
            + a[8]*b[7] + a[9]*b[6] + a[10]*b[5] + a[11]*b[4]
  {
  }

  lemma HighColumns(a: seq<int>, b: seq<int>)
    requires |a| == 12 && |b| == 12
    ensures Conv(a, b, 16, 0) == a[5]*b[11] + a[6]*b[10] + a[7]*b[9] + a[8]*b[8] + a[9]*b[7] + a[10]*b[6] + a[11]*b[5]
    ensures Conv(a, b, 17, 0) == a[6]*b[11] + a[7]*b[10] + a[8]*b[9] + a[9]*b[8] + a[10]*b[7] + a[11]*b[6]
    ensures Conv(a, b, 18, 0) == a[7]*b[11] + a[8]*b[10] + a[9]*b[9] + a[10]*b[8] + a[11]*b[7]
    ensures Conv(a, b, 19, 0) == a[8]*b[11] + a[9]*b[10] + a[10]*b[9] + a[11]*b[8]
    ensures Conv(a, b, 20, 0) == a[9]*b[11] + a[10]*b[10] + a[11]*b[9]
    ensures Conv(a, b, 21, 0) == a[10]*b[11] + a[11]*b[10]
    ensures Conv(a, b, 22, 0) == a[11] * b[11]
    ensures Conv(a, b, 23, 0) == 0
  {
  }

  lemma LowAt(a: seq<int>, b: seq<int>, c: seq<int>)
    requires |a| == 12 && |b| == 12 && |c| == 12
    ensures forall k | 0 <= k < 8 :: Columns(a, b, c)[k] == Int64(Conv(a, b, k, 0) + At(c, k))
  {
    hide Int64, Conv;
    LowColumns(a, b);
    var s := Columns(a, b, c);
    assert s[0] == Int64(Conv(a, b, 0, 0) + At(c, 0));
    assert s[1] == Int64(Conv(a, b, 1, 0) + At(c, 1));
    assert s[2] == Int64(Conv(a, b, 2, 0) + At(c, 2));
    assert s[3] == Int64(Conv(a, b, 3, 0) + At(c, 3));
    assert s[4] == Int64(Conv(a, b, 4, 0) + At(c, 4));
    assert s[5] == Int64(Conv(a, b, 5, 0) + At(c, 5));
    assert s[6] == Int64(Conv(a, b, 6, 0) + At(c, 6));
    assert s[7] == Int64(Conv(a, b, 7, 0) + At(c, 7));
  }

  lemma MiddleAt(a: seq<int>, b: seq<int>, c: seq<int>)
    requires |a| == 12 && |b| == 12 && |c| == 12
    ensures forall k | 8 <= k < 16 :: Columns(a, b, c)[k] == Int64(Conv(a, b, k, 0) + At(c, k))
  {
    hide Int64, Conv;
    MiddleColumns(a, b);
    var s := Columns(a, b, c);
    assert s[8] == Int64(Conv(a, b, 8, 0) + At(c, 8));
    assert s[9] == Int64(Conv(a, b, 9, 0) + At(c, 9));
    assert s[10] == Int64(Conv(a, b, 10, 0) + At(c, 10));
    assert s[11] == Int64(Conv(a, b, 11, 0) + At(c, 11));
    assert s[12] == Int64(Conv(a, b, 12, 0) + At(c, 12));
    assert s[13] == Int64(Conv(a, b, 13, 0) + At(c, 13));
    assert s[14] == Int64(Conv(a, b, 14, 0) + At(c, 14));
    assert s[15] == Int64(Conv(a, b, 15, 0) + At(c, 15));
  }

  lemma HighAt(a: seq<int>, b: seq<int>, c: seq<int>)
    requires |a| == 12 && |b| == 12 && |c| == 12
    ensures forall k | 16 <= k < 24 :: Columns(a, b, c)[k] == Int64(Conv(a, b, k, 0) + At(c, k))
  {
    hide Int64, Conv;
    HighColumns(a, b);
    var s := Columns(a, b, c);
    assert s[16] == Int64(Conv(a, b, 16, 0) + At(c, 16));
    assert s[17] == Int64(Conv(a, b, 17, 0) + At(c, 17));
    assert s[18] == Int64(Conv(a, b, 18, 0) + At(c, 18));
    assert s[19] == Int64(Conv(a, b, 19, 0) + At(c, 19));
    assert s[20] == Int64(Conv(a, b, 20, 0) + At(c, 20));
    assert s[21] == Int64(Conv(a, b, 21, 0) + At(c, 21));
    assert s[22] == Int64(Conv(a, b, 22, 0) + At(c, 22));
    assert s[23] == Int64(Conv(a, b, 23, 0) + At(c, 23));
  }

  // ---- the value of a convolution ----

  lemma {:induction false} ValLinear(s: seq<int>, t: seq<int>, x: int, u: seq<int>)
    requires |s| == |t| == |u| && forall k | 0 <= k < |s| :: s[k] == t[k] + x * u[k]
    ensures Val(s) == Val(t) + x * Val(u)
  {
    if |s| > 0 {
      ValLinear(s[1..], t[1..], x, u[1..]);
      assert x * Val(u) == x * u[0] + 0x20_0000 * (x * Val(u[1..]));
    }
  }

  function Shifted(b: seq<int>, i: nat, n: nat): (s: seq<int>)
    ensures |s| == n
  {
    seq(n, k => At(b, k - i))
  }

  lemma PaddedVal(b: seq<int>, n: nat)
    requires |b| <= n
    ensures Val(Shifted(b, 0, n)) == Val(b)
  {
    hide Val, Radix;
    var s, m := Shifted(b, 0, n), |b|;
    ValSplit(s, m);
    assert s[..m] == b;
    assert forall k | 0 <= k < n - m :: s[m..][k] == s[m + k];
    ValZero(s[m..]);
  }

  lemma {:induction false} ShiftedVal(b: seq<int>, i: nat, n: nat)
    requires i + |b| <= n
    ensures Val(Shifted(b, i, n)) == Radix(i) * Val(b)
  {
    if i == 0 {
      PaddedVal(b, n);
      assert Radix(0) == 1;
    } else {
      ShiftedVal(b, i - 1, n - 1);
      ShiftedOnce(b, i, n);
      RadixNext(i - 1);
      hide Val, Radix, Shifted;
      assert 0x20_0000 * (Radix(i - 1) * Val(b)) == (0x20_0000 * Radix(i - 1)) * Val(b);
    }
  }

  lemma RadixNext(i: nat)
    ensures Radix(i + 1) == 0x20_0000 * Radix(i)
  {
  }

  lemma ShiftedAt(b: seq<int>, i: nat, n: nat, k: nat)
    requires k < n
    ensures Shifted(b, i, n)[k] == At(b, k - i)
  {
  }

  lemma ShiftedOnce(b: seq<int>, i: nat, n: nat)
    requires i > 0 && i + |b| <= n
    ensures Val(Shifted(b, i, n)) == 0x20_0000 * Val(Shifted(b, i - 1, n - 1))
  {
    var s, t := Shifted(b, i, n), Shifted(b, i - 1, n - 1);
    ShiftedAt(b, i, n, 0);
    forall k | 0 <= k < n - 1 ensures s[1..][k] == t[k] {
      ShiftedAt(b, i, n, k + 1);
      ShiftedAt(b, i - 1, n - 1, k);
      assert k + 1 - i == k - (i - 1);
    }
    assert s[1..] == t;
  }

  function ConvSeq(a: seq<int>, b: seq<int>, c: seq<int>, i: nat): (s: seq<int>)
    requires |a| == 12 && i <= 12
    ensures |s| == 24
  {
    seq(24, k => Conv(a, b, k, i) + At(c, k))
  }

  lemma {:induction false} ConvVal(a: seq<int>, b: seq<int>, c: seq<int>, i: nat)
    requires |a| == 12 && |b| == 12 && |c| == 12 && i <= 12
    ensures Val(ConvSeq(a, b, c, i)) == Val(c) + Radix(i) * Val(a[i..]) * Val(b)
    decreases 12 - i
  {
    hide At, Val, Radix, ConvSeq;
    if i == 12 {
      ConvNone(a, b, c);
    } else {
      ConvVal(a, b, c, i + 1);
      ConvAdd(a, b, c, i);
      ValHead(a, i);
      Distribute(a[i], Val(a[i + 1..]), Val(b), Radix(i));
    }
  }

  lemma ConvNone(a: seq<int>, b: seq<int>, c: seq<int>)
    requires |a| == 12 && |b| == 12 && |c| == 12
    ensures Val(ConvSeq(a, b, c, 12)) == Val(c) && Val(a[12..]) == 0
  {
    hide At;
    assert ConvSeq(a, b, c, 12) == Shifted(c, 0, 24);
    ShiftedVal(c, 0, 24);
  }

  lemma ValHead(a: seq<int>, i: nat)
    requires i < |a|
    ensures Val(a[i..]) == a[i] + 0x20_0000 * Val(a[i + 1..])
    ensures Radix(i + 1) == 0x20_0000 * Radix(i)
  {
    assert a[i..][1..] == a[i + 1..];
  }

  lemma ConvAdd(a: seq<int>, b: seq<int>, c: seq<int>, i: nat)
    requires |a| == 12 && |b| == 12 && |c| == 12 && i < 12
    ensures Val(ConvSeq(a, b, c, i)) == Val(ConvSeq(a, b, c, i + 1)) + a[i] * (Radix(i) * Val(b))
  {
    hide At, Val, Radix;
    ShiftedVal(b, i, 24);
    ValLinear(ConvSeq(a, b, c, i), ConvSeq(a, b, c, i + 1), a[i], Shifted(b, i, 24));
  }

  lemma Distribute(x: int, y: int, z: int, r: int)
    ensures r * (x + 0x20_0000 * y) * z == x * (r * z) + 0x20_0000 * r * y * z
  {
  }

  lemma {:induction false} ConvBound(a: seq<int>, b: seq<int>, k: int, i: nat)
    requires |a| == 12 && i <= 12
    requires Digits(a[..11]) && 0 <= a[11] < 0x200_0000
    requires forall j | 0 <= j < |b| :: 0 <= b[j] < 0x200_0000
    ensures 0 <= Conv(a, b, k, i) <= if i == 12 then 0 else 0x4_0000_0000_0000 + (11 - i) * 0x4000_0000_0000
    decreases 12 - i
  {
    if i < 12 {
      ConvBound(a, b, k, i + 1);
      assert i < 11 ==> a[i] == a[..11][i];
      TermBound(a[i], At(b, k - i));
    }
  }

  lemma TermBound(x: int, y: int)
    requires 0 <= x && 0 <= y < 0x200_0000
    ensures 0 <= x * y
    ensures x < 0x20_0000 ==> x * y <= 0x4000_0000_0000
    ensures x < 0x200_0000 ==> x * y <= 0x4_0000_0000_0000
  {
    assert x * y <= x * 0x200_0000;
  }

  /** Every limb sum fits a 64-bit word, so the limbs spell a * b + c exactly. */
  lemma ColumnsExact(a: seq<int>, b: seq<int>, c: seq<int>)
    requires |a| == 12 && |b| == 12 && |c| == 12
    requires Digits(a[..11]) && 0 <= a[11] < 0x200_0000
    requires Digits(b[..11]) && 0 <= b[11] < 0x200_0000
    requires Digits(c[..11]) && 0 <= c[11] < 0x200_0000
    ensures Val(Columns(a, b, c)) == Val(a) * Val(b) + Val(c)
    ensures forall k | 0 <= k < 24 :: 0 <= Columns(a, b, c)[k] < 0x8_0000_0000_0000
    ensures Columns(a, b, c)[23] == 0
  {
    hide Columns, Conv, Val, Int64, Radix;
    var s := Columns(a, b, c);
    LowAt(a, b, c);
    MiddleAt(a, b, c);
    HighAt(a, b, c);
    assert forall j | 0 <= j < 11 :: b[j] == b[..11][j] && c[j] == c[..11][j];
    forall k | 0 <= k < 24
      ensures s[k] == ConvSeq(a, b, c, 0)[k] && 0 <= s[k] < 0x8_0000_0000_0000
    {
      ConvBound(a, b, k, 0);
    }
    assert s == ConvSeq(a, b, c, 0);
    ConvVal(a, b, c, 0);
    assert a[0..] == a;
    RadixZero(Val(a));
    LastColumn(a, b, c);
  }

  lemma RadixZero(x: int)
    ensures Radix(0) * x == x
  {
  }

  lemma LastColumn(a: seq<int>, b: seq<int>, c: seq<int>)
    requires |a| == 12 && |b| == 12 && |c| == 12
    ensures Columns(a, b, c)[23] == 0
  {
  }
}
