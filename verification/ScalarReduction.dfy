module ScalarReduction {
  import opened Machine

  const L := 0x1000_0000_0000_0000_0000_0000_0000_0000_0000_0000_0000_0000_0000_0000_0000_0000
    + 27742317777372353535851937790883648493

  function Radix(k: nat): (r: int)
    ensures r > 0
  {
    if k == 0 then 1 else 0x20_0000 * Radix(k - 1)
  }

  function Val(s: seq<int>): int {
    if |s| == 0 then 0 else s[0] + 0x20_0000 * Val(s[1..])
  }

  lemma {:induction false} ValAdd(s: seq<int>, i: nat, d: int)
    requires i < |s|
    ensures Val(s[i := s[i] + d]) == Val(s) + d * Radix(i)
  {
    var t := s[i := s[i] + d];
    if i == 0 {
      assert t[1..] == s[1..];
    } else {
      assert t[1..] == s[1..][i - 1 := s[1..][i - 1] + d];
      ValAdd(s[1..], i - 1, d);
      assert d * Radix(i) == 0x20_0000 * (d * Radix(i - 1));
    }
  }

  // every limb of s[lo..hi] lies in [-b, b]
  predicate Within(s: seq<int>, lo: nat, hi: nat, b: int)
    requires hi <= |s|
  {
    forall k | lo <= k < hi :: -b <= s[k] <= b
  }

  // carry[i] = (s_i + bias) >> 21; s_{i+1} += carry[i]; s_i -= carry[i] << 21
  function Carry(s: seq<int>, i: nat, bias: nat): seq<int>
    requires i + 1 < |s|
  {
    var carry := Int64(s[i] + bias) / 0x20_0000;
    s[i + 1 := Int64(s[i + 1] + carry)][i := Int64(s[i] - Int64(carry * 0x20_0000))]
  }

  lemma CarryVal(s: seq<int>, i: nat, c: int)
    requires i + 1 < |s|
    ensures Val(s[i + 1 := s[i + 1] + c][i := s[i] - c * 0x20_0000]) == Val(s)
  {
    var mid := s[i + 1 := s[i + 1] + c];
    ValAdd(s, i + 1, c);
    ValAdd(mid, i, -c * 0x20_0000);
    assert c * Radix(i + 1) + -c * 0x20_0000 * Radix(i) == 0;
  }

  lemma CarryExact(s: seq<int>, i: nat, bias: nat, b: int)
    requires i + 1 < |s| && bias < 0x20_0000 && b <= 0x4000_0000_0000_0000
    requires -b <= s[i] <= b && -b <= s[i + 1] <= b
    ensures var r := Carry(s, i, bias);
            var c := (s[i] + bias) / 0x20_0000;
            r == s[i + 1 := s[i + 1] + c][i := s[i] - c * 0x20_0000] && Val(r) == Val(s)
  {
    hide Int64, Val;
    var c := (s[i] + bias) / 0x20_0000;
    assert 0 <= s[i] + bias - c * 0x20_0000 < 0x20_0000;
    CarryVal(s, i, c);
  }

  function RoundRun(s: seq<int>, lo: nat, n: nat): (r: seq<int>)
    requires n > 0 ==> lo + 2 * n <= |s|
    ensures |r| == |s|
    decreases n
  {
    if n == 0 then s else Carry(RoundRun(s, lo, n - 1), lo + 2 * (n - 1), 0x10_0000)
  }

  predicate Rounded(s: seq<int>, r: seq<int>, lo: nat, n: nat)
    requires |r| == |s| && lo + 2 * n <= |s|
  {
    && (forall k | 0 <= k < |s| && (k < lo || lo + 2 * n <= k) :: r[k] == s[k])
    && (forall k | lo <= k < lo + 2 * n && (k - lo) % 2 == 0 :: -0x10_0000 <= r[k] < 0x10_0000)
    && (forall k | lo < k < lo + 2 * n && (k - lo) % 2 == 1 :: r[k] == s[k] + (s[k - 1] + 0x10_0000) / 0x20_0000)
  }

  lemma {:induction false} RoundRunExact(s: seq<int>, lo: nat, n: nat, b: int)
    requires lo + 2 * n <= |s|
    requires Within(s, 0, |s|, b) && b <= 0x2000_0000_0000_0000
    ensures Val(RoundRun(s, lo, n)) == Val(s)
    ensures Rounded(s, RoundRun(s, lo, n), lo, n)
  {
    hide Carry, Val;
    if n > 0 {
      var q, i := RoundRun(s, lo, n - 1), lo + 2 * (n - 1);
      RoundRunExact(s, lo, n - 1, b);
      assert q[i] == s[i] && q[i + 1] == s[i + 1];
      CarryExact(q, i, 0x10_0000, b);
    }
  }

  lemma RoundedBound(s: seq<int>, r: seq<int>, lo: nat, n: nat, b: int, c: int)
    requires |s| == |r| && lo + 2 * n <= |s|
    requires Within(s, 0, |s|, b) && 0x10_0000 <= b && b + b / 0x20_0000 + 1 <= c
    requires Rounded(s, r, lo, n)
    ensures Within(r, 0, |r|, c)
  {
    forall k | 0 <= k < |r|
      ensures -c <= r[k] <= c
    {
      if k < lo || lo + 2 * n <= k {
        assert r[k] == s[k];
      } else if (k - lo) % 2 == 1 {
        assert r[k] == s[k] + (s[k - 1] + 0x10_0000) / 0x20_0000;
        assert -b / 0x20_0000 <= (s[k - 1] + 0x10_0000) / 0x20_0000 <= b / 0x20_0000 + 1;
      }
    }
  }

  function FloorRun(s: seq<int>, n: nat): (r: seq<int>)
    requires n < |s|
    ensures |r| == |s|
    decreases n
  {
    if n == 0 then s else Carry(FloorRun(s, n - 1), n - 1, 0)
  }

  lemma {:induction false} FloorRunExact(s: seq<int>, n: nat, b: int)
    requires n < |s|
    requires Within(s, 0, |s|, b) && b <= 0x1000_0000_0000_0000
    ensures var r := FloorRun(s, n);
            && Val(r) == Val(s)
            && (forall k | 0 <= k < n :: 0 <= r[k] < 0x20_0000)
            && -2 * b <= r[n] <= 2 * b
            && (forall k | n < k < |s| :: r[k] == s[k])
  {
    hide Val, Carry;
    if n > 0 {
      FloorRunExact(s, n - 1, b);
      CarryExact(FloorRun(s, n - 1), n - 1, 0, 2 * b);
    }
  }

  // s_{i-12} .. s_{i-7} take their share of s_i, which stands for s_i * 2^252 = -s_i * (L - 2^252) mod L
  function Fold(s: seq<int>, i: nat): (r: seq<int>)
    requires 12 <= i < |s|
    ensures |r| == |s|
  {
    s[i - 12 := Int64(s[i - 12] + Int64(s[i] * 666643))]
     [i - 11 := Int64(s[i - 11] + Int64(s[i] * 470296))]
     [i - 10 := Int64(s[i - 10] + Int64(s[i] * 654183))]
     [i - 9 := Int64(s[i - 9] - Int64(s[i] * 997805))]
     [i - 8 := Int64(s[i - 8] + Int64(s[i] * 136657))]
     [i - 7 := Int64(s[i - 7] - Int64(s[i] * 683901))]
     [i := 0]
  }

  function FoldInts(s: seq<int>, i: nat): (r: seq<int>)
    requires 12 <= i < |s|
    ensures |r| == |s|
  {
    s[i - 12 := s[i - 12] + s[i] * 666643]
     [i - 11 := s[i - 11] + s[i] * 470296]
     [i - 10 := s[i - 10] + s[i] * 654183]
     [i - 9 := s[i - 9] + s[i] * -997805]
     [i - 8 := s[i - 8] + s[i] * 136657]
     [i - 7 := s[i - 7] + s[i] * -683901]
     [i := s[i] + -s[i]]
  }

  lemma FoldVal(s: seq<int>, i: nat)
    requires 12 <= i < |s|
    ensures Val(FoldInts(s, i)) == Val(s) - s[i] * Radix(i - 12) * L
  {
    hide Val, Radix;
    var x := s[i];
    var s1 := s[i - 12 := s[i - 12] + x * 666643];
    var s2 := s1[i - 11 := s1[i - 11] + x * 470296];
    var s3 := s2[i - 10 := s2[i - 10] + x * 654183];
    var s4 := s3[i - 9 := s3[i - 9] + x * -997805];
    var s5 := s4[i - 8 := s4[i - 8] + x * 136657];
    var s6 := s5[i - 7 := s5[i - 7] + x * -683901];
    ValAdd(s, i - 12, x * 666643);
    ValAdd(s1, i - 11, x * 470296);
    ValAdd(s2, i - 10, x * 654183);
    ValAdd(s3, i - 9, x * -997805);
    ValAdd(s4, i - 8, x * 136657);
    ValAdd(s5, i - 7, x * -683901);
    ValAdd(s6, i, -x);
    FoldWeights(x, i - 12);
  }

  lemma FoldWeights(x: int, k: nat)
    ensures x * 666643 * Radix(k) + x * 470296 * Radix(k + 1) + x * 654183 * Radix(k + 2) + x * -997805 * Radix(k + 3)
            + x * 136657 * Radix(k + 4) + x * -683901 * Radix(k + 5) + -x * Radix(k + 12)
         == -(x * Radix(k) * L)
  {
    RadixStep(k);
  }

  lemma RadixStep(k: nat)
    ensures Radix(k + 1) == 0x20_0000 * Radix(k)
    ensures Radix(k + 2) == 0x400_0000_0000 * Radix(k)
    ensures Radix(k + 3) == 0x8000_0000_0000_0000 * Radix(k)
    ensures Radix(k + 4) == 0x10_0000_0000_0000_0000_0000 * Radix(k)
    ensures Radix(k + 5) == 0x200_0000_0000_0000_0000_0000_0000 * Radix(k)
    ensures Radix(k + 12)
            == 0x1000_0000_0000_0000_0000_0000_0000_0000_0000_0000_0000_0000_0000_0000_0000_0000 * Radix(k)
  {
    assert Radix(k + 4) == 0x400_0000_0000 * Radix(k + 2);
    assert Radix(k + 6) == 0x4000_0000_0000_0000_0000_0000_0000_0000 * Radix(k);
    assert Radix(k + 8) == 0x400_0000_0000 * Radix(k + 6);
    assert Radix(k + 10) == 0x400_0000_0000 * Radix(k + 8);
  }

  lemma FoldExact(s: seq<int>, i: nat, b: int, h: int)
    requires 12 <= i < |s|
    requires 0 <= b <= 0x2000_0000_0000_0000
    requires -h <= s[i] <= h <= 0x100_0000_0000
    requires forall k | i - 12 <= k <= i - 7 :: -b <= s[k] <= b
    ensures var r := Fold(s, i);
            && Val(r) == Val(s) - s[i] * Radix(i - 12) * L
            && r[i] == 0
            && (forall k | i - 12 <= k <= i - 7 :: -b - 0x10_0000 * h <= r[k] <= b + 0x10_0000 * h)
            && (forall k | 0 <= k < |s| && !(i - 12 <= k <= i - 7) && k != i :: r[k] == s[k])
  {
    hide Int64, Val, Radix;
    FoldVal(s, i);
    assert Fold(s, i) == FoldInts(s, i);
  }

  function FoldRun(s: seq<int>, hi: nat, n: nat): (r: seq<int>)
    requires n > 0 ==> hi < |s| && 12 + n <= hi + 1
    ensures |r| == |s|
    decreases n
  {
    if n == 0 then s else Fold(FoldRun(s, hi, n - 1), hi - (n - 1))
  }

  // bound on a limb after n shares of limbs bounded by h
  function Grown(b: int, h: int, n: nat): int
    decreases n
  {
    if n == 0 then b else Grown(b, h, n - 1) + 0x10_0000 * h
  }

  lemma {:induction false} FoldRunExact(s: seq<int>, hi: nat, n: nat, b: int, h: int)
    requires hi < |s| && 12 + n <= hi + 1
    requires 0 <= h <= b && h <= 0x100_0000_0000 && Grown(b, h, n) <= 0x2000_0000_0000_0000
    requires forall k | 0 <= k <= hi - n :: -b <= s[k] <= b
    requires forall k | hi - n < k <= hi :: -h <= s[k] <= h
    requires n <= 6
    ensures b <= Grown(b, h, n)
    ensures var r := FoldRun(s, hi, n);
            && (Val(s) - Val(r)) % L == 0
            && (forall k | 0 <= k <= hi - n :: -Grown(b, h, n) <= r[k] <= Grown(b, h, n))
            && (forall k | hi - 7 < k <= hi - n :: r[k] == s[k])
            && (forall k | hi - n < k <= hi :: r[k] == 0)
            && (forall k | hi < k < |s| :: r[k] == s[k])
            && (forall k | 0 <= k < hi - n - 11 :: r[k] == s[k])
  {
    hide Val, Radix, Fold;
    if n > 0 {
      var q, i := FoldRun(s, hi, n - 1), hi - (n - 1);
      FoldRunExact(s, hi, n - 1, b, h);
      FoldExact(q, i, Grown(b, h, n - 1), h);
      ModStep(Val(s) - Val(q), q[i] * Radix(i - 12));
    }
  }

  lemma ModStep(d: int, k: int)
    requires d % L == 0
    ensures (d + k * L) % L == 0
  {
    assert d + k * L == (d / L + k) * L;
  }

  // ---- size of a limb sum ----

  lemma {:induction false} ValSplit(s: seq<int>, n: nat)
    requires n <= |s|
    ensures Val(s) == Val(s[..n]) + Radix(n) * Val(s[n..])
  {
    if n > 0 {
      ValSplit(s[1..], n - 1);
      assert s[..n][1..] == s[1..][..n - 1];
      assert s[1..][n - 1..] == s[n..];
      assert 0x20_0000 * (Radix(n - 1) * Val(s[n..])) == Radix(n) * Val(s[n..]);
    }
  }

  lemma {:induction false} ValZero(s: seq<int>)
    requires forall k | 0 <= k < |s| :: s[k] == 0
    ensures Val(s) == 0
  {
    if |s| > 0 {
      ValZero(s[1..]);
    }
  }

  lemma {:induction false} ValBound(s: seq<int>, b: int)
    requires Within(s, 0, |s|, b)
    ensures -b * (Radix(|s|) - 1) <= 0x1F_FFFF * Val(s) <= b * (Radix(|s|) - 1)
  {
    if |s| > 0 {
      ValBound(s[1..], b);
      assert b * (Radix(|s|) - 1) == 0x1F_FFFF * b + 0x20_0000 * (b * (Radix(|s| - 1) - 1));
    }
  }

  predicate Digits(s: seq<int>) {
    forall k | 0 <= k < |s| :: 0 <= s[k] < 0x20_0000
  }

  lemma {:induction false} DigitsVal(s: seq<int>)
    requires Digits(s)
    ensures 0 <= Val(s) < Radix(|s|)
  {
    if |s| > 0 {
      DigitsVal(s[1..]);
    }
  }

  // ---- the reduction shared by ScMulAdd and ScReduce ----

  function FoldMiddle(s: seq<int>): (r: seq<int>)
    requires |s| == 24
    ensures |r| == 24
  {
    FoldRun(RoundRun(RoundRun(s, 6, 6), 7, 5), 17, 6)
  }

  function FoldLow(s: seq<int>): (r: seq<int>)
    requires |s| == 24
    ensures |r| == 24
  {
    FoldRun(RoundRun(RoundRun(s, 0, 6), 1, 6), 12, 1)
  }

  function Finish(s: seq<int>): (r: seq<int>)
    requires |s| == 24
    ensures |r| == 24
  {
    FloorRun(FoldRun(FloorRun(s, 12), 12, 1), 11)
  }

  // the two rounding passes over limbs 6..17
  lemma RoundMiddleExact(s: seq<int>) returns (r: seq<int>)
    requires |s| == 24
    requires Within(s, 0, 17, 0x40_0000_0000_0000) && -0x1_0000_0000 <= s[17] <= 0x1_0000_0000
    requires forall k | 18 <= k < 24 :: s[k] == 0
    ensures r == RoundRun(RoundRun(s, 6, 6), 7, 5) && Val(r) == Val(s)
    ensures Within(r, 0, 12, 0x42_0000_0000_0000) && Within(r, 12, 18, 0x4_0000_0000)
    ensures forall k | 18 <= k < 24 :: r[k] == 0
  {
    hide Val, RoundRun, Rounded;
    RoundRunExact(s, 6, 6, 0x40_0000_0000_0000);
    var s1 := RoundRun(s, 6, 6);
    RoundedBound(s, s1, 6, 6, 0x40_0000_0000_0000, 0x41_0000_0000_0000);
    RoundRunExact(s1, 7, 5, 0x41_0000_0000_0000);
    r := RoundRun(s1, 7, 5);
    RoundedBound(s1, r, 7, 5, 0x41_0000_0000_0000, 0x42_0000_0000_0000);
    MiddleRange(s, s1, r);
  }

  lemma MiddleRange(s: seq<int>, t: seq<int>, r: seq<int>)
    requires |s| == |t| == |r| == 24
    requires Within(t, 0, 24, 0x41_0000_0000_0000) && -0x1_0000_0000 <= s[17] <= 0x1_0000_0000
    requires Within(s, 0, 17, 0x40_0000_0000_0000) && Rounded(s, t, 6, 6) && Rounded(t, r, 7, 5)
    requires forall k | 18 <= k < 24 :: s[k] == 0
    ensures Within(r, 12, 18, 0x4_0000_0000) && forall k | 18 <= k < 24 :: r[k] == 0
  {
    assert r[17] == t[17] == s[17] + (s[16] + 0x10_0000) / 0x20_0000;
    assert r[12] == t[12] + (t[11] + 0x10_0000) / 0x20_0000;
    assert r[14] == t[14] + (t[13] + 0x10_0000) / 0x20_0000;
    assert r[16] == t[16] + (t[15] + 0x10_0000) / 0x20_0000;
  }

  lemma FoldMiddleExact(s: seq<int>)
    requires |s| == 24
    requires Within(s, 0, 17, 0x40_0000_0000_0000) && -0x1_0000_0000 <= s[17] <= 0x1_0000_0000
    requires forall k | 18 <= k < 24 :: s[k] == 0
    ensures var r := FoldMiddle(s);
            && (Val(s) - Val(r)) % L == 0
            && Within(r, 0, 12, 0x400_0000_0000_0000)
            && (forall k | 12 <= k < 24 :: r[k] == 0)
  {
    hide Val, FoldRun, RoundRun;
    var s2 := RoundMiddleExact(s);
    assert Grown(0x42_0000_0000_0000, 0x4_0000_0000, 6) <= 0x400_0000_0000_0000;
    FoldRunExact(s2, 17, 6, 0x42_0000_0000_0000, 0x4_0000_0000);
  }

  // the two rounding passes over limbs 0..11
  lemma RoundLowExact(s: seq<int>) returns (r: seq<int>)
    requires |s| == 24
    requires Within(s, 0, 12, 0x400_0000_0000_0000)
    requires forall k | 12 <= k < 24 :: s[k] == 0
    ensures r == RoundRun(RoundRun(s, 0, 6), 1, 6) && Val(r) == Val(s)
    ensures Within(r, 0, 12, 0x402_0000_0000_0000) && Within(r, 6, 11, 0x100_0000_0000)
    ensures -0x10_0000 <= r[11] < 0x10_0000 && -0x80_0000_0000 <= r[12] <= 0x80_0000_0000
    ensures forall k | 13 <= k < 24 :: r[k] == 0
  {
    hide Val, RoundRun;
    RoundRunExact(s, 0, 6, 0x400_0000_0000_0000);
    var s1 := RoundRun(s, 0, 6);
    RoundedBound(s, s1, 0, 6, 0x400_0000_0000_0000, 0x401_0000_0000_0000);
    RoundRunExact(s1, 1, 6, 0x401_0000_0000_0000);
    r := RoundRun(s1, 1, 6);
    RoundedBound(s1, r, 1, 6, 0x401_0000_0000_0000, 0x402_0000_0000_0000);
    assert r[6] == s1[6] + (s1[5] + 0x10_0000) / 0x20_0000;
    assert r[8] == s1[8] + (s1[7] + 0x10_0000) / 0x20_0000;
    assert r[10] == s1[10] + (s1[9] + 0x10_0000) / 0x20_0000;
    assert r[12] == s1[12] + (s1[11] + 0x10_0000) / 0x20_0000;
  }

  lemma FoldLowExact(s: seq<int>)
    requires |s| == 24
    requires Within(s, 0, 12, 0x400_0000_0000_0000)
    requires forall k | 12 <= k < 24 :: s[k] == 0
    ensures var r := FoldLow(s);
            && (Val(s) - Val(r)) % L == 0
            && Within(r, 0, 6, 0xD00_0000_0000_0000) && Within(r, 6, 11, 0x100_0000_0000)
            && -0x10_0000 <= r[11] < 0x10_0000
            && (forall k | 12 <= k < 24 :: r[k] == 0)
  {
    hide Val, FoldRun, RoundRun;
    var s2 := RoundLowExact(s);
    assert Grown(0x402_0000_0000_0000, 0x80_0000_0000, 1) <= 0xD00_0000_0000_0000;
    FoldRunExact(s2, 12, 1, 0x402_0000_0000_0000, 0x80_0000_0000);
  }

  // the limb sum before the first floor-carry chain lies strictly between -2^252 and 2^252
  lemma LowRange(s: seq<int>)
    requires |s| == 24
    requires Within(s, 0, 6, 0xD00_0000_0000_0000) && Within(s, 6, 11, 0x100_0000_0000)
    requires -0x10_0000 <= s[11] < 0x10_0000
    requires forall k | 12 <= k < 24 :: s[k] == 0
    ensures -Radix(12) < Val(s) < Radix(12)
  {
    hide Val;
    var a, b, c := s[..6], s[6..][..5], s[11..][..1];
    ValSplit(s, 6);
    ValSplit(s[6..], 5);
    ValSplit(s[11..], 1);
    assert s[6..][5..] == s[11..];
    assert s[11..][1..] == s[12..];
    ValZero(s[12..]);
    ValBound(a, 0xD00_0000_0000_0000);
    ValBound(b, 0x100_0000_0000);
    assert Val(c) == s[11] by { ValSingle(c); }
    assert Radix(6) == 0x4000_0000_0000_0000_0000_0000_0000_0000;
    assert Radix(5) == 0x200_0000_0000_0000_0000_0000_0000;
    assert Radix(1) == 0x20_0000;
    RadixStep(0);
  }

  lemma ValSingle(s: seq<int>)
    requires |s| == 1
    ensures Val(s) == s[0]
  {
    assert Val(s[1..]) == 0;
  }

  // the first floor-carry chain leaves 0 or -1 in s12
  lemma FinishTop(s: seq<int>) returns (r: seq<int>)
    requires |s| == 24
    requires Within(s, 0, 12, 0xD00_0000_0000_0000)
    requires forall k | 12 <= k < 24 :: s[k] == 0
    requires -Radix(12) < Val(s) < Radix(12)
    ensures r == FloorRun(s, 12) && Val(r) == Val(s)
    ensures Within(r, 0, 12, 0x20_0000) && -1 <= r[12] <= 0
    ensures 0 <= Val(r) - r[12] * L < L
    ensures forall k | 13 <= k < 24 :: r[k] == 0
  {
    hide Val, FloorRun;
    FloorRunExact(s, 12, 0xD00_0000_0000_0000);
    r := FloorRun(s, 12);
    SplitAt(r, 12);
    DigitsVal(r[..12]);
    RadixStep(0);
  }

  lemma FinishExact(s: seq<int>)
    requires |s| == 24
    requires Within(s, 0, 12, 0xD00_0000_0000_0000)
    requires forall k | 12 <= k < 24 :: s[k] == 0
    requires -Radix(12) < Val(s) < Radix(12)
    ensures var r := Finish(s);
            && Val(r) == Val(s) % L
            && Digits(r[..11]) && 0 <= r[11] <= 0x20_0000
            && (forall k | 12 <= k < 24 :: r[k] == 0)
  {
    hide Val, FoldRun, FloorRun, Radix;
    var s1 := FinishTop(s);
    var s2 := FoldOnce(s1);
    var r := FloorRun(s2, 11);
    FloorRunExact(s2, 11, 0x40_0000);
    SplitAt(r, 11);
    DigitsVal(r[..11]);
    TopDigit(r[11], Val(r[..11]));
    ModL(Val(s), s1[12]);
  }

  lemma FoldOnce(s: seq<int>) returns (r: seq<int>)
    requires |s| == 24 && Within(s, 0, 12, 0x20_0000) && -1 <= s[12] <= 0
    ensures r == FoldRun(s, 12, 1)
    ensures |r| == 24 && Within(r, 0, 12, 0x40_0000) && r[12] == 0
    ensures Val(r) == Val(s) - s[12] * L
    ensures forall k | 13 <= k < 24 :: r[k] == s[k]
  {
    hide Fold, Val;
    FoldExact(s, 12, 0x20_0000, 1);
    r := Fold(s, 12);
    assert FoldRun(s, 12, 0) == s;
  }

  lemma TopDigit(d: int, low: int)
    requires 0 <= low < Radix(11) && 0 <= low + Radix(11) * d < L
    ensures 0 <= d <= 0x20_0000
  {
    RadixEleven();
  }

  lemma RadixEleven()
    ensures Radix(11) == 0x80_0000_0000_0000_0000_0000_0000_0000_0000_0000_0000_0000_0000_0000_0000
  {
    assert Radix(4) == 0x10_0000_0000_0000_0000_0000;
    assert Radix(8) == 0x10_0000_0000_0000_0000_0000 * Radix(4);
  }

  lemma ModL(v: int, q: int)
    requires 0 <= v - q * L < L
    ensures v - q * L == v % L
  {
  }

  // limbs above n are zero
  lemma SplitAt(s: seq<int>, n: nat)
    requires n < |s| && (forall k | n < k < |s| :: s[k] == 0)
    ensures Val(s) == Val(s[..n]) + Radix(n) * s[n]
  {
    hide Val, Radix;
    ValSplit(s, n);
    LowestOnly(s[n..]);
  }

  lemma LowestOnly(s: seq<int>)
    requires s != [] && (forall k | 0 < k < |s| :: s[k] == 0)
    ensures Val(s) == s[0]
  {
    hide Radix;
    ValZero(s[1..]);
  }
}
