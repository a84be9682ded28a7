/** Arithmetic modulo the group order L: ScMulAdd and ScReduce. */
module Scalar {
  import opened Machine
  import opened Bits
  import opened ScalarReduction
  import opened ScalarBytes
  import opened ScalarProduct

  method RoundLimb(s: array<int>, i: nat)
    requires i + 1 < s.Length
    modifies s
    ensures s[..] == Carry(old(s[..]), i, 0x10_0000)
  {
    var carry := Int64(s[i] + 0x10_0000) / 0x20_0000;
    s[i + 1] := Int64(s[i + 1] + carry);
    s[i] := Int64(s[i] - Int64(carry * 0x20_0000));
  }

  method FloorLimb(s: array<int>, i: nat)
    requires i + 1 < s.Length
    modifies s
    ensures s[..] == Carry(old(s[..]), i, 0)
  {
    assert Int64(s[i] + 0) == Int64(s[i]);
    var carry := Int64(s[i]) / 0x20_0000;
    s[i + 1] := Int64(s[i + 1] + carry);
    s[i] := Int64(s[i] - Int64(carry * 0x20_0000));
  }

  method FoldLimb(s: array<int>, i: nat)
    requires 12 <= i < s.Length
    modifies s
    ensures s[..] == Fold(old(s[..]), i)
  {
    hide Int64;
    s[i - 12] := Int64(s[i - 12] + Int64(s[i] * 666643));
    s[i - 11] := Int64(s[i - 11] + Int64(s[i] * 470296));
    s[i - 10] := Int64(s[i - 10] + Int64(s[i] * 654183));
    s[i - 9] := Int64(s[i - 9] - Int64(s[i] * 997805));
    s[i - 8] := Int64(s[i - 8] + Int64(s[i] * 136657));
    s[i - 7] := Int64(s[i - 7] - Int64(s[i] * 683901));
    s[i] := 0;
  }

  method Reduce(s: array<int>)
    requires s.Length == 24
    modifies s
    ensures s[..] == Finish(FoldLow(FoldMiddle(old(s[..]))))
  {
    hide Carry, Fold;
    RoundLimb(s, 6);
    RoundLimb(s, 8);
    RoundLimb(s, 10);
    RoundLimb(s, 12);
    RoundLimb(s, 14);
    RoundLimb(s, 16);
    RoundLimb(s, 7);
    RoundLimb(s, 9);
    RoundLimb(s, 11);
    RoundLimb(s, 13);
    RoundLimb(s, 15);
    FoldLimb(s, 17);
    FoldLimb(s, 16);
    FoldLimb(s, 15);
    FoldLimb(s, 14);
    FoldLimb(s, 13);
    FoldLimb(s, 12);
    assert s[..] == FoldMiddle(old(s[..]));
    RoundLimb(s, 0);
    RoundLimb(s, 2);
    RoundLimb(s, 4);
    RoundLimb(s, 6);
    RoundLimb(s, 8);
    RoundLimb(s, 10);
    RoundLimb(s, 1);
    RoundLimb(s, 3);
    RoundLimb(s, 5);
    RoundLimb(s, 7);
    RoundLimb(s, 9);
    RoundLimb(s, 11);
    FoldLimb(s, 12);
    assert s[..] == FoldLow(FoldMiddle(old(s[..])));
    FloorLimb(s, 0);
    FloorLimb(s, 1);
    FloorLimb(s, 2);
    FloorLimb(s, 3);
    FloorLimb(s, 4);
    FloorLimb(s, 5);
    FloorLimb(s, 6);
    FloorLimb(s, 7);
    FloorLimb(s, 8);
    FloorLimb(s, 9);
    FloorLimb(s, 10);
    FloorLimb(s, 11);
    FoldLimb(s, 12);
    FloorLimb(s, 0);
    FloorLimb(s, 1);
    FloorLimb(s, 2);
    FloorLimb(s, 3);
    FloorLimb(s, 4);
    FloorLimb(s, 5);
    FloorLimb(s, 6);
    FloorLimb(s, 7);
    FloorLimb(s, 8);
    FloorLimb(s, 9);
    FloorLimb(s, 10);
  }

  /** The thirty-two byte stores, as one parallel assignment. */
  method Store(out: array<byte>, s: seq<int>)
    requires out.Length == 32 && |s| == 24
    requires forall k | 0 <= k < 12 :: s[k] >= 0
    modifies out
    ensures out[..] == Pack(s)
  {
    var bytes := Pack(s);
    forall i | 0 <= i < 32 {
      out[i] := bytes[i];
    }
  }

  predicate Canonical(s: seq<int>, v: int) {
    && |s| == 24
    && (forall k | 0 <= k < 12 :: s[k] >= 0)
    && Digits(s[..11]) && s[11] <= 0x20_0000
    && (forall k | 12 <= k < 24 :: s[k] == 0)
    && Val(s) == v % L
  }

  /** The shared tail turns bounded limbs into the canonical limbs of their sum modulo L. */
  lemma ReduceExact(s: seq<int>)
    requires |s| == 24
    requires Within(s, 0, 17, 0x40_0000_0000_0000) && -0x1_0000_0000 <= s[17] <= 0x1_0000_0000
    requires forall k | 18 <= k < 24 :: s[k] == 0
    ensures Canonical(Finish(FoldLow(FoldMiddle(s))), Val(s))
  {
    hide Val, FoldMiddle, FoldLow, Finish, Radix;
    FoldMiddleExact(s);
    var s1 := FoldMiddle(s);
    FoldLowExact(s1);
    var s2 := FoldLow(s1);
    LowRange(s2);
    FinishExact(s2);
    SameResidue(Val(s), Val(s1));
    SameResidue(Val(s1), Val(s2));
  }

  lemma SameResidue(x: int, y: int)
    requires (x - y) % L == 0
    ensures x % L == y % L
  {
    var k := (x - y) / L;
    assert x == L * (y / L + k) + y % L;
    ModUnique(x, L, y / L + k, y % L);
  }

  method RoundProduct(s: array<int>)
    requires s.Length == 24
    modifies s
    ensures s[..] == RoundRun(RoundRun(old(s[..]), 0, 12), 1, 11)
  {
    hide Carry;
    RoundLimb(s, 0);
    RoundLimb(s, 2);
    RoundLimb(s, 4);
    RoundLimb(s, 6);
    RoundLimb(s, 8);
    RoundLimb(s, 10);
    RoundLimb(s, 12);
    RoundLimb(s, 14);
    RoundLimb(s, 16);
    RoundLimb(s, 18);
    RoundLimb(s, 20);
    RoundLimb(s, 22);
    RoundLimb(s, 1);
    RoundLimb(s, 3);
    RoundLimb(s, 5);
    RoundLimb(s, 7);
    RoundLimb(s, 9);
    RoundLimb(s, 11);
    RoundLimb(s, 13);
    RoundLimb(s, 15);
    RoundLimb(s, 17);
    RoundLimb(s, 19);
    RoundLimb(s, 21);
  }

  lemma RoundProductExact(s: seq<int>) returns (r: seq<int>)
    requires |s| == 24 && s[23] == 0
    requires Within(s, 0, 24, 0x8_0000_0000_0000)
    ensures r == RoundRun(RoundRun(s, 0, 12), 1, 11)
    ensures Val(r) == Val(s) && Within(r, 0, 24, 0x8000_0000) && Within(r, 17, 18, 0x10_0000)
  {
    hide Val, RoundRun;
    RoundRunExact(s, 0, 12, 0x8_0000_0000_0000);
    var s1 := RoundRun(s, 0, 12);
    RoundedBound(s, s1, 0, 12, 0x8_0000_0000_0000, 0x9_0000_0000_0000);
    RoundRunExact(s1, 1, 11, 0x9_0000_0000_0000);
    r := RoundRun(s1, 1, 11);
    assert r[23] == s1[23] == s[23] + (s[22] + 0x10_0000) / 0x20_0000;
    assert r[0] == s1[0];
    forall k | 1 <= k < 23
      ensures -0x8000_0000 <= r[k] <= 0x8000_0000
    {
      if (k - 1) % 2 == 1 {
        assert r[k] == s1[k] + (s1[k - 1] + 0x10_0000) / 0x20_0000;
        assert (k - 0) % 2 == 0;
      }
    }
  }

  method ScReduce(out: array<byte>, s: array<byte>)
    requires out.Length == 32 && s.Length == 64
    modifies out
    ensures Le(out[..]) == Le(s[..]) % L
  {
    hide Val, Le, Pack, Unpack24, FoldMiddle, FoldLow, Finish, FoldRun;
    ghost var input := s[..];
    var limbs := new int[24];
    var loaded := Unpack24(s[..]);
    forall i | 0 <= i < 24 {
      limbs[i] := loaded[i];
    }
    assert limbs[..] == loaded;
    Unpack24Exact(input);
    FoldHigh(limbs);
    HighExact(loaded, 0x2000_0000);
    var high := limbs[..];
    Reduce(limbs);
    ReduceExact(high);
    SameResidue(Val(loaded), Val(high));
    var low := limbs[..];
    Store(out, low);
    PackExact(low);
    assert s[..] == input;
  }

  method FoldHigh(s: array<int>)
    requires s.Length == 24
    modifies s
    ensures s[..] == FoldRun(old(s[..]), 23, 6)
  {
    hide Fold;
    FoldLimb(s, 23);
    FoldLimb(s, 22);
    FoldLimb(s, 21);
    FoldLimb(s, 20);
    FoldLimb(s, 19);
    FoldLimb(s, 18);
  }

  lemma HighExact(s: seq<int>, h: int)
    requires |s| == 24 && 0 <= h <= 0x8000_0000
    requires Within(s, 0, 24, h)
    ensures var r := FoldRun(s, 23, 6);
            && (Val(s) - Val(r)) % L == 0
            && Within(r, 0, 17, 0x40_0000_0000_0000) && r[17] == s[17]
            && (forall k | 18 <= k < 24 :: r[k] == 0)
  {
    hide Val, FoldRun;
    assert Grown(h, h, 6) <= 0x40_0000_0000_0000;
    FoldRunExact(s, 23, 6, h, h);
  }

  method ScMulAdd(s: array<byte>, a: array<byte>, b: array<byte>, c: array<byte>)
    requires s.Length == 32 && a.Length == 32 && b.Length == 32 && c.Length == 32
    modifies s
    ensures Le(s[..]) == old((Le(a[..]) * Le(b[..]) + Le(c[..])) % L)
  {
    hide Val, Le, Pack, Unpack12, FoldMiddle, FoldLow, Finish, FoldRun, Columns, RoundRun;
    var x, y, z := Unpack12(a[..]), Unpack12(b[..]), Unpack12(c[..]);
    var product := Columns(x, y, z);
    Unpack12Exact(a[..]);
    Unpack12Exact(b[..]);
    Unpack12Exact(c[..]);
    ColumnsExact(x, y, z);
    var limbs := new int[24];
    forall i | 0 <= i < 24 {
      limbs[i] := product[i];
    }
    assert limbs[..] == product;
    ghost var rounded := RoundProductExact(product);
    RoundProduct(limbs);
    HighExact(rounded, 0x8000_0000);
    FoldHigh(limbs);
    ghost var high := limbs[..];
    Reduce(limbs);
    ReduceExact(high);
    SameResidue(Val(product), Val(high));
    var low := limbs[..];
    Store(s, low);
    PackExact(low);
  }
}
