/** Multiples of the base point by signed radix-16 digits and table lookup in constant time. */
module BaseMult {
  import opened Machine
  import opened Bits
  import opened AbelianGroup

  // ---- branch-free comparison and selection on 32-bit words ----

  function Equal(b: bv32, c: bv32): bv32 {
    ((b ^ c) - 1) >> 31
  }

  function Negative(b: bv32): bv32 {
    (b >> 31) & 1
  }

  // f ^= -b & (f ^ g)
  function CMove(f: bv32, g: bv32, b: bv32): bv32 {
    f ^ ((0 - b) & (f ^ g))
  }

  lemma EqualDecides(b: bv32, c: bv32)
    requires b < 0x8000_0000 && c < 0x8000_0000
    ensures Equal(b, c) == if b == c then 1 else 0
  {
    var x := b ^ c;
    assert x < 0x8000_0000;
    assert x == 0 <==> b == c;
    assert x != 0 ==> (x - 1) >> 31 == 0;
  }

  lemma NegativeDecides(b: bv32)
    ensures Negative(b) == if b >= 0x8000_0000 then 1 else 0
  {
  }

  lemma CMoveSelects(f: bv32, g: bv32)
    ensures CMove(f, g, 1) == g && CMove(f, g, 0) == f
  {
  }

  /** The 32-bit word of a digit. */
  function Word(b: int): bv32
    requires -8 <= b <= 8
  {
    if b < 0 then 0 - Small(-b) else Small(b)
  }

  function Small(n: nat): (w: bv32)
    requires n <= 8
    ensures w <= 8
  {
    if n == 0 then 0 else if n == 1 then 1 else if n == 2 then 2 else if n == 3 then 3 else if n == 4 then 4
    else if n == 5 then 5 else if n == 6 then 6 else if n == 7 then 7 else 8
  }

  // b - (((-bNegative) & b) << 1)
  function Abs(b: bv32): bv32 {
    b - (((0 - Negative(b)) & b) << 1)
  }

  /** The sign and the size of a digit, as the word operations find them. */
  lemma WordParts(b: int)
    requires -8 <= b <= 8
    ensures Negative(Word(b)) == (if b < 0 then 1 else 0) && Abs(Word(b)) == Small(if b < 0 then -b else b)
  {
    var w := Small(if b < 0 then -b else b);
    if b < 0 {
      assert w != 0;
      NegatedWord(w);
    } else {
      assert Negative(w) == 0;
      assert ((0 - 0) & w) << 1 == 0;
    }
  }

  lemma NegatedWord(w: bv32)
    requires 0 < w <= 8
    ensures Negative(0 - w) == 1 && Abs(0 - w) == w
  {
  }

  lemma SmallEqual(m: nat, n: nat)
    requires m <= 8 && n <= 8
    ensures Equal(Small(m), Small(n)) == if m == n then 1 else 0
  {
    EqualDecides(Small(m), Small(n));
  }

  // ---- the signed radix-16 recoding ----

  /** e[0] + 16 e[1] + ... over the first m digits. */
  function Weighted(e: seq<int>, m: nat): int
    requires m <= |e|
  {
    if m == 0 then 0 else Weighted(e, m - 1) + e[m - 1] * Pow2(4 * (m - 1))
  }

  lemma {:induction false} WeightedSame(e: seq<int>, f: seq<int>, m: nat)
    requires m <= |e| == |f| && forall k | 0 <= k < m :: e[k] == f[k]
    ensures Weighted(e, m) == Weighted(f, m)
  {
    if m > 0 {
      WeightedSame(e, f, m - 1);
    }
  }

  lemma {:induction false} WeightedUpdate(e: seq<int>, k: nat, x: int, m: nat)
    requires k < m <= |e|
    ensures Weighted(e[k := x], m) == Weighted(e, m) + (x - e[k]) * Pow2(4 * k)
  {
    if k == m - 1 {
      WeightedSame(e, e[k := x], m - 1);
    } else {
      WeightedUpdate(e, k, x, m - 1);
    }
  }

  lemma {:induction false} Nibbles(e: seq<int>, n: nat, m: nat)
    requires m <= |e| && forall k | 0 <= k < m :: e[k] == Field(n, 4 * k, 4)
    ensures Weighted(e, m) == Field(n, 0, 4 * m)
  {
    hide Field;
    if m > 0 {
      Nibbles(e, n, m - 1);
      FieldJoin(n, 0, 4 * (m - 1), 4);
    } else {
      NoField(n, 0);
    }
  }

  lemma NibblesOfByte(b: seq<byte>, i: nat)
    requires i < |b|
    ensures And(15, b[i]) == Field(Le(b), 8 * i, 4)
    ensures And(15, Shr(b[i], 4)) == Field(Le(b), 8 * i + 4, 4)
  {
    hide And, Le, Shr, Low;
    LeByte(b, i);
    PowValues();
    AndMask(4, b[i]);
    AndMask(4, Shr(b[i], 4));
    FieldField(Le(b), 8 * i, 8, 0, 4);
    FieldField(Le(b), 8 * i, 8, 4, 4);
    ShiftNone(b[i]);
  }

  // e[2i] = a[i] & 15; e[2i+1] = (a[i] >> 4) & 15
  method Split(e: array<int>, a: array<byte>)
    requires e.Length == 64 && a.Length == 32
    modifies e
    ensures forall k | 0 <= k < 64 :: e[k] == Field(Le(a[..]), 4 * k, 4)
  {
    hide And, Le, Shr, Low;
    ghost var b := a[..];
    var i := 0;
    while i < 32
      invariant 0 <= i <= 32 && a[..] == b
      invariant forall k | 0 <= k < 2 * i :: e[k] == Field(Le(b), 4 * k, 4)
    {
      NibblesOfByte(b, i);
      assert a[i] == b[i];
      e[2 * i] := And(15, a[i]);
      e[2 * i + 1] := And(15, Shr(a[i], 4));
      assert 4 * (2 * i + 1) == 8 * i + 4;
      i := i + 1;
    }
  }

  predicate SignedDigits(e: seq<int>) {
    forall k | 0 <= k < |e| :: -8 <= e[k] <= 8
  }

  /** Carrying in radix 16 keeps the sum and brings every digit into [-8, 8], provided the top digit is at most 7. */
  method Carry(e: array<int>)
    requires e.Length == 64 && (forall k | 0 <= k < 63 :: 0 <= e[k] <= 15) && 0 <= e[63] <= 7
    modifies e
    ensures Weighted(e[..], 64) == old(Weighted(e[..], 64))
    ensures SignedDigits(e[..])
  {
    hide Weighted, Pow2, Int8;
    var carry := 0;
    var i := 0;
    PowStart();
    while i < 63
      invariant 0 <= i <= 63 && 0 <= carry <= 1
      invariant forall k | 0 <= k < i :: -8 <= e[k] <= 7
      invariant forall k | i <= k < 64 :: e[k] == old(e[k])
      invariant Weighted(e[..], 64) + carry * Pow2(4 * i) == old(Weighted(e[..], 64))
    {
      ghost var s := e[..];
      var x := Int8(e[i] + carry);
      var next := Int8(x + 8) / 16;
      WeightedUpdate(s, i, x - next * 16, 64);
      e[i] := Int8(x - Int8(next * 16));
      assert e[..] == s[i := e[i]];
      PowFour(i);
      CarryMoves(s[i], carry, next, Pow2(4 * i));
      carry := next;
      i := i + 1;
    }
    ghost var s := e[..];
    WeightedUpdate(s, 63, e[63] + carry, 64);
    e[63] := Int8(e[63] + carry);
    assert e[..] == s[63 := e[63]];
  }

  lemma CarryMoves(x: int, c: int, n: int, p: int)
    ensures (x + c - n * 16 - x) * p + n * (16 * p) == c * p
  {
  }

  lemma PowStart()
    ensures Pow2(0) == 1
  {
  }

  lemma PowFour(i: nat)
    ensures Pow2(4 * (i + 1)) == 16 * Pow2(4 * i)
  {
    PowAdd(4, 4 * i);
    PowValues();
  }

  // ---- table lookup ----

  /** row[j] = (j + 1) x */
  ghost predicate Multiples<G(!new)>(g: Group<G>, row: seq<G>, x: G) {
    |row| == 8 && forall j | 0 <= j < 8 :: row[j] == Times(g, j + 1, x)
  }

  /** Every row entry is visited; exactly the one whose index matches |b| is kept, and negated for a negative b. */
  method SelectPoint<G(!new)>(g: Group<G>, row: seq<G>, b: int, ghost x: G) returns (t: G)
    requires Abelian(g) && Multiples(g, row, x) && -8 <= b <= 8
    ensures t == Times(g, b, x)
  {
    hide Abelian, Times, Equal, Negative, Abs, Word, Small;
    var bNegative := Negative(Word(b));
    var bAbs := Abs(Word(b));
    ghost var n := if b < 0 then -b else b;
    WordParts(b);
    TimesNothing(g, x);
    t := g.zero;
    var i := 0;
    while i < 8
      invariant 0 <= i <= 8
      invariant t == if 1 <= n <= i then Times(g, n, x) else g.zero
    {
      SmallEqual(n, i + 1);
      t := Moved(t, row[i], Equal(bAbs, Small(i + 1)));
      i := i + 1;
    }
    var minusT := g.neg(t);
    TimesNeg(g, n, x);
    t := Moved(t, minusT, bNegative);
  }

  // PreComputedGroupElementCMove: limb by limb, CMove
  function Moved<G>(t: G, u: G, b: bv32): G {
    if b == 1 then u else t
  }

  // ---- the schedule: odd digits, four doublings, even digits ----

  /** e[p] + 256 e[p+2] + 256^2 e[p+4] + ... over m terms, p = 0 or 1. */
  function Strided(e: seq<int>, p: nat, m: nat): int
    requires p <= 1 && (m > 0 ==> 2 * (m - 1) + p < |e|)
    decreases m
  {
    if m == 0 then 0 else Strided(e, p, m - 1) + e[2 * (m - 1) + p] * Pow2(8 * (m - 1))
  }

  /** Sixteen times the odd half plus the even half is the whole. */
  lemma {:induction false} Halves(e: seq<int>, m: nat)
    requires 2 * m <= |e|
    ensures 16 * Strided(e, 1, m) + Strided(e, 0, m) == Weighted(e, 2 * m)
  {
    if m > 0 {
      Halves(e, m - 1);
      PowPair(m);
      WeightedPair(e, m);
      hide Weighted, Pow2;
      assert 16 * (e[2 * m - 1] * Pow2(8 * (m - 1))) == e[2 * m - 1] * (16 * Pow2(8 * (m - 1)));
    }
  }

  lemma PowPair(m: nat)
    requires m > 0
    ensures Pow2(4 * (2 * m - 2)) == Pow2(8 * (m - 1)) && Pow2(4 * (2 * m - 1)) == 16 * Pow2(8 * (m - 1))
  {
    hide Pow2;
    PowFour(2 * (m - 1));
    assert 4 * (2 * (m - 1)) == 8 * (m - 1) && 2 * (m - 1) + 1 == 2 * m - 1;
  }

  lemma WeightedPair(e: seq<int>, m: nat)
    requires 0 < 2 * m <= |e|
    ensures Weighted(e, 2 * m)
            == Weighted(e, 2 * (m - 1)) + e[2 * m - 2] * Pow2(4 * (2 * m - 2)) + e[2 * m - 1] * Pow2(4 * (2 * m - 1))
  {
    hide Pow2;
    assert Weighted(e, 2 * m - 1) == Weighted(e, 2 * m - 2) + e[2 * m - 2] * Pow2(4 * (2 * m - 2));
  }

  /** base[i][j] = (j + 1) 256^i B */
  ghost predicate BaseTable<G(!new)>(g: Group<G>, base: seq<seq<G>>, B: G) {
    |base| == 32 && forall i | 0 <= i < 32 :: Multiples(g, base[i], Times(g, Pow2(8 * i), B))
  }

  // add the digits e[p], e[p+2], ... of a stride to h
  method AddStride<G(!new)>(g: Group<G>, start: G, e: seq<int>, p: nat, base: seq<seq<G>>, ghost B: G) returns (h: G)
    requires Abelian(g) && |e| == 64 && SignedDigits(e) && p <= 1 && BaseTable(g, base, B)
    ensures h == g.add(start, Times(g, Strided(e, p, 32), B))
  {
    hide Abelian, Times, Multiples, Pow2;
    h := start;
    TimesNothing(g, B);
    Laws(g, start, start, start);
    var i := p;
    while i < 64
      invariant p <= i <= 64 + p && (i - p) % 2 == 0
      invariant h == g.add(start, Times(g, Strided(e, p, (i - p) / 2), B))
    {
      ghost var m := (i - p) / 2;
      assert i / 2 == m;
      var t := SelectPoint(g, base[i / 2], e[i], Times(g, Pow2(8 * m), B));
      ScaledTerm(g, e[i], Pow2(8 * m), B);
      TimesAdd(g, Strided(e, p, m), e[i] * Pow2(8 * m), B);
      Laws(g, start, Times(g, Strided(e, p, m), B), t);
      h := g.add(h, t);
      i := i + 2;
    }
  }

  lemma ScaledTerm<G(!new)>(g: Group<G>, n: int, k: nat, x: G)
    requires Abelian(g)
    ensures Times(g, n, Times(g, k, x)) == Times(g, n * k, x)
  {
    hide Abelian;
    if n >= 0 {
      TimesTimes(g, k, n, x);
      assert k * n == n * k;
    } else {
      TimesTimes(g, k, -n, x);
      TimesNeg(g, -n, Times(g, k, x));
      TimesNeg(g, k * -n, x);
      assert -(k * -n) == n * k;
    }
  }

  /** h = a B for every a with a[31] <= 127. */
  method ScalarMultBase<G(!new)>(g: Group<G>, a: array<byte>, base: seq<seq<G>>, ghost B: G) returns (h: G)
    requires Abelian(g) && a.Length == 32 && a[31] <= 127 && BaseTable(g, base, B)
    ensures h == Times(g, Le(a[..]), B)
  {
    hide Abelian, Times, BaseTable, Weighted, Strided, Le, Pow2, Field, SignedDigits;
    ghost var n := Le(a[..]);
    var e := new int[64];
    Split(e, a);
    NibbleBounds(n, a[..]);
    Nibbles(e[..], n, 64);
    WholeField(a[..]);
    Carry(e);
    var digits := e[..];
    h := AddStride(g, g.zero, digits, 1, base, B);
    ghost var odd := Strided(digits, 1, 32);
    Laws(g, Times(g, odd, B), g.zero, g.zero);
    h := g.add(h, h);
    TimesAdd(g, odd, odd, B);
    h := g.add(h, h);
    TimesAdd(g, 2 * odd, 2 * odd, B);
    h := g.add(h, h);
    TimesAdd(g, 4 * odd, 4 * odd, B);
    h := g.add(h, h);
    TimesAdd(g, 8 * odd, 8 * odd, B);
    h := AddStride(g, h, digits, 0, base, B);
    TimesAdd(g, 16 * odd, Strided(digits, 0, 32), B);
    Halves(digits, 32);
  }

  lemma NibbleBounds(n: nat, b: seq<byte>)
    requires |b| == 32 && n == Le(b) && b[31] <= 127
    ensures forall k: nat :: 0 <= Field(n, 4 * k, 4) <= 15
    ensures Field(n, 4 * 63, 4) <= 7
  {
    hide Le, Shr, Low;
    PowValues();
    LeByte(b, 31);
    FieldJoin(n, 248, 4, 4);
  }
}
