/** Shifts, masks and bitwise operators on integers, and little-endian byte strings. */
module Bits {
  import opened Machine

  function Pow2(k: nat): (r: int)
    ensures r > 0
  {
    if k == 0 then 1 else 2 * Pow2(k - 1)
  }

  /** x >> k on a signed word: rounds towards minus infinity. */
  function Shr(x: int, k: nat): (r: int)
    ensures x >= 0 ==> r >= 0
  {
    DivSign(x, Pow2(k));
    x / Pow2(k)
  }

  /** x << k before the word cuts it off. */
  function Shl(x: int, k: nat): (r: int)
    ensures x >= 0 ==> r >= 0
  {
    x * Pow2(k)
  }

  /** The k low bits of x. */
  function Low(x: int, k: nat): (r: nat)
    ensures r < Pow2(k)
  {
    x % Pow2(k)
  }

  /** Bits p .. p+w of n. */
  function Field(n: int, p: nat, w: nat): (r: nat)
    ensures r < Pow2(w)
  {
    Low(Shr(n, p), w)
  }

  lemma DivSign(x: int, m: int)
    requires m > 0
    ensures x >= 0 ==> x / m >= 0
  {
  }

  lemma MulAtLeast(m: int, d: int)
    requires m > 0
    ensures d >= 1 ==> m * d >= m
    ensures d <= -1 ==> m * d <= -m
  {
  }

  lemma ModUnique(x: int, m: int, q: int, r: int)
    requires x == m * q + r && 0 <= r < m
    ensures x % m == r && x / m == q
  {
    var d := x / m - q;
    assert m * d == r - x % m;
    MulAtLeast(m, d);
  }

  lemma {:induction false} PowAdd(a: nat, b: nat)
    ensures Pow2(a + b) == Pow2(a) * Pow2(b)
  {
    if a > 0 {
      PowAdd(a - 1, b);
      assert Pow2(a) * Pow2(b) == 2 * (Pow2(a - 1) * Pow2(b));
    }
  }

  lemma PowZero()
    ensures Pow2(0) == 1
  {
  }

  lemma PowNext(k: nat)
    ensures Pow2(k + 1) == 2 * Pow2(k)
  {
  }

  lemma Seven()
    ensures Pow2(7) == 128
  {
  }

  lemma PowValues()
    ensures Pow2(4) == 0x10 && Pow2(8) == 0x100 && Pow2(21) == 0x20_0000 && Pow2(23) == 0x80_0000
            && Pow2(24) == 0x100_0000
    ensures Pow2(25) == 0x200_0000 && Pow2(26) == 0x400_0000 && Pow2(29) == 0x2000_0000 && Pow2(32) == 0x1_0000_0000
    ensures Pow2(51) == 0x8_0000_0000_0000
  {
    assert Pow2(4) == 0x10;
    PowAdd(4, 4);
    PowAdd(8, 8);
    PowAdd(16, 8);
    assert Pow2(5) == 0x20;
    PowAdd(16, 5);
    assert Pow2(2) == 4;
    PowAdd(21, 2);
    PowAdd(21, 4);
    PowAdd(21, 5);
    PowAdd(25, 4);
    PowAdd(16, 16);
    PowAdd(25, 26);
  }

  lemma Parts(n: int, k: nat)
    ensures n == Pow2(k) * Shr(n, k) + Low(n, k)
  {
  }

  lemma Unique(n: int, k: nat, q: int, r: int)
    requires n == Pow2(k) * q + r && 0 <= r < Pow2(k)
    ensures Shr(n, k) == q && Low(n, k) == r
  {
    ModUnique(n, Pow2(k), q, r);
  }

  /** Shifting in two steps, and the low bits of both steps together. */
  lemma Twice(n: int, a: nat, b: nat)
    ensures Shr(Shr(n, a), b) == Shr(n, a + b)
    ensures Low(n, a + b) == Low(n, a) + Pow2(a) * Low(Shr(n, a), b)
  {
    hide Shr, Low, Pow2;
    var q, r := Shr(Shr(n, a), b), Low(Shr(n, a), b);
    Parts(n, a);
    Parts(Shr(n, a), b);
    PowAdd(a, b);
    Nested(n, Pow2(a), Pow2(b), Shr(n, a), q, r, Low(n, a));
    ScaledBound(Pow2(a), Pow2(b), r, Low(n, a));
    Unique(n, a + b, q, Low(n, a) + Pow2(a) * r);
  }

  lemma Nested(n: int, m: int, k: int, s: int, q: int, r: int, t: int)
    requires n == m * s + t && s == k * q + r
    ensures n == m * k * q + (t + m * r)
  {
    assert m * (k * q + r) == m * (k * q) + m * r;
  }

  lemma ScaledBound(m: int, k: int, r: int, t: int)
    requires 0 <= r < k && 0 <= t < m
    ensures 0 <= t + m * r < m * k
  {
    assert m * r <= m * (k - 1);
  }

  /** A field of a field is a field. */
  lemma FieldField(n: int, p: nat, w: nat, s: nat, v: nat)
    requires s + v <= w
    ensures Field(Field(n, p, w), s, v) == Field(n, p + s, v)
  {
    hide Shr, Low, Pow2;
    var m := Shr(n, p);
    Twice(n, p, s);
    LowShr(m, w, s);
    LowLow(Shr(m, s), w - s, v);
  }

  lemma LowShr(m: int, w: nat, s: nat)
    requires s <= w
    ensures Shr(Low(m, w), s) == Low(Shr(m, s), w - s)
  {
    hide Shr, Low, Pow2;
    Twice(m, s, w - s);
    Unique(Low(m, w), s, Low(Shr(m, s), w - s), Low(m, s));
  }

  lemma LowLow(m: int, w: nat, v: nat)
    requires v <= w
    ensures Low(Low(m, w), v) == Low(m, v)
  {
    hide Shr, Low, Pow2;
    Twice(m, v, w - v);
    Unique(Low(m, w), v, Low(Shr(m, v), w - v), Low(m, v));
  }

  /** Two adjacent fields make one. */
  lemma FieldJoin(n: int, p: nat, a: nat, b: nat)
    ensures Field(n, p, a + b) == Field(n, p, a) + Pow2(a) * Field(n, p + a, b)
  {
    hide Shr, Low, Pow2;
    Twice(n, p, a);
    Twice(Shr(n, p), a, b);
  }

  lemma ShiftNone(x: int)
    ensures Shr(x, 0) == x
  {
  }

  lemma NoField(n: int, p: nat)
    ensures Field(n, p, 0) == 0
  {
  }

  lemma FieldZero(n: int, w: nat)
    ensures Field(n, 0, w) == Low(n, w)
  {
  }

  lemma {:induction false} SmallLow(n: int, k: nat)
    requires 0 <= n < Pow2(k)
    ensures Low(n, k) == n && Shr(n, k) == 0
  {
    Unique(n, k, 0, n);
  }

  lemma ShrBound(n: nat, p: nat, w: nat)
    requires n < Pow2(p + w)
    ensures Shr(n, p) == Field(n, p, w)
  {
    hide Shr, Low, Pow2;
    Twice(n, p, w);
    SmallLow(n, p + w);
    Parts(Shr(n, p), w);
  }

  // ---- bitwise operators ----

  function And(x: nat, y: nat): nat {
    if x == 0 then 0 else (if x % 2 == 1 && y % 2 == 1 then 1 else 0) + 2 * And(x / 2, y / 2)
  }

  function Or(x: nat, y: nat): nat
    decreases x + y
  {
    if x + y == 0 then 0 else (if x % 2 == 1 || y % 2 == 1 then 1 else 0) + 2 * Or(x / 2, y / 2)
  }

  function Xor(x: nat, y: nat): nat
    decreases x + y
  {
    if x + y == 0 then 0 else (if x % 2 != y % 2 then 1 else 0) + 2 * Xor(x / 2, y / 2)
  }

  /** Masking with k ones keeps the k low bits. */
  lemma {:induction false} AndMask(k: nat, x: nat)
    ensures And(Pow2(k) - 1, x) == Low(x, k)
  {
    if k > 0 {
      AndMask(k - 1, x / 2);
      LowHalf(x, k);
      hide Low, Pow2;
      AndHalf(k, x);
    }
  }

  lemma AndHalf(k: nat, x: nat)
    requires k > 0
    ensures And(Pow2(k) - 1, x) == x % 2 + 2 * And(Pow2(k - 1) - 1, x / 2)
  {
  }

  lemma LowHalf(x: nat, k: nat)
    requires k > 0
    ensures Low(x, k) == x % 2 + 2 * Low(x / 2, k - 1)
  {
    Twice(x, 1, k - 1);
    assert Pow2(1) == 2;
  }

  /** Or-ing in a value shifted above the other operand adds it; so does xor-ing. */
  lemma {:induction false} OrShifted(x: nat, y: nat, k: nat)
    requires x < Pow2(k)
    ensures Or(x, Shl(y, k)) == x + Shl(y, k) == Xor(x, Shl(y, k))
  {
    if k == 0 {
      OrZero(y);
    } else {
      assert Shl(y, k) == 2 * Shl(y, k - 1);
      OrShifted(x / 2, y, k - 1);
    }
  }

  /** Or-ing or xor-ing a field to the field below it joins the two. */
  lemma OrField(n: int, p: nat, a: nat, b: nat)
    ensures Or(Field(n, p, a), Shl(Field(n, p + a, b), a)) == Field(n, p, a + b)
    ensures Xor(Field(n, p, a), Shl(Field(n, p + a, b), a)) == Field(n, p, a + b)
  {
    hide Or, Xor, Field, Pow2;
    OrShifted(Field(n, p, a), Field(n, p + a, b), a);
    FieldJoin(n, p, a, b);
  }

  lemma {:induction false} OrZero(y: nat)
    ensures Or(0, y) == y == Xor(0, y)
  {
    if y > 0 {
      OrZero(y / 2);
    }
  }

  /** byte(x): the low eight bits. */
  function LowByte(x: int): byte {
    PowValues();
    Low(x, 8)
  }

  /** A byte inside one field, and a byte that straddles two adjacent ones. */
  lemma ByteInside(v: int, p: nat, w: nat, t: nat)
    requires t + 8 <= w
    ensures LowByte(Shr(Field(v, p, w), t)) == Field(v, p + t, 8)
  {
    FieldField(v, p, w, t, 8);
  }

  lemma ByteAcross(v: int, p: nat, a: nat, b: nat, t: nat)
    requires t <= a && 8 <= a - t + b
    ensures LowByte(Or(Shr(Field(v, p, a), t), Shl(Field(v, p + a, b), a - t))) == Field(v, p + t, 8)
  {
    hide Shr, Low, Or, Shl;
    LowShr(Shr(v, p), a, t);
    Twice(v, p, t);
    OrField(v, p + t, a - t, b);
    LowLow(Shr(v, p + t), a - t + b, 8);
  }

  // ---- little-endian byte strings ----

  function LeFrom(b: seq<byte>, i: nat): (r: nat)
    requires i <= |b|
    decreases |b| - i
  {
    if i == |b| then 0 else b[i] + 256 * LeFrom(b, i + 1)
  }

  /** b[0] + 256 b[1] + 256^2 b[2] + ... */
  function Le(b: seq<byte>): nat {
    LeFrom(b, 0)
  }

  lemma {:induction false} LeShr(b: seq<byte>, i: nat)
    requires i <= |b|
    ensures Shr(Le(b), 8 * i) == LeFrom(b, i)
  {
    if i > 0 {
      LeShr(b, i - 1);
      Twice(Le(b), 8 * (i - 1), 8);
      Unique(LeFrom(b, i - 1), 8, LeFrom(b, i), b[i - 1]);
    }
  }

  /** Byte i holds bits 8i .. 8i+8. */
  lemma LeByte(b: seq<byte>, i: nat)
    requires i < |b|
    ensures Field(Le(b), 8 * i, 8) == b[i]
  {
    LeShr(b, i);
    Unique(LeFrom(b, i), 8, LeFrom(b, i + 1), b[i]);
  }

  lemma {:induction false} LeBound(b: seq<byte>, i: nat)
    requires i <= |b|
    ensures LeFrom(b, i) < Pow2(8 * (|b| - i))
    decreases |b| - i
  {
    if i < |b| {
      LeBound(b, i + 1);
      PowAdd(8, 8 * (|b| - i - 1));
    }
  }

  /** Bytes that are consecutive fields of n spell the low bits of n. */
  lemma LeOfFields(b: seq<byte>, n: int)
    requires forall i | 0 <= i < |b| :: b[i] == Field(n, 8 * i, 8)
    ensures Le(b) == Low(n, 8 * |b|)
  {
    LeOfFieldsFrom(b, n, 0);
  }

  lemma {:induction false} LeOfFieldsFrom(b: seq<byte>, n: int, i: nat)
    requires i <= |b|
    requires forall i | 0 <= i < |b| :: b[i] == Field(n, 8 * i, 8)
    ensures LeFrom(b, i) == Field(n, 8 * i, 8 * (|b| - i))
    decreases |b| - i
  {
    if i < |b| {
      LeOfFieldsFrom(b, n, i + 1);
      FieldJoin(n, 8 * i, 8, 8 * (|b| - i - 1));
    }
  }

  lemma LeIs(b: seq<byte>)
    ensures LeFrom(b, 0) == Le(b)
  {
  }

  /** 32 bytes have 256 bits. */
  lemma WholeField(b: seq<byte>)
    requires |b| == 32
    ensures Field(Le(b), 0, 256) == Le(b)
  {
    hide Le, Pow2;
    LeBound(b, 0);
    LeIs(b);
    FieldZero(Le(b), 256);
    SmallLow(Le(b), 256);
  }

  /** load3: in[i] | in[i+1] << 8 | in[i+2] << 16. */
  function Load3(b: seq<byte>, i: nat): nat
    requires i + 3 <= |b|
  {
    Or(Or(b[i], Shl(b[i + 1], 8)), Shl(b[i + 2], 16))
  }

  /** load4: in[i] | in[i+1] << 8 | in[i+2] << 16 | in[i+3] << 24. */
  function Load4(b: seq<byte>, i: nat): nat
    requires i + 4 <= |b|
  {
    Or(Load3(b, i), Shl(b[i + 3], 24))
  }

  /** Both read a field of the whole string. */
  lemma Loads(b: seq<byte>, i: nat)
    requires i + 3 <= |b|
    ensures Load3(b, i) == Field(Le(b), 8 * i, 24)
    ensures i + 4 <= |b| ==> Load4(b, i) == Field(Le(b), 8 * i, 32)
  {
    hide Or, Field, Le, Shl;
    var n := Le(b);
    LeByte(b, i);
    LeByte(b, i + 1);
    LeByte(b, i + 2);
    OrField(n, 8 * i, 8, 8);
    OrField(n, 8 * i, 16, 8);
    if i + 4 <= |b| {
      LeByte(b, i + 3);
      OrField(n, 8 * i, 24, 8);
    }
  }
}
