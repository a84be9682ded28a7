/** The signed sliding-window recoding of a scalar: odd digits in [-15, 15], at least five positions apart. */
module Slide {
  import opened Machine
  import opened Bits

  /** r[i] + 2 r[i+1] + 4 r[i+2] + ... */
  function Sum(r: seq<int>, i: nat): int
    requires i <= |r|
    decreases |r| - i
  {
    if i == |r| then 0 else r[i] + 2 * Sum(r, i + 1)
  }

  predicate Bit(x: int) {
    x == 0 || x == 1
  }

  lemma {:induction false} SumSuffix(r: seq<int>, s: seq<int>, i: nat)
    requires |r| == |s| && i <= |r| && forall k | i <= k < |r| :: r[k] == s[k]
    ensures Sum(r, i) == Sum(s, i)
    decreases |r| - i
  {
    if i < |r| {
      SumSuffix(r, s, i + 1);
    }
  }

  lemma {:induction false} SumUpdate(r: seq<int>, k: nat, x: int, i: nat)
    requires i <= k < |r|
    ensures Sum(r[k := x], i) == Sum(r, i) + (x - r[k]) * Pow2(k - i)
    decreases k - i
  {
    if i == k {
      SumSuffix(r[k := x], r, i + 1);
    } else {
      SumUpdate(r, k, x, i + 1);
      assert (x - r[k]) * Pow2(k - i) == 2 * ((x - r[k]) * Pow2(k - i - 1));
    }
  }

  lemma {:induction false} BitsRange(r: seq<int>, i: nat)
    requires i <= |r| && forall k | i <= k < |r| :: Bit(r[k])
    ensures 0 <= Sum(r, i) < Pow2(|r| - i)
    decreases |r| - i
  {
    if i < |r| {
      BitsRange(r, i + 1);
    }
  }

  /** The window at an odd n takes four bits; a fifth one turns it negative, and the carry may leave w bits. */
  function Carries(n: nat, w: nat): bool {
    n % 2 == 1 && n / 16 % 2 == 1 && n - n % 16 + 16 >= Pow2(w)
  }

  /** What is left of n for the positions above. */
  function Rest(n: nat): nat {
    if n % 2 == 0 then n / 2 else if n / 16 % 2 == 0 then (n - n % 16) / 2 else (n - n % 16 + 16) / 2
  }

  /**
   * Whether recoding an n of w bits carries out of the top. At each position this is the guard of the branch that
   * fails: a window that turns negative while only ones are left above it. Nothing but n decides it.
   */
  function Lost(n: nat, w: nat): bool
    decreases w
  {
    if w == 0 || n == 0 then false else Carries(n, w) || Lost(Rest(n), w - 1)
  }

  /** No carry is lost for n up to half the range. */
  lemma {:induction false} SmallKept(n: nat, w: nat)
    requires w > 0 && n <= Pow2(w - 1)
    ensures !Lost(n, w)
    decreases w
  {
    if n > 0 {
      RestSmall(n, w);
      hide Pow2, Rest, Carries;
      if w > 1 {
        SmallKept(Rest(n), w - 1);
      }
    }
  }

  lemma RestSmall(n: nat, w: nat)
    requires w > 0 && 0 < n <= Pow2(w - 1)
    ensures !Carries(n, w) && (w > 1 ==> Rest(n) <= Pow2(w - 2))
  {
    PowZero();
    hide Pow2;
    PowNext(w - 1);
    if w > 1 {
      PowNext(w - 2);
      if n % 2 == 1 && n / 16 % 2 == 1 {
        Multiple32(n, w);
      }
    }
  }

  lemma Multiple32(n: nat, w: nat)
    requires w > 1 && n < Pow2(w - 1) && n / 16 % 2 == 1
    ensures n - n % 16 + 16 <= Pow2(w - 1)
  {
    SmallPowers(4);
    SmallPowers(5);
    hide Pow2;
    if w <= 5 {
      PowAdd(w - 1, 5 - w);
      AtMost(Pow2(w - 1), Pow2(5 - w));
    } else {
      PowAdd(5, w - 6);
      Round32(n, Pow2(w - 6));
    }
  }

  lemma AtMost(m: int, k: int)
    requires m > 0 && k > 0
    ensures m <= m * k
  {
  }

  lemma Round32(n: nat, k: int)
    requires n < 32 * k && n / 16 % 2 == 1
    ensures n - n % 16 + 16 <= 32 * k
  {
  }

  /** r[j] is a digit of the recoding. */
  predicate Digit(x: int) {
    x == 0 || (x % 2 == 1 && -15 <= x <= 15)
  }

  /** The recoding of positions below i: odd digits at least five apart. */
  predicate Recoded(r: seq<int>, i: nat)
    requires i <= |r|
  {
    && (forall j | 0 <= j < i :: Digit(r[j]))
    && (forall j, k | 0 <= j < i && j < k < j + 5 && k < |r| && r[j] != 0 :: r[k] == 0)
  }

  // add 2^at to the bits from position at up
  method Propagate(r: array<int>, at: nat, ghost base: nat) returns (lost: bool)
    requires r.Length == 256 && base <= at < 256 && r[at] == 1
    requires forall k | at <= k < 256 :: Bit(r[k])
    modifies r
    ensures forall k | 0 <= k < at :: r[k] == old(r[k])
    ensures forall k | at <= k < 256 :: Bit(r[k])
    ensures r[at] == 0
    ensures lost ==> forall k | at <= k < 256 :: r[k] == 0
    ensures Sum(r[..], base) == old(Sum(r[..], base)) + Pow2(at - base) - (if lost then Pow2(256 - base) else 0)
  {
    hide Sum, Pow2;
    var k := at;
    while k < 256 && r[k] != 0
      invariant at <= k <= 256
      invariant forall j | 0 <= j < at || k <= j < 256 :: r[j] == old(r[j])
      invariant forall j | at <= j < k :: r[j] == 0
      invariant Sum(r[..], base) + Pow2(k - base) == old(Sum(r[..], base)) + Pow2(at - base)
    {
      ghost var s := r[..];
      SumUpdate(s, k, 0, base);
      r[k] := 0;
      assert r[..] == s[k := 0];
      PowNext(k - base);
      k := k + 1;
    }
    lost := k == 256;
    if !lost {
      ghost var s := r[..];
      SumUpdate(s, k, 1, base);
      r[k] := 1;
      assert r[..] == s[k := 1];
    }
  }

  /** Zeros between positions i and i + b. */
  lemma {:induction false} SumSkip(r: seq<int>, i: nat, b: nat)
    requires i + b <= |r| && b > 0 && forall k | i < k < i + b :: r[k] == 0
    ensures Sum(r, i) == r[i] + Pow2(b) * Sum(r, i + b)
    decreases b
  {
    if b > 1 {
      SumSkip(r, i, b - 1);
      assert Pow2(b - 1) * (2 * Sum(r, i + b)) == Pow2(b) * Sum(r, i + b);
    }
  }

  /** The digit that a window starting at an odd n settles on once its first b - 1 positions are absorbed. */
  function Absorbed(n: int, b: nat): int {
    if b <= 4 then n % Pow2(b) else if n / 16 % 2 == 1 then n % 16 - 16 else n % 16
  }

  lemma AbsorbStep(n: int, b: nat, bit: int, rest: int)
    requires 1 <= b <= 4 && Bit(bit) && n == n % Pow2(b) + Pow2(b) * (bit + 2 * rest)
    ensures b < 4 ==> n % Pow2(b + 1) == n % Pow2(b) + bit * Pow2(b)
    ensures b == 4 ==> n / 16 % 2 == bit
  {
    ModUnique(n, Pow2(b), bit + 2 * rest, n % Pow2(b));
    PowNext(b);
    ScaledBit(Pow2(b), n % Pow2(b), bit);
    ModUnique(n, Pow2(b + 1), rest, n % Pow2(b) + bit * Pow2(b));
    assert b == 4 ==> Pow2(b) == 16;
  }

  lemma ScaledBit(m: int, x: int, bit: int)
    requires 0 <= x < m && Bit(bit)
    ensures 0 <= x + bit * m < 2 * m
  {
  }

  // int8 arithmetic on digits and shifted bits does not wrap
  lemma NarrowShift(x: int, b: nat)
    requires -15 <= x <= 15 && 0 < b <= 6
    ensures Int8(Shl(1, b)) == Shl(1, b) == Pow2(b)
    ensures Int8(x + Shl(1, b)) == x + Pow2(b) && Int8(x - Shl(1, b)) == x - Pow2(b)
  {
    hide Int8;
    SmallPowers(b);
  }

  // r[i] += r[i+b] << b; r[i+b] = 0
  method Absorb(r: array<int>, i: nat, b: nat)
    requires r.Length == 256 && 0 < b <= 6 && i + b < 256 && r[i + b] == 1 && -15 <= r[i] <= 15
    modifies r
    ensures r[i] == old(r[i]) + Pow2(b) && r[i + b] == 0
    ensures forall k | 0 <= k < 256 && k != i && k != i + b :: r[k] == old(r[k])
    ensures Sum(r[..], i) == old(Sum(r[..], i))
  {
    hide Sum, Pow2, Int8;
    ghost var s := r[..];
    NarrowShift(r[i], b);
    var v := Int8(r[i] + Int8(Shl(r[i + b], b)));
    SumUpdate(s, i, v, i);
    SumUpdate(s[i := v], i + b, 0, i);
    PowZero();
    r[i] := v;
    r[i + b] := 0;
    assert r[..] == s[i := v][i + b := 0];
  }

  // r[i] -= r[i+b] << b, and the bits from i+b up make up for it
  method Borrow(r: array<int>, i: nat, b: nat) returns (lost: bool)
    requires r.Length == 256 && 0 < b <= 6 && i + b < 256 && r[i + b] == 1 && -15 <= r[i] <= 15
    requires forall k | i < k < 256 :: Bit(r[k])
    modifies r
    ensures r[i] == old(r[i]) - Pow2(b) && r[i + b] == 0
    ensures forall k | 0 <= k < i || i < k < i + b :: r[k] == old(r[k])
    ensures forall k | i < k < 256 :: Bit(r[k])
    ensures lost ==> forall k | i + b <= k < 256 :: r[k] == 0
    ensures Sum(r[..], i) == old(Sum(r[..], i)) - (if lost then Pow2(256 - i) else 0)
  {
    hide Sum, Pow2, Int8;
    ghost var s := r[..];
    NarrowShift(r[i], b);
    var v := Int8(r[i] - Int8(Shl(r[i + b], b)));
    SumUpdate(s, i, v, i);
    PowZero();
    r[i] := v;
    assert r[..] == s[i := v];
    lost := Propagate(r, i + b, i);
  }

  // absorb the next six positions into the odd digit at position i
  method Window(r: array<int>, i: nat) returns (lost: bool)
    requires r.Length == 256 && i < 256 && r[i] == 1
    requires forall k | i <= k < 256 :: Bit(r[k])
    modifies r
    ensures forall k | 0 <= k < i :: r[k] == old(r[k])
    ensures forall k | i < k < 256 :: Bit(r[k])
    ensures forall k | i < k < i + 5 && k < 256 :: r[k] == 0
    ensures lost ==> forall k | i < k < 256 :: r[k] == 0
    ensures var n := old(Sum(r[..], i));
            && n >= 0 && r[i] == Absorbed(n, 5)
            && Sum(r[..], i) == n - (if lost then Pow2(256 - i) else 0)
  {
    hide Sum, Pow2, Absorbed, Int8;
    ghost var n := Sum(r[..], i);
    BitsRange(r[..], i);
    FirstBit(r[..], i);
    lost := false;
    var b := 1;
    while b <= 6 && i + b < 256
      invariant 1 <= b <= 7 && i + b <= 256
      invariant forall k | 0 <= k < i :: r[k] == old(r[k])
      invariant forall k | i < k < 256 :: Bit(r[k])
      invariant forall k | i < k < i + b && k < i + 5 :: r[k] == 0
      invariant r[i] == Absorbed(n, b)
      invariant lost ==> b > 4 && forall k | i < k < 256 :: r[k] == 0
      invariant Sum(r[..], i) == n - (if lost then Pow2(256 - i) else 0)
    {
      AbsorbCases(n, b);
      if b <= 4 {
        SumSkip(r[..], i, b);
        SumStep(r[..], i + b);
        AbsorbBit(n, b, r[i + b], Sum(r[..], i + b + 1));
      }
      if r[i + b] != 0 {
        AbsorbRange(n, b);
        NarrowShift(r[i], b);
        if Int8(r[i] + Int8(Shl(r[i + b], b))) <= 15 {
          Absorb(r, i, b);
        } else if Int8(r[i] - Int8(Shl(r[i + b], b))) >= -15 {
          lost := Borrow(r, i, b);
        } else {
          break;
        }
      }
      b := b + 1;
    }
    AbsorbEnd(n, i, b);
  }

  lemma AbsorbEnd(n: int, i: nat, b: nat)
    requires b >= 5 || (1 <= b <= 4 && i + b == 256 && 0 <= n < Pow2(256 - i))
    ensures Absorbed(n, b) == Absorbed(n, 5)
  {
    if b <= 4 {
      SmallPowers(b);
    }
  }

  // how a set bit at distance b compares with the digit
  lemma AbsorbCases(n: int, b: nat)
    requires 1 <= b <= 6 && n % 2 == 1
    ensures b <= 3 ==> Absorbed(n, b) + Pow2(b) <= 15
    ensures b == 4 ==> Absorbed(n, b) + Pow2(b) > 15 && Absorbed(n, b) - Pow2(b) >= -15
    ensures b >= 5 ==> Absorbed(n, b) + Pow2(b) > 15 && Absorbed(n, b) - Pow2(b) < -15
    ensures b >= 5 ==> Absorbed(n, b) == Absorbed(n, 5) == Absorbed(n, b + 1)
  {
    SmallPowers(b);
    AbsorbRange(n, b);
  }

  lemma AbsorbBit(n: int, b: nat, bit: int, rest: int)
    requires 1 <= b <= 4 && Bit(bit) && n % 2 == 1 && n == Absorbed(n, b) + Pow2(b) * (bit + 2 * rest)
    ensures Absorbed(n, b + 1) == if b <= 3 then Absorbed(n, b) + bit * Pow2(b) else Absorbed(n, b) - bit * Pow2(b)
  {
    SmallPowers(b);
    AbsorbStep(n, b, bit, rest);
  }

  lemma FirstBit(r: seq<int>, i: nat)
    requires i < |r| && r[i] == 1 && forall k | i <= k < |r| :: Bit(r[k])
    ensures Sum(r, i) % 2 == 1 && Absorbed(Sum(r, i), 1) == 1
  {
    SumStep(r, i);
    SmallPowers(1);
    hide Sum, Pow2;
    assert (1 + 2 * Sum(r, i + 1)) % 2 == 1;
  }

  lemma SumStep(r: seq<int>, i: nat)
    requires i < |r|
    ensures Sum(r, i) == r[i] + 2 * Sum(r, i + 1)
  {
  }

  lemma SmallPowers(b: nat)
    requires b <= 7
    ensures Pow2(b) == [1, 2, 4, 8, 16, 32, 64, 128][b]
  {
    assert Pow2(3) == 8 && Pow2(5) == 32 && Pow2(7) == 128;
  }

  // the digit of an odd n is odd, and positive until position 4 is absorbed
  lemma AbsorbRange(n: int, b: nat)
    requires 1 <= b <= 7 && n % 2 == 1
    ensures Absorbed(n, b) % 2 == 1 && -15 <= Absorbed(n, b) <= 15
    ensures b <= 4 ==> 1 <= Absorbed(n, b) < Pow2(b)
  {
    if b <= 4 {
      OddRemainder(n, b);
      RestBound(n, Pow2(b));
      NoMoreThan16(b);
      hide Pow2;
    } else {
      AbsorbHigh(n);
    }
  }

  lemma AbsorbHigh(n: int)
    requires n % 2 == 1
    ensures n % 16 % 2 == 1 && (n % 16 - 16) % 2 == 1
  {
    OddRest(n, 8);
  }

  lemma NoMoreThan16(b: nat)
    requires b <= 4
    ensures Pow2(b) <= 16
  {
    PowAdd(b, 4 - b);
    AtMost(Pow2(b), Pow2(4 - b));
  }

  lemma RestBound(n: int, m: int)
    requires m > 0
    ensures 0 <= n % m < m
  {
  }

  lemma OddRemainder(n: int, b: nat)
    requires 1 <= b <= 4 && n % 2 == 1
    ensures n % Pow2(b) % 2 == 1
  {
    hide Pow2;
    PowNext(b - 1);
    OddRest(n, Pow2(b - 1));
  }

  lemma OddRest(n: int, m: int)
    requires m > 0 && n % 2 == 1
    ensures n % (2 * m) % 2 == 1
  {
    var q := n / (2 * m);
    assert n == 2 * (m * q) + n % (2 * m);
  }

  // ---- the whole recoding ----

  lemma {:induction false} SumPrefix(r: seq<int>, s: seq<int>, i: nat, j: nat)
    requires |r| == |s| && j <= i <= |r| && forall k | 0 <= k < i :: r[k] == s[k]
    ensures Sum(r, j) - Sum(s, j) == Pow2(i - j) * (Sum(r, i) - Sum(s, i))
    decreases i - j
  {
    if j < i {
      SumPrefix(r, s, i, j + 1);
      assert 2 * (Pow2(i - j - 1) * (Sum(r, i) - Sum(s, i))) == Pow2(i - j) * (Sum(r, i) - Sum(s, i));
    }
  }

  /** The bits of n, read one at a time, sum up to n. */
  lemma {:induction false} BitsOf(r: seq<int>, n: nat, i: nat)
    requires i <= |r| && forall k | 0 <= k < |r| :: r[k] == Field(n, k, 1)
    ensures Sum(r, i) == Field(n, i, |r| - i)
    decreases |r| - i
  {
    hide Field;
    if i < |r| {
      BitsOf(r, n, i + 1);
      FieldJoin(n, i, 1, |r| - i - 1);
      PowNext(0);
    } else {
      NoField(n, i);
    }
  }

  lemma BitOf(b: seq<byte>, i: nat)
    requires i < 8 * |b|
    ensures And(1, Shr(b[i / 8], i % 8)) == Field(Le(b), i, 1)
  {
    hide And, Le, Shr, Low;
    LeByte(b, i / 8);
    PowNext(0);
    PowZero();
    AndMask(1, Shr(b[i / 8], i % 8));
    FieldField(Le(b), 8 * (i / 8), 8, i % 8, 1);
  }

  // what one window does to the loss of a carry
  lemma LostStep(n: int, w: nat, rest: int, lost: bool)
    requires w > 0 && 0 <= n < Pow2(w) && n % 2 == 1 && 0 <= rest < Pow2(w - 1)
    requires Absorbed(n, 5) + 2 * rest == n - (if lost then Pow2(w) else 0)
    ensures Lost(n, w) <==> lost || Lost(rest, w - 1)
    ensures lost ==> n / 16 % 2 == 1
  {
    hide Lost;
    LostOdd(n, w);
    PowNext(w - 1);
  }

  lemma LostOdd(n: nat, w: nat)
    requires w > 0 && n % 2 == 1
    ensures Lost(n, w) == if n / 16 % 2 == 0 then Lost((n - n % 16) / 2, w - 1)
                          else n - n % 16 + 16 >= Pow2(w) || Lost((n - n % 16 + 16) / 2, w - 1)
  {
  }

  lemma LostEven(n: nat, w: nat)
    requires w > 0
    ensures Lost(2 * n, w) == Lost(n, w - 1)
    ensures !Lost(0, w - 1)
  {
    RestEven(n, w);
    hide Rest, Carries;
  }

  lemma RestEven(n: nat, w: nat)
    ensures Rest(2 * n) == n && !Carries(2 * n, w)
  {
  }

  // one position of the main loop
  method Position(r: array<int>, i: nat) returns (lost: bool)
    requires r.Length == 256 && i < 256 && Recoded(r[..], i)
    requires forall k | i <= k < 256 :: Bit(r[k])
    modifies r
    ensures Recoded(r[..], i + 1)
    ensures forall k | i + 1 <= k < 256 :: Bit(r[k])
    ensures old(Sum(r[..], i)) >= 0 && Sum(r[..], i + 1) >= 0
    ensures Lost(old(Sum(r[..], i)), 256 - i) <==> lost || Lost(Sum(r[..], i + 1), 255 - i)
    ensures lost || old(Sum(r[..], i)) == 0 ==> Sum(r[..], i + 1) == 0
    ensures Sum(r[..], 0) == old(Sum(r[..], 0)) - (if lost then Pow2(256) else 0)
  {
    hide Sum, Pow2, Lost, Recoded, Absorbed;
    ghost var s := r[..];
    BitsRange(s, i);
    BitsRange(s, i + 1);
    SumStep(s, i);
    if r[i] == 0 {
      lost := false;
      LostEven(Sum(s, i + 1), 256 - i);
      RecodedNext(s, r[..], i);
    } else {
      lost := Window(r, i);
      AbsorbRange(Sum(s, i), 5);
      RecodedNext(s, r[..], i);
      BitsRange(r[..], i + 1);
      SumStep(r[..], i);
      LossAtZero(s, r[..], i, lost);
      LostStep(Sum(s, i), 256 - i, Sum(r[..], i + 1), lost);
      if lost {
        AllZero(r[..], i + 1);
      }
    }
  }

  lemma LossAtZero(s: seq<int>, r: seq<int>, i: nat, lost: bool)
    requires |s| == |r| == 256 && i <= 256 && forall k | 0 <= k < i :: r[k] == s[k]
    requires Sum(r, i) == Sum(s, i) - (if lost then Pow2(256 - i) else 0)
    ensures Sum(r, 0) == Sum(s, 0) - (if lost then Pow2(256) else 0)
  {
    hide Sum, Pow2;
    SumPrefix(r, s, i, 0);
    PowAdd(i, 256 - i);
    assert lost ==> Pow2(i) * -Pow2(256 - i) == -Pow2(256);
  }

  lemma RecodedNext(s: seq<int>, r: seq<int>, i: nat)
    requires |s| == |r| && i < |s| && Recoded(s, i)
    requires forall k | 0 <= k < i :: r[k] == s[k]
    requires (r == s && r[i] == 0) || (s[i] != 0 && Digit(r[i]) && forall k | i < k < i + 5 && k < |r| :: r[k] == 0)
    ensures Recoded(r, i + 1)
  {
  }

  lemma {:induction false} AllZero(r: seq<int>, i: nat)
    requires i <= |r| && forall k | i <= k < |r| :: r[k] == 0
    ensures Sum(r, i) == 0
    decreases |r| - i
  {
    if i < |r| {
      AllZero(r, i + 1);
    }
  }

  /** slide recodes a into signed digits; they sum up to a unless a carry runs off position 255. */
  method Recode(r: array<int>, a: array<byte>)
    requires r.Length == 256 && a.Length == 32
    modifies r
    ensures Recoded(r[..], 256)
    ensures Sum(r[..], 0) == Le(a[..]) - (if Lost(Le(a[..]), 256) then Pow2(256) else 0)
  {
    hide Sum, Pow2, Lost, Le, And, Shr, Field;
    ghost var b := a[..];
    ghost var n := Le(b);
    var i := 0;
    while i < 256
      invariant 0 <= i <= 256 && a[..] == b
      invariant forall k | 0 <= k < i :: r[k] == Field(n, k, 1)
    {
      BitOf(b, i);
      r[i] := And(1, Shr(a[i / 8], i % 8));
      i := i + 1;
    }
    BitsOf(r[..], n, 0);
    LeBound(b, 0);
    WholeField(b);
    assert forall k | 0 <= k < 256 :: Bit(r[k]) by { OneBit(n); }
    ghost var lost := false;
    i := 0;
    while i < 256
      invariant 0 <= i <= 256 && a[..] == b
      invariant Recoded(r[..], i)
      invariant forall k | i <= k < 256 :: Bit(r[k])
      invariant Sum(r[..], i) >= 0 && (lost ==> Sum(r[..], i) == 0)
      invariant Lost(n, 256) <==> lost || Lost(Sum(r[..], i), 256 - i)
      invariant Sum(r[..], 0) == n - (if lost then Pow2(256) else 0)
    {
      LostEven(0, 256 - i);
      LostNone(Sum(r[..], i), 256 - i);
      var now := Position(r, i);
      lost := lost || now;
      i := i + 1;
    }
    LostNone(Sum(r[..], 256), 0);
  }

  lemma OneBit(n: nat)
    ensures forall k: nat :: Bit(Field(n, k, 1))
  {
    PowNext(0);
  }

  lemma LostNone(n: nat, w: nat)
    ensures !Lost(0, w) && (w == 0 ==> !Lost(n, w))
  {
  }

  /** Every scalar below 2^255 is recoded exactly. */
  lemma BelowHalf(n: nat)
    requires n < Pow2(255)
    ensures !Lost(n, 256)
  {
    SmallKept(n, 256);
  }

  /** Above that a carry can run off the top: 2^255 + 2^251 recodes to digits with sum 2^255 + 2^251 - 2^256. */
  lemma LostWitness()
    ensures Lost(Pow2(255) + Pow2(251), 256)
  {
    hide Lost, Pow2;
    PowAdd(4, 251);
    SmallPowers(4);
    EvenSteps(17, 251, 5);
    PowAdd(0, 0);
    LostOdd(17, 5);
    SmallPowers(5);
  }

  lemma {:induction false} EvenSteps(n: nat, k: nat, w: nat)
    ensures Lost(n * Pow2(k), w + k) == Lost(n, w)
  {
    hide Lost, Pow2;
    if k == 0 {
      PowZero();
    } else {
      EvenSteps(n, k - 1, w);
      PowNext(k - 1);
      assert n * Pow2(k) == 2 * (n * Pow2(k - 1));
      LostEven(n * Pow2(k - 1), w + k);
    }
  }
}
