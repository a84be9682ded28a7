/** The wire format shared by all generated messages: varints, tags and skipping. */
module Wire {
  import opened Machine
  import opened Bits

  datatype Error =
    | IntOverflow | UnexpectedEOF | InvalidLength | WrongWireType | EndGroup | IllegalTag | IllegalWireType
    | Unreachable

  datatype Outcome<+T> = Ok(value: T) | Err(error: Error)

  /** A number read from the front of a buffer, and how many bytes it took. */
  datatype Number = Number(value: nat, size: nat)

  // ---- varints ----

  /** The bytes encodeVarintStream writes for v. */
  function Varint(v: nat): (s: seq<byte>)
    ensures |s| > 0
  {
    if v < 128 then [v] else [v % 128 + 128] + Varint(v / 128)
  }

  /** The number sovStream returns. */
  function Sov(x: nat): (n: nat)
    ensures n > 0
  {
    if x / 128 == 0 then 1 else 1 + Sov(x / 128)
  }

  lemma {:induction false} SovExact(v: nat)
    ensures |Varint(v)| == Sov(v)
  {
    if v >= 128 {
      SovExact(v / 128);
    }
  }

  /** Reading a w-bit varint from the front of d, when the bits below shift are already in acc. */
  function Uvarint(d: seq<byte>, w: nat, shift: nat, acc: nat): (r: Outcome<Number>)
    ensures r.Ok? ==> 0 < r.value.size <= |d|
    decreases |d|
  {
    if shift >= 64 then Err(IntOverflow)
    else if |d| == 0 then Err(UnexpectedEOF)
    else
      var v := Or(acc, Low(Shl(d[0] % 128, shift), w));
      if d[0] < 128 then Ok(Number(v, 1)) else Longer(Uvarint(d[1..], w, shift + 7, v))
  }

  function Longer(r: Outcome<Number>): (s: Outcome<Number>) {
    if r.Err? then r else Ok(Number(r.value.value, 1 + r.value.size))
  }

  /** What the variable holds when the reading loop ends, also when it ends in an error. */
  function Gathered(d: seq<byte>, w: nat, shift: nat, acc: nat): nat
    decreases |d|
  {
    if shift >= 64 || |d| == 0 then acc
    else
      var v := Or(acc, Low(Shl(d[0] % 128, shift), w));
      if d[0] < 128 then v else Gathered(d[1..], w, shift + 7, v)
  }

  /** On success it is the number read. */
  lemma {:induction false} GatheredRead(d: seq<byte>, w: nat, shift: nat, acc: nat)
    requires Uvarint(d, w, shift, acc).Ok?
    ensures Gathered(d, w, shift, acc) == Uvarint(d, w, shift, acc).value.value
    decreases |d|
  {
    hide Or, Low, Shl;
    if d[0] >= 128 {
      GatheredRead(d[1..], w, shift + 7, Or(acc, Low(Shl(d[0] % 128, shift), w)));
    }
  }

  function Uint(d: seq<byte>, w: nat): (r: Outcome<Number>)
    ensures r.Ok? ==> 0 < r.value.size <= |d|
  {
    Uvarint(d, w, 0, 0)
  }

  /** The first n bytes of d and of e are the same. */
  predicate Agree(d: seq<byte>, e: seq<byte>, n: nat) {
    n <= |d| && n <= |e| && d[..n] == e[..n]
  }

  lemma AgreeFirst(d: seq<byte>, e: seq<byte>, n: nat)
    requires Agree(d, e, n) && n > 0
    ensures |d| > 0 && |e| > 0 && d[0] == e[0]
  {
    assert d[0] == d[..n][0] && e[0] == e[..n][0];
  }

  lemma AgreeDrop(d: seq<byte>, e: seq<byte>, n: nat, k: nat)
    requires Agree(d, e, n) && k <= n
    ensures k <= |d| && k <= |e| && Agree(d[k..], e[k..], n - k)
  {
    assert d[k..][..n - k] == d[..n][k..];
    assert e[k..][..n - k] == e[..n][k..];
  }

  lemma AgreeLess(d: seq<byte>, e: seq<byte>, n: nat, k: nat)
    requires Agree(d, e, n) && k <= n
    ensures Agree(d, e, k)
  {
    assert d[..k] == d[..n][..k] && e[..k] == e[..n][..k];
  }

  /** What is read depends only on the bytes it takes. */
  lemma {:induction false} UvarintLocal(d: seq<byte>, e: seq<byte>, w: nat, shift: nat, acc: nat)
    requires Uvarint(d, w, shift, acc).Ok? && Agree(d, e, Uvarint(d, w, shift, acc).value.size)
    ensures Uvarint(e, w, shift, acc) == Uvarint(d, w, shift, acc)
    decreases |d|
  {
    hide Agree, Or, Low, Shl;
    var n := Uvarint(d, w, shift, acc).value.size;
    AgreeFirst(d, e, n);
    if d[0] >= 128 {
      AgreeDrop(d, e, n, 1);
      UvarintLocal(d[1..], e[1..], w, shift + 7, Or(acc, Low(Shl(d[0] % 128, shift), w)));
    }
  }

  /** The width of the variable a varint is read into does not change where the varint ends. */
  lemma {:induction false} UvarintWidth(d: seq<byte>, w: nat, u: nat, shift: nat, acc: nat, bcc: nat)
    requires Uvarint(d, w, shift, acc).Ok?
    ensures Uvarint(d, u, shift, bcc).Ok?
    ensures Uvarint(d, u, shift, bcc).value.size == Uvarint(d, w, shift, acc).value.size
    decreases |d|
  {
    hide Or, Low, Shl;
    if d[0] >= 128 {
      UvarintWidth(d[1..], w, u, shift + 7, Or(acc, Low(Shl(d[0] % 128, shift), w)),
        Or(bcc, Low(Shl(d[0] % 128, shift), u)));
    }
  }

  lemma {:induction false} OrBound(x: nat, y: nat, k: nat)
    requires x < Pow2(k) && y < Pow2(k)
    ensures Or(x, y) < Pow2(k)
    decreases k
  {
    if k > 0 {
      OrBound(x / 2, y / 2, k - 1);
    }
  }

  /** A value read into w bits has w bits. */
  lemma {:induction false} UvarintBound(d: seq<byte>, w: nat, shift: nat, acc: nat)
    requires Uvarint(d, w, shift, acc).Ok? && acc < Pow2(w)
    ensures Uvarint(d, w, shift, acc).value.value < Pow2(w)
    decreases |d|
  {
    hide Or, Shl, Pow2;
    var v := Or(acc, Low(Shl(d[0] % 128, shift), w));
    OrBound(acc, Low(Shl(d[0] % 128, shift), w), w);
    if d[0] >= 128 {
      UvarintBound(d[1..], w, shift + 7, v);
    }
  }

  /** Reading undoes writing, for every number of w <= 64 bits, whatever follows it. */
  lemma {:induction false} VarintRoundTrip(v: nat, rest: seq<byte>, w: nat, shift: nat, acc: nat)
    requires shift < w <= 64 && v < Pow2(w - shift) && acc < Pow2(shift)
    ensures Uvarint(Varint(v) + rest, w, shift, acc) == Ok(Number(acc + Shl(v, shift), |Varint(v)|))
    decreases v
  {
    hide Or, Low, Pow2, Shl;
    var d := Varint(v) + rest;
    Septet(acc, v % 128, shift, w, v);
    if v >= 128 {
      assert d[1..] == Varint(v / 128) + rest;
      NextSeptet(v, shift, w, acc);
      VarintRoundTrip(v / 128, rest, w, shift + 7, acc + Shl(v % 128, shift));
    }
  }

  lemma {:induction false} LowOr(x: nat, y: nat, w: nat)
    ensures Low(Or(x, y), w) == Or(Low(x, w), Low(y, w))
    decreases w
  {
    hide Or, Low, Pow2;
    if w > 0 {
      LowOr(x / 2, y / 2, w - 1);
      LowHalf(x, w);
      LowHalf(y, w);
      LowHalf(Or(x, y), w);
      OrBits(x % 2, x / 2, y % 2, y / 2);
      OrBits(x % 2, Low(x / 2, w - 1), y % 2, Low(y / 2, w - 1));
    } else {
      LowNone(x);
      LowNone(y);
      LowNone(Or(x, y));
    }
  }

  lemma LowNone(x: nat)
    ensures Low(x, 0) == 0 == Or(0, 0)
  {
    assert Pow2(0) == 1;
  }

  lemma OrBits(p: nat, x: nat, q: nat, y: nat)
    requires p < 2 && q < 2
    ensures var o := Or(p + 2 * x, q + 2 * y);
            o % 2 == (if p == 1 || q == 1 then 1 else 0) && o / 2 == Or(x, y)
  {
    var u, v := p + 2 * x, q + 2 * y;
    assert u / 2 == x && v / 2 == y && u % 2 == p && v % 2 == q;
  }

  /** A number of up to 64 bits is read whatever the width of the variable: its low w bits are kept. */
  lemma {:induction false} VarintCut(v: nat, rest: seq<byte>, w: nat, shift: nat, acc: nat)
    requires shift < 64 && v < Pow2(64 - shift) && acc < Pow2(shift)
    ensures Uvarint(Varint(v) + rest, w, shift, Low(acc, w)) == Ok(Number(Low(acc + Shl(v, shift), w), |Varint(v)|))
    decreases v
  {
    hide Or, Low, Pow2, Shl;
    var d := Varint(v) + rest;
    CutSeptet(acc, v % 128, shift, w);
    if v >= 128 {
      var more := acc + Shl(v % 128, shift);
      assert d[0] % 128 == v % 128 && d[0] >= 128;
      assert d[1..] == Varint(v / 128) + rest;
      NextSeptet(v, shift, 64, acc);
      hide Varint;
      VarintCut(v / 128, rest, w, shift + 7, more);
      assert more + Shl(v / 128, shift + 7) == acc + Shl(v, shift);
    }
  }

  lemma CutSeptet(acc: nat, x: nat, shift: nat, w: nat)
    requires acc < Pow2(shift)
    ensures Shl(x, shift) >= 0 && Or(Low(acc, w), Low(Shl(x, shift), w)) == Low(acc + Shl(x, shift), w)
  {
    hide Or, Low, Pow2;
    OrShifted(acc, x, shift);
    LowOr(acc, Shl(x, shift), w);
  }

  /** A varint is read exactly if one of its first ten bytes ends it; it takes the bytes up to there. */
  lemma {:induction false} UvarintIff(d: seq<byte>, w: nat, shift: nat, acc: nat, n: nat)
    requires n <= |d| && forall i | 0 <= i < n :: d[i] >= 128
    ensures n < |d| && d[n] < 128 && shift + 7 * n < 64 ==>
              Uvarint(d, w, shift, acc).Ok? && Uvarint(d, w, shift, acc).value.size == n + 1
    ensures shift + 7 * n >= 64 ==> Uvarint(d, w, shift, acc) == Err(IntOverflow)
    ensures n == |d| && shift + 7 * n < 64 ==> Uvarint(d, w, shift, acc) == Err(UnexpectedEOF)
    decreases n
  {
    hide Or, Low, Shl;
    if n > 0 && shift < 64 {
      UvarintIff(d[1..], w, shift + 7, Or(acc, Low(Shl(d[0] % 128, shift), w)), n - 1);
    }
  }

  lemma UintRoundTrip(v: nat, rest: seq<byte>, w: nat)
    requires 0 < w <= 64 && v < Pow2(w)
    ensures Uint(Varint(v) + rest, w) == Ok(Number(v, |Varint(v)|))
  {
    hide Uvarint, Varint;
    VarintRoundTrip(v, rest, w, 0, 0);
    assert Shl(v, 0) == v;
  }

  // one seven-bit group is or-ed in without loss
  lemma Septet(acc: nat, x: nat, shift: nat, w: nat, v: nat)
    requires shift < w <= 64 && v < Pow2(w - shift) && acc < Pow2(shift) && x == v % 128
    ensures Or(acc, Low(Shl(x, shift), w)) == acc + Shl(x, shift)
  {
    hide Or, Pow2, Low, Shl;
    ShlBound(x, shift, w);
    SmallLow(Shl(x, shift), w);
    OrShifted(acc, x, shift);
  }

  lemma ShlBound(x: nat, shift: nat, w: nat)
    requires shift <= w && x < Pow2(w - shift)
    ensures 0 <= Shl(x, shift) < Pow2(w)
  {
    hide Pow2;
    PowAdd(w - shift, shift);
    Scale(x, Pow2(w - shift), Pow2(shift));
  }

  lemma Scale(x: int, m: int, k: int)
    requires 0 <= x < m && k > 0
    ensures 0 <= x * k < m * k
  {
  }

  // the next group still fits
  lemma NextSeptet(v: nat, shift: nat, w: nat, acc: nat)
    requires v >= 128 && shift < w <= 64 && v < Pow2(w - shift) && acc < Pow2(shift)
    ensures shift + 7 < w && v / 128 < Pow2(w - (shift + 7))
    ensures Shl(v % 128, shift) + Shl(v / 128, shift + 7) == Shl(v, shift)
    ensures acc + Shl(v % 128, shift) < Pow2(shift + 7)
  {
    hide Pow2;
    Enough(v, w - shift);
    PowAdd(shift, 7);
    Seven();
    Regroup(v, Pow2(shift));
    TopUp(v % 128, Pow2(shift), acc);
  }

  lemma Enough(v: nat, k: nat)
    requires 128 <= v < Pow2(k)
    ensures k > 7 && v / 128 < Pow2(k - 7)
  {
    hide Pow2;
    Seven();
    if k <= 7 {
      PowAdd(k, 7 - k);
      Shrink(Pow2(k), Pow2(7 - k));
    } else {
      PowAdd(7, k - 7);
      Quotient(v, Pow2(k - 7));
    }
  }

  lemma Quotient(v: nat, m: int)
    requires v < 128 * m
    ensures v / 128 < m
  {
  }

  lemma Shrink(m: int, k: int)
    requires m > 0 && k > 0 && m * k == 128
    ensures m <= 128
  {
  }

  lemma Regroup(v: nat, m: int)
    ensures v % 128 * m + v / 128 * (m * 128) == v * m
  {
    assert v == v % 128 + 128 * (v / 128);
  }

  lemma TopUp(x: nat, m: int, acc: nat)
    requires x < 128 && acc < m
    ensures acc + x * m < m * 128
  {
    assert x * m <= 127 * m;
  }

  // ---- tags ----

  /** A tag: int32(wire >> 3) and wire & 7. */
  datatype Tag = Tag(field: int, kind: nat, size: nat)

  function ReadTag(d: seq<byte>): (r: Outcome<Tag>)
    ensures r.Ok? ==> 0 < r.value.size <= |d|
  {
    var t := Uint(d, 64);
    if t.Err? then Err(t.error)
    else Ok(Tag(Int32(t.value.value / 8), t.value.value % 8, t.value.size))
  }

  // ---- skipStream ----

  /**
   * The number of bytes of the field at the front of d, tag included. It may exceed |d| when the
   * field is cut short; callers check.
   */
  function Skip(d: seq<byte>): (r: Outcome<nat>)
    ensures r.Ok? ==> r.value > 0
    ensures d != [] ==> r != Err(Unreachable)
    decreases |d|, 0
  {
    if |d| == 0 then Err(Unreachable) else
    var t := Uint(d, 64);
    if t.Err? then UintError(d, 64); Err(t.error)
    else
      var n := t.value.size;
      match t.value.value % 8
      case 0 =>
        var v := Uint(d[n..], 64);
        if v.Err? then UintError(d[n..], 64); Err(v.error) else Ok(n + v.value.size)
      case 1 => Ok(n + 8)
      case 2 =>
        var v := Uint(d[n..], 64);
        if v.Err? then UintError(d[n..], 64); Err(v.error)
        else if v.value.value >= 0x8000_0000_0000_0000 then Err(InvalidLength)
        else Ok(n + v.value.size + v.value.value)
      case 3 =>
        var g := SkipGroup(d[n..]);
        if g.Err? then g else Ok(n + g.value)
      case 4 => Ok(n)
      case 5 => Ok(n + 4)
      case _ => Err(IllegalWireType)
  }

  /** The fields of a group up to and including its end tag. */
  function SkipGroup(d: seq<byte>): (r: Outcome<nat>)
    ensures r.Ok? ==> 0 < r.value <= |d|
    ensures r != Err(Unreachable)
    decreases |d|, 1
  {
    var t := Uint(d, 64);
    if t.Err? then UintError(d, 64); Err(t.error)
    else if t.value.value % 8 == 4 then Ok(t.value.size)
    else
      var s := Skip(d);
      if s.Err? then s
      else if s.value > |d| then Err(UnexpectedEOF)
      else
        var g := SkipGroup(d[s.value..]);
        if g.Err? then g else Ok(s.value + g.value)
  }

  lemma {:induction false} UvarintError(d: seq<byte>, w: nat, shift: nat, acc: nat)
    ensures Uvarint(d, w, shift, acc).Err? ==> Uvarint(d, w, shift, acc).error in {IntOverflow, UnexpectedEOF}
    decreases |d|
  {
    if shift < 64 && d != [] {
      UvarintError(d[1..], w, shift + 7, Or(acc, Low(Shl(d[0] % 128, shift), w)));
    }
  }

  lemma UintError(d: seq<byte>, w: nat)
    ensures Uint(d, w).Err? ==> Uint(d, w).error in {IntOverflow, UnexpectedEOF}
  {
    UvarintError(d, w, 0, 0);
  }

  lemma UintLocal(d: seq<byte>, e: seq<byte>, w: nat)
    requires Uint(d, w).Ok? && Agree(d, e, Uint(d, w).value.size)
    ensures Uint(e, w) == Uint(d, w)
  {
    UvarintLocal(d, e, w, 0, 0);
  }

  // a number k bytes into buffers that agree on n bytes
  lemma UintLocalAt(d: seq<byte>, e: seq<byte>, n: nat, k: nat, w: nat)
    requires Agree(d, e, n) && k <= n
    requires Uint(d[k..], w).Ok? && k + Uint(d[k..], w).value.size <= n
    ensures k <= |e| && Uint(e[k..], w) == Uint(d[k..], w)
  {
    hide Agree, Uint;
    AgreeDrop(d, e, n, k);
    AgreeLess(d[k..], e[k..], n - k, Uint(d[k..], w).value.size);
    UintLocal(d[k..], e[k..], w);
  }

  /** Skipping depends only on the bytes skipped, nested groups included. */
  lemma {:induction false} SkipLocal(d: seq<byte>, e: seq<byte>)
    requires Skip(d).Ok? && Agree(d, e, Skip(d).value)
    ensures Skip(e) == Skip(d)
    decreases |d|, 0
  {
    hide Agree, Uint;
    var n := Skip(d).value;
    AgreeFirst(d, e, n);
    assert d[0..] == d && e[0..] == e;
    UintLocalAt(d, e, n, 0, 64);
    var k := Uint(d, 64).value.size;
    match Uint(d, 64).value.value % 8
    case 0 => UintLocalAt(d, e, n, k, 64);
    case 2 => UintLocalAt(d, e, n, k, 64);
    case 3 =>
      AgreeDrop(d, e, n, k);
      SkipGroupLocal(d[k..], e[k..]);
    case _ =>
  }

  lemma {:induction false} SkipGroupLocal(d: seq<byte>, e: seq<byte>)
    requires SkipGroup(d).Ok? && Agree(d, e, SkipGroup(d).value)
    ensures SkipGroup(e) == SkipGroup(d)
    decreases |d|, 1
  {
    hide Agree, Uint, Skip;
    var n := SkipGroup(d).value;
    assert d[0..] == d && e[0..] == e;
    if Uint(d, 64).value.value % 8 == 4 {
      UintLocalAt(d, e, n, 0, 64);
    } else {
      var s := Skip(d).value;
      AgreeLess(d, e, n, s);
      SkipAtLeastTag(d);
      UintLocalAt(d, e, n, 0, 64);
      SkipLocal(d, e);
      AgreeDrop(d, e, n, s);
      SkipGroupLocal(d[s..], e[s..]);
    }
  }

  lemma SkipAtLeastTag(d: seq<byte>)
    requires Skip(d).Ok?
    ensures Uint(d, 64).Ok? && Uint(d, 64).value.size <= Skip(d).value
  {
    hide Uint;
  }
}
