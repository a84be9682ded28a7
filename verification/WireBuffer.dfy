/** The loops of the generated code: varints into and out of buffers, and skipStream. */
module WireBuffer {
  import opened Machine
  import opened Bits
  import opened Wire
  import opened Wrappers
  import opened RecordCodec

  // ---- writing ----

  /** b with s copied over it from offset i. */
  function Written(b: seq<byte>, i: nat, s: seq<byte>): (r: seq<byte>)
    requires i + |s| <= |b|
    ensures |r| == |b|
  {
    b[..i] + s + b[i + |s|..]
  }

  lemma WrittenTwice(b: seq<byte>, i: nat, s: seq<byte>, t: seq<byte>)
    requires i + |s| + |t| <= |b|
    ensures Written(Written(b, i, s), i + |s|, t) == Written(b, i, s + t)
  {
    var w := Written(b, i, s);
    assert w[..i + |s|] == b[..i] + s;
    assert w[i + |s| + |t|..] == b[i + |s| + |t|..];
    assert b[..i] + s + t == b[..i] + (s + t);
  }

  /** dAtA[i] = x */
  method Put(buffer: array<byte>, i: nat, x: byte)
    requires i < buffer.Length
    modifies buffer
    ensures buffer[..] == Written(old(buffer[..]), i, [x])
  {
    buffer[i] := x;
  }

  /** encodeVarintStream */
  method EncodeVarint(buffer: array<byte>, offset: nat, v: nat) returns (next: nat)
    requires offset + |Varint(v)| <= buffer.Length
    modifies buffer
    ensures next == offset + |Varint(v)|
    ensures buffer[..] == Written(old(buffer[..]), offset, Varint(v))
  {
    hide Written, Or, Low;
    ghost var b := buffer[..];
    ghost var done: seq<byte> := [];
    var w := v;
    next := offset;
    WrittenNothing(b, offset);
    assert done + Varint(w) == Varint(v);
    while w >= 128
      invariant done + Varint(w) == Varint(v)
      invariant next == offset + |done|
      invariant buffer[..] == Written(b, offset, done)
      decreases w
    {
      Continuation(w);
      ghost var x: seq<byte> := [w % 128 + 128];
      assert done + x + Varint(w / 128) == done + Varint(w);
      Put(buffer, next, Or(Low(w, 7), 128));
      WrittenTwice(b, offset, done, x);
      done := done + x;
      w := w / 128;
      next := next + 1;
    }
    Put(buffer, next, w);
    WrittenTwice(b, offset, done, [w]);
    next := next + 1;
  }

  lemma WrittenNothing(b: seq<byte>, i: nat)
    requires i <= |b|
    ensures Written(b, i, []) == b
  {
  }

  // v & 0x7f | 0x80
  lemma Continuation(w: nat)
    ensures Or(Low(w, 7), 128) == w % 128 + 128
  {
    hide Or;
    Seven();
    OrShifted(Low(w, 7), 1, 7);
  }

  /** sovStream */
  method SovStream(v: nat) returns (n: nat)
    ensures n == Sov(v)
  {
    var x := v;
    n := 0;
    while true
      invariant n + Sov(x) == Sov(v)
      decreases x
    {
      n := n + 1;
      x := x / 128;
      if x == 0 {
        break;
      }
    }
  }

  // ---- reading ----

  /** What is left of a buffer from index i on; nothing when i lies behind its end. */
  function After(d: seq<byte>, i: nat): seq<byte> {
    if i <= |d| then d[i..] else []
  }

  /** r, with k more bytes in front. */
  function Behind(r: Outcome<Number>, k: nat): Outcome<Number> {
    if r.Err? then r else Ok(Number(r.value.value, k + r.value.size))
  }

  /** The loop that reads a w-bit varint at index start, as it stands in every decoder. */
  method DecodeVarint(d: seq<byte>, start: nat, w: nat) returns (e: Option<Error>, v: nat, iNdEx: nat)
    ensures match Uint(After(d, start), w)
            case Err(error) => e == Some(error)
            case Ok(n) => e == None && v == n.value && iNdEx == start + n.size && iNdEx <= |d|
    ensures v == Gathered(After(d, start), w, 0, 0)
  {
    hide Or, Low, Shl;
    v, iNdEx := 0, start;
    ghost var whole, gathered := Uint(After(d, start), w), Gathered(After(d, start), w, 0, 0);
    var shift := 0;
    while true
      invariant start <= iNdEx
      invariant whole == Behind(Uvarint(After(d, iNdEx), w, shift, v), iNdEx - start)
      invariant gathered == Gathered(After(d, iNdEx), w, shift, v)
      decreases 64 - shift
    {
      if shift >= 64 {
        return Some(IntOverflow), v, iNdEx;
      }
      if iNdEx >= |d| {
        return Some(UnexpectedEOF), v, iNdEx;
      }
      var b := d[iNdEx];
      assert After(d, iNdEx)[0] == b && After(d, iNdEx)[1..] == After(d, iNdEx + 1);
      iNdEx := iNdEx + 1;
      v := Or(v, Low(Shl(b % 128, shift), w));
      if b < 0x80 {
        return None, v, iNdEx;
      }
      shift := shift + 7;
    }
  }

  /** A length at index start and the bytes behind it. */
  method DecodeBytes(d: seq<byte>, start: nat) returns (e: Option<Error>, b: seq<byte>, postIndex: nat)
    requires start <= |d|
    ensures match ReadBytes(d[start..])
            case Err(error) => e == Some(error)
            case Ok(n) =>
              e == None && postIndex == start + n.size && postIndex <= |d| && b == d[start..][n.size - n.value..n.size]
  {
    hide Uint;
    var length, iNdEx;
    e, length, iNdEx := DecodeVarint(d, start, 64);
    if e.Some? {
      return e, [], iNdEx;
    }
    // a length read into an int is negative
    if length >= 0x8000_0000_0000_0000 {
      return Some(InvalidLength), [], iNdEx;
    }
    postIndex := iNdEx + length;
    if postIndex > |d| {
      return Some(UnexpectedEOF), [], postIndex;
    }
    SliceBehind(d, start, iNdEx, postIndex);
    b := d[iNdEx..postIndex];
  }

  lemma SliceBehind(d: seq<byte>, a: nat, i: nat, j: nat)
    requires a <= i <= j <= |d|
    ensures d[a..][i - a..j - a] == d[i..j]
  {
  }

  /** skipStream. It ends on every input, and only the empty input reaches its panic. */
  method SkipStream(d: seq<byte>) returns (e: Option<Error>, n: nat)
    ensures match Skip(d)
            case Err(error) => e == Some(error)
            case Ok(size) => e == None && n == size
    decreases |d|, 1
  {
    hide Uint, SkipGroup;
    n := 0;
    if |d| > 0 {
      assert After(d, 0) == d;
      var wire, iNdEx;
      e, wire, iNdEx := DecodeVarint(d, 0, 64);
      if e.Some? {
        return;
      }
      assert After(d, iNdEx) == d[iNdEx..];
      match wire % 8 {
        case 0 =>
          var v;
          e, v, n := DecodeVarint(d, iNdEx, 64);
          return;
        case 1 =>
          return None, iNdEx + 8;
        case 2 =>
          var length, next;
          e, length, next := DecodeVarint(d, iNdEx, 64);
          if e.Some? {
            return;
          }
          if length >= 0x8000_0000_0000_0000 {
            return Some(InvalidLength), 0;
          }
          return None, next + length;
        case 3 =>
          e, n := SkipStreamGroup(d, iNdEx);
          return;
        case 4 =>
          return None, iNdEx;
        case 5 =>
          return None, iNdEx + 4;
        case _ =>
          return Some(IllegalWireType), 0;
      }
    }
    return Some(Unreachable), 0;
  }

  // the loop over the fields of a group
  method SkipStreamGroup(d: seq<byte>, first: nat) returns (e: Option<Error>, n: nat)
    requires 0 < first <= |d|
    ensures match SkipGroup(d[first..])
            case Err(error) => e == Some(error)
            case Ok(size) => e == None && n == first + size
    decreases |d|, 0
  {
    hide Uint, Skip, SkipGroup, Gathered, After;
    assert After(d, first) == d[first..] by { AfterIs(d, first); }
    ghost var whole := SkipGroup(d[first..]);
    var iNdEx := first;
    while true
      invariant first <= iNdEx
      invariant whole == GroupBehind(SkipGroup(After(d, iNdEx)), iNdEx - first)
      decreases if iNdEx <= |d| then |d| + 1 - iNdEx else 0
    {
      var start := iNdEx;
      GroupStep(After(d, start));
      var innerWire;
      e, innerWire, iNdEx := DecodeVarint(d, start, 64);
      if e.Some? {
        return e, 0;
      }
      if innerWire % 8 == 4 {
        return None, iNdEx;
      }
      AfterIs(d, start);
      var next;
      e, next := SkipStream(d[start..]);
      if e.Some? {
        return e, 0;
      }
      iNdEx := start + next;
      AfterAfter(d, start, next);
    }
  }

  function GroupBehind(r: Outcome<nat>, k: nat): Outcome<nat> {
    if r.Err? then r else Ok(k + r.value)
  }

  lemma AfterIs(d: seq<byte>, i: nat)
    requires i <= |d|
    ensures After(d, i) == d[i..]
  {
  }

  lemma AfterAfter(d: seq<byte>, a: nat, n: nat)
    requires a <= |d|
    ensures After(After(d, a), n) == After(d, a + n)
  {
  }

  // one field of a group, then the rest of it
  lemma GroupStep(d: seq<byte>)
    ensures var t, s := Uint(d, 64), Skip(d);
            SkipGroup(d) == if t.Err? then Err(t.error) else if t.value.value % 8 == 4 then Ok(t.value.size)
                            else if s.Err? then s else GroupBehind(SkipGroup(After(d, s.value)), s.value)
  {
    hide Uint, Skip;
    NothingLeft();
  }

  lemma NothingLeft()
    ensures SkipGroup([]) == Err(UnexpectedEOF)
  {
  }
}
