/** Peer identities and the XOR metric: peer/identity.go. */
module PeerIdentity {

  datatype PeerID = PeerID(address: string, netKey: seq<bv8>, id: seq<bv8>)

  /** Equality of peers: their ids. */
  predicate Equals(a: PeerID, b: PeerID) {
    a.id == b.id
  }

  /** bytes.Compare(a, b) == -1, from index i on, as Less compares ids: lexicographically, a proper prefix first. */
  predicate BytesLess(a: seq<bv8>, b: seq<bv8>, i: nat)
    decreases |a| - i
  {
    if i >= |b| then false
    else if i >= |a| then true
    else if a[i] != b[i] then a[i] < b[i]
    else BytesLess(a, b, i + 1)
  }

  /** One byte of an exclusive or. */
  function Xor8(a: bv8, b: bv8): bv8 {
    a ^ b
  }

  /** The bytes of XorID: as long as a, and zero where b has no byte. */
  function XorBytes(a: seq<bv8>, b: seq<bv8>): (x: seq<bv8>)
    ensures |x| == |a|
  {
    seq(|a|, i requires 0 <= i < |a| => if i < |b| then Xor8(a[i], b[i]) else 0)
  }

  /** XorID */
  method XorID(a: PeerID, b: PeerID) returns (r: PeerID)
    ensures r == PeerID(a.address, [], XorBytes(a.id, b.id))
  {
    var result := new bv8[|a.id|](_ => 0);
    var i := 0;
    while i < |a.id| && i < |b.id|
      invariant i <= |a.id| && i <= |b.id|
      invariant forall j :: 0 <= j < i ==> result[j] == Xor8(a.id[j], b.id[j])
      invariant forall j :: i <= j < |a.id| ==> result[j] == 0
    {
      result[i] := Xor8(a.id[i], b.id[i]);
      i := i + 1;
    }
    assert result[..] == XorBytes(a.id, b.id);
    r := PeerID(a.address, [], result[..]);
  }

  /** bits.LeadingZeros8 */
  function LeadingZeros(x: bv8): (n: nat)
    ensures x != 0 ==> n < 8
  {
    if x >= 0x80 then 0 else if x >= 0x40 then 1 else if x >= 0x20 then 2 else if x >= 0x10 then 3
    else if x >= 0x08 then 4 else if x >= 0x04 then 5 else if x >= 0x02 then 6 else if x >= 0x01 then 7 else 8
  }

  /** The number of leading zero bits of x from byte i on; all-zero bytes count as one bit short. */
  function PrefixFrom(x: seq<bv8>, i: nat): (n: int)
    requires i <= |x|
    ensures 8 * i - 1 <= n < 8 * |x|
    decreases |x| - i
  {
    if i == |x| then 8 * |x| - 1
    else if x[i] != 0 then 8 * i + LeadingZeros(x[i])
    else PrefixFrom(x, i + 1)
  }

  function Prefix(x: seq<bv8>): (n: int)
    ensures -1 <= n < 8 * |x|
    ensures x != [] ==> n >= 0
  {
    PrefixFrom(x, 0)
  }

  /** PrefixLen */
  method PrefixLen(p: PeerID) returns (n: int)
    ensures n == Prefix(p.id)
  {
    var i := 0;
    while i < |p.id|
      invariant i <= |p.id|
      invariant Prefix(p.id) == PrefixFrom(p.id, i)
    {
      var b := p.id[i];
      if b != 0 {
        return 8 * i + LeadingZeros(b);
      }
      i := i + 1;
    }
    return 8 * |p.id| - 1;
  }

  // ---- the order ----

  lemma {:induction false} LessTotal(a: seq<bv8>, b: seq<bv8>, i: nat)
    requires |a| == |b| && i <= |a| && a[..i] == b[..i]
    ensures a == b || BytesLess(a, b, i) || BytesLess(b, a, i)
    decreases |a| - i
  {
    if i == |a| {
      assert a == a[..i] && b == b[..i];
    } else if a[i] == b[i] {
      assert a[..i + 1] == a[..i] + [a[i]] && b[..i + 1] == b[..i] + [b[i]];
      LessTotal(a, b, i + 1);
    }
  }

  lemma {:induction false} LessTransitive(a: seq<bv8>, b: seq<bv8>, c: seq<bv8>, i: nat)
    requires |a| == |b| == |c| && BytesLess(a, b, i) && BytesLess(b, c, i)
    ensures BytesLess(a, c, i)
    decreases |a| - i
  {
    if i < |a| && a[i] == b[i] && b[i] == c[i] {
      LessTransitive(a, b, c, i + 1);
    }
  }

  lemma {:induction false} LessIrreflexive(a: seq<bv8>, i: nat)
    ensures !BytesLess(a, a, i)
    decreases |a| - i
  {
    if i < |a| {
      LessIrreflexive(a, i + 1);
    }
  }

  /** Of two ids of one length the smaller has the smaller byte where they first differ. */
  lemma {:induction false} LessMeaning(a: seq<bv8>, b: seq<bv8>, i: nat)
    requires |a| == |b| && i <= |a|
    ensures BytesLess(a, b, i) <==> exists k | i <= k < |a| :: a[k] < b[k] && forall j | i <= j < k :: a[j] == b[j]
    decreases |a| - i
  {
    if i < |a| && a[i] == b[i] {
      LessMeaning(a, b, i + 1);
    }
  }

  // ---- the metric ----

  /** Exclusive or has the same distance both ways, none from an id to itself, and undoes itself. */
  lemma XorLaws(a: seq<bv8>, b: seq<bv8>)
    requires |a| == |b|
    ensures XorBytes(a, b) == XorBytes(b, a)
    ensures forall k | 0 <= k < |a| :: XorBytes(a, a)[k] == 0
    ensures XorBytes(XorBytes(a, b), b) == a
  {
    forall k | 0 <= k < |a|
      ensures Xor8(a[k], b[k]) == Xor8(b[k], a[k]) && Xor8(a[k], a[k]) == 0 && Xor8(Xor8(a[k], b[k]), b[k]) == a[k]
    {
      XorByte(a[k], b[k]);
    }
  }

  lemma XorByte(x: bv8, y: bv8)
    ensures Xor8(x, y) == Xor8(y, x) && Xor8(x, x) == 0 && Xor8(Xor8(x, y), y) == x
  {
  }


  /** The distance from p to t. */
  function Distance(p: PeerID, t: PeerID): seq<bv8> {
    XorBytes(p.id, t.id)
  }

  /** p is nearer to t than q is. */
  predicate Closer(p: PeerID, q: PeerID, t: PeerID) {
    BytesLess(Distance(p, t), Distance(q, t), 0)
  }

  /** Different ids of one length are at different distances. */
  lemma DistanceInjective(p: PeerID, q: PeerID, t: PeerID)
    requires |p.id| == |q.id| == |t.id| && Distance(p, t) == Distance(q, t)
    ensures p.id == q.id
  {
    hide Xor8;
    forall i | 0 <= i < |p.id| ensures p.id[i] == q.id[i] {
      assert Distance(p, t)[i] == Xor8(p.id[i], t.id[i]) && Distance(q, t)[i] == Xor8(q.id[i], t.id[i]);
      XorCancel(p.id[i], q.id[i], t.id[i]);
    }
  }

  lemma XorCancel(a: bv8, b: bv8, c: bv8)
    requires Xor8(a, c) == Xor8(b, c)
    ensures a == b
  {
    assert (a ^ c) ^ c == a && (b ^ c) ^ c == b;
  }

  lemma CloserTotal(p: PeerID, q: PeerID, t: PeerID)
    requires |p.id| == |q.id| == |t.id|
    ensures p.id == q.id || Closer(p, q, t) || Closer(q, p, t)
  {
    LessTotal(Distance(p, t), Distance(q, t), 0);
    if Distance(p, t) == Distance(q, t) {
      DistanceInjective(p, q, t);
    }
  }

  lemma CloserTransitive(p: PeerID, q: PeerID, r: PeerID, t: PeerID)
    requires |p.id| == |q.id| == |r.id| && Closer(p, q, t) && Closer(q, r, t)
    ensures Closer(p, r, t)
  {
    LessTransitive(Distance(p, t), Distance(q, t), Distance(r, t), 0);
  }

  lemma CloserIrreflexive(p: PeerID, t: PeerID)
    ensures !Closer(p, p, t)
  {
    LessIrreflexive(Distance(p, t), 0);
  }

  // one byte: a longer run of leading zeros is a smaller byte
  lemma ZerosOrder(a: bv8, b: bv8)
    requires LeadingZeros(a) > LeadingZeros(b)
    ensures a < b
  {
  }

  /** A longer zero prefix is a smaller value. */
  lemma {:induction false} PrefixOrder(x: seq<bv8>, y: seq<bv8>, i: nat)
    requires |x| == |y| && i <= |x| && PrefixFrom(x, i) > PrefixFrom(y, i)
    ensures BytesLess(x, y, i)
    decreases |x| - i
  {
    if i < |x| {
      if x[i] == 0 && y[i] == 0 {
        PrefixOrder(x, y, i + 1);
      } else if x[i] == 0 {
        assert x[i] < y[i];
      } else if y[i] != 0 {
        ZerosOrder(x[i], y[i]);
      }
    }
  }

  lemma ZerosZero(a: bv8)
    ensures LeadingZeros(a) == 8 <==> a == 0
    ensures a != 0 ==> LeadingZeros(a) < 8
  {
  }

  // one byte of an exclusive or
  lemma ZerosXor(a: bv8, b: bv8)
    ensures LeadingZeros(a) < LeadingZeros(b) ==> LeadingZeros(Xor8(a, b)) == LeadingZeros(a)
    ensures LeadingZeros(b) < LeadingZeros(a) ==> LeadingZeros(Xor8(a, b)) == LeadingZeros(b)
    ensures LeadingZeros(a) == LeadingZeros(b) && a != 0 ==> LeadingZeros(Xor8(a, b)) > LeadingZeros(a)
    ensures a == 0 ==> Xor8(a, b) == b
    ensures b == 0 ==> Xor8(a, b) == a
  {
  }

  /**
   * The prefix of an exclusive or: of different prefixes the shorter, of equal ones something longer,
   * unless that prefix is already the longest there is.
   */
  lemma {:induction false} PrefixXor(x: seq<bv8>, y: seq<bv8>, z: seq<bv8>, i: nat)
    requires |x| == |y| == |z| && i <= |x| && forall j :: 0 <= j < |x| ==> z[j] == Xor8(x[j], y[j])
    ensures PrefixFrom(x, i) < PrefixFrom(y, i) ==> PrefixFrom(z, i) == PrefixFrom(x, i)
    ensures PrefixFrom(y, i) < PrefixFrom(x, i) ==> PrefixFrom(z, i) == PrefixFrom(y, i)
    ensures PrefixFrom(x, i) == PrefixFrom(y, i) ==>
              PrefixFrom(z, i) > PrefixFrom(x, i) || PrefixFrom(z, i) == PrefixFrom(x, i) == 8 * |x| - 1
    decreases |x| - i
  {
    hide Xor8, LeadingZeros;
    if i < |x| {
      ZerosZero(x[i]);
      ZerosZero(y[i]);
      ZerosZero(z[i]);
      PrefixXor(x, y, z, i + 1);
      ZerosXor(x[i], y[i]);
    }
  }

  /** The bucket of p in a table of the node s. */
  function Index(p: PeerID, s: PeerID): int {
    Prefix(XorBytes(p.id, s.id))
  }

  lemma PrefixOfDistance(p: PeerID, t: PeerID, s: PeerID)
    requires |p.id| == |t.id| == |s.id|
    ensures var a, b, d := Index(p, s), Index(t, s), Prefix(Distance(p, t));
            (a < b ==> d == a) && (b < a ==> d == b) && (a == b ==> d > a || d == a == 8 * |p.id| - 1)
  {
    hide Xor8, PrefixFrom;
    var x, y, z := XorBytes(p.id, s.id), XorBytes(t.id, s.id), Distance(p, t);
    forall j | 0 <= j < |x| ensures z[j] == Xor8(x[j], y[j]) {
      XorThree(p.id[j], t.id[j], s.id[j]);
    }
    PrefixXor(x, y, z, 0);
  }

  lemma XorThree(p: bv8, t: bv8, s: bv8)
    ensures Xor8(p, t) == Xor8(Xor8(p, s), Xor8(t, s))
  {
  }

  /** Peers that share the target's bucket are strictly nearer to it than all others. */
  lemma OwnBucketCloser(p: PeerID, q: PeerID, t: PeerID, s: PeerID)
    requires |p.id| == |q.id| == |t.id| == |s.id| && Index(p, s) == Index(t, s) != Index(q, s)
    ensures Closer(p, q, t)
  {
    hide Prefix, XorBytes;
    IndexRange(q, s);
    PrefixOfDistance(p, t, s);
    PrefixOfDistance(q, t, s);
    PrefixCloser(p, q, t);
  }

  lemma IndexRange(p: PeerID, s: PeerID)
    ensures Index(p, s) <= 8 * |p.id| - 1
  {
  }

  lemma PrefixCloser(p: PeerID, q: PeerID, t: PeerID)
    requires |p.id| == |q.id| && Prefix(Distance(p, t)) > Prefix(Distance(q, t))
    ensures Closer(p, q, t)
  {
    PrefixOrder(Distance(p, t), Distance(q, t), 0);
  }

  /** Peers of a bucket below the target's are farther from it than those of all higher buckets. */
  lemma LowerBucketFarther(p: PeerID, q: PeerID, t: PeerID, s: PeerID)
    requires |p.id| == |q.id| == |t.id| == |s.id| && Index(q, s) < Index(p, s) && Index(q, s) < Index(t, s)
    ensures Closer(p, q, t)
  {
    hide Prefix, XorBytes;
    PrefixOfDistance(p, t, s);
    PrefixOfDistance(q, t, s);
    PrefixCloser(p, q, t);
  }

  /** Bit n of a byte, counted from the highest. */
  function ByteBit(x: bv8, n: nat): bool {
    if n == 0 then x & 0x80 != 0 else if n == 1 then x & 0x40 != 0 else if n == 2 then x & 0x20 != 0
    else if n == 3 then x & 0x10 != 0 else if n == 4 then x & 0x08 != 0 else if n == 5 then x & 0x04 != 0
    else if n == 6 then x & 0x02 != 0 else x & 0x01 != 0
  }

  /** Bit i of a byte string, counted from the highest of the first byte. */
  function Bit(x: seq<bv8>, i: nat): bool
    requires i < 8 * |x|
  {
    ByteBit(x[i / 8], i % 8)
  }

  // one byte: the one with fewer leading zeros is smaller after the exclusive or exactly if its first bit is cleared
  lemma ZerosDecide(a: bv8, b: bv8, c: bv8)
    requires LeadingZeros(a) < LeadingZeros(b)
    ensures Xor8(a, c) != Xor8(b, c)
    ensures Xor8(a, c) < Xor8(b, c) <==> ByteBit(c, LeadingZeros(a))
  {
  }

  lemma {:induction false} PrefixDecides(x: seq<bv8>, y: seq<bv8>, z: seq<bv8>, u: seq<bv8>, v: seq<bv8>, i: nat)
    requires |x| == |y| == |z| == |u| == |v| && i <= |x| && PrefixFrom(x, i) < PrefixFrom(y, i)
    requires forall j :: 0 <= j < |x| ==> u[j] == Xor8(x[j], z[j]) && v[j] == Xor8(y[j], z[j])
    ensures 0 <= PrefixFrom(x, i) && (BytesLess(u, v, i) <==> Bit(z, PrefixFrom(x, i)))
    decreases |x| - i
  {
    hide Xor8, LeadingZeros, ByteBit;
    ZerosZero(x[i]);
    ZerosZero(y[i]);
    if x[i] == 0 {
      PrefixDecides(x, y, z, u, v, i + 1);
    } else {
      var n := LeadingZeros(x[i]);
      assert (8 * i + n) / 8 == i && (8 * i + n) % 8 == n;
      ZerosDecide(x[i], y[i], z[i]);
    }
  }

  /**
   * Which of two buckets is nearer to a target: peers of the lower bucket i are nearer exactly if bit i of the
   * target's distance to the node is set.
   */
  lemma BucketOrder(p: PeerID, q: PeerID, t: PeerID, s: PeerID)
    requires |p.id| == |q.id| == |t.id| == |s.id| && Index(p, s) < Index(q, s)
    ensures 0 <= Index(p, s) < 8 * |s.id| && (Closer(p, q, t) <==> Bit(XorBytes(t.id, s.id), Index(p, s)))
  {
    hide Xor8, PrefixFrom, Bit, BytesLess;
    var x, y, z := XorBytes(p.id, s.id), XorBytes(q.id, s.id), XorBytes(t.id, s.id);
    var u, v := Distance(p, t), Distance(q, t);
    forall j | 0 <= j < |x| ensures u[j] == Xor8(x[j], z[j]) && v[j] == Xor8(y[j], z[j]) {
      XorThree(p.id[j], t.id[j], s.id[j]);
      XorThree(q.id[j], t.id[j], s.id[j]);
    }
    PrefixDecides(x, y, z, u, v, 0);
  }

  /** Where PrefixLen puts a target of any length: outside the buckets exactly for these targets. */
  lemma IndexOutOfRange(p: PeerID, s: PeerID)
    ensures 0 <= Index(p, s) < 8 * |s.id| <==> p.id != [] && !(|p.id| > |s.id| && p.id[..|s.id|] == s.id)
  {
    var x := XorBytes(p.id, s.id);
    if |p.id| > |s.id| {
      LongTarget(x, p, s, 0);
    }
  }

  lemma {:induction false} LongTarget(x: seq<bv8>, p: PeerID, s: PeerID, i: nat)
    requires |p.id| > |s.id| && x == XorBytes(p.id, s.id) && i <= |s.id| && p.id[..i] == s.id[..i]
    ensures PrefixFrom(x, i) < 8 * |s.id| <==> p.id[..|s.id|] != s.id
    decreases |s.id| - i
  {
    hide Xor8, LeadingZeros;
    if i == |s.id| {
      assert s.id[..i] == s.id;
      NoneBehind(x, i);
    } else {
      XorZero(p.id[i], s.id[i]);
      if x[i] == 0 {
        assert p.id[..i + 1] == p.id[..i] + [p.id[i]] && s.id[..i + 1] == s.id[..i] + [s.id[i]];
        LongTarget(x, p, s, i + 1);
      } else {
        assert p.id[..|s.id|][i] != s.id[i];
      }
    }
  }

  lemma XorZero(a: bv8, b: bv8)
    ensures Xor8(a, b) == 0 <==> a == b
  {
  }

  lemma NoneBehind(x: seq<bv8>, i: nat)
    requires i < |x| && forall j :: i <= j < |x| ==> x[j] == 0
    ensures PrefixFrom(x, i) >= 8 * i
  {
    AllZero(x, i);
  }

  lemma {:induction false} AllZero(x: seq<bv8>, i: nat)
    requires i <= |x| && forall j :: i <= j < |x| ==> x[j] == 0
    ensures PrefixFrom(x, i) == 8 * |x| - 1
    decreases |x| - i
  {
    if i < |x| {
      AllZero(x, i + 1);
    }
  }
}
