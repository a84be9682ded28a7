/** The nearest-peer search over the buckets of a routing table: what FindClosestPeers returns. */
module NearestPeers {
  import opened PeerIdentity

  type Buckets = seq<seq<PeerID>>

  const BUCKET_SIZE := 16

  predicate Distinct(s: seq<PeerID>) {
    forall a, b :: 0 <= a < b < |s| ==> s[a].id != s[b].id
  }

  predicate OneLength(s: seq<PeerID>, n: nat) {
    forall p :: p in s ==> |p.id| == n
  }

  /** The invariant of the table of self: peer p is in bucket Index(p, self), once, and no bucket has over
      BUCKET_SIZE + 1. */
  predicate Shape(self: PeerID, buckets: Buckets) {
    |self.id| > 0 && |buckets| == 8 * |self.id|
    && (forall j, p :: 0 <= j < |buckets| && p in buckets[j] ==> |p.id| == |self.id| && Index(p, self) == j)
    && (forall j :: 0 <= j < |buckets| ==> Distinct(buckets[j]) && |buckets[j]| <= BUCKET_SIZE + 1)
  }

  /** The number of entries of buckets lo to hi - 1. */
  function Entries(buckets: Buckets, lo: nat, hi: nat): nat
    requires hi <= |buckets|
    decreases hi
  {
    if lo >= hi then 0 else Entries(buckets, lo, hi - 1) + |buckets[hi - 1]|
  }

  lemma {:induction false} EntriesFront(buckets: Buckets, lo: nat, hi: nat)
    requires lo < hi <= |buckets|
    ensures Entries(buckets, lo, hi) == |buckets[lo]| + Entries(buckets, lo + 1, hi)
    decreases hi
  {
    if lo + 1 < hi {
      EntriesFront(buckets, lo, hi - 1);
    }
  }

  // ---- sorting by distance ----

  /** Each peer nearer to t than all behind it. */
  predicate Ascending(s: seq<PeerID>, t: PeerID) {
    forall a, b :: 0 <= a < b < |s| ==> Closer(s[a], s[b], t)
  }

  function Insert(p: PeerID, s: seq<PeerID>, t: PeerID): (r: seq<PeerID>)
    ensures multiset(r) == multiset([p] + s)
  {
    if s == [] || Closer(p, s[0], t) then [p] + s
    else
      assert s == [s[0]] + s[1..];
      [s[0]] + Insert(p, s[1..], t)
  }

  /** The peers of s by rising distance from t. */
  function Sort(s: seq<PeerID>, t: PeerID): (r: seq<PeerID>)
    ensures multiset(r) == multiset(s) && |r| == |s|
  {
    if s == [] then []
    else
      assert s == [s[0]] + s[1..];
      var r := Insert(s[0], Sort(s[1..], t), t);
      assert |r| == |multiset(r)|;
      r
  }

  lemma SameMembers(s: seq<PeerID>, r: seq<PeerID>, p: PeerID)
    requires multiset(s) == multiset(r)
    ensures p in s <==> p in r
  {
    assert p in s <==> p in multiset(s);
    assert p in r <==> p in multiset(r);
  }

  lemma {:induction false} InsertAscending(p: PeerID, s: seq<PeerID>, t: PeerID)
    requires Ascending(s, t) && OneLength(s, |t.id|) && |p.id| == |t.id|
    requires forall q :: q in s ==> q.id != p.id
    ensures Ascending(Insert(p, s, t), t)
    decreases |s|
  {
    hide Closer;
    if s != [] {
      if Closer(p, s[0], t) {
        forall b | 0 < b < |s| ensures Closer(p, s[b], t) {
          CloserTransitive(p, s[0], s[b], t);
        }
      } else {
        var rest := Insert(p, s[1..], t);
        InsertAscending(p, s[1..], t);
        CloserTotal(p, s[0], t);
        forall b | 0 <= b < |rest| ensures Closer(s[0], rest[b], t) {
          SameMembers(rest, [p] + s[1..], rest[b]);
        }
      }
    }
  }

  lemma {:induction false} SortAscending(s: seq<PeerID>, t: PeerID)
    requires Distinct(s) && OneLength(s, |t.id|)
    ensures Ascending(Sort(s, t), t)
    decreases |s|
  {
    hide Closer, Insert;
    if s != [] {
      SortAscending(s[1..], t);
      var r := Sort(s[1..], t);
      forall q | q in r ensures q.id != s[0].id && |q.id| == |t.id| {
        SameMembers(r, s[1..], q);
      }
      InsertAscending(s[0], r, t);
    }
  }

  /** Whatever sorting algorithm is used, it gives the same list. */
  lemma {:induction false} AscendingUnique(u: seq<PeerID>, v: seq<PeerID>, t: PeerID)
    requires Ascending(u, t) && Ascending(v, t) && multiset(u) == multiset(v) && OneLength(u, |t.id|)
    ensures u == v
    decreases |u|
  {
    hide Closer;
    assert |u| == |multiset(u)| && |v| == |multiset(v)|;
    if u != [] {
      SameMembers(u, v, u[0]);
      SameMembers(u, v, v[0]);
      if u[0] != v[0] {
        CloserTransitive(u[0], v[0], u[0], t);
        CloserIrreflexive(u[0], t);
      }
      assert u == [u[0]] + u[1..] && v == [v[0]] + v[1..];
      assert multiset(u[1..]) == multiset(u) - multiset{u[0]};
      assert multiset(v[1..]) == multiset(v) - multiset{v[0]};
      AscendingUnique(u[1..], v[1..], t);
    }
  }

  // ---- walking outward ----

  function Below(buckets: Buckets, b: nat, r: nat): seq<PeerID>
    requires b < |buckets|
  {
    if b - r >= 0 then buckets[b - r] else []
  }

  function Above(buckets: Buckets, b: nat, r: nat): seq<PeerID>
    requires b < |buckets|
  {
    if b + r < |buckets| then buckets[b + r] else []
  }

  /** The peers collected from the buckets at most r away from bucket b. */
  function Ring(buckets: Buckets, b: nat, r: nat): (s: seq<PeerID>)
    requires b < |buckets|
    ensures |buckets[b]| <= |s| && s[..|buckets[b]|] == buckets[b]
  {
    if r == 0 then buckets[b]
    else
      Ring(buckets, b, r - 1) + Below(buckets, b, r) + Above(buckets, b, r)
  }

  /** How far out the walk goes to collect count peers, having come to r. */
  function Radius(buckets: Buckets, b: nat, count: nat, r: nat): (s: nat)
    requires b < |buckets|
    ensures |Ring(buckets, b, s)| >= count || (b <= s && |buckets| <= b + s + 1)
    decreases |buckets| - r
  {
    if |Ring(buckets, b, r)| < count && (b - (r + 1) >= 0 || b + r + 1 < |buckets|)
      then Radius(buckets, b, count, r + 1) else r
  }

  function Low(b: nat, r: nat): nat {
    if b >= r then b - r else 0
  }

  function High(n: nat, b: nat, r: nat): nat {
    if b + r < n then b + r + 1 else n
  }

  lemma {:induction false} RingMember(buckets: Buckets, b: nat, r: nat, p: PeerID)
    requires b < |buckets|
    ensures p in Ring(buckets, b, r) <==> exists j :: Low(b, r) <= j < High(|buckets|, b, r) && p in buckets[j]
    decreases r
  {
    if r > 0 {
      RingMember(buckets, b, r - 1, p);
      RingParts(buckets, b, r, p);
      hide Ring;
      if j :| Low(b, r) <= j < High(|buckets|, b, r) && p in buckets[j] {
        assert j == b - r || j == b + r || (Low(b, r - 1) <= j < High(|buckets|, b, r - 1));
      }
    }
  }

  lemma RingParts(buckets: Buckets, b: nat, r: nat, p: PeerID)
    requires b < |buckets| && r > 0
    ensures p in Ring(buckets, b, r) <==>
              p in Ring(buckets, b, r - 1) || p in Below(buckets, b, r) || p in Above(buckets, b, r)
  {
    hide Below, Above;
  }

  lemma {:induction false} RingEntries(buckets: Buckets, b: nat, r: nat)
    requires b < |buckets|
    ensures |Ring(buckets, b, r)| == Entries(buckets, Low(b, r), High(|buckets|, b, r))
    decreases r
  {
    if r == 0 {
      EntriesBack(buckets, b, b + 1);
    } else {
      RingEntries(buckets, b, r - 1);
      RingStep(buckets, b, r);
      hide Ring, Entries;
      WidenLow(buckets, b, r, High(|buckets|, b, r));
      WidenHigh(buckets, b, r, Low(b, r - 1));
    }
  }

  lemma WidenLow(buckets: Buckets, b: nat, r: nat, hi: nat)
    requires r > 0 && b < hi <= |buckets|
    ensures Entries(buckets, Low(b, r), hi) == Entries(buckets, Low(b, r - 1), hi) + if b >= r then |buckets[b - r]|
            else 0
  {
    hide Entries;
    if b >= r {
      EntriesFront(buckets, b - r, hi);
    }
  }

  lemma WidenHigh(buckets: Buckets, b: nat, r: nat, lo: nat)
    requires r > 0 && lo <= b < |buckets|
    ensures Entries(buckets, lo, High(|buckets|, b, r))
            == Entries(buckets, lo, High(|buckets|, b, r - 1)) + if b + r < |buckets| then |buckets[b + r]| else 0
  {
    hide Entries;
    if b + r < |buckets| {
      EntriesBack(buckets, lo, b + r + 1);
    }
  }

  lemma RingStep(buckets: Buckets, b: nat, r: nat)
    requires b < |buckets| && r > 0
    ensures |Ring(buckets, b, r)|
            == |Ring(buckets, b, r - 1)| + (if b >= r then |buckets[b - r]| else 0)
               + (if b + r < |buckets| then |buckets[b + r]| else 0)
  {
  }

  lemma EntriesBack(buckets: Buckets, lo: nat, hi: nat)
    requires lo < hi <= |buckets|
    ensures Entries(buckets, lo, hi) == Entries(buckets, lo, hi - 1) + |buckets[hi - 1]|
    ensures Entries(buckets, lo, lo) == 0
  {
  }

  lemma {:induction false} RingOneLength(self: PeerID, buckets: Buckets, b: nat, r: nat)
    requires Shape(self, buckets) && b < |buckets|
    ensures OneLength(Ring(buckets, b, r), |self.id|)
  {
    hide Ring;
    forall p | p in Ring(buckets, b, r) ensures |p.id| == |self.id| {
      RingMember(buckets, b, r, p);
    }
  }

  predicate Apart(s: seq<PeerID>, u: seq<PeerID>) {
    forall p, q :: p in s && q in u ==> p.id != q.id
  }

  lemma DistinctConcat(s: seq<PeerID>, u: seq<PeerID>, v: seq<PeerID>)
    requires Distinct(s) && Distinct(u) && Distinct(v) && Apart(s, u) && Apart(s, v) && Apart(u, v)
    ensures Distinct(s + u + v)
  {
  }

  // entries of one more bucket differ from all collected before
  lemma NewBucket(self: PeerID, buckets: Buckets, b: nat, r: nat, j: nat)
    requires Shape(self, buckets) && b < |buckets| && j < |buckets|
    requires j < Low(b, r) || j >= High(|buckets|, b, r)
    ensures Apart(Ring(buckets, b, r), buckets[j])
  {
    hide Ring, Index;
    forall p, q | p in Ring(buckets, b, r) && q in buckets[j] ensures p.id != q.id {
      RingMember(buckets, b, r, p);
      SameIndex(p, q, self);
    }
  }

  lemma {:induction false} RingDistinct(self: PeerID, buckets: Buckets, b: nat, r: nat)
    requires Shape(self, buckets) && b < |buckets|
    ensures Distinct(Ring(buckets, b, r))
    decreases r
  {
    hide Distinct, Shape, Apart, Above, Below;
    if r == 0 {
      BucketDistinct(self, buckets, b);
    } else {
      RingDistinct(self, buckets, b, r - 1);
      AroundDistinct(self, buckets, b, r);
      DistinctConcat(Ring(buckets, b, r - 1), Below(buckets, b, r), Above(buckets, b, r));
    }
  }

  // the two buckets r away are distinct from each other and from all nearer ones
  lemma AroundDistinct(self: PeerID, buckets: Buckets, b: nat, r: nat)
    requires Shape(self, buckets) && b < |buckets| && r > 0
    ensures Distinct(Below(buckets, b, r)) && Distinct(Above(buckets, b, r))
    ensures Apart(Ring(buckets, b, r - 1), Below(buckets, b, r)) && Apart(Ring(buckets, b, r - 1), Above(buckets, b, r))
    ensures Apart(Below(buckets, b, r), Above(buckets, b, r))
  {
    hide Distinct, Shape, Apart, Ring;
    NothingApart(Ring(buckets, b, r - 1), Above(buckets, b, r));
    NothingApart(Below(buckets, b, r), Above(buckets, b, r));
    if b - r >= 0 {
      BucketDistinct(self, buckets, b - r);
      NewBucket(self, buckets, b, r - 1, b - r);
    }
    if b + r < |buckets| {
      BucketDistinct(self, buckets, b + r);
      NewBucket(self, buckets, b, r - 1, b + r);
    }
    if b - r >= 0 && b + r < |buckets| {
      TwoBuckets(self, buckets, b - r, b + r);
    }
  }

  lemma BucketDistinct(self: PeerID, buckets: Buckets, j: nat)
    requires Shape(self, buckets) && j < |buckets|
    ensures Distinct(buckets[j])
  {
  }

  lemma NothingApart(s: seq<PeerID>, u: seq<PeerID>)
    ensures Apart(s, []) && Apart([], u) && Distinct([])
  {
  }

  lemma TwoBuckets(self: PeerID, buckets: Buckets, i: nat, j: nat)
    requires Shape(self, buckets) && i < j < |buckets|
    ensures Apart(buckets[i], buckets[j])
  {
    hide Index;
    forall p, q | p in buckets[i] && q in buckets[j] ensures p.id != q.id {
      SameIndex(p, q, self);
    }
  }

  lemma SameIndex(p: PeerID, q: PeerID, self: PeerID)
    ensures p.id == q.id ==> Index(p, self) == Index(q, self)
  {
  }

  // ---- the result ----

  function Take(s: seq<PeerID>, count: nat): seq<PeerID> {
    if |s| > count then s[..count] else s
  }

  /** What FindClosestPeers returns for a target of bucket b. */
  function Closest(buckets: Buckets, b: nat, t: PeerID, count: nat): seq<PeerID>
    requires b < |buckets|
  {
    Take(Sort(Ring(buckets, b, Radius(buckets, b, count, 0)), t), count)
  }

  /** The number of peers found: as many as asked for, or as there are. */
  lemma ClosestCount(buckets: Buckets, b: nat, t: PeerID, count: nat)
    requires b < |buckets|
    ensures |Closest(buckets, b, t, count)|
            == if count <= Entries(buckets, 0, |buckets|) then count else Entries(buckets, 0, |buckets|)
  {
    hide Ring, Sort;
    var r := Radius(buckets, b, count, 0);
    RingEntries(buckets, b, r);
    EntriesWithin(buckets, Low(b, r), High(|buckets|, b, r));
  }

  lemma {:induction false} EntriesWithin(buckets: Buckets, lo: nat, hi: nat)
    requires hi <= |buckets|
    ensures Entries(buckets, lo, hi) <= Entries(buckets, 0, |buckets|)
    decreases lo + |buckets| - hi
  {
    if hi < |buckets| {
      EntriesWithin(buckets, lo, hi + 1);
    } else if lo >= hi {
    } else if lo > 0 {
      EntriesFront(buckets, lo - 1, hi);
      EntriesWithin(buckets, lo - 1, hi);
    }
  }

  /** The peers found are entries of the table, and each is strictly nearer to the target than the next. */
  lemma ClosestAscending(self: PeerID, buckets: Buckets, b: nat, t: PeerID, count: nat)
    requires Shape(self, buckets) && b < |buckets| && |t.id| == |self.id|
    ensures Ascending(Closest(buckets, b, t, count), t)
    ensures forall p :: p in Closest(buckets, b, t, count) ==> exists j :: 0 <= j < |buckets| && p in buckets[j]
  {
    hide Ring, Sort, Radius, Closer;
    var r := Radius(buckets, b, count, 0);
    var ring := Ring(buckets, b, r);
    RingDistinct(self, buckets, b, r);
    RingOneLength(self, buckets, b, r);
    SortAscending(ring, t);
    forall p | p in Closest(buckets, b, t, count) ensures exists j :: 0 <= j < |buckets| && p in buckets[j] {
      assert p in Sort(ring, t);
      SameMembers(Sort(ring, t), ring, p);
      RingMember(buckets, b, r, p);
    }
  }

  /** The buckets at most r away from b hold count peers, or they are all there are. */
  predicate WalkDone(buckets: Buckets, b: nat, count: nat, r: nat)
    requires b < |buckets|
  {
    Entries(buckets, Low(b, r), High(|buckets|, b, r)) >= count || (b <= r && |buckets| <= b + r + 1)
  }

  lemma {:induction false} WalkRadius(buckets: Buckets, b: nat, count: nat, r: nat)
    requires b < |buckets| && forall s | 0 <= s < r :: !WalkDone(buckets, b, count, s)
    ensures var end := Radius(buckets, b, count, r);
            WalkDone(buckets, b, count, end) && forall s | 0 <= s < end :: !WalkDone(buckets, b, count, s)
    decreases |buckets| - r
  {
    hide Ring, Entries;
    RingEntries(buckets, b, r);
    if !WalkDone(buckets, b, count, r) {
      WalkRadius(buckets, b, count, r + 1);
    }
  }

  /**
   * The walk goes out to the first distance r at which it has count peers or nothing is left, and what is found are
   * the nearest of all peers within r.
   */
  lemma WalkExact(self: PeerID, buckets: Buckets, t: PeerID, b: nat, count: nat) returns (r: nat)
    requires Shape(self, buckets) && |t.id| == |self.id| && b < |buckets|
    ensures WalkDone(buckets, b, count, r) && forall s | 0 <= s < r :: !WalkDone(buckets, b, count, s)
    ensures var found := Closest(buckets, b, t, count);
            && (forall p | p in found :: exists j | 0 <= j < |buckets| :: b - r <= j <= b + r && p in buckets[j])
            && (forall j, q | 0 <= j < |buckets| && b - r <= j <= b + r && q in buckets[j] && q !in found ::
                  forall p | p in found :: Closer(p, q, t))
  {
    hide Ring, Sort, Radius, Closer, WalkDone, Shape;
    r := Radius(buckets, b, count, 0);
    WalkRadius(buckets, b, count, 0);
    var ring := Ring(buckets, b, r);
    var sorted, found := Sort(ring, t), Closest(buckets, b, t, count);
    RingDistinct(self, buckets, b, r);
    RingOneLength(self, buckets, b, r);
    SortAscending(ring, t);
    forall p | p in found ensures exists j | 0 <= j < |buckets| :: b - r <= j <= b + r && p in buckets[j] {
      assert p in sorted;
      SameMembers(sorted, ring, p);
      RingMember(buckets, b, r, p);
    }
    forall j, q | 0 <= j < |buckets| && b - r <= j <= b + r && q in buckets[j] && q !in found
      ensures forall p | p in found :: Closer(p, q, t)
    {
      RingMember(buckets, b, r, q);
      SameMembers(sorted, ring, q);
      BehindAll(sorted, t, count, q);
    }
  }

  lemma BehindAll(s: seq<PeerID>, t: PeerID, count: nat, q: PeerID)
    requires Ascending(s, t) && q in s && q !in Take(s, count)
    ensures forall p | p in Take(s, count) :: Closer(p, q, t)
  {
    hide Closer;
    var k :| 0 <= k < |s| && s[k] == q;
    if |s| > count {
      forall i | 0 <= i < count ensures s[i] in s[..count] {
        assert s[..count][i] == s[i];
      }
      forall p | p in s[..count] ensures Closer(p, q, t) {
        var i :| 0 <= i < count && s[..count][i] == p;
      }
    }
  }

  /** The peers of the target's own bucket come first, by rising distance, before all others. */
  lemma OwnBucketFirst(self: PeerID, buckets: Buckets, t: PeerID, count: nat)
    requires Shape(self, buckets) && |t.id| == |self.id| && 0 <= Index(t, self) < |buckets|
    ensures var b := Index(t, self);
            var others := Ring(buckets, b, Radius(buckets, b, count, 0))[|buckets[b]|..];
            Closest(buckets, b, t, count) == Take(Sort(buckets[b], t) + Sort(others, t), count)
            && forall p :: p in others ==> p !in buckets[b]
  {
    hide Ring, Sort, Radius, Closer, Index;
    var b := Index(t, self);
    var r := Radius(buckets, b, count, 0);
    var ring := Ring(buckets, b, r);
    var own, others := buckets[b], ring[|buckets[b]|..];
    assert ring == own + others;
    RingDistinct(self, buckets, b, r);
    RingOneLength(self, buckets, b, r);
    SortAscending(ring, t);
    SortAscending(own, t);
    SortAscending(others, t);
    var u := Sort(own, t) + Sort(others, t);
    forall p, q | p in own && q in others ensures Closer(p, q, t) && p != q {
      RingMember(buckets, b, r, q);
      OtherBucket(self, buckets, b, p, q);
      OwnBucketCloser(p, q, t, self);
    }
    forall x, y | 0 <= x < |own| && 0 <= y < |others| ensures Closer(Sort(own, t)[x], Sort(others, t)[y], t) {
      SameMembers(Sort(own, t), own, Sort(own, t)[x]);
      SameMembers(Sort(others, t), others, Sort(others, t)[y]);
    }
    assert Ascending(u, t);
    SameLength(ring, Sort(ring, t), |t.id|);
    AscendingUnique(Sort(ring, t), u, t);
  }

  lemma SameLength(s: seq<PeerID>, r: seq<PeerID>, n: nat)
    requires OneLength(s, n) && multiset(s) == multiset(r)
    ensures OneLength(r, n)
  {
    forall p | p in r ensures |p.id| == n {
      SameMembers(s, r, p);
    }
  }

  // a ring entry that stands behind the own bucket is not in it
  lemma OtherBucket(self: PeerID, buckets: Buckets, b: nat, p: PeerID, q: PeerID)
    requires Shape(self, buckets) && b < |buckets| && p in buckets[b]
    requires exists j :: 0 <= j < |buckets| && q in buckets[j]
    requires q !in buckets[b]
    ensures Index(p, self) == b != Index(q, self) && |p.id| == |q.id| == |self.id|
  {
    hide Index;
  }

  // ---- when it is exact ----

  /** No entry of the table that was left out is as near to t as any that was found. */
  predicate Nearest(found: seq<PeerID>, buckets: Buckets, t: PeerID) {
    forall j, q, i :: 0 <= j < |buckets| && q in buckets[j] && q !in found && 0 <= i < |found|
      ==> Closer(found[i], q, t)
  }

  /** How many peers of s are nearer to t than q is. */
  function CloserCount(s: seq<PeerID>, q: PeerID, t: PeerID): (n: nat)
    ensures n <= |s|
  {
    if s == [] then 0 else (if Closer(s[0], q, t) then 1 else 0) + CloserCount(s[1..], q, t)
  }

  /** Each peer of a bucket the walk did not reach, above the target's, has at least count collected peers before it. */
  predicate EnoughCloser(buckets: Buckets, b: nat, t: PeerID, count: nat)
    requires b < |buckets|
  {
    var r := Radius(buckets, b, count, 0);
    forall j, q :: b + r < j < |buckets| && q in buckets[j] ==> CloserCount(Ring(buckets, b, r), q, t) >= count
  }

  lemma {:induction false} InsertCount(p: PeerID, s: seq<PeerID>, q: PeerID, t: PeerID)
    ensures CloserCount(Insert(p, s, t), q, t) == (if Closer(p, q, t) then 1 else 0) + CloserCount(s, q, t)
    decreases |s|
  {
    hide Closer;
    if s == [] || Closer(p, s[0], t) {
      assert ([p] + s)[1..] == s;
    } else {
      InsertCount(p, s[1..], q, t);
      assert ([s[0]] + Insert(p, s[1..], t))[1..] == Insert(p, s[1..], t);
    }
  }

  lemma {:induction false} SortCount(s: seq<PeerID>, q: PeerID, t: PeerID)
    ensures CloserCount(Sort(s, t), q, t) == CloserCount(s, q, t)
    decreases |s|
  {
    hide Closer, Insert;
    if s != [] {
      SortCount(s[1..], q, t);
      InsertCount(s[0], Sort(s[1..], t), q, t);
    }
  }

  /** In an ascending list, the peers nearer than q are the first ones. */
  lemma {:induction false} CountAscending(s: seq<PeerID>, q: PeerID, t: PeerID, k: nat)
    requires Ascending(s, t) && OneLength(s, |t.id|) && |q.id| == |t.id| && k <= |s|
    ensures CloserCount(s, q, t) >= k <==> forall i :: 0 <= i < k ==> Closer(s[i], q, t)
    decreases |s|
  {
    hide Closer;
    if k > 0 {
      if Closer(s[0], q, t) {
        CountAscending(s[1..], q, t, k - 1);
        forall i | 0 < i < k ensures s[i] == s[1..][i - 1] {
        }
        assert (forall i :: 0 <= i < k - 1 ==> Closer(s[1..][i], q, t))
          <==> (forall i :: 0 < i < k ==> Closer(s[i], q, t)) by {
          ShiftAll(s, q, t, k);
        }
      } else {
        NoneCloser(s, q, t);
      }
    }
  }

  lemma ShiftAll(s: seq<PeerID>, q: PeerID, t: PeerID, k: nat)
    requires 0 < k <= |s|
    ensures (forall i :: 0 <= i < k - 1 ==> Closer(s[1..][i], q, t)) <==> (forall i :: 0 < i < k ==> Closer(s[i], q, t))
  {
    hide Closer;
    if forall i :: 0 <= i < k - 1 ==> Closer(s[1..][i], q, t) {
      forall i | 0 < i < k ensures Closer(s[i], q, t) {
        assert s[i] == s[1..][i - 1];
      }
    }
  }

  lemma {:induction false} NoneCloser(s: seq<PeerID>, q: PeerID, t: PeerID)
    requires Ascending(s, t) && OneLength(s, |t.id|) && |q.id| == |t.id|
    requires s != [] ==> !Closer(s[0], q, t)
    ensures CloserCount(s, q, t) == 0
    decreases |s|
  {
    hide Closer;
    if s != [] {
      if |s| > 1 && Closer(s[1], q, t) {
        CloserTransitive(s[0], s[1], q, t);
      }
      NoneCloser(s[1..], q, t);
    }
  }

  // the peers left out decide, one by one
  lemma NearestCounted(self: PeerID, buckets: Buckets, t: PeerID, count: nat)
    requires Shape(self, buckets) && |t.id| == |self.id| && 0 <= Index(t, self) < |buckets|
    ensures var b := Index(t, self);
            Nearest(Closest(buckets, b, t, count), buckets, t) <==> EnoughCloser(buckets, b, t, count)
  {
    hide Ring, Sort, Radius, Closer, Index, CloserCount;
    var b := Index(t, self);
    var r := Radius(buckets, b, count, 0);
    var ring := Ring(buckets, b, r);
    var sorted := Sort(ring, t);
    var found := Closest(buckets, b, t, count);
    RingDistinct(self, buckets, b, r);
    RingOneLength(self, buckets, b, r);
    SortAscending(ring, t);
    SameLength(ring, sorted, |t.id|);
    if EnoughCloser(buckets, b, t, count) {
      forall j, q, i | 0 <= j < |buckets| && q in buckets[j] && q !in found && 0 <= i < |found|
        ensures Closer(found[i], q, t) {
        LeftOut(self, buckets, t, count, j, q, i);
      }
    }
    if Nearest(found, buckets, t) {
      forall j, q | b + r < j < |buckets| && q in buckets[j] ensures CloserCount(ring, q, t) >= count {
        Beyond(self, buckets, b, r, j, q);
        SameMembers(sorted, ring, q);
        assert q !in found;
        CountAscending(sorted, q, t, count);
        SortCount(ring, q, t);
      }
    }
  }

  /**
   * The peers of bucket b, and of those of the r buckets above it that stand at a set bit of x, the target's distance
   * to the node.
   */
  function Ahead(buckets: Buckets, x: seq<bv8>, b: nat, r: nat): nat
    requires b < |buckets| == 8 * |x|
  {
    if r == 0 then |buckets[b]|
    else Ahead(buckets, x, b, r - 1) + if b + r < |buckets| && Bit(x, b + r) then |buckets[b + r]| else 0
  }

  /**
   * No bucket above the walk holds a peer, or enough peers of the walk stand ahead of all of those. It takes only the
   * sizes of the buckets and the bits of the target.
   */
  predicate WalkSuffices(buckets: Buckets, x: seq<bv8>, b: nat, count: nat)
    requires b < |buckets| == 8 * |x|
  {
    var r := Radius(buckets, b, count, 0);
    (forall j :: b + r < j < |buckets| ==> buckets[j] == []) || Ahead(buckets, x, b, r) >= count
  }

  /**
   * FindClosestPeers finds the nearest peers of the whole table exactly when its walk suffices. The buckets below the
   * walk never matter.
   */
  lemma NearestIff(self: PeerID, buckets: Buckets, t: PeerID, count: nat)
    requires Shape(self, buckets) && |t.id| == |self.id| && 0 <= Index(t, self) < |buckets|
    ensures var b := Index(t, self);
            Nearest(Closest(buckets, b, t, count), buckets, t)
            <==> WalkSuffices(buckets, XorBytes(t.id, self.id), b, count)
  {
    assert |buckets| == 8 * |t.id|;
    hide Nearest, Closest, Index, Shape, WalkSuffices, EnoughCloser, XorBytes;
    NearestCounted(self, buckets, t, count);
    BeyondAlike(self, buckets, t, count);
  }

  // the peers beyond the walk do not differ in how many peers of the walk are nearer
  lemma BeyondAlike(self: PeerID, buckets: Buckets, t: PeerID, count: nat)
    requires Shape(self, buckets) && |t.id| == |self.id| && 0 <= Index(t, self) < |buckets|
    ensures EnoughCloser(buckets, Index(t, self), t, count)
            <==> WalkSuffices(buckets, XorBytes(t.id, self.id), Index(t, self), count)
  {
    assert |buckets| == 8 * |t.id|;
    hide Ring, Radius, Index, Shape, CloserCount, Ahead, XorBytes;
    var b, x := Index(t, self), XorBytes(t.id, self.id);
    var r := Radius(buckets, b, count, 0);
    if j :| b + r < j < |buckets| && buckets[j] != [] {
      var q := buckets[j][0];
      assert q in buckets[j];
      RingAhead(self, buckets, t, r, j, q);
    }
    forall j, q | b + r < j < |buckets| && q in buckets[j]
      ensures CloserCount(Ring(buckets, b, r), q, t) == Ahead(buckets, x, b, r)
    {
      RingAhead(self, buckets, t, r, j, q);
    }
  }

  /** Every peer beyond the walk has the same number of collected peers ahead of it. */
  lemma {:induction false} RingAhead(self: PeerID, buckets: Buckets, t: PeerID, r: nat, j: nat, q: PeerID)
    requires Shape(self, buckets) && |t.id| == |self.id| && 0 <= Index(t, self) < |buckets|
    requires Index(t, self) + r < j < |buckets| && q in buckets[j]
    ensures CloserCount(Ring(buckets, Index(t, self), r), q, t)
            == Ahead(buckets, XorBytes(t.id, self.id), Index(t, self), r)
    decreases r
  {
    hide Closer, Index, XorBytes, Bit, CloserCount, Shape;
    var b, x := Index(t, self), XorBytes(t.id, self.id);
    if r == 0 {
      OwnAhead(self, buckets, t, j, q);
    } else {
      RingAhead(self, buckets, t, r - 1, j, q);
      var inner, below, above := Ring(buckets, b, r - 1), Below(buckets, b, r), buckets[b + r];
      BelowFarther(self, buckets, t, r, j, q);
      AboveAhead(self, buckets, t, b + r, j, q);
      CountConcat(inner, below, q, t);
      CountConcat(inner + below, above, q, t);
    }
  }

  lemma OwnAhead(self: PeerID, buckets: Buckets, t: PeerID, j: nat, q: PeerID)
    requires Shape(self, buckets) && |t.id| == |self.id| && 0 <= Index(t, self) < j < |buckets| && q in buckets[j]
    ensures CloserCount(buckets[Index(t, self)], q, t) == |buckets[Index(t, self)]|
  {
    hide Closer, Index, CloserCount;
    var b := Index(t, self);
    forall p | p in buckets[b] ensures Closer(p, q, t) {
      OwnBucketCloser(p, q, t, self);
    }
    AllCloser(buckets[b], q, t);
  }

  lemma BelowFarther(self: PeerID, buckets: Buckets, t: PeerID, r: nat, j: nat, q: PeerID)
    requires Shape(self, buckets) && |t.id| == |self.id| && 0 <= Index(t, self) < j < |buckets| && q in buckets[j]
            && r > 0
    ensures CloserCount(Below(buckets, Index(t, self), r), q, t) == 0
  {
    hide Closer, Index, CloserCount;
    var b := Index(t, self);
    var below := Below(buckets, b, r);
    forall p | p in below ensures !Closer(p, q, t) {
      LowerBucketFarther(q, p, t, self);
      NotBoth(p, q, t);
    }
    NoCloser(below, q, t);
  }

  lemma AboveAhead(self: PeerID, buckets: Buckets, t: PeerID, i: nat, j: nat, q: PeerID)
    requires Shape(self, buckets) && |t.id| == |self.id| && i < j < |buckets| && q in buckets[j]
    ensures CloserCount(buckets[i], q, t) == if Bit(XorBytes(t.id, self.id), i) then |buckets[i]| else 0
  {
    hide Closer, Index, CloserCount, XorBytes, Bit;
    forall p | p in buckets[i] ensures Closer(p, q, t) <==> Bit(XorBytes(t.id, self.id), i) {
      BucketOrder(p, q, t, self);
    }
    if Bit(XorBytes(t.id, self.id), i) {
      AllCloser(buckets[i], q, t);
    } else {
      NoCloser(buckets[i], q, t);
    }
  }

  lemma NotBoth(p: PeerID, q: PeerID, t: PeerID)
    requires |p.id| == |q.id| && Closer(q, p, t)
    ensures !Closer(p, q, t)
  {
    hide Closer;
    if Closer(p, q, t) {
      CloserTransitive(p, q, p, t);
      CloserIrreflexive(p, t);
    }
  }

  lemma {:induction false} CountConcat(s: seq<PeerID>, u: seq<PeerID>, q: PeerID, t: PeerID)
    ensures CloserCount(s + u, q, t) == CloserCount(s, q, t) + CloserCount(u, q, t)
    decreases |s|
  {
    hide Closer;
    if s == [] {
      assert s + u == u;
    } else {
      assert (s + u)[1..] == s[1..] + u;
      CountConcat(s[1..], u, q, t);
    }
  }

  lemma {:induction false} NoCloser(s: seq<PeerID>, q: PeerID, t: PeerID)
    requires forall p :: p in s ==> !Closer(p, q, t)
    ensures CloserCount(s, q, t) == 0
    decreases |s|
  {
    hide Closer;
    if s != [] {
      NoCloser(s[1..], q, t);
    }
  }

  // a peer above the walk was not collected
  lemma Beyond(self: PeerID, buckets: Buckets, b: nat, r: nat, j: nat, q: PeerID)
    requires Shape(self, buckets) && b < |buckets| && b + r < j < |buckets| && q in buckets[j]
    ensures q !in Ring(buckets, b, r) && |q.id| == |self.id|
  {
    hide Ring, Index;
    RingMember(buckets, b, r, q);
  }

  // a peer left out is farther than every peer found
  lemma LeftOut(self: PeerID, buckets: Buckets, t: PeerID, count: nat, j: nat, q: PeerID, i: nat)
    requires Shape(self, buckets) && |t.id| == |self.id| && 0 <= Index(t, self) < |buckets|
    requires EnoughCloser(buckets, Index(t, self), t, count)
    requires j < |buckets| && q in buckets[j] && q !in Closest(buckets, Index(t, self), t, count)
    requires i < |Closest(buckets, Index(t, self), t, count)|
    ensures Closer(Closest(buckets, Index(t, self), t, count)[i], q, t)
  {
    hide Ring, Sort, Radius, Closer, Index, CloserCount;
    var b := Index(t, self);
    var r := Radius(buckets, b, count, 0);
    var ring := Ring(buckets, b, r);
    var sorted := Sort(ring, t);
    RingDistinct(self, buckets, b, r);
    RingOneLength(self, buckets, b, r);
    SortAscending(ring, t);
    SameLength(ring, sorted, |t.id|);
    SameMembers(sorted, ring, q);
    SameMembers(sorted, ring, sorted[i]);
    if q in ring {
      var k :| 0 <= k < |sorted| && sorted[k] == q;
    } else {
      RingMember(buckets, b, r, q);
      RingMember(buckets, b, r, sorted[i]);
      if j < b {
        var p := sorted[i];
        assert Index(q, self) == j && Index(p, self) > j;
        LowerBucketFarther(p, q, t, self);
      } else {
        CountAscending(sorted, q, t, if count <= |sorted| then count else |sorted|);
        SortCount(ring, q, t);
      }
    }
  }

  /** If the target's own bucket holds count peers, the result is exact. */
  lemma OwnBucketNearest(self: PeerID, buckets: Buckets, t: PeerID, count: nat)
    requires Shape(self, buckets) && |t.id| == |self.id| && 0 <= Index(t, self) < |buckets|
    requires count <= |buckets[Index(t, self)]|
    ensures Nearest(Closest(buckets, Index(t, self), t, count), buckets, t)
  {
    hide Index, Closest, Nearest, XorBytes, Shape;
    NearestIff(self, buckets, t, count);
    assert Radius(buckets, Index(t, self), count, 0) == 0;
  }

  lemma {:induction false} AllCloser(s: seq<PeerID>, q: PeerID, t: PeerID)
    requires forall p :: p in s ==> Closer(p, q, t)
    ensures CloserCount(s, q, t) == |s|
    decreases |s|
  {
    hide Closer;
    if s != [] {
      AllCloser(s[1..], q, t);
    }
  }
}
