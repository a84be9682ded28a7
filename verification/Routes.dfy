/** The Kademlia routing table: dht/routes.go. */
module Routes {
  import opened PeerIdentity
  import opened NearestPeers
  import opened Wrappers

  // ---- one bucket ----

  /** Where the first peer with this id stands in bucket, or its length. */
  function Position(bucket: seq<PeerID>, id: seq<bv8>): (k: nat)
    ensures k <= |bucket| && (k < |bucket| ==> bucket[k].id == id)
    ensures forall i :: 0 <= i < k ==> bucket[i].id != id
  {
    if bucket == [] || bucket[0].id == id then 0 else
    var k := Position(bucket[1..], id);
    assert forall i :: 0 < i < k + 1 ==> bucket[i] == bucket[1..][i - 1];
    1 + k
  }

  /** Updating: to the front if present (the entry already there is kept), else pushed in front while there is room. */
  function Touch(bucket: seq<PeerID>, target: PeerID): seq<PeerID> {
    var k := Position(bucket, target.id);
    if k < |bucket| then [bucket[k]] + Without(bucket, k)
    else if |bucket| <= BUCKET_SIZE then [target] + bucket
    else bucket
  }

  /** list.Remove of the entry at k. */
  function Without(bucket: seq<PeerID>, k: nat): seq<PeerID>
    requires k < |bucket|
  {
    bucket[..k] + bucket[k + 1..]
  }

  function Drop(bucket: seq<PeerID>, id: seq<bv8>): seq<PeerID> {
    var k := Position(bucket, id);
    if k < |bucket| then Without(bucket, k) else bucket
  }

  /** The entries with other ids, in order. */
  function Others(bucket: seq<PeerID>, id: seq<bv8>): seq<PeerID> {
    if bucket == [] then []
    else (if bucket[0].id == id then [] else [bucket[0]]) + Others(bucket[1..], id)
  }

  predicate Holds(bucket: seq<PeerID>, id: seq<bv8>) {
    exists i :: 0 <= i < |bucket| && bucket[i].id == id
  }

  lemma {:induction false} OthersConcat(s: seq<PeerID>, u: seq<PeerID>, id: seq<bv8>)
    ensures Others(s + u, id) == Others(s, id) + Others(u, id)
    decreases |s|
  {
    if s == [] {
      assert s + u == u;
    } else {
      assert (s + u)[1..] == s[1..] + u;
      OthersConcat(s[1..], u, id);
    }
  }

  lemma OthersOne(p: PeerID, id: seq<bv8>)
    ensures Others([p], id) == if p.id == id then [] else [p]
  {
    assert Others([p][1..], id) == [];
  }

  lemma OthersWithout(bucket: seq<PeerID>, k: nat, id: seq<bv8>)
    requires k < |bucket| && bucket[k].id == id
    ensures Others(Without(bucket, k), id) == Others(bucket, id)
  {
    hide Others;
    assert bucket == bucket[..k] + ([bucket[k]] + bucket[k + 1..]);
    OthersConcat(bucket[..k], bucket[k + 1..], id);
    OthersConcat(bucket[..k], [bucket[k]] + bucket[k + 1..], id);
    OthersConcat([bucket[k]], bucket[k + 1..], id);
    OthersOne(bucket[k], id);
  }

  /** Updating a bucket leaves the other entries as they were, in their order; the target is in front if it is
      there at all. */
  lemma TouchEffect(bucket: seq<PeerID>, target: PeerID)
    ensures Others(Touch(bucket, target), target.id) == Others(bucket, target.id)
    ensures Holds(Touch(bucket, target), target.id) <==> Holds(bucket, target.id) || |bucket| <= BUCKET_SIZE
    ensures Holds(Touch(bucket, target), target.id) ==> Touch(bucket, target)[0].id == target.id
    ensures forall p :: p in bucket ==> p in Touch(bucket, target)
    ensures forall p :: p in Touch(bucket, target) ==> p in bucket || p == target
    ensures |Touch(bucket, target)| == |bucket| + if !Holds(bucket, target.id) && |bucket| <= BUCKET_SIZE then 1 else 0
    ensures !Holds(bucket, target.id) ==>
              Touch(bucket, target) == if |bucket| <= BUCKET_SIZE then [target] + bucket else bucket
    ensures Holds(bucket, target.id) ==> Touch(bucket, target)[0] in bucket
  {
    hide Others;
    var k := Position(bucket, target.id);
    if k < |bucket| {
      OthersWithout(bucket, k, target.id);
      OthersConcat([bucket[k]], Without(bucket, k), target.id);
      OthersOne(bucket[k], target.id);
      assert Touch(bucket, target)[0].id == target.id;
    } else if |bucket| <= BUCKET_SIZE {
      OthersConcat([target], bucket, target.id);
      OthersOne(target, target.id);
      assert Touch(bucket, target)[0].id == target.id;
    }
  }

  lemma TouchDistinct(bucket: seq<PeerID>, target: PeerID)
    requires Distinct(bucket)
    ensures Distinct(Touch(bucket, target))
  {
  }

  /** Removing from a bucket without repeats leaves the others in order, and the target gone. */
  lemma DropEffect(bucket: seq<PeerID>, id: seq<bv8>)
    requires Distinct(bucket)
    ensures Others(Drop(bucket, id), id) == Others(bucket, id) && !Holds(Drop(bucket, id), id)
    ensures Distinct(Drop(bucket, id)) && |Drop(bucket, id)| <= |bucket|
    ensures forall p :: p in Drop(bucket, id) <==> p in bucket && p.id != id
  {
    hide Others;
    var k := Position(bucket, id);
    if k < |bucket| {
      OthersWithout(bucket, k, id);
    }
  }

  // ---- the whole table ----

  /** The ids in the table. */
  ghost predicate Contains(buckets: Buckets, id: seq<bv8>) {
    exists j :: 0 <= j < |buckets| && Holds(buckets[j], id)
  }

  function Updated(self: PeerID, buckets: Buckets, target: PeerID): Buckets
    requires Shape(self, buckets)
  {
    if |self.id| != |target.id| then buckets
    else
      var b := Index(target, self);
      if 0 <= b < |buckets| then buckets[b := Touch(buckets[b], target)] else buckets
  }

  function Removed(self: PeerID, buckets: Buckets, target: PeerID): Buckets
    requires Shape(self, buckets)
  {
    var b := Index(target, self);
    if 0 <= b < |buckets| then buckets[b := Drop(buckets[b], target.id)] else buckets
  }

  lemma InRange(self: PeerID, target: PeerID)
    requires |target.id| == |self.id| > 0
    ensures 0 <= Index(target, self) < 8 * |self.id|
  {
    hide XorBytes;
  }

  /** A table's entry with a given id can only be in the bucket of that id. */
  lemma OnlyBucket(self: PeerID, buckets: Buckets, target: PeerID)
    requires Shape(self, buckets)
    ensures Contains(buckets, target.id) <==>
              0 <= Index(target, self) < |buckets| && Holds(buckets[Index(target, self)], target.id)
  {
    hide Index;
    if j :| 0 <= j < |buckets| && Holds(buckets[j], target.id) {
      var i :| 0 <= i < |buckets[j]| && buckets[j][i].id == target.id;
      SameIndex(buckets[j][i], target, self);
      assert buckets[j][i] in buckets[j];
    }
  }

  /** One bucket changed within its rules keeps the table's invariant. */
  lemma ShapeChange(self: PeerID, buckets: Buckets, b: nat, bucket: seq<PeerID>)
    requires Shape(self, buckets) && b < |buckets|
    requires Distinct(bucket) && |bucket| <= BUCKET_SIZE + 1
    requires forall p :: p in bucket ==> |p.id| == |self.id| && Index(p, self) == b
    ensures Shape(self, buckets[b := bucket])
  {
    hide Index, Distinct;
  }

  /**
   * Update keeps the invariant and changes nothing but the target's place: every id stays, every other bucket is
   * unchanged, the other entries of the target's bucket keep their order, and the target comes in, at the front,
   * unless its bucket is full. An entry that is there stays as it is, address and key included, and moves to the
   * front; a newcomer is stored as it was given. The bucket holds more than BUCKET_SIZE exactly if it did, or held
   * BUCKET_SIZE others.
   */
  lemma UpdateEffect(self: PeerID, buckets: Buckets, target: PeerID)
    requires Shape(self, buckets)
    ensures Shape(self, Updated(self, buckets, target))
    ensures |target.id| != |self.id| ==> Updated(self, buckets, target) == buckets
    ensures |target.id| == |self.id| ==>
              var b := Index(target, self);
              var after := Updated(self, buckets, target);
              0 <= b < |buckets|
              && (forall j :: 0 <= j < |buckets| && j != b ==> after[j] == buckets[j])
              && Others(after[b], target.id) == Others(buckets[b], target.id)
              && (Contains(after, target.id) <==> Contains(buckets, target.id) || |buckets[b]| <= BUCKET_SIZE)
              && (Contains(after, target.id) ==> after[b] != [] && after[b][0].id == target.id)
              && (forall p :: p in buckets[b] ==> p in after[b])
              && (forall p :: p in after[b] ==> p in buckets[b] || p == target)
              && (Contains(buckets, target.id) ==> after[b][0] in buckets[b])
              && (!Contains(buckets, target.id) ==>
                    after[b] == if |buckets[b]| <= BUCKET_SIZE then [target] + buckets[b] else buckets[b])
              && (|after[b]| > BUCKET_SIZE
                  <==> |buckets[b]| > BUCKET_SIZE || (|buckets[b]| == BUCKET_SIZE && !Contains(buckets, target.id)))
  {
    if |target.id| == |self.id| {
      InRange(self, target);
      hide Index, Touch, Others, Holds, Contains;
      var b := Index(target, self);
      TouchEffect(buckets[b], target);
      TouchDistinct(buckets[b], target);
      TouchInBucket(self, buckets, b, target);
      hide Shape, Distinct;
      ShapeChange(self, buckets, b, Touch(buckets[b], target));
      OnlyBucket(self, buckets, target);
      OnlyBucket(self, Updated(self, buckets, target), target);
      NonEmptyFront(Touch(buckets[b], target), target.id);
    }
  }

  lemma TouchInBucket(self: PeerID, buckets: Buckets, b: nat, target: PeerID)
    requires Shape(self, buckets) && b < |buckets| && |target.id| == |self.id| && Index(target, self) == b
    ensures |Touch(buckets[b], target)| <= BUCKET_SIZE + 1
    ensures forall p :: p in Touch(buckets[b], target) ==> |p.id| == |self.id| && Index(p, self) == b
  {
    hide Index, Touch, Distinct, Others, Holds;
    TouchEffect(buckets[b], target);
  }

  lemma NonEmptyFront(bucket: seq<PeerID>, id: seq<bv8>)
    ensures Holds(bucket, id) ==> bucket != []
  {
  }

  /** RemovePeer keeps the invariant, removes the target and changes nothing else. */
  lemma RemoveEffect(self: PeerID, buckets: Buckets, target: PeerID)
    requires Shape(self, buckets) && 0 <= Index(target, self) < |buckets|
    ensures var b := Index(target, self);
            var after := Removed(self, buckets, target);
            Shape(self, after) && !Contains(after, target.id)
            && (forall j :: 0 <= j < |buckets| && j != b ==> after[j] == buckets[j])
            && Others(after[b], target.id) == Others(buckets[b], target.id)
  {
    hide Index, Drop, Others;
    var b := Index(target, self);
    DropEffect(buckets[b], target.id);
    ShapeChange(self, buckets, b, Drop(buckets[b], target.id));
    OnlyBucket(self, Removed(self, buckets, target), target);
  }

  // ---- runs ----

  datatype Operation = Update(peer: PeerID) | Remove(peer: PeerID)

  function Step(self: PeerID, buckets: Buckets, op: Operation): (after: Buckets)
    requires Shape(self, buckets)
    ensures Shape(self, after)
  {
    match op
    case Update(p) => UpdateEffect(self, buckets, p); Updated(self, buckets, p)
    case Remove(p) =>
      if 0 <= Index(p, self) < |buckets| then RemoveEffect(self, buckets, p); Removed(self, buckets, p) else buckets
  }

  function Run(self: PeerID, buckets: Buckets, ops: seq<Operation>): (after: Buckets)
    requires Shape(self, buckets)
    ensures Shape(self, after)
    decreases |ops|
  {
    if ops == [] then buckets else Run(self, Step(self, buckets, ops[0]), ops[1..])
  }

  /** Over any run, an id that is in the table leaves it only by being removed: no update ever evicts. */
  lemma {:induction false} StaysUntilRemoved(self: PeerID, buckets: Buckets, ops: seq<Operation>, id: seq<bv8>)
    requires Shape(self, buckets) && Contains(buckets, id)
    requires forall i :: 0 <= i < |ops| && ops[i].Remove? ==> ops[i].peer.id != id
    ensures Contains(Run(self, buckets, ops), id)
    decreases |ops|
  {
    hide Shape, Step;
    if ops != [] {
      StepKeeps(self, buckets, ops[0], id);
      StaysUntilRemoved(self, Step(self, buckets, ops[0]), ops[1..], id);
    }
  }

  lemma StepKeeps(self: PeerID, buckets: Buckets, op: Operation, id: seq<bv8>)
    requires Shape(self, buckets) && Contains(buckets, id) && (op.Remove? ==> op.peer.id != id)
    ensures Contains(Step(self, buckets, op), id)
  {
    hide Index, Touch, Drop, Others;
    var after := Step(self, buckets, op);
    var j :| 0 <= j < |buckets| && Holds(buckets[j], id);
    var i :| 0 <= i < |buckets[j]| && buckets[j][i].id == id;
    var p := buckets[j][i];
    if op.Update? {
      TouchEffect(buckets[j], op.peer);
    } else {
      DropEffect(buckets[j], op.peer.id);
    }
    assert p in after[j];
    assert Holds(after[j], id);
  }

  /** Updates with n new peers of one bucket, as long as it holds at most BUCKET_SIZE before the last, add all n. */
  lemma {:induction false} UpdatesFill(self: PeerID, buckets: Buckets, b: nat, peers: seq<PeerID>)
    requires Shape(self, buckets) && b < |buckets| && Distinct(peers) && |buckets[b]| + |peers| <= BUCKET_SIZE + 1
    requires forall p :: p in peers ==> |p.id| == |self.id| && Index(p, self) == b && !Holds(buckets[b], p.id)
    ensures var after := Run(self, buckets, Updates(peers));
            |after| == |buckets| && |after[b]| == |buckets[b]| + |peers|
    decreases |peers|
  {
    hide Index, Touch, Shape, Distinct, Others;
    if peers != [] {
      var p, rest := peers[0], peers[1..];
      var after := Updated(self, buckets, p);
      assert p in peers;
      UpdateEffect(self, buckets, p);
      TouchEffect(buckets[b], p);
      RestDistinct(peers);
      forall q | q in rest ensures |q.id| == |self.id| && Index(q, self) == b && !Holds(after[b], q.id) {
        assert q in peers;
        OnlyTarget(buckets[b], p, q.id);
      }
      UpdatesFill(self, after, b, rest);
      assert Updates(peers)[0] == Update(p) && Updates(peers)[1..] == Updates(rest);
    }
  }

  function Updates(peers: seq<PeerID>): (ops: seq<Operation>)
    ensures |ops| == |peers|
  {
    seq(|peers|, i requires 0 <= i < |peers| => Update(peers[i]))
  }

  lemma RestDistinct(peers: seq<PeerID>)
    requires Distinct(peers) && peers != []
    ensures Distinct(peers[1..]) && forall q :: q in peers[1..] ==> q.id != peers[0].id
  {
  }

  lemma OnlyTarget(bucket: seq<PeerID>, target: PeerID, id: seq<bv8>)
    requires !Holds(bucket, id) && target.id != id
    ensures !Holds(Touch(bucket, target), id)
  {
    hide Touch, Others;
    TouchEffect(bucket, target);
    forall i | 0 <= i < |Touch(bucket, target)| ensures Touch(bucket, target)[i].id != id {
      assert Touch(bucket, target)[i] in Touch(bucket, target);
    }
  }

  /** The k-th of some peers that differ from an all-zero id in the first bit. */
  function Far(k: nat): PeerID {
    PeerID("", [], seq(BUCKET_SIZE + 2, j => if j == 0 then 0x80 else if j == k + 1 then 1 else 0))
  }

  function FarPeers(): seq<PeerID> {
    seq(BUCKET_SIZE + 1, k requires 0 <= k => Far(k))
  }

  const ORIGIN := PeerID("", [], seq(BUCKET_SIZE + 2, _ => 0))

  /** The bound is reached: a new table and BUCKET_SIZE + 1 updates leave a bucket of BUCKET_SIZE + 1. */
  lemma BucketOverfull()
    ensures var none: Buckets := seq(8 * |ORIGIN.id|, _ => []);
            Shape(ORIGIN, none) && |Run(ORIGIN, none, Updates([ORIGIN] + FarPeers()))[0]| == BUCKET_SIZE + 1
  {
    hide Index, Touch, Shape, Distinct, Others, FarPeers;
    var none: Buckets := seq(8 * |ORIGIN.id|, _ => []);
    var peers := FarPeers();
    NewShape(ORIGIN);
    OriginIndex();
    FarDistinct();
    UpdateEffect(ORIGIN, none, ORIGIN);
    var one := Updated(ORIGIN, none, ORIGIN);
    assert one[0] == [];
    UpdatesFill(ORIGIN, one, 0, peers);
    var ops := Updates([ORIGIN] + peers);
    assert ([ORIGIN] + peers)[1..] == peers;
    assert ops[0] == Update(ORIGIN) && ops[1..] == Updates(peers);
  }

  lemma FarDistinct()
    ensures |FarPeers()| == BUCKET_SIZE + 1 && Distinct(FarPeers())
    ensures forall p | p in FarPeers() :: |p.id| == |ORIGIN.id| && Index(p, ORIGIN) == 0
  {
    var peers := FarPeers();
    forall a, c | 0 <= a < c < |peers| ensures peers[a].id != peers[c].id {
      assert Far(a).id[a + 1] == 1 && Far(c).id[a + 1] == 0;
    }
    forall p | p in peers ensures |p.id| == |ORIGIN.id| && Index(p, ORIGIN) == 0 {
      var k :| 0 <= k < |peers| && peers[k] == p;
      FarIndex(k);
    }
  }

  lemma OriginIndex()
    ensures Index(ORIGIN, ORIGIN) == 8 * |ORIGIN.id| - 1
  {
    var x := XorBytes(ORIGIN.id, ORIGIN.id);
    forall j | 0 <= j < |x| ensures x[j] == 0 {
      XorZero(ORIGIN.id[j], ORIGIN.id[j]);
    }
    AllZero(x, 0);
  }

  lemma FarIndex(k: nat)
    ensures Index(Far(k), ORIGIN) == 0
  {
    assert XorBytes(Far(k).id, ORIGIN.id)[0] == 0x80;
  }

  // ---- a search that is not exact ----

  const HERE := PeerID("", [], [0x00])
  const FOUND := PeerID("", [], [0x40])
  const TARGET := PeerID("", [], [0x80])

  lemma Indices()
    ensures Index(HERE, HERE) == 7 && Index(FOUND, HERE) == 1 && Index(TARGET, HERE) == 0
    ensures Closer(HERE, FOUND, TARGET)
  {
    assert XorBytes(HERE.id, HERE.id) == [0x00];
    assert XorBytes(FOUND.id, HERE.id) == [0x40];
    assert XorBytes(TARGET.id, HERE.id) == [0x80];
    assert Distance(HERE, TARGET) == [0x80] && Distance(FOUND, TARGET) == [0xC0];
  }

  const NONE: Buckets := seq(8, _ => [])

  lemma Known()
    ensures Shape(HERE, NONE) && Run(HERE, NONE, [Update(HERE), Update(FOUND)]) == NONE[7 := [HERE]][1 := [FOUND]]
  {
    hide Index, Closer, Shape;
    Indices();
    NewShape(HERE);
    var one := NONE[7 := [HERE]];
    assert Step(HERE, NONE, Update(HERE)) == one by {
      assert Touch([], HERE) == [HERE];
    }
    var two := one[1 := [FOUND]];
    assert Step(HERE, one, Update(FOUND)) == two by {
      assert Touch([], FOUND) == [FOUND];
    }
    assert [Update(HERE), Update(FOUND)][1..] == [Update(FOUND)];
    RunOne(one, Update(FOUND));
  }

  lemma RunOne(buckets: Buckets, op: Operation)
    requires Shape(HERE, buckets)
    ensures Run(HERE, buckets, [op]) == Step(HERE, buckets, op)
  {
    hide Step, Shape;
    assert [op][1..] == [];
  }

  lemma SearchedOne(buckets: Buckets)
    requires |buckets| == 8 && buckets[0] == [] && buckets[1] == [FOUND]
    ensures Closest(buckets, 0, TARGET, 1) == [FOUND]
  {
    hide Closer;
    assert Ring(buckets, 0, 1) == [FOUND];
    assert Radius(buckets, 0, 1, 1) == 1;
    assert [FOUND][1..] == [];
    assert Sort([FOUND], TARGET) == [FOUND];
  }

  /** A table that knows two peers answers with the farther one: its walk stops at the first bucket that has any. */
  lemma SearchCanMiss()
    ensures Shape(HERE, NONE)
    ensures var buckets := Run(HERE, NONE, [Update(HERE), Update(FOUND)]);
            Closest(buckets, Index(TARGET, HERE), TARGET, 1) == [FOUND]
            && HERE in buckets[7] && Closer(HERE, FOUND, TARGET)
            && !Nearest(Closest(buckets, Index(TARGET, HERE), TARGET, 1), buckets, TARGET)
  {
    hide Index, Closer, Shape, Run, Closest;
    Indices();
    Known();
    var buckets := NONE[7 := [HERE]][1 := [FOUND]];
    SearchedOne(buckets);
    assert HERE in buckets[7] && HERE !in [FOUND];
    if Closer(FOUND, HERE, TARGET) {
      CloserTransitive(FOUND, HERE, FOUND, TARGET);
      CloserIrreflexive(FOUND, TARGET);
    }
    assert !Closer([FOUND][0], HERE, TARGET);
  }

  lemma NewShape(id: PeerID)
    requires id.id != []
    ensures Shape(id, seq(8 * |id.id|, _ => []))
  {
  }

  // ---- the object ----

  class RoutingTable {
    var self: PeerID
    var buckets: Buckets

    ghost predicate Valid()
      reads this
    {
      Shape(self, buckets)
    }

    constructor Empty(id: PeerID)
      ensures self == id && buckets == seq(8 * |id.id|, _ => [])
    {
      self := id;
      buckets := seq(8 * |id.id|, _ => []);
    }

    /** CreateRoutingTable; null stands for its panic on an empty id. */
    static method Create(id: PeerID) returns (t: RoutingTable?)
      ensures t == null <==> id.id == []
      ensures t != null ==> fresh(t) && t.Valid() && t.self == id && Contains(t.buckets, id.id)
      ensures t != null ==> t.buckets == Updated(id, seq(8 * |id.id|, _ => []), id)
    {
      var table := new RoutingTable.Empty(id);
      if |id.id| == 0 {
        return null;
      }
      UpdateEffect(id, table.buckets, id);
      table.Update(id);
      return table;
    }

    // where a peer with the target's id stands in a bucket, or the bucket's length
    method Search(bucket: seq<PeerID>, target: PeerID) returns (k: nat)
      ensures k == Position(bucket, target.id)
    {
      k := 0;
      while k < |bucket| && !Equals(bucket[k], target)
        invariant k <= |bucket|
        invariant forall i :: 0 <= i < k ==> bucket[i].id != target.id
      {
        k := k + 1;
      }
    }

    method BucketID(target: PeerID) returns (b: int)
      ensures b == Index(target, self)
    {
      hide Prefix, XorBytes;
      var x := XorID(target, self);
      b := PrefixLen(x);
    }

    method Update(target: PeerID)
      requires Valid()
      modifies this`buckets
      ensures Valid() && buckets == Updated(self, old(buckets), target)
    {
      hide Index, Position;
      UpdateEffect(self, buckets, target);
      if |self.id| != |target.id| {
        return;
      }
      var b := BucketID(target);
      var bucket := buckets[b];
      var k := Search(bucket, target);
      if k == |bucket| {
        if |bucket| <= BUCKET_SIZE {
          buckets := buckets[b := [target] + bucket];
        }
      } else {
        buckets := buckets[b := [bucket[k]] + bucket[..k] + bucket[k + 1..]];
        assert [bucket[k]] + bucket[..k] + bucket[k + 1..] == [bucket[k]] + (bucket[..k] + bucket[k + 1..]);
      }
    }

    /** Panics exactly on targets whose bucket does not exist; otherwise says whether the target was there. */
    method RemovePeer(target: PeerID) returns (r: Completion<bool>)
      requires Valid()
      modifies this`buckets
      ensures r.Panic? <==> target.id == [] || (|target.id| > |self.id| && target.id[..|self.id|] == self.id)
      ensures r.Panic? ==> buckets == old(buckets)
      ensures r.Done? ==> Valid() && buckets == Removed(self, old(buckets), target)
      ensures r.Done? ==> (r.value <==> Contains(old(buckets), target.id))
    {
      hide Index, Position;
      IndexOutOfRange(target, self);
      OnlyBucket(self, buckets, target);
      var b := BucketID(target);
      if !(0 <= b < |buckets|) {
        return Panic;
      }
      RemoveEffect(self, buckets, target);
      var bucket := buckets[b];
      var k := Search(bucket, target);
      if k < |bucket| {
        buckets := buckets[b := bucket[..k] + bucket[k + 1..]];
        return Done(true);
      }
      return Done(false);
    }

    /** Agrees with membership in the whole table, for targets of any length. */
    method PeerExists(target: PeerID) returns (r: Completion<bool>)
      requires Valid()
      ensures r.Panic? <==> target.id == [] || (|target.id| > |self.id| && target.id[..|self.id|] == self.id)
      ensures r.Done? ==> (r.value <==> Contains(buckets, target.id))
    {
      hide Index, Position;
      IndexOutOfRange(target, self);
      OnlyBucket(self, buckets, target);
      var b := BucketID(target);
      if !(0 <= b < |buckets|) {
        return Panic;
      }
      var k := Search(buckets[b], target);
      return Done(k < |buckets[b]|);
    }

    // appends the peers of a bucket one by one
    method Append(peers: seq<PeerID>, bucket: seq<PeerID>) returns (r: seq<PeerID>)
      ensures r == peers + bucket
    {
      r := peers;
      var e := 0;
      while e < |bucket|
        invariant e <= |bucket| && r == peers + bucket[..e]
      {
        r := r + [bucket[e]];
        e := e + 1;
      }
    }

    // the two buckets i away from bucketID
    method AppendRing(bucketID: nat, i: nat, peers: seq<PeerID>) returns (r: seq<PeerID>)
      requires bucketID < |buckets| && i > 0
      ensures r == peers + Below(buckets, bucketID, i) + Above(buckets, bucketID, i)
    {
      r := peers;
      if bucketID - i >= 0 {
        r := Append(r, buckets[bucketID - i]);
      }
      assert r == peers + Below(buckets, bucketID, i);
      if bucketID + i < |buckets| {
        r := Append(r, buckets[bucketID + i]);
      }
      assert r == peers + Below(buckets, bucketID, i) + Above(buckets, bucketID, i);
    }

    /** A negative count cuts the slice at a negative index. */
    method FindClosestPeers(target: PeerID, count: int) returns (r: Completion<seq<PeerID>>)
      requires Valid()
      ensures |target.id| != |self.id| ==> r == Done([])
      ensures |target.id| == |self.id| && count < 0 ==> r == Panic
      ensures |target.id| == |self.id| && count >= 0 ==>
                0 <= Index(target, self) < |buckets| && r == Done(Closest(buckets, Index(target, self), target, count))
    {
      hide Index, Sort, Shape, Ring, Radius, Above, Below;
      if |self.id| != |target.id| {
        return Done([]);
      }
      NonEmpty(self, buckets);
      InRange(self, target);
      var bucketID := BucketID(target);
      var n := |buckets|;
      var peers := Append([], buckets[bucketID]);
      RingFirst(buckets, bucketID);
      var i := 1;
      while |peers| < count && (bucketID - i >= 0 || bucketID + i < n)
        invariant i >= 1
        invariant peers == Ring(buckets, bucketID, i - 1)
        invariant count >= 0 ==> Radius(buckets, bucketID, count, 0) == Radius(buckets, bucketID, count, i - 1)
        decreases n - i
      {
        RingNext(buckets, bucketID, count, i);
        peers := AppendRing(bucketID, i, peers);
        i := i + 1;
      }
      if count >= 0 {
        RadiusStops(buckets, bucketID, count, i - 1);
      }
      peers := Sort(peers, target);
      if |peers| > count {
        if count < 0 {
          return Panic;
        }
        peers := peers[..count];
      }
      return Done(peers);
    }
  }

  lemma RingFirst(buckets: Buckets, b: nat)
    requires b < |buckets|
    ensures Ring(buckets, b, 0) == buckets[b] && [] + buckets[b] == buckets[b]
  {
  }

  lemma RingNext(buckets: Buckets, b: nat, count: int, i: nat)
    requires b < |buckets| && i > 0
    ensures Ring(buckets, b, i) == Ring(buckets, b, i - 1) + Below(buckets, b, i) + Above(buckets, b, i)
    ensures |Ring(buckets, b, i - 1)| < count && (b - i >= 0 || b + i < |buckets|) ==>
              Radius(buckets, b, count, i - 1) == Radius(buckets, b, count, i)
  {
    hide Above, Below;
  }

  lemma RadiusStops(buckets: Buckets, b: nat, count: nat, r: nat)
    requires b < |buckets| && !(|Ring(buckets, b, r)| < count && (b - (r + 1) >= 0 || b + (r + 1) < |buckets|))
    ensures Radius(buckets, b, count, r) == r
  {
    hide Ring;
  }

  lemma NonEmpty(self: PeerID, buckets: Buckets)
    requires Shape(self, buckets)
    ensures |self.id| > 0 && |buckets| == 8 * |self.id|
  {
  }
}
