/** The least-recently-used cache: types/lru/cache.go. */
module LruCache {

  /** What an init function returns. */
  datatype Result<+V> = Ok(value: V) | Err

  /** What Get does: it panics, returns a value, or returns init's error. */
  datatype Reply<+V> = Panic | Value(value: V) | Failure

  datatype Item<+V> = Item(key: string, value: V)

  /** The recency list, newest first, and the map of items by key. */
  datatype State<V> = State(order: seq<Item<V>>, items: map<string, V>, limit: int)

  function Keys<V>(order: seq<Item<V>>): (keys: seq<string>)
    ensures |keys| == |order| && forall i :: 0 <= i < |order| ==> keys[i] == order[i].key
  {
    seq(|order|, i requires 0 <= i < |order| => order[i].key)
  }

  predicate NoRepeats(s: seq<string>) {
    forall a, b :: 0 <= a < b < |s| ==> s[a] != s[b]
  }

  /** List and map hold the same keys, none twice, at most limit of them, with the same values. */
  ghost predicate Valid<V>(s: State<V>) {
    NoRepeats(Keys(s.order))
    && (forall k :: k in s.items <==> k in Keys(s.order))
    && (forall i :: 0 <= i < |s.order| ==> s.order[i].key in s.items && s.items[s.order[i].key] == s.order[i].value)
    && (|s.order| == 0 || |s.order| <= s.limit)
  }

  function New<V>(limit: int): State<V> {
    State([], map[], limit)
  }

  function Find<V>(order: seq<Item<V>>, key: string): (i: nat)
    ensures i <= |order| && (i < |order| ==> order[i].key == key)
    ensures forall j :: 0 <= j < i ==> order[j].key != key
  {
    if order == [] || order[0].key == key then 0 else
    var i := Find(order[1..], key);
    assert forall j :: 0 < j < i + 1 ==> order[j] == order[1..][j - 1];
    1 + i
  }

  /** The list with its element at i moved to the front. */
  function MoveToFront<T>(order: seq<T>, i: nat): seq<T>
    requires i < |order|
  {
    [order[i]] + order[..i] + order[i + 1..]
  }

  /** A full cache gives up its oldest item. */
  function Evicted<V>(s: State<V>): State<V>
    requires s.order != []
  {
    var last := |s.order| - 1;
    s.(order := s.order[..last], items := s.items - {s.order[last].key})
  }

  function MakeRoom<V>(s: State<V>): State<V> {
    if |s.order| >= s.limit && s.order != [] then Evicted(s) else s
  }

  /** Get, when init would return init. */
  function Got<V>(s: State<V>, key: string, init: Result<V>): (State<V>, Reply<V>) {
    if key in s.items then
      var i := Find(s.order, key);
      (if i < |s.order| then s.(order := MoveToFront(s.order, i)) else s, Value(s.items[key]))
    else if |s.order| >= s.limit && s.order == [] then (s, Panic)
    else
      var room := MakeRoom(s);
      match init
      case Err => (room, Failure)
      case Ok(v) => (room.(order := [Item(key, v)] + room.order, items := room.items[key := v]), Value(v))
  }

  // ---- the object ----

  /** The init function of one request, and how often it has been called. */
  class Init<V> {
    const result: Result<V>
    var calls: nat

    constructor (result: Result<V>)
      ensures this.result == result && calls == 0
    {
      this.result := result;
      calls := 0;
    }

    method Call() returns (r: Result<V>)
      modifies this
      ensures r == result && calls == old(calls) + 1
    {
      calls := calls + 1;
      return result;
    }
  }

  class Cache<V(==)> {
    var order: seq<Item<V>>
    var items: map<string, V>
    const limit: int

    ghost function Contents(): State<V>
      reads this
    {
      State(order, items, limit)
    }

    constructor (limit: int)
      ensures Contents() == New(limit)
    {
      order, items := [], map[];
      this.limit := limit;
    }

    method Get(key: string, init: Init<V>) returns (r: Reply<V>)
      requires Valid(Contents())
      modifies this, init
      ensures Valid(Contents())
      ensures (Contents(), r) == Got(old(Contents()), key, init.result)
      ensures key in old(items) ==> r == Value(old(items)[key])
      ensures init.calls == old(init.calls) + if key in old(items) || limit <= 0 then 0 else 1
    {
      hide Valid, Find;
      GotValid(Contents(), key, init.result);
      if key in items {
        var i := Find(order, key);
        Present(Contents(), key);
        order := MoveToFront(order, i);
        return Value(items[key]);
      }
      if |order| >= limit {
        if |order| == 0 {
          return Panic;
        }
        var item := order[|order| - 1];
        order := order[..|order| - 1];
        items := items - {item.key};
      }
      var value := init.Call();
      if value.Err? {
        return Failure;
      }
      order := [Item(key, value.value)] + order;
      items := items[key := value.value];
      return Value(value.value);
    }
  }

  lemma Present<V>(s: State<V>, key: string)
    requires Valid(s) && key in s.items
    ensures Find(s.order, key) < |s.order|
  {
    var i :| 0 <= i < |s.order| && Keys(s.order)[i] == key;
  }

  // ---- the invariant ----

  lemma MoveKeys<V>(order: seq<Item<V>>, i: nat)
    requires i < |order|
    ensures Keys(MoveToFront(order, i)) == MoveToFront(Keys(order), i)
  {
  }

  lemma MoveMembers<T>(s: seq<T>, i: nat, x: T)
    requires i < |s|
    ensures x in MoveToFront(s, i) <==> x in s
  {
    assert s == s[..i] + [s[i]] + s[i + 1..];
  }

  lemma MoveNoRepeats(s: seq<string>, i: nat)
    requires i < |s| && NoRepeats(s)
    ensures NoRepeats(MoveToFront(s, i))
  {
  }

  lemma HitValid<V>(s: State<V>, i: nat)
    requires Valid(s) && i < |s.order|
    ensures Valid(s.(order := MoveToFront(s.order, i)))
  {
    var t := s.(order := MoveToFront(s.order, i));
    MoveKeys(s.order, i);
    MoveNoRepeats(Keys(s.order), i);
    forall k ensures k in t.items <==> k in Keys(t.order) {
      MoveMembers(Keys(s.order), i, k);
    }
    forall j | 0 <= j < |t.order| ensures t.order[j].key in t.items && t.items[t.order[j].key] == t.order[j].value {
      MoveMembers(s.order, i, t.order[j]);
    }
  }

  lemma EvictedValid<V>(s: State<V>)
    requires Valid(s) && s.order != []
    ensures Valid(Evicted(s)) && Keys(Evicted(s).order) == Keys(s.order)[..|s.order| - 1]
    ensures forall k :: k !in s.items ==> k !in Evicted(s).items
  {
    var t := Evicted(s);
    var last := |s.order| - 1;
    var keys := Keys(s.order);
    assert Keys(t.order) == keys[..last];
    CutNoRepeats(keys);
    forall k ensures k in t.items <==> k in keys[..last] {
      CutMembers(keys, k);
    }
    forall i | 0 <= i < last ensures t.order[i].key in t.items && t.items[t.order[i].key] == t.order[i].value {
      assert t.order[i] == s.order[i] && t.order[i].key == keys[..last][i];
    }
  }

  lemma CutNoRepeats(s: seq<string>)
    requires NoRepeats(s) && s != []
    ensures NoRepeats(s[..|s| - 1])
  {
  }

  lemma CutMembers(s: seq<string>, k: string)
    requires NoRepeats(s) && s != []
    ensures k in s[..|s| - 1] <==> k in s && k != s[|s| - 1]
  {
    var last := |s| - 1;
    assert s == s[..last] + [s[last]];
    if k in s[..last] {
      var i :| 0 <= i < last && s[..last][i] == k;
      assert s[i] == k;
    }
  }

  lemma PushedValid<V>(s: State<V>, key: string, v: V)
    requires Valid(s) && key !in s.items && |s.order| < s.limit
    ensures Valid(s.(order := [Item(key, v)] + s.order, items := s.items[key := v]))
    ensures Keys([Item(key, v)] + s.order) == [key] + Keys(s.order)
  {
    assert Keys([Item(key, v)] + s.order) == [key] + Keys(s.order);
    assert key !in Keys(s.order);
  }

  /** Every Get keeps the invariant, whatever init returns; it panics exactly on a miss when the limit is not
      positive. */
  lemma GotValid<V>(s: State<V>, key: string, init: Result<V>)
    requires Valid(s)
    ensures Valid(Got(s, key, init).0)
    ensures Got(s, key, init).1.Panic? <==> s.limit <= 0
  {
    hide Valid;
    if key in s.items {
      Present(s, key);
      HitValid(s, Find(s.order, key));
      Bounded(s);
    } else {
      Bounded(s);
      if s.order != [] {
        EvictedValid(s);
      }
      if init.Ok? && s.limit > 0 {
        PushedValid(MakeRoom(s), key, init.value);
      }
    }
  }

  lemma Bounded<V>(s: State<V>)
    requires Valid(s)
    ensures |s.order| == 0 || |s.order| <= s.limit
    ensures s.order == [] ==> forall k :: k !in s.items
  {
  }

  // ---- runs ----

  datatype Request<+V> = Request(key: string, init: Result<V>)

  function Run<V>(s: State<V>, reqs: seq<Request<V>>): State<V> {
    if reqs == [] then s
    else Got(Run(s, reqs[..|reqs| - 1]), reqs[|reqs| - 1].key, reqs[|reqs| - 1].init).0
  }

  function Remove(s: seq<string>, key: string): seq<string> {
    if s == [] then [] else (if s[0] == key then [] else [s[0]]) + Remove(s[1..], key)
  }

  lemma {:induction false} RemoveMembers(s: seq<string>, key: string, k: string)
    ensures k in Remove(s, key) <==> k in s && k != key
    decreases |s|
  {
    if s != [] {
      RemoveMembers(s[1..], key, k);
    }
  }

  lemma {:induction false} RemoveAbsent(s: seq<string>, key: string)
    requires key !in s
    ensures Remove(s, key) == s
    decreases |s|
  {
    if s != [] {
      RemoveAbsent(s[1..], key);
      assert s == [s[0]] + s[1..];
    }
  }

  /** The distinct keys of a list of requests, the most recently requested first. */
  function Recent(keys: seq<string>): seq<string> {
    if keys == [] then [] else [keys[|keys| - 1]] + Remove(Recent(keys[..|keys| - 1]), keys[|keys| - 1])
  }

  function Take(s: seq<string>, n: int): seq<string> {
    if n <= 0 then [] else if |s| > n then s[..n] else s
  }

  /** The keys of the requests that were served: those that neither failed nor panicked. */
  function Served<V>(s: State<V>, reqs: seq<Request<V>>): seq<string> {
    if reqs == [] then []
    else
      var before := reqs[..|reqs| - 1];
      var last := reqs[|reqs| - 1];
      Served(s, before) + (if Got(Run(s, before), last.key, last.init).1.Value? then [last.key] else [])
  }

  lemma {:induction false} RemoveConcat(s: seq<string>, u: seq<string>, key: string)
    ensures Remove(s + u, key) == Remove(s, key) + Remove(u, key)
    decreases |s|
  {
    if s == [] {
      assert s + u == u;
    } else {
      assert (s + u)[1..] == s[1..] + u;
      RemoveConcat(s[1..], u, key);
    }
  }

  lemma {:induction false} RemoveAt(m: seq<string>, i: nat)
    requires i < |m| && NoRepeats(m)
    ensures Remove(m, m[i]) == m[..i] + m[i + 1..]
    decreases i
  {
    TailNoRepeats(m);
    if i == 0 {
      RemoveAbsent(m[1..], m[0]);
      assert m[..0] + m[1..] == m[1..];
    } else {
      RemoveAt(m[1..], i - 1);
      HeadApart(m, i);
      SplitTail(m, i);
    }
  }

  lemma TailNoRepeats(m: seq<string>)
    requires m != [] && NoRepeats(m)
    ensures NoRepeats(m[1..]) && m[0] !in m[1..]
  {
  }

  lemma HeadApart(m: seq<string>, i: nat)
    requires 0 < i < |m| && NoRepeats(m)
    ensures m[1..][i - 1] == m[i] != m[0]
  {
  }

  lemma SplitTail(m: seq<string>, i: nat)
    requires 0 < i < |m|
    ensures [m[0]] + (m[1..][..i - 1] + m[1..][i..]) == m[..i] + m[i + 1..]
  {
  }

  // a key among the first n: moving it to the front of those is moving it to the front of all
  lemma HitRecent(m: seq<string>, n: nat, i: nat)
    requires i < n <= |m| && NoRepeats(m)
    ensures |Remove(m, m[i])| == |m| - 1
    ensures MoveToFront(m[..n], i) == ([m[i]] + Remove(m, m[i]))[..n]
  {
    hide Remove;
    RemoveAt(m, i);
    hide NoRepeats;
    assert m[..n][..i] == m[..i] && m[..n][i + 1..] == m[i + 1..n];
    assert (m[..i] + m[i + 1..])[..n - 1] == m[..i] + m[i + 1..n];
  }

  // a key not among the first n: pushing it leaves those behind it
  lemma MissRecent(m: seq<string>, n: nat, key: string)
    requires n <= |m| && key !in m[..n]
    ensures |Remove(m, key)| >= n && Remove(m, key)[..n] == m[..n]
  {
    assert m == m[..n] + m[n..];
    RemoveConcat(m[..n], m[n..], key);
    RemoveAbsent(m[..n], key);
  }

  lemma {:induction false} RecentNoRepeats(keys: seq<string>)
    ensures NoRepeats(Recent(keys))
    decreases |keys|
  {
    if keys != [] {
      var last := keys[|keys| - 1];
      var m := Recent(keys[..|keys| - 1]);
      RecentNoRepeats(keys[..|keys| - 1]);
      hide NoRepeats;
      RemoveNoRepeats(m, last);
      RemoveMembers(m, last, last);
      ConsNoRepeats(last, Remove(m, last));
    } else {
      assert NoRepeats(Recent([]));
    }
  }

  lemma ConsNoRepeats(x: string, s: seq<string>)
    requires NoRepeats(s) && x !in s
    ensures NoRepeats([x] + s)
  {
  }

  lemma {:induction false} RemoveNoRepeats(s: seq<string>, key: string)
    requires NoRepeats(s)
    ensures NoRepeats(Remove(s, key))
    decreases |s|
  {
    if s != [] {
      TailNoRepeats(s);
      hide NoRepeats;
      RemoveNoRepeats(s[1..], key);
      RemoveMembers(s[1..], key, s[0]);
      if s[0] != key {
        ConsNoRepeats(s[0], Remove(s[1..], key));
      } else {
        assert Remove(s, key) == Remove(s[1..], key);
      }
    }
  }

  /** Requested at all: exactly the keys of Recent; requested later: further in front. */
  lemma {:induction false} RecentMeaning(keys: seq<string>, k: string)
    ensures k in Recent(keys) <==> k in keys
    decreases |keys|
  {
    if keys != [] {
      var before, last := keys[..|keys| - 1], keys[|keys| - 1];
      RecentMeaning(before, k);
      RemoveMembers(Recent(before), last, k);
      assert keys == before + [last];
    }
  }

  /** Where a key was requested last. */
  function LastIndex(keys: seq<string>, k: string): (i: int)
    ensures i < |keys| && (k in keys ==> 0 <= i && keys[i] == k)
    ensures forall j :: 0 <= i < j < |keys| ==> keys[j] != k
  {
    if keys == [] then -1
    else if keys[|keys| - 1] == k then |keys| - 1
    else LastIndex(keys[..|keys| - 1], k)
  }

  lemma {:induction false} RecentOrder(keys: seq<string>, a: nat, b: nat)
    requires a < b < |Recent(keys)|
    ensures LastIndex(keys, Recent(keys)[a]) > LastIndex(keys, Recent(keys)[b])
    decreases |keys|
  {
    RecentNext(keys);
    hide Recent, Remove, LastIndex;
    var before, last := keys[..|keys| - 1], keys[|keys| - 1];
    var m := Recent(before);
    RemovedLast(keys, m, b - 1);
    if a == 0 {
      LastIndexLast(keys);
    } else {
      RemovedLast(keys, m, a - 1);
      var (x, y) := RemoveOrder(m, last, a - 1, b - 1);
      RecentOrder(before, x, y);
    }
  }

  lemma RecentNext(keys: seq<string>)
    ensures keys == [] ==> Recent(keys) == []
    ensures keys != [] ==>
              Recent(keys) == [keys[|keys| - 1]] + Remove(Recent(keys[..|keys| - 1]), keys[|keys| - 1])
  {
    hide Remove;
  }

  // a key that is not the last one was requested last where it was before
  lemma RemovedLast(keys: seq<string>, m: seq<string>, j: nat)
    requires keys != [] && j < |Remove(m, keys[|keys| - 1])|
    ensures var k := Remove(m, keys[|keys| - 1])[j];
            LastIndex(keys, k) == LastIndex(keys[..|keys| - 1], k) < |keys| - 1
  {
    hide Remove, LastIndex;
    var last := keys[|keys| - 1];
    var k := Remove(m, last)[j];
    RemoveMembers(m, last, last);
    assert k in Remove(m, last);
    LastIndexBefore(keys, k);
  }

  lemma LastIndexBefore(keys: seq<string>, k: string)
    requires keys != [] && k != keys[|keys| - 1]
    ensures LastIndex(keys, k) == LastIndex(keys[..|keys| - 1], k) < |keys| - 1
  {
  }

  lemma LastIndexLast(keys: seq<string>)
    requires keys != []
    ensures LastIndex(keys, keys[|keys| - 1]) == |keys| - 1
  {
  }

  // entries of a list with one key removed come from the list in the same order
  function RemoveOrder(s: seq<string>, key: string, a: nat, b: nat): (r: (nat, nat))
    requires a < b < |Remove(s, key)|
    ensures r.0 < r.1 < |s| && s[r.0] == Remove(s, key)[a] && s[r.1] == Remove(s, key)[b]
  {
    var rest := Remove(s[1..], key);
    if s[0] == key then
      var (x, y) := RemoveOrder(s[1..], key, a, b);
      (x + 1, y + 1)
    else if a == 0 then
      (0, 1 + RemoveIndex(s[1..], key, b - 1))
    else
      var (x, y) := RemoveOrder(s[1..], key, a - 1, b - 1);
      (x + 1, y + 1)
  }

  function RemoveIndex(s: seq<string>, key: string, b: nat): (r: nat)
    requires b < |Remove(s, key)|
    ensures r < |s| && s[r] == Remove(s, key)[b]
  {
    if s[0] == key then 1 + RemoveIndex(s[1..], key, b)
    else if b == 0 then 0
    else 1 + RemoveIndex(s[1..], key, b - 1)
  }

  lemma {:induction false} RunValid<V>(s: State<V>, reqs: seq<Request<V>>)
    requires Valid(s)
    ensures Valid(Run(s, reqs)) && Run(s, reqs).limit == s.limit
    decreases |reqs|
  {
    hide Valid;
    if reqs != [] {
      RunValid(s, reqs[..|reqs| - 1]);
      GotValid(Run(s, reqs[..|reqs| - 1]), reqs[|reqs| - 1].key, reqs[|reqs| - 1].init);
    }
  }

  // one Get of a valid cache that shows a prefix of m
  lemma StepRecent<V>(s: State<V>, m: seq<string>, missed: bool, key: string, init: Result<V>)
    requires Valid(s) && s.limit >= 1 && NoRepeats(m) && Shows(s.order, m) && |s.order| == Room(s.limit, missed, |m|)
    ensures var (t, r) := Got(s, key, init);
            var u := if r.Value? then [key] + Remove(m, key) else m;
            Shows(t.order, u) && (init.Ok? ==> r.Value?)
            && |t.order| == Room(s.limit, if key in s.items then missed else init.Err?, |u|)
  {
    Bounded(s);
    if key in s.items {
      HitShows(s, m, key);
    } else {
      Absent(s, key);
      RoomShows(s, m);
      if init.Ok? {
        MissShows(MakeRoom(s), m, key, init.value);
      }
    }
  }

  /** How many of n keys a cache holds: one less than it could when the last miss failed. */
  function Room(limit: int, missed: bool, n: nat): int {
    var most := if missed then limit - 1 else limit;
    if n <= most then n else most
  }

  lemma HitShows<V>(s: State<V>, m: seq<string>, key: string)
    requires Valid(s) && NoRepeats(m) && Shows(s.order, m) && key in s.items
    ensures Find(s.order, key) < |s.order|
    ensures Shows(MoveToFront(s.order, Find(s.order, key)), [key] + Remove(m, key)) && |Remove(m, key)| == |m| - 1
  {
    hide Valid, Remove, NoRepeats;
    Present(s, key);
    var i := Find(s.order, key);
    MoveKeys(s.order, i);
    assert m[i] == key by { assert Keys(s.order)[i] == m[..|s.order|][i]; }
    HitRecent(m, |s.order|, i);
  }

  lemma RoomShows<V>(s: State<V>, m: seq<string>)
    requires Valid(s) && s.limit >= 1 && Shows(s.order, m)
    ensures Valid(MakeRoom(s)) && Shows(MakeRoom(s).order, m) && |MakeRoom(s).order| < s.limit
    ensures |MakeRoom(s).order| == if |s.order| < s.limit then |s.order| else s.limit - 1
    ensures forall k :: k in Keys(MakeRoom(s).order) ==> k in Keys(s.order)
  {
    hide Valid;
    Bounded(s);
    if s.order != [] {
      EvictedValid(s);
    }
    assert Keys(MakeRoom(s).order) == m[..|MakeRoom(s).order|];
  }

  lemma MissShows<V>(s: State<V>, m: seq<string>, key: string, v: V)
    requires Shows(s.order, m) && key !in Keys(s.order)
    ensures Shows([Item(key, v)] + s.order, [key] + Remove(m, key))
    ensures |s.order| == |m| ==> Remove(m, key) == m
  {
    hide Remove;
    var n := |s.order|;
    MissRecent(m, n, key);
    assert Keys([Item(key, v)] + s.order) == [key] + Keys(s.order);
    assert ([key] + Remove(m, key))[..n + 1] == [key] + Remove(m, key)[..n];
    if n == |m| {
      assert m[..n] == m;
      RemoveAbsent(m, key);
    }
  }

  lemma Absent<V>(s: State<V>, key: string)
    requires Valid(s) && key !in s.items
    ensures key !in Keys(s.order)
  {
  }

  /** The last request of a run that was not a hit had an init that failed. */
  function LastMissFailed<V>(s: State<V>, reqs: seq<Request<V>>): bool {
    if reqs == [] then false
    else
      var before, last := reqs[..|reqs| - 1], reqs[|reqs| - 1];
      if last.key in Run(s, before).items then LastMissFailed(s, before) else last.init.Err?
  }

  /**
   * However the inits of a run turn out, the cache holds exactly the most recently served distinct keys, newest first,
   * cut at limit, or at one less than limit when the last miss failed.
   */
  lemma RunRecent<V>(limit: int, reqs: seq<Request<V>>)
    requires limit >= 1
    ensures Keys(Run(New(limit), reqs).order)
            == Take(Recent(Served(New(limit), reqs)), if LastMissFailed(New(limit), reqs) then limit - 1 else limit)
  {
    hide Run, Recent, Served, LastMissFailed;
    RunShows(limit, reqs);
    var m := Recent(Served(New(limit), reqs));
    assert m[..|m|] == m;
  }

  lemma {:induction false} RunShows<V>(limit: int, reqs: seq<Request<V>>)
    requires limit >= 1
    ensures var s, m := Run(New(limit), reqs), Recent(Served(New(limit), reqs));
            Shows(s.order, m) && |s.order| == Room(limit, LastMissFailed(New(limit), reqs), |m|)
    ensures AllOk(reqs) ==> !LastMissFailed(New(limit), reqs) && Served(New(limit), reqs) == RequestKeys(reqs)
    decreases |reqs|
  {
    if reqs != [] {
      var before := reqs[..|reqs| - 1];
      var last := reqs[|reqs| - 1];
      RunShows(limit, before);
      NewValid<V>(limit);
      RunValid(New(limit), before);
      var served := Served(New(limit), before);
      RecentNoRepeats(served);
      RunNext(New(limit), reqs);
      hide Valid, NoRepeats, Got, Remove, Shows, Room, Run, Served, Recent;
      StepRecent(Run(New(limit), before), Recent(served), LastMissFailed(New(limit), before), last.key, last.init);
      KeysNext(reqs);
    }
  }

  /** The list shows the first keys of m, as many as it has items. */
  predicate Shows<V>(order: seq<Item<V>>, m: seq<string>) {
    |order| <= |m| && Keys(order) == m[..|order|]
  }

  predicate AllOk<V>(reqs: seq<Request<V>>) {
    forall i :: 0 <= i < |reqs| ==> reqs[i].init.Ok?
  }

  lemma RunNext<V>(s: State<V>, reqs: seq<Request<V>>)
    requires reqs != []
    ensures var before := reqs[..|reqs| - 1];
            var last := reqs[|reqs| - 1];
            var (t, r) := Got(Run(s, before), last.key, last.init);
            Run(s, reqs) == t
            && Served(s, reqs) == (if r.Value? then Served(s, before) + [last.key] else Served(s, before))
            && Recent(Served(s, before) + [last.key]) == [last.key] + Remove(Recent(Served(s, before)), last.key)
  {
    hide Got, Remove;
    var served := Served(s, reqs[..|reqs| - 1]);
    var key := reqs[|reqs| - 1].key;
    assert (served + [key])[..|served|] == served;
    assert served + [] == served;
  }

  lemma KeysNext<V>(reqs: seq<Request<V>>)
    requires reqs != []
    ensures RequestKeys(reqs) == RequestKeys(reqs[..|reqs| - 1]) + [reqs[|reqs| - 1].key]
    ensures AllOk(reqs) ==> AllOk(reqs[..|reqs| - 1]) && reqs[|reqs| - 1].init.Ok?
  {
  }

  function RequestKeys<V>(reqs: seq<Request<V>>): (keys: seq<string>) {
    seq(|reqs|, i requires 0 <= i < |reqs| => reqs[i].key)
  }

  lemma NewValid<V>(limit: int)
    ensures Valid(New<V>(limit))
  {
  }

  /**
   * After any sequence of Gets whose inits all succeed, the list is the most recent distinct requested keys, newest
   * first, cut at limit.
   */
  lemma AllServed<V>(limit: int, reqs: seq<Request<V>>)
    requires limit >= 1 && AllOk(reqs)
    ensures Keys(Run(New(limit), reqs).order) == Take(Recent(RequestKeys(reqs)), limit)
  {
    hide Valid, Got, Recent, Served, Run, LastMissFailed;
    RunRecent(limit, reqs);
    RunShows(limit, reqs);
  }

  /** If init is a function f of the key wherever it succeeds, a Get that returns a value for k returns f(k). */
  lemma {:induction false} ValuesFollow<V>(limit: int, reqs: seq<Request<V>>, f: string -> V, key: string,
                                           init: Result<V>)
    requires forall i :: 0 <= i < |reqs| && reqs[i].init.Ok? ==> reqs[i].init.value == f(reqs[i].key)
    requires init.Ok? ==> init.value == f(key)
    ensures var r := Got(Run(New(limit), reqs), key, init).1; r.Value? ==> r.value == f(key)
  {
    ItemsFollow(limit, reqs, f);
  }

  lemma {:induction false} ItemsFollow<V>(limit: int, reqs: seq<Request<V>>, f: string -> V)
    requires forall i :: 0 <= i < |reqs| && reqs[i].init.Ok? ==> reqs[i].init.value == f(reqs[i].key)
    ensures var s := Run(New(limit), reqs); forall k :: k in s.items ==> s.items[k] == f(k)
    decreases |reqs|
  {
    if reqs != [] {
      ItemsFollow(limit, reqs[..|reqs| - 1], f);
    }
  }

  // ---- what every Get returns, told from the requests alone ----

  /** The keys held after some requests: the last served ones, cut at limit, or at one less after a failed miss. */
  function Held<V>(limit: int, reqs: seq<Request<V>>): seq<string>
    decreases |reqs|, 1
  {
    Take(Recent(ServedKeys(limit, reqs)), if MissFailed(limit, reqs) then limit - 1 else limit)
  }

  /** Requests are served whose init succeeds or whose key is held. */
  function ServedKeys<V>(limit: int, reqs: seq<Request<V>>): seq<string>
    decreases |reqs|, 0
  {
    if reqs == [] then []
    else
      var before, last := reqs[..|reqs| - 1], reqs[|reqs| - 1];
      ServedKeys(limit, before) + if last.init.Ok? || last.key in Held(limit, before) then [last.key] else []
  }

  /** The last request whose key was not held failed. */
  function MissFailed<V>(limit: int, reqs: seq<Request<V>>): bool
    decreases |reqs|, 0
  {
    if reqs == [] then false
    else
      var before, last := reqs[..|reqs| - 1], reqs[|reqs| - 1];
      if last.key in Held(limit, before) then MissFailed(limit, before) else last.init.Err?
  }

  /** The list after a run is what the requests alone say. */
  lemma {:induction false} HeldExact<V>(limit: int, reqs: seq<Request<V>>)
    requires limit >= 1
    ensures var s := Run(New(limit), reqs);
            Keys(s.order) == Held(limit, reqs) && forall k :: k in s.items <==> k in Held(limit, reqs)
    decreases |reqs|
  {
    HistoryExact(limit, reqs);
    RunRecent(limit, reqs);
    NewValid<V>(limit);
    RunValid(New(limit), reqs);
    ItemKeys(Run(New(limit), reqs));
  }

  lemma {:induction false} HistoryExact<V>(limit: int, reqs: seq<Request<V>>)
    requires limit >= 1
    ensures ServedKeys(limit, reqs) == Served(New(limit), reqs)
    ensures MissFailed(limit, reqs) == LastMissFailed(New(limit), reqs)
    decreases |reqs|, 0
  {
    hide Run, Got, Recent, Held;
    if reqs != [] {
      var before, last := reqs[..|reqs| - 1], reqs[|reqs| - 1];
      HistoryExact(limit, before);
      HeldExact(limit, before);
      NewValid<V>(limit);
      RunValid(New(limit), before);
      ServedIf(Run(New(limit), before), last.key, last.init);
    }
  }

  lemma ItemKeys<V>(s: State<V>)
    requires Valid(s)
    ensures forall k :: k in s.items <==> k in Keys(s.order)
  {
  }

  lemma ServedIf<V>(s: State<V>, key: string, init: Result<V>)
    requires Valid(s) && s.limit >= 1
    ensures Got(s, key, init).1.Value? <==> init.Ok? || key in s.items
  {
    Bounded(s);
  }

  /** A miss returns what its init returns. */
  lemma MissReturns<V>(limit: int, reqs: seq<Request<V>>, key: string, init: Result<V>)
    requires limit >= 1 && key !in Held(limit, reqs)
    ensures Got(Run(New(limit), reqs), key, init).1 == if init.Ok? then Value(init.value) else Failure
  {
    hide Run, Held;
    HeldExact(limit, reqs);
    NewValid<V>(limit);
    RunValid(New(limit), reqs);
    Bounded(Run(New(limit), reqs));
  }

  /**
   * A hit returns the value of the last request of its key that was not a hit, request i, whatever its own init or
   * those of the hits since would return.
   */
  lemma HitReturns<V>(limit: int, reqs: seq<Request<V>>, i: nat, key: string, v: V, init: Result<V>)
    requires limit >= 1 && key in Held(limit, reqs) && i < |reqs| && reqs[i] == Request(key, Ok(v))
    requires key !in Held(limit, reqs[..i])
    requires forall j | i < j < |reqs| && reqs[j].key == key :: key in Held(limit, reqs[..j])
    ensures Got(Run(New(limit), reqs), key, init).1 == Value(v)
  {
    hide Run, Held;
    HeldExact(limit, reqs);
    ItemSince(limit, reqs, i, key, v);
  }

  lemma {:induction false} ItemSince<V>(limit: int, reqs: seq<Request<V>>, i: nat, key: string, v: V)
    requires limit >= 1 && i < |reqs| && reqs[i] == Request(key, Ok(v)) && key !in Held(limit, reqs[..i])
    requires forall j | i < j < |reqs| && reqs[j].key == key :: key in Held(limit, reqs[..j])
    requires key in Run(New(limit), reqs).items
    ensures Run(New(limit), reqs).items[key] == v
    decreases |reqs|
  {
    var before, last := reqs[..|reqs| - 1], reqs[|reqs| - 1];
    var s := Run(New(limit), before);
    HeldExact(limit, before);
    RunLast(New(limit), reqs);
    hide Run, Held;
    NewValid<V>(limit);
    RunValid(New(limit), before);
    Bounded(s);
    OneGet(s, last.key, last.init, key);
    if i < |reqs| - 1 {
      assert before[..i] == reqs[..i];
      forall j | i < j < |before| && before[j].key == key ensures key in Held(limit, before[..j]) {
        assert before[..j] == reqs[..j] && before[j] == reqs[j];
      }
      assert last.key == key ==> key in Held(limit, before);
      ItemSince(limit, before, i, key, v);
    }
  }

  lemma RunLast<V>(s: State<V>, reqs: seq<Request<V>>)
    requires reqs != []
    ensures Run(s, reqs) == Got(Run(s, reqs[..|reqs| - 1]), reqs[|reqs| - 1].key, reqs[|reqs| - 1].init).0
  {
    hide Got;
  }

  // what one Get makes of the item under a key
  lemma OneGet<V>(s: State<V>, key: string, init: Result<V>, k: string)
    requires Valid(s) && s.limit >= 1
    ensures var t := Got(s, key, init).0;
            k in t.items ==>
              if k == key && key !in s.items then init.Ok? && t.items[k] == init.value
              else k in s.items && t.items[k] == s.items[k]
  {
    Bounded(s);
  }

  /**
   * A Get whose init fails leaves the cache as it was exactly if there was room; a full cache loses its oldest
   * item, and that alone.
   */
  lemma FailureEvicts<V>(s: State<V>, key: string)
    requires Valid(s) && s.limit >= 1 && key !in s.items
    ensures var t := Got(s, key, Err).0;
            (t == s <==> |s.order| < s.limit)
            && (|s.order| >= s.limit ==>
                  var last := |s.order| - 1;
                  s.order != [] && t.order == s.order[..last] && t.items.Keys == s.items.Keys - {s.order[last].key}
                  && forall k :: k in t.items ==> t.items[k] == s.items[k])
  {
    Bounded(s);
    if |s.order| >= s.limit {
      assert |Got(s, key, Err).0.order| == |s.order| - 1;
    }
  }

  /** It happens: two requests on a cache of one item. */
  lemma FailureEmpties(a: int)
    ensures var reqs := [Request("a", Ok(a)), Request("b", Err)];
            Keys(Run(New(1), reqs).order) == [] && Served(New(1), reqs) == ["a"]
            && Keys(Run(New(1), reqs[..1]).order) == ["a"]
  {
    var one := [Request("a", Ok(a))];
    var reqs := [Request("a", Ok(a)), Request("b", Err)];
    assert reqs[..1] == one && one[..0] == [];
    assert Run(New<int>(1), one[..0]) == New(1);
    assert Run(New<int>(1), one) == State([Item("a", a)], map["a" := a], 1);
    assert Served(New<int>(1), one) == ["a"] by {
      assert Served(New<int>(1), one[..0]) == [];
    }
  }
}
