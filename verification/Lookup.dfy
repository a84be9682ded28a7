/** The iterative node lookup: network/discovery/rpc.go. */
module Lookup {
  import opened PeerIdentity
  import opened Bits

  /** What PublicKeyHex identifies a peer by. */
  type Key = seq<bv8>

  function KeysOf(peers: seq<PeerID>): (keys: set<Key>)
    ensures forall p :: p in peers ==> p.netKey in keys
    ensures forall k :: k in keys ==> exists i :: 0 <= i < |peers| && peers[i].netKey == k
  {
    set i | 0 <= i < |peers| :: peers[i].netKey
  }

  predicate DistinctKeys(peers: seq<PeerID>) {
    forall a, b :: 0 <= a < b < |peers| ==> peers[a].netKey != peers[b].netKey
  }

  lemma KeysSnoc(peers: seq<PeerID>, p: PeerID)
    ensures KeysOf(peers + [p]) == KeysOf(peers) + {p.netKey}
  {
    var all := peers + [p];
    forall k ensures k in KeysOf(all) <==> k in KeysOf(peers) + {p.netKey} {
      assert p in all;
      forall q | q in peers ensures q in all {
      }
    }
  }

  lemma DistinctSnoc(peers: seq<PeerID>, p: PeerID)
    requires DistinctKeys(peers) && p.netKey !in KeysOf(peers)
    ensures DistinctKeys(peers + [p])
  {
    forall a | 0 <= a < |peers| ensures peers[a].netKey != p.netKey {
      assert peers[a] in peers;
    }
  }

  // ---- the step machine: any number of lookups sharing visited, in any interleaving ----

  /** One lookup. Its goroutines that have not replied yet are flying; inbox is the rest of the response it is
      expanding. */
  datatype State = State(
    pending: int, queue: seq<PeerID>, flying: multiset<PeerID>, inbox: seq<PeerID>,
    started: nat, consumed: nat, added: seq<PeerID>)

  /** All lookups, the shared visited map, and every peer added from a reply, in the order of adding. */
  datatype System = System(lookups: seq<State>, visited: set<Key>, added: seq<PeerID>)

  datatype Step =
    | Launch(i: nat)
    | Receive(i: nat, from: PeerID, reply: seq<PeerID>)
    | Expand(i: nat)

  /** A lookup may start a query: it has one queued, fewer than alpha are pending, and it is not expanding a
      response. */
  predicate CanLaunch(l: State, alpha: int) {
    l.inbox == [] && l.pending < alpha && l.queue != []
  }

  predicate Enabled(s: System, alpha: int, step: Step) {
    step.i < |s.lookups|
    && var l := s.lookups[step.i];
       match step
       case Launch(_) => CanLaunch(l, alpha)
       case Receive(_, from, _) => l.inbox == [] && !CanLaunch(l, alpha) && l.pending > 0 && from in l.flying
       case Expand(_) => l.inbox != []
  }

  function Launched(l: State): State
    requires l.queue != []
  {
    l.(pending := l.pending + 1, queue := l.queue[1..], flying := l.flying + multiset{l.queue[0]},
      started := l.started + 1)
  }

  /** The queue is emptied before the lookup waits. */
  function Received(l: State, from: PeerID, reply: seq<PeerID>): State {
    l.(pending := l.pending - 1, queue := [], flying := l.flying - multiset{from}, inbox := reply,
      consumed := l.consumed + 1)
  }

  function Expanded(l: State, seen: bool): State
    requires l.inbox != []
  {
    var p := l.inbox[0];
    if seen then l.(inbox := l.inbox[1..])
    else l.(inbox := l.inbox[1..], queue := l.queue + [p], added := l.added + [p])
  }

  function Next(s: System, alpha: int, step: Step): System
    requires Enabled(s, alpha, step)
  {
    var l := s.lookups[step.i];
    match step
    case Launch(i) => s.(lookups := s.lookups[i := Launched(l)])
    case Receive(i, from, reply) => s.(lookups := s.lookups[i := Received(l, from, reply)])
    case Expand(i) =>
      var p := l.inbox[0];
      var seen := p.netKey in s.visited;
      System(s.lookups[i := Expanded(l, seen)], s.visited + {p.netKey}, if seen then s.added else s.added + [p])
  }

  /** A lookup whose loop has ended. */
  predicate Finished(l: State, alpha: int) {
    l.inbox == [] && l.pending == 0 && !CanLaunch(l, alpha)
  }

  predicate AllFinished(s: System, alpha: int) {
    forall i :: 0 <= i < |s.lookups| ==> Finished(s.lookups[i], alpha)
  }

  predicate Counted(l: State, alpha: int) {
    l.pending == l.started - l.consumed == |l.flying|
    && (l.pending <= alpha || l.pending == 0)
  }

  ghost predicate Invariant(s: System, alpha: int, seeds: set<Key>) {
    (forall i :: 0 <= i < |s.lookups| ==> Counted(s.lookups[i], alpha))
    && DistinctKeys(s.added)
    && s.visited >= seeds + KeysOf(s.added)
    && KeysOf(s.added) !! seeds
    && (forall i, p :: 0 <= i < |s.lookups| && p in s.lookups[i].added ==> p in s.added)
  }

  /** FindNode's start: each lookup has its share of the seeds queued, and the seeds are visited. */
  function Initial(queues: seq<seq<PeerID>>, seeds: set<Key>): System {
    System(seq(|queues|, i requires 0 <= i < |queues| => State(0, queues[i], multiset{}, [], 0, 0, [])), seeds, [])
  }

  lemma InitialInvariant(queues: seq<seq<PeerID>>, seeds: set<Key>, alpha: int)
    ensures Invariant(Initial(queues, seeds), alpha, seeds)
  {
    var none: seq<PeerID> := [];
    assert KeysOf(none) == {};
  }

  lemma LookupCounted(l: State, alpha: int, from: PeerID, reply: seq<PeerID>)
    requires Counted(l, alpha)
    ensures CanLaunch(l, alpha) ==> Counted(Launched(l), alpha)
    ensures l.pending > 0 && from in l.flying ==> Counted(Received(l, from, reply), alpha)
    ensures l.inbox != [] ==> Counted(Expanded(l, true), alpha) && Counted(Expanded(l, false), alpha)
  {
  }

  /** Every step of every interleaving keeps the invariant. */
  lemma StepInvariant(s: System, alpha: int, step: Step, seeds: set<Key>)
    requires Invariant(s, alpha, seeds) && Enabled(s, alpha, step)
    ensures Invariant(Next(s, alpha, step), alpha, seeds)
  {
    var t := Next(s, alpha, step);
    var l := s.lookups[step.i];
    match step
    case Launch(i) => LookupCounted(l, alpha, l.queue[0], []);
    case Receive(i, from, reply) => LookupCounted(l, alpha, from, reply);
    case Expand(i) =>
      var p := l.inbox[0];
      LookupCounted(l, alpha, p, []);
      if p.netKey !in s.visited {
        KeysSnoc(s.added, p);
        DistinctSnoc(s.added, p);
      }
      forall j, q | 0 <= j < |t.lookups| && q in t.lookups[j].added ensures q in t.added {
        assert j != i ==> t.lookups[j] == s.lookups[j];
      }
  }

  // ---- every run ends ----

  function Weight(ls: seq<State>): nat {
    if ls == [] then 0
    else 2 * |ls[0].queue| + (if ls[0].pending >= 0 then ls[0].pending else 0) + Weight(ls[1..])
  }

  function Inboxes(ls: seq<State>): nat {
    if ls == [] then 0 else |ls[0].inbox| + Inboxes(ls[1..])
  }

  lemma {:induction false} WeightChange(ls: seq<State>, i: nat, l: State)
    requires i < |ls|
    ensures Weight(ls[i := l]) - Weight(ls) == Weight([l]) - Weight([ls[i]])
    ensures Inboxes(ls[i := l]) - Inboxes(ls) == |l.inbox| - |ls[i].inbox|
    decreases |ls|
  {
    assert Weight([l][1..]) == 0 && Weight([ls[i]][1..]) == 0;
    if i == 0 {
      assert ls[i := l][1..] == ls[1..];
    } else {
      assert ls[i := l][1..] == ls[1..][i - 1 := l];
      WeightChange(ls[1..], i - 1, l);
    }
  }

  lemma WeightOne(l: State)
    ensures Weight([l]) == 2 * |l.queue| + if l.pending >= 0 then l.pending else 0
  {
    assert Weight([l][1..]) == 0;
  }

  /** Keys of the universe that no lookup has visited. */
  function Unvisited(s: System, universe: set<Key>): set<Key> {
    universe - s.visited
  }

  /** The replies of a run come from a finite universe of keys. */
  predicate Within(s: System, universe: set<Key>) {
    forall i, p :: 0 <= i < |s.lookups| && p in s.lookups[i].inbox ==> p.netKey in universe
  }

  lemma StepWithin(s: System, alpha: int, step: Step, universe: set<Key>)
    requires Within(s, universe) && Enabled(s, alpha, step)
    requires step.Receive? ==> forall p :: p in step.reply ==> p.netKey in universe
    ensures Within(Next(s, alpha, step), universe)
  {
    var t := Next(s, alpha, step);
    forall j, p | 0 <= j < |t.lookups| && p in t.lookups[j].inbox ensures p.netKey in universe {
      if j == step.i {
        assert p in s.lookups[j].inbox || (step.Receive? && p in step.reply);
      }
    }
  }

  /** Each step makes the measure (unvisited keys, queued and pending queries, unexpanded replies) smaller. */
  lemma StepDecreases(s: System, alpha: int, step: Step, universe: set<Key>)
    requires Within(s, universe) && Enabled(s, alpha, step)
    requires forall i :: 0 <= i < |s.lookups| ==> s.lookups[i].pending >= 0
    ensures var t := Next(s, alpha, step);
            Unvisited(t, universe) < Unvisited(s, universe)
            || (Unvisited(t, universe) == Unvisited(s, universe)
                && (Weight(t.lookups) < Weight(s.lookups)
                    || (Weight(t.lookups) == Weight(s.lookups) && Inboxes(t.lookups) < Inboxes(s.lookups))))
  {
    hide Weight, Inboxes;
    var t := Next(s, alpha, step);
    var l, m := s.lookups[step.i], t.lookups[step.i];
    assert t.lookups == s.lookups[step.i := m];
    WeightChange(s.lookups, step.i, m);
    WeightOne(l);
    WeightOne(m);
    if step.Expand? {
      var p := l.inbox[0];
      assert p in l.inbox;
      if p.netKey in s.visited {
        assert t.visited == s.visited;
      } else {
        assert p.netKey in Unvisited(s, universe) && p.netKey !in Unvisited(t, universe);
      }
    }
  }

  /** No deadlock: while a lookup has not finished, some step is possible, whichever reply arrives first. */
  lemma Progress(s: System, alpha: int, seeds: set<Key>, i: nat, reply: seq<PeerID>) returns (step: Step)
    requires Invariant(s, alpha, seeds) && i < |s.lookups| && !Finished(s.lookups[i], alpha)
    ensures Enabled(s, alpha, step) && step.i == i && (step.Receive? ==> step.reply == reply)
  {
    var l := s.lookups[i];
    assert Counted(l, alpha);
    if l.inbox != [] {
      step := Expand(i);
    } else if CanLaunch(l, alpha) {
      step := Launch(i);
    } else {
      var from :| from in l.flying;
      step := Receive(i, from, reply);
    }
  }

  /** A scheduler with a network: in every state it picks the next step, replies included. */
  ghost predicate Schedules(pick: System -> Step, alpha: int, seeds: set<Key>, universe: set<Key>) {
    forall s :: Invariant(s, alpha, seeds) && !AllFinished(s, alpha) ==>
      var step := pick(s);
      Enabled(s, alpha, step) && (step.Receive? ==> forall p :: p in step.reply ==> p.netKey in universe)
  }

  /**
   * Over a finite universe of keys every run, however scheduled, comes to an end: all lookups return, each query
   * that was started has had its one reply consumed, and the peers added by all of them have distinct new keys.
   */
  ghost function Outcome(s: System, pick: System -> Step, alpha: int, seeds: set<Key>,
                         universe: set<Key>): (end: System)
    requires Invariant(s, alpha, seeds) && Within(s, universe) && Schedules(pick, alpha, seeds, universe)
    ensures AllFinished(end, alpha) && |end.lookups| == |s.lookups|
    ensures forall i :: 0 <= i < |end.lookups| ==>
              end.lookups[i].started == end.lookups[i].consumed && end.lookups[i].flying == multiset{}
    ensures DistinctKeys(end.added) && KeysOf(end.added) !! seeds
    ensures s.added <= end.added
    decreases Unvisited(s, universe), Weight(s.lookups), Inboxes(s.lookups)
  {
    if AllFinished(s, alpha) then FinishedMeans(s, alpha, seeds); s
    else
      var step := pick(s);
      StepInvariant(s, alpha, step, seeds);
      StepWithin(s, alpha, step, universe);
      NonNegative(s, alpha, seeds);
      StepDecreases(s, alpha, step, universe);
      AddedGrows(s, alpha, step);
      Outcome(Next(s, alpha, step), pick, alpha, seeds, universe)
  }

  lemma NonNegative(s: System, alpha: int, seeds: set<Key>)
    requires Invariant(s, alpha, seeds)
    ensures forall i :: 0 <= i < |s.lookups| ==> s.lookups[i].pending >= 0
  {
    forall i | 0 <= i < |s.lookups| ensures s.lookups[i].pending >= 0 {
      assert Counted(s.lookups[i], alpha);
    }
  }

  lemma AddedGrows(s: System, alpha: int, step: Step)
    requires Enabled(s, alpha, step)
    ensures s.added <= Next(s, alpha, step).added && |Next(s, alpha, step).lookups| == |s.lookups|
  {
  }

  lemma FinishedMeans(s: System, alpha: int, seeds: set<Key>)
    requires Invariant(s, alpha, seeds) && AllFinished(s, alpha)
    ensures forall i :: 0 <= i < |s.lookups| ==>
              s.lookups[i].started == s.lookups[i].consumed && s.lookups[i].flying == multiset{}
  {
    forall i | 0 <= i < |s.lookups|
      ensures s.lookups[i].started == s.lookups[i].consumed && s.lookups[i].flying == multiset{}
    {
      assert Counted(s.lookups[i], alpha) && Finished(s.lookups[i], alpha);
    }
  }

  // ---- the lookup as it is written ----

  /** The map shared by all lookups of a search. */
  class Visited {
    var keys: set<Key>

    constructor ()
      ensures keys == {}
    {
      keys := {};
    }

    method LoadOrStore(key: Key) returns (seen: bool)
      modifies this
      ensures seen <==> key in old(keys)
      ensures keys == old(keys) + {key}
    {
      seen := key in keys;
      keys := keys + {key};
    }
  }

  /** The first peers of a queue, as many as alpha allows. */
  function Front(queue: seq<PeerID>, alpha: int): seq<PeerID> {
    if alpha <= 0 then [] else if |queue| <= alpha then queue else queue[..alpha]
  }

  class LookupBucket {
    var pending: int
    var queue: seq<PeerID>

    constructor ()
      ensures pending == 0 && queue == []
    {
      pending, queue := 0, [];
    }

    /** Starts queries for queued peers while fewer than alpha are pending, then empties the queue. */
    method Launch(alpha: int, flying: multiset<PeerID>) returns (now: multiset<PeerID>, started: seq<PeerID>)
      requires pending == |flying|
      modifies this
      ensures queue == [] && pending == |now| && now == flying + multiset(started)
      ensures started == Front(old(queue), alpha - old(pending))
      ensures started <= old(queue) && (pending >= alpha || started == old(queue))
      ensures started != [] ==> pending <= alpha
    {
      now, started := flying, [];
      ghost var all := queue;
      ghost var room := alpha - pending;
      while pending < alpha && |queue| > 0
        invariant |started| <= |all| && queue == all[|started|..] && started == all[..|started|]
        invariant pending == old(pending) + |started| == |now| && now == flying + multiset(started)
        invariant |started| > 0 ==> |started| <= room
        decreases |queue|
      {
        assert all[..|started| + 1] == all[..|started|] + [queue[0]];
        assert multiset(started + [queue[0]]) == multiset(started) + multiset{queue[0]};
        started := started + [queue[0]];
        now := now + multiset{queue[0]};
        queue := queue[1..];
        pending := pending + 1;
      }
      queue := [];
    }

    /** Adds the peers of a response that no lookup has seen to results and queue. */
    method Expand(response: seq<PeerID>, visited: Visited, before: seq<PeerID>) returns (results: seq<PeerID>)
      requires queue == []
      modifies this, visited
      ensures pending == old(pending) && results == before + queue
      ensures queue == NewPeers(response, old(visited.keys)) && visited.keys == Marked(old(visited.keys), queue)
    {
      hide Marked, NewPeers;
      ghost var keys := visited.keys;
      results := before;
      var i := 0;
      MarkedNothing(keys);
      NoNewPeers(response, keys);
      while i < |response|
        invariant i <= |response| && pending == old(pending) && results == before + queue
        invariant queue == NewPeers(response[..i], keys) && visited.keys == Marked(keys, queue)
      {
        var peerID := response[i];
        NewPeersNext(response, i, keys);
        MarkedPush(keys, queue, peerID);
        var seen := visited.LoadOrStore(peerID.netKey);
        if seen {
          AlreadyIn(Marked(keys, queue), peerID.netKey);
        } else {
          results := results + [peerID];
          queue := queue + [peerID];
        }
        i := i + 1;
      }
      assert response[..i] == response;
    }

    /**
     * performLookup. The n-th response to arrive, from q, is net(q, n); each goroutine sends exactly one response, and
     * they arrive in any order. The ghost results are the peers added from responses, those asked, and those that
     * answered, in order: the order of the answers decides everything else.
     */
    method PerformLookup(net: (PeerID, nat) -> seq<PeerID>, alpha: int, visited: Visited, ghost universe: set<Key>)
        returns (results: seq<PeerID>, ghost added: seq<PeerID>, ghost asked: seq<PeerID>, ghost answered: seq<PeerID>)
      requires pending == 0
      requires Answers(net, universe)
      modifies this, visited
      ensures pending == 0 && queue == []
      ensures Replay(net, alpha, old(queue), old(visited.keys), answered) == Account(0, visited.keys, asked, added)
      ensures results == Front(old(queue), alpha) + added
      ensures var n := |results| - |added|;
              n == (if alpha <= 0 then 0 else if |old(queue)| <= alpha then |old(queue)| else alpha)
              && results == old(queue)[..n] + added
      ensures Fair(net, alpha, old(queue), old(visited.keys), answered)
      ensures multiset(asked) == multiset(answered)
      ensures Fresh(added, old(visited.keys), visited.keys) && AllHeard(net, answered, visited.keys)
    {
      hide Replay, Left, Answers, Fresh, AllHeard, Balanced, Fair;
      FairNothing(net, alpha, queue, visited.keys);
      ghost var seeds, start := visited.keys, queue;
      var flying;
      flying, results := Launch(alpha, multiset{});
      added, asked, answered := [], results, [];
      var turn := 0;
      ReplayNothing(net, alpha, start, seeds);
      Started(asked, flying);
      assert results + [] == results;
      while pending > 0
        invariant queue == [] && pending == |flying| && turn == |answered|
        invariant Replay(net, alpha, start, seeds, answered) == Account(pending, visited.keys, asked, added)
        invariant results == Front(start, alpha) + added && Balanced(asked, answered, flying)
        invariant Fair(net, alpha, start, seeds, answered)
        decreases Left(universe, visited.keys), pending
      {
        flying, results, added, asked, answered :=
          Round(net, alpha, visited, flying, results, turn, start, added, asked, answered, seeds, universe);
        turn := turn + 1;
      }
      AllAnswered(asked, answered, flying);
      ReplayFresh(net, alpha, start, seeds, answered);
      ReplayAllHeard(net, alpha, start, seeds, answered);
    }

    // one response: expand it, then start new queries
    method Round(net: (PeerID, nat) -> seq<PeerID>, alpha: int, visited: Visited, flying: multiset<PeerID>,
                 results: seq<PeerID>, turn: nat, ghost start: seq<PeerID>, ghost added: seq<PeerID>,
                 ghost asked: seq<PeerID>, ghost answered: seq<PeerID>, ghost seeds: set<Key>, ghost universe: set<Key>)
        returns (flying': multiset<PeerID>, results': seq<PeerID>, ghost added': seq<PeerID>, ghost asked': seq<PeerID>,
                 ghost answered': seq<PeerID>)
      requires queue == [] && pending == |flying| > 0 && turn == |answered| && Answers(net, universe)
      requires Replay(net, alpha, start, seeds, answered) == Account(pending, visited.keys, asked, added)
      requires results == Front(start, alpha) + added && Balanced(asked, answered, flying)
      requires Fair(net, alpha, start, seeds, answered)
      modifies this, visited
      ensures Fair(net, alpha, start, seeds, answered')
      ensures queue == [] && pending == |flying'| && |answered'| == turn + 1
      ensures Replay(net, alpha, start, seeds, answered') == Account(pending, visited.keys, asked', added')
      ensures results' == Front(start, alpha) + added' && Balanced(asked', answered', flying')
      ensures Left(universe, visited.keys) < Left(universe, old(visited.keys))
              || (Left(universe, visited.keys) == Left(universe, old(visited.keys)) && pending < old(pending))
    {
      hide Replay, Left, Answers, Balanced, Marked, NewPeers, Front, Fair;
      ghost var keys := visited.keys;
      var q :| q in flying;
      var response := net(q, turn);
      Answered(asked, answered, flying, q);
      FairNext(net, alpha, start, seeds, answered, asked, flying, q);
      flying' := flying - multiset{q};
      pending := pending - 1;
      results' := Expand(response, visited, results);
      ghost var found := queue;
      added' := added + found;
      assert Front(start, alpha) + added + found == Front(start, alpha) + added';
      answered' := answered + [q];
      ghost var left := flying';
      ghost var room := alpha - pending;
      var more;
      flying', more := Launch(alpha, flying');
      asked' := asked + more;
      Balance(asked, answered', left, more);
      ReplayNext(net, alpha, start, seeds, answered, q);
      FromUniverse(net, universe, q, turn);
      NewShrinks(universe, keys, response);
      FrontNothing(room);
    }
  }

  // ---- what a lookup does, told from the order of the answers ----

  /** The keys visited once these peers have been marked. */
  function Marked(keys: set<Key>, peers: seq<PeerID>): set<Key> {
    keys + KeysOf(peers)
  }

  /** The peers of a response that are new, in order, each key once. */
  function NewPeers(response: seq<PeerID>, keys: set<Key>): seq<PeerID> {
    if response == [] then []
    else
      var n := |response| - 1;
      var before := NewPeers(response[..n], keys);
      if response[n].netKey in Marked(keys, before) then before else before + [response[n]]
  }

  /** A lookup after some answers: queries pending, keys visited, peers asked and peers added so far. */
  datatype Account = Account(pending: int, keys: set<Key>, asked: seq<PeerID>, added: seq<PeerID>)

  /** An answer adds its new peers, and as many of them are asked as alpha leaves room for. */
  function AfterAnswer(a: Account, response: seq<PeerID>, alpha: int): Account {
    var peers := NewPeers(response, a.keys);
    var more := Front(peers, alpha - (a.pending - 1));
    Account(a.pending - 1 + |more|, Marked(a.keys, peers), a.asked + more, a.added + peers)
  }

  /** A lookup from its queue and seeds on, given who answered. */
  function Replay(net: (PeerID, nat) -> seq<PeerID>, alpha: int, queue: seq<PeerID>, seeds: set<Key>,
                  answered: seq<PeerID>): Account {
    if answered == [] then Account(|Front(queue, alpha)|, seeds, Front(queue, alpha), [])
    else
      var n := |answered| - 1;
      AfterAnswer(Replay(net, alpha, queue, seeds, answered[..n]), net(answered[n], n), alpha)
  }

  lemma ReplayNothing(net: (PeerID, nat) -> seq<PeerID>, alpha: int, queue: seq<PeerID>, seeds: set<Key>)
    ensures Replay(net, alpha, queue, seeds, []) == Account(|Front(queue, alpha)|, seeds, Front(queue, alpha), [])
  {
  }

  lemma ReplayNext(net: (PeerID, nat) -> seq<PeerID>, alpha: int, queue: seq<PeerID>, seeds: set<Key>,
                   answered: seq<PeerID>, q: PeerID)
    ensures Replay(net, alpha, queue, seeds, answered + [q])
            == AfterAnswer(Replay(net, alpha, queue, seeds, answered), net(q, |answered|), alpha)
  {
    hide AfterAnswer;
    assert (answered + [q])[..|answered|] == answered;
  }

  lemma MarkedNothing(keys: set<Key>)
    ensures Marked(keys, []) == keys
  {
    assert KeysOf([]) == {};
  }

  lemma MarkedPush(keys: set<Key>, peers: seq<PeerID>, p: PeerID)
    ensures Marked(keys, peers + [p]) == Marked(keys, peers) + {p.netKey}
  {
    KeysSnoc(peers, p);
  }

  lemma AlreadyIn(keys: set<Key>, k: Key)
    requires k in keys
    ensures keys + {k} == keys
  {
  }

  lemma NoNewPeers(response: seq<PeerID>, keys: set<Key>)
    ensures NewPeers(response[..0], keys) == []
  {
  }

  lemma NewPeersNext(response: seq<PeerID>, i: nat, keys: set<Key>)
    requires i < |response|
    ensures var before := NewPeers(response[..i], keys);
            NewPeers(response[..i + 1], keys)
            == if response[i].netKey in Marked(keys, before) then before else before + [response[i]]
  {
    hide Marked;
    assert response[..i + 1][..i] == response[..i];
  }

  /** New peers have distinct keys, none of them visited before; all keys of the response are then visited. */
  lemma {:induction false} NewPeersMeaning(response: seq<PeerID>, keys: set<Key>)
    ensures var peers := NewPeers(response, keys);
            Fresh(peers, keys, Marked(keys, peers)) && Heard(response, Marked(keys, peers))
    decreases |response|
  {
    if response == [] {
      MarkedNothing(keys);
      FreshNothing(keys);
    } else {
      var n := |response| - 1;
      var before, p := NewPeers(response[..n], keys), response[n];
      NewPeersMeaning(response[..n], keys);
      assert response == response[..n] + [p];
      hide Marked, Fresh, Heard;
      HeardSnoc(response[..n], Marked(keys, before), p);
      if p.netKey in Marked(keys, before) {
        AlreadyIn(Marked(keys, before), p.netKey);
      } else {
        FreshSnoc(before, keys, Marked(keys, before), p);
        MarkedPush(keys, before, p);
      }
    }
  }

  /** New peers are peers of the response. */
  lemma {:induction false} NewPeersFrom(response: seq<PeerID>, keys: set<Key>, p: PeerID)
    requires p in NewPeers(response, keys)
    ensures p in response
    decreases |response|
  {
    hide Marked;
    var n := |response| - 1;
    assert response == response[..n] + [response[n]];
    if p in NewPeers(response[..n], keys) {
      NewPeersFrom(response[..n], keys, p);
    }
  }

  lemma NewShrinks(universe: set<Key>, keys: set<Key>, response: seq<PeerID>)
    requires Heard(response, universe)
    ensures var peers := NewPeers(response, keys);
            if peers == [] then Marked(keys, peers) == keys
              else Left(universe, Marked(keys, peers)) < Left(universe, keys)
  {
    hide NewPeers;
    NewPeersMeaning(response, keys);
    var peers := NewPeers(response, keys);
    if peers == [] {
      MarkedNothing(keys);
    } else {
      var k := peers[0].netKey;
      assert peers[0] in peers;
      NewPeersFrom(response, keys, peers[0]);
      assert k in universe - keys && k !in universe - Marked(keys, peers);
    }
  }

  /** However the answers arrive, the peers added have distinct keys that no one had visited before. */
  lemma {:induction false} ReplayFresh(net: (PeerID, nat) -> seq<PeerID>, alpha: int, queue: seq<PeerID>,
                                       seeds: set<Key>, answered: seq<PeerID>)
    ensures var a := Replay(net, alpha, queue, seeds, answered); Fresh(a.added, seeds, a.keys)
    decreases |answered|
  {
    if answered == [] {
      FreshNothing(seeds);
    } else {
      hide Fresh, AfterAnswer;
      var n := |answered| - 1;
      ReplayFresh(net, alpha, queue, seeds, answered[..n]);
      AnswerFresh(Replay(net, alpha, queue, seeds, answered[..n]), net(answered[n], n), alpha, seeds);
    }
  }

  lemma AnswerFresh(a: Account, response: seq<PeerID>, alpha: int, seeds: set<Key>)
    requires Fresh(a.added, seeds, a.keys)
    ensures var b := AfterAnswer(a, response, alpha); Fresh(b.added, seeds, b.keys)
  {
    hide Fresh, NewPeers, Marked, Front, Heard;
    NewPeersMeaning(response, a.keys);
    FreshConcat(a.added, NewPeers(response, a.keys), seeds, a.keys);
  }

  lemma FreshConcat(added: seq<PeerID>, peers: seq<PeerID>, seeds: set<Key>, keys: set<Key>)
    requires Fresh(added, seeds, keys) && Fresh(peers, keys, Marked(keys, peers))
    ensures Fresh(added + peers, seeds, Marked(keys, peers))
  {
    KeysConcat(added, peers);
    forall a, b | 0 <= a < |added| && 0 <= b < |peers| ensures added[a].netKey != peers[b].netKey {
      assert added[a] in added && peers[b] in peers;
    }
    DistinctConcat(added, peers);
  }

  lemma KeysConcat(s: seq<PeerID>, u: seq<PeerID>)
    ensures KeysOf(s + u) == KeysOf(s) + KeysOf(u)
  {
    forall k ensures k in KeysOf(s + u) <==> k in KeysOf(s) + KeysOf(u) {
      if k in KeysOf(s + u) {
        var i :| 0 <= i < |s + u| && (s + u)[i].netKey == k;
        assert (s + u)[i] in s || (s + u)[i] in u;
      }
      if k in KeysOf(s) {
        var i :| 0 <= i < |s| && s[i].netKey == k;
        assert s[i] in s + u;
      }
      if k in KeysOf(u) {
        var i :| 0 <= i < |u| && u[i].netKey == k;
        assert u[i] in s + u;
      }
    }
  }

  lemma DistinctConcat(s: seq<PeerID>, u: seq<PeerID>)
    requires DistinctKeys(s) && DistinctKeys(u)
    requires forall a, b :: 0 <= a < |s| && 0 <= b < |u| ==> s[a].netKey != u[b].netKey
    ensures DistinctKeys(s + u)
  {
  }

  /** Every peer of every response consumed has been visited. */
  lemma {:induction false} ReplayAllHeard(net: (PeerID, nat) -> seq<PeerID>, alpha: int, queue: seq<PeerID>,
                                          seeds: set<Key>, answered: seq<PeerID>)
    ensures AllHeard(net, answered, Replay(net, alpha, queue, seeds, answered).keys)
    decreases |answered|
  {
    hide AfterAnswer, Heard, Replay;
    if answered != [] {
      hide AllHeard;
      var n := |answered| - 1;
      var before, q := answered[..n], answered[n];
      assert answered == before + [q];
      ReplayAllHeard(net, alpha, queue, seeds, before);
      ReplayNext(net, alpha, queue, seeds, before, q);
      var a := Replay(net, alpha, queue, seeds, before);
      AnswerHeard(a, net(q, n), alpha);
      HeardMore(net, before, a.keys, AfterAnswer(a, net(q, n), alpha).keys, q);
    }
  }

  lemma AnswerHeard(a: Account, response: seq<PeerID>, alpha: int)
    ensures var b := AfterAnswer(a, response, alpha); Heard(response, b.keys) && a.keys <= b.keys
  {
    hide Fresh, NewPeers, Front, Heard;
    NewPeersMeaning(response, a.keys);
  }

  /** Each query asked has been answered, or its goroutine is flying. */
  ghost predicate Balanced(asked: seq<PeerID>, answered: seq<PeerID>, flying: multiset<PeerID>) {
    multiset(asked) == multiset(answered) + flying
  }

  /** Each answer comes from a query that has been asked and not yet answered. */
  ghost predicate Fair(net: (PeerID, nat) -> seq<PeerID>, alpha: int, queue: seq<PeerID>, seeds: set<Key>,
                       answered: seq<PeerID>)
  {
    forall n | 0 <= n < |answered| :: answered[n] in Unanswered(net, alpha, queue, seeds, answered[..n])
  }

  /** The queries in flight after some answers. */
  ghost function Unanswered(net: (PeerID, nat) -> seq<PeerID>, alpha: int, queue: seq<PeerID>, seeds: set<Key>,
                            answered: seq<PeerID>): multiset<PeerID>
  {
    multiset(Replay(net, alpha, queue, seeds, answered).asked) - multiset(answered)
  }

  lemma FairNothing(net: (PeerID, nat) -> seq<PeerID>, alpha: int, queue: seq<PeerID>, seeds: set<Key>)
    ensures Fair(net, alpha, queue, seeds, [])
  {
  }

  lemma FairNext(net: (PeerID, nat) -> seq<PeerID>, alpha: int, queue: seq<PeerID>, seeds: set<Key>,
                 answered: seq<PeerID>, asked: seq<PeerID>, flying: multiset<PeerID>, q: PeerID)
    requires Fair(net, alpha, queue, seeds, answered) && Balanced(asked, answered, flying) && q in flying
    requires Replay(net, alpha, queue, seeds, answered).asked == asked
    ensures Fair(net, alpha, queue, seeds, answered + [q])
  {
    hide Replay;
    var more := answered + [q];
    forall n | 0 <= n < |more| ensures more[n] in Unanswered(net, alpha, queue, seeds, more[..n]) {
      if n < |answered| {
        assert more[..n] == answered[..n];
      } else {
        assert more[..n] == answered;
      }
    }
  }

  lemma Started(first: seq<PeerID>, flying: multiset<PeerID>)
    requires flying == multiset{} + multiset(first)
    ensures Balanced(first, [], flying)
  {
  }

  lemma Answered(asked: seq<PeerID>, answered: seq<PeerID>, flying: multiset<PeerID>, q: PeerID)
    requires Balanced(asked, answered, flying) && q in flying
    ensures Balanced(asked, answered + [q], flying - multiset{q}) && |flying - multiset{q}| == |flying| - 1
  {
  }

  lemma Balance(asked: seq<PeerID>, answered: seq<PeerID>, flying: multiset<PeerID>, more: seq<PeerID>)
    requires Balanced(asked, answered, flying)
    ensures Balanced(asked + more, answered, flying + multiset(more))
  {
  }

  lemma AllAnswered(asked: seq<PeerID>, answered: seq<PeerID>, flying: multiset<PeerID>)
    requires Balanced(asked, answered, flying) && |flying| == 0
    ensures multiset(asked) == multiset(answered)
  {
  }

  /** The added peers have distinct keys, none of them a seed's, and visited holds just these and the seeds'. */
  ghost predicate Fresh(added: seq<PeerID>, seeds: set<Key>, keys: set<Key>) {
    DistinctKeys(added) && KeysOf(added) !! seeds && keys == seeds + KeysOf(added)
  }

  /** The keys of the universe still to be visited. */
  ghost function Left(universe: set<Key>, keys: set<Key>): set<Key> {
    universe - keys
  }

  /** Every peer of a response has been visited. */
  ghost predicate Heard(response: seq<PeerID>, keys: set<Key>) {
    forall p :: p in response ==> p.netKey in keys
  }

  lemma HeardSnoc(response: seq<PeerID>, keys: set<Key>, p: PeerID)
    requires Heard(response, keys)
    ensures Heard(response + [p], keys + {p.netKey})
  {
  }

  /** All responses consumed have been expanded. */
  ghost predicate AllHeard(net: (PeerID, nat) -> seq<PeerID>, answered: seq<PeerID>, keys: set<Key>) {
    forall n :: 0 <= n < |answered| ==> Heard(net(answered[n], n), keys)
  }

  /** All peers that the network knows have keys of the universe. */
  ghost predicate Answers(net: (PeerID, nat) -> seq<PeerID>, universe: set<Key>) {
    forall q, n :: Heard(net(q, n), universe)
  }

  lemma FromUniverse(net: (PeerID, nat) -> seq<PeerID>, universe: set<Key>, q: PeerID, n: nat)
    requires Answers(net, universe)
    ensures Heard(net(q, n), universe)
  {
  }

  lemma HeardMore(net: (PeerID, nat) -> seq<PeerID>, answered: seq<PeerID>, was: set<Key>, keys: set<Key>, q: PeerID)
    requires was <= keys && AllHeard(net, answered, was) && Heard(net(q, |answered|), keys)
    ensures AllHeard(net, answered + [q], keys)
  {
    var all := answered + [q];
    forall n | 0 <= n < |all| ensures Heard(net(all[n], n), keys) {
      if n < |answered| {
        assert Heard(net(answered[n], n), was);
      }
    }
  }

  lemma FreshNothing(seeds: set<Key>)
    ensures Fresh([], seeds, seeds)
  {
    assert KeysOf([]) == {};
  }

  lemma FreshSnoc(added: seq<PeerID>, seeds: set<Key>, keys: set<Key>, p: PeerID)
    requires Fresh(added, seeds, keys) && p.netKey !in keys
    ensures Fresh(added + [p], seeds, keys + {p.netKey})
  {
    KeysSnoc(added, p);
    DistinctSnoc(added, p);
  }

  lemma FrontNothing(room: int)
    ensures Front([], room) == []
  {
  }

  // ---- the lookup as a run of the step machine ----

  /** From s, these steps, each of them enabled when it is taken, lead to t. */
  ghost predicate Reaches(s: System, alpha: int, steps: seq<Step>, t: System)
    decreases |steps|
  {
    if steps == [] then s == t
    else Enabled(s, alpha, steps[0]) && Reaches(Next(s, alpha, steps[0]), alpha, steps[1..], t)
  }

  lemma {:induction false} ReachesThen(s: System, alpha: int, steps: seq<Step>, t: System, more: seq<Step>, u: System)
    requires Reaches(s, alpha, steps, t) && Reaches(t, alpha, more, u)
    ensures Reaches(s, alpha, steps + more, u)
    decreases |steps|
  {
    hide Enabled, Next;
    if steps == [] {
      assert steps + more == more;
    } else {
      assert (steps + more)[1..] == steps[1..] + more;
      ReachesThen(Next(s, alpha, steps[0]), alpha, steps[1..], t, more, u);
    }
  }

  lemma ReachesOne(s: System, alpha: int, step: Step)
    requires Enabled(s, alpha, step)
    ensures Reaches(s, alpha, [step], Next(s, alpha, step))
  {
    hide Enabled, Next;
    assert [step][1..] == [];
  }

  // a search of one lookup
  function Single(l: State, visited: set<Key>): System {
    System([l], visited, l.added)
  }

  // l after starting as many queries as it may
  function Filled(l: State, alpha: int): State {
    StartedMany(l, Front(l.queue, alpha - l.pending))
  }

  // l after starting queries for the first peers of its queue
  function StartedMany(l: State, more: seq<PeerID>): State
  {
    l.(pending := l.pending + |more|, queue := if |more| <= |l.queue| then l.queue[|more|..] else [],
      flying := l.flying + multiset(more), started := l.started + |more|)
  }

  lemma FilledStep(l: State, alpha: int)
    requires l.inbox == []
    ensures CanLaunch(l, alpha) ==> Filled(Launched(l), alpha) == Filled(l, alpha)
    ensures !CanLaunch(l, alpha) ==> Filled(l, alpha) == l
    ensures !CanLaunch(Filled(l, alpha), alpha)
  {
    if CanLaunch(l, alpha) {
      FilledOne(l, alpha);
    } else {
      FilledNone(l, alpha);
    }
    FilledFull(l, alpha);
  }

  lemma FilledOne(l: State, alpha: int)
    requires CanLaunch(l, alpha)
    ensures Filled(Launched(l), alpha) == Filled(l, alpha)
  {
    hide Front, StartedMany, Launched;
    var rest := Front(l.queue[1..], alpha - l.pending - 1);
    FrontStep(l.queue, alpha - l.pending);
    StartedOne(l, rest);
    assert Launched(l).queue == l.queue[1..] && Launched(l).pending == l.pending + 1 by { LaunchedIs(l); }
    assert alpha - (l.pending + 1) == alpha - l.pending - 1;
  }

  lemma LaunchedIs(l: State)
    requires l.queue != []
    ensures Launched(l).queue == l.queue[1..] && Launched(l).pending == l.pending + 1
  {
  }

  lemma StartedOne(l: State, rest: seq<PeerID>)
    requires |rest| < |l.queue|
    ensures StartedMany(Launched(l), rest) == StartedMany(l, [l.queue[0]] + rest)
  {
    Flown(l.flying, l.queue[0], rest);
    assert l.queue[1..][|rest|..] == l.queue[1 + |rest|..];
  }

  lemma Flown(flying: multiset<PeerID>, q: PeerID, rest: seq<PeerID>)
    ensures flying + multiset{q} + multiset(rest) == flying + multiset([q] + rest)
  {
    assert multiset([q] + rest) == multiset{q} + multiset(rest);
  }

  lemma FilledNone(l: State, alpha: int)
    requires l.inbox == [] && !CanLaunch(l, alpha)
    ensures Filled(l, alpha) == l
  {
    FrontNone(l.queue, alpha - l.pending);
    hide Front;
    assert l.queue[0..] == l.queue && l.flying + multiset([]) == l.flying;
  }

  lemma FilledFull(l: State, alpha: int)
    ensures !CanLaunch(Filled(l, alpha), alpha)
  {
    FrontLength(l.queue, alpha - l.pending);
    hide Front;
  }

  lemma FrontStep(queue: seq<PeerID>, room: int)
    requires room > 0 && queue != []
    ensures Front(queue, room) == [queue[0]] + Front(queue[1..], room - 1)
    ensures |Front(queue[1..], room - 1)| <= |queue| - 1
  {
  }

  lemma FrontNone(queue: seq<PeerID>, room: int)
    requires room <= 0 || queue == []
    ensures Front(queue, room) == []
  {
  }

  lemma FrontLength(queue: seq<PeerID>, room: int)
    ensures |Front(queue, room)| <= |queue|
    ensures room > 0 ==> |Front(queue, room)| == |queue| || |Front(queue, room)| == room
    ensures room <= 0 ==> Front(queue, room) == []
  {
  }

  lemma {:induction false} FillRun(l: State, visited: set<Key>, alpha: int) returns (steps: seq<Step>)
    requires l.inbox == []
    ensures Reaches(Single(l, visited), alpha, steps, Single(Filled(l, alpha), visited))
    decreases |l.queue|
  {
    FilledStep(l, alpha);
    if CanLaunch(l, alpha) {
      var rest := FillRun(Launched(l), visited, alpha);
      hide Filled;
      ReachesOne(Single(l, visited), alpha, Step.Launch(0));
      assert Next(Single(l, visited), alpha, Step.Launch(0)) == Single(Launched(l), visited);
      steps := [Step.Launch(0)] + rest;
      ReachesThen(Single(l, visited), alpha, [Step.Launch(0)], Single(Launched(l), visited), rest,
        Single(Filled(l, alpha), visited));
    } else {
      steps := [];
    }
  }

  // l, expanding response, after i of its peers
  function Expanding(l: State, response: seq<PeerID>, keys: set<Key>, i: nat): State
    requires i <= |response|
  {
    var peers := NewPeers(response[..i], keys);
    l.(inbox := response[i..], queue := peers, added := l.added + peers)
  }

  lemma {:induction false} ExpandRun(l: State, response: seq<PeerID>, keys: set<Key>, alpha: int, i: nat)
      returns (steps: seq<Step>)
    requires i <= |response|
    ensures Reaches(Single(Expanding(l, response, keys, 0), keys), alpha, steps,
                    Single(Expanding(l, response, keys, i), Marked(keys, NewPeers(response[..i], keys))))
  {
    hide Marked;
    if i == 0 {
      MarkedNothing(keys);
      steps := [];
    } else {
      var start := Single(Expanding(l, response, keys, 0), keys);
      var before := Single(Expanding(l, response, keys, i - 1), Marked(keys, NewPeers(response[..i - 1], keys)));
      var after := Single(Expanding(l, response, keys, i), Marked(keys, NewPeers(response[..i], keys)));
      var rest := ExpandRun(l, response, keys, alpha, i - 1);
      ExpandStep(l, response, keys, alpha, i - 1);
      ReachesOne(before, alpha, Step.Expand(0));
      steps := rest + [Step.Expand(0)];
      ReachesThen(start, alpha, rest, before, [Step.Expand(0)], after);
    }
  }

  lemma ExpandStep(l: State, response: seq<PeerID>, keys: set<Key>, alpha: int, i: nat)
    requires i < |response|
    ensures var s := Single(Expanding(l, response, keys, i), Marked(keys, NewPeers(response[..i], keys)));
            Enabled(s, alpha, Step.Expand(0))
            && Next(s, alpha, Step.Expand(0))
               == Single(Expanding(l, response, keys, i + 1), Marked(keys, NewPeers(response[..i + 1], keys)))
  {
    var peers := NewPeers(response[..i], keys);
    var p := response[i];
    assert response[i..][0] == p && response[i..][1..] == response[i + 1..];
    NewPeersNext(response, i, keys);
    hide NewPeers;
    if p.netKey in Marked(keys, peers) {
      AlreadyIn(Marked(keys, peers), p.netKey);
    } else {
      MarkedPush(keys, peers, p);
      assert l.added + peers + [p] == l.added + (peers + [p]);
    }
    hide Marked;
    var s := Single(Expanding(l, response, keys, i), Marked(keys, peers));
    var t := Next(s, alpha, Step.Expand(0));
    assert t.lookups == [t.lookups[0]];
  }

  /** A lookup as the machine has it when performLookup has told a of it: waiting, with its queue used up. */
  ghost predicate Tells(l: State, a: Account, answered: seq<PeerID>, alpha: int) {
    l.inbox == [] && !CanLaunch(l, alpha) && l.pending == a.pending && l.added == a.added
    && l.started == |a.asked| && l.consumed == |answered| && AskedOf(a.asked, answered, l.flying)
    && l.pending == |l.flying|
  }

  /**
   * performLookup is a run of the step machine: whatever fair order the answers come in, the machine, from its start,
   * has a run of enabled steps that asks, visits and adds the same, and stops to wait where the loop does.
   */
  lemma {:induction false} ReplayIsRun(net: (PeerID, nat) -> seq<PeerID>, alpha: int, queue: seq<PeerID>,
                                       seeds: set<Key>, answered: seq<PeerID>)
      returns (steps: seq<Step>, l: State)
    requires Fair(net, alpha, queue, seeds, answered)
    ensures var a := Replay(net, alpha, queue, seeds, answered);
            Reaches(Initial([queue], seeds), alpha, steps, Single(l, a.keys)) && Tells(l, a, answered, alpha)
    decreases |answered|
  {
    if answered == [] {
      steps, l := StartRun(net, alpha, queue, seeds);
    } else {
      var rest, was := ReplayBefore(net, alpha, queue, seeds, answered);
      steps, l := ReplayOn(net, alpha, queue, seeds, answered, rest, was);
    }
  }

  // the last answer
  lemma ReplayOn(net: (PeerID, nat) -> seq<PeerID>, alpha: int, queue: seq<PeerID>, seeds: set<Key>,
                 answered: seq<PeerID>, rest: seq<Step>, was: State)
      returns (steps: seq<Step>, l: State)
    requires answered != []
    requires var n := |answered| - 1;
             var a := Replay(net, alpha, queue, seeds, answered[..n]);
             Reaches(Initial([queue], seeds), alpha, rest, Single(was, a.keys)) && Tells(was, a, answered[..n], alpha)
             && answered[n] in was.flying
    ensures var a := Replay(net, alpha, queue, seeds, answered);
            Reaches(Initial([queue], seeds), alpha, steps, Single(l, a.keys)) && Tells(l, a, answered, alpha)
  {
    hide Replay, Tells, AfterAnswer, Reaches, Initial, Single;
    var n := |answered| - 1;
    var before, q := answered[..n], answered[n];
    var a := Replay(net, alpha, queue, seeds, before);
    var b := AfterAnswer(a, net(q, n), alpha);
    var more;
    more, l := AnswerRun(was, a, before, q, net(q, n), alpha);
    assert answered == before + [q];
    ReplayNext(net, alpha, queue, seeds, before, q);
    steps := rest + more;
    ReachesThen(Initial([queue], seeds), alpha, rest, Single(was, a.keys), more, Single(l, b.keys));
  }

  /** When nothing is pending any more, as performLookup ends, the machine has finished. */
  lemma LookupIsRun(net: (PeerID, nat) -> seq<PeerID>, alpha: int, queue: seq<PeerID>, seeds: set<Key>,
                    answered: seq<PeerID>)
      returns (steps: seq<Step>, l: State)
    requires Fair(net, alpha, queue, seeds, answered) && Replay(net, alpha, queue, seeds, answered).pending == 0
    ensures var a := Replay(net, alpha, queue, seeds, answered);
            Reaches(Initial([queue], seeds), alpha, steps, Single(l, a.keys)) && Finished(l, alpha)
            && l.started == |a.asked| && l.consumed == |answered| && l.added == a.added && l.flying == multiset{}
  {
    hide Replay, Reaches, Initial, Single, Fair;
    steps, l := ReplayIsRun(net, alpha, queue, seeds, answered);
  }

  // before any answer
  lemma StartRun(net: (PeerID, nat) -> seq<PeerID>, alpha: int, queue: seq<PeerID>, seeds: set<Key>)
      returns (steps: seq<Step>, l: State)
    ensures var a := Replay(net, alpha, queue, seeds, []);
            Reaches(Initial([queue], seeds), alpha, steps, Single(l, a.keys)) && Tells(l, a, [], alpha)
  {
    hide Front, Reaches;
    var l0 := State(0, queue, multiset{}, [], 0, 0, []);
    InitialSingle(queue, seeds);
    ReplayNothing(net, alpha, queue, seeds);
    steps := FillRun(l0, seeds, alpha);
    FilledStep(l0, alpha);
    l := Filled(l0, alpha);
  }

  lemma InitialSingle(queue: seq<PeerID>, seeds: set<Key>)
    ensures Initial([queue], seeds) == Single(State(0, queue, multiset{}, [], 0, 0, []), seeds)
  {
  }

  lemma {:induction false} ReplayBefore(net: (PeerID, nat) -> seq<PeerID>, alpha: int, queue: seq<PeerID>,
                                        seeds: set<Key>, answered: seq<PeerID>)
      returns (steps: seq<Step>, l: State)
    requires answered != [] && Fair(net, alpha, queue, seeds, answered)
    ensures var n := |answered| - 1;
            var a := Replay(net, alpha, queue, seeds, answered[..n]);
            Reaches(Initial([queue], seeds), alpha, steps, Single(l, a.keys)) && Tells(l, a, answered[..n], alpha)
            && answered[n] in l.flying
    decreases |answered|, 0
  {
    hide Replay, Reaches;
    var n := |answered| - 1;
    var before := answered[..n];
    forall k | 0 <= k < |before| ensures before[k] in Unanswered(net, alpha, queue, seeds, before[..k]) {
      assert before[..k] == answered[..k] && before[k] == answered[k];
    }
    steps, l := ReplayIsRun(net, alpha, queue, seeds, before);
  }

  // one answer: it is received, expanded, and new queries are started
  lemma AnswerRun(l: State, a: Account, answered: seq<PeerID>, q: PeerID, response: seq<PeerID>, alpha: int)
      returns (steps: seq<Step>, m: State)
    requires Tells(l, a, answered, alpha) && q in l.flying
    ensures var b := AfterAnswer(a, response, alpha);
            Reaches(Single(l, a.keys), alpha, steps, Single(m, b.keys)) && Tells(m, b, answered + [q], alpha)
  {
    var got := Received(l, q, response);
    var peers := NewPeers(response, a.keys);
    var whole := Absorbed(got, peers);
    AnswerTells(l, a, answered, q, response, alpha);
    ReceiveRun(l, a.keys, q, response, alpha);
    m := Filled(whole, alpha);
    hide Tells, Reaches, Single, Filled, Front;
    var middle := WholeRun(got, response, a.keys, alpha);
    var last := FillRun(whole, Marked(a.keys, peers), alpha);
    var first := [Step.Receive(0, q, response)];
    ReachesThen(Single(l, a.keys), alpha, first, Single(got, a.keys), middle, Single(whole, Marked(a.keys, peers)));
    ReachesThen(Single(l, a.keys), alpha, first + middle, Single(whole, Marked(a.keys, peers)), last,
      Single(m, Marked(a.keys, peers)));
    steps := first + middle + last;
  }

  // l with the peers of its response added
  function Absorbed(l: State, peers: seq<PeerID>): State {
    l.(inbox := [], queue := peers, added := l.added + peers)
  }

  lemma WholeRun(l: State, response: seq<PeerID>, keys: set<Key>, alpha: int) returns (steps: seq<Step>)
    requires l.inbox == response && l.queue == []
    ensures var peers := NewPeers(response, keys);
            Reaches(Single(l, keys), alpha, steps, Single(Absorbed(l, peers), Marked(keys, peers)))
  {
    hide Marked, Reaches, NewPeers;
    steps := ExpandRun(l, response, keys, alpha, |response|);
    NoNewPeers(response, keys);
    assert response[..|response|] == response && response[|response|..] == [];
    assert response[0..] == response && l.added + [] == l.added;
    assert Expanding(l, response, keys, 0) == l;
  }

  lemma AnswerTells(l: State, a: Account, answered: seq<PeerID>, q: PeerID, response: seq<PeerID>, alpha: int)
    requires Tells(l, a, answered, alpha) && q in l.flying
    ensures l.pending > 0
    ensures var m := Filled(Absorbed(Received(l, q, response), NewPeers(response, a.keys)), alpha);
            Tells(m, AfterAnswer(a, response, alpha), answered + [q], alpha)
  {
    var peers := NewPeers(response, a.keys);
    var whole := Absorbed(Received(l, q, response), peers);
    var m, b := Filled(whole, alpha), AfterAnswer(a, response, alpha);
    assert !CanLaunch(m, alpha) by { FilledFull(whole, alpha); }
    assert m.inbox == [] && m.consumed == |answered + [q]| by {
      hide Front;
    }
    AnswerAdds(l, a, q, response, alpha);
    AnswerFlies(l, a, answered, q, response, alpha);
  }

  lemma AnswerAdds(l: State, a: Account, q: PeerID, response: seq<PeerID>, alpha: int)
    requires l.pending == a.pending && l.added == a.added && l.started == |a.asked|
    ensures var m := Filled(Absorbed(Received(l, q, response), NewPeers(response, a.keys)), alpha);
            var b := AfterAnswer(a, response, alpha);
            m.pending == b.pending && m.added == b.added && m.started == |b.asked|
  {
    hide NewPeers, Marked, Front;
  }

  lemma AnswerFlies(l: State, a: Account, answered: seq<PeerID>, q: PeerID, response: seq<PeerID>, alpha: int)
    requires l.pending == a.pending == |l.flying| && AskedOf(a.asked, answered, l.flying) && q in l.flying
    ensures var m := Filled(Absorbed(Received(l, q, response), NewPeers(response, a.keys)), alpha);
            AskedOf(AfterAnswer(a, response, alpha).asked, answered + [q], m.flying) && m.pending == |m.flying|
    ensures l.pending > 0
  {
    hide NewPeers, Marked, Front, AskedOf;
    TellsMore(a.asked, answered, l.flying, q, Front(NewPeers(response, a.keys), alpha - (l.pending - 1)));
  }

  lemma TellsMore(asked: seq<PeerID>, answered: seq<PeerID>, flying: multiset<PeerID>, q: PeerID, more: seq<PeerID>)
    requires AskedOf(asked, answered, flying) && q in flying
    ensures AskedOf(asked + more, answered + [q], flying - multiset{q} + multiset(more))
    ensures |flying - multiset{q} + multiset(more)| == |flying| - 1 + |more| && |flying| > 0
  {
    assert multiset(answered + [q]) == multiset(answered) + multiset{q};
    assert multiset(asked + more) == multiset(asked) + multiset(more);
    assert |flying - multiset{q}| == |flying| - 1;
    assert |multiset(more)| == |more|;
  }

  /** In flight are the queries asked and not answered. */
  ghost predicate AskedOf(asked: seq<PeerID>, answered: seq<PeerID>, flying: multiset<PeerID>) {
    flying == multiset(asked) - multiset(answered) && multiset(answered) <= multiset(asked)
  }

  lemma ReceiveRun(l: State, keys: set<Key>, q: PeerID, response: seq<PeerID>, alpha: int)
    requires l.inbox == [] && !CanLaunch(l, alpha) && l.pending > 0 && q in l.flying
    ensures Reaches(Single(l, keys), alpha, [Step.Receive(0, q, response)], Single(Received(l, q, response), keys))
  {
    ReachesOne(Single(l, keys), alpha, Step.Receive(0, q, response));
  }

  // ---- sharing out the seeds ----

  /** Whose turn it is to get seed i. */
  function Turn(i: nat, d: nat): (j: nat)
    requires d > 0
    ensures j < d && (i < d ==> j == i)
  {
    i % d
  }

  /** The peers at the positions that are j modulo d. */
  function Share(peers: seq<PeerID>, d: nat, j: nat): seq<PeerID>
    requires d > 0
  {
    if peers == [] then []
    else
      var n := |peers| - 1;
      Share(peers[..n], d, j) + (if Turn(n, d) == j then [peers[n]] else [])
  }

  function Shares(peers: seq<PeerID>, d: nat, m: nat): nat
    requires d > 0
  {
    if m == 0 then 0 else Shares(peers, d, m - 1) + |Share(peers, d, m - 1)|
  }

  lemma {:induction false} SharesSnoc(peers: seq<PeerID>, d: nat, m: nat)
    requires d > 0 && peers != []
    ensures var n := |peers| - 1; Shares(peers, d, m) == Shares(peers[..n], d, m) + if Turn(n, d) < m then 1 else 0
    decreases m
  {
    if m > 0 {
      SharesSnoc(peers, d, m - 1);
    }
  }

  /** Lookup j gets the seeds at the positions j, j + d, j + 2 d and so on, in this order; so the shares differ in
      length by one at most. */
  lemma {:induction false} ShareAt(peers: seq<PeerID>, d: nat, j: nat)
    requires j < d
    ensures var s := Share(peers, d, j);
            && (|s| == if |peers| <= j then 0 else (|peers| - 1 - j) / d + 1)
            && forall i | 0 <= i < |s| :: Place(i, d, j) < |peers| && s[i] == peers[Place(i, d, j)]
    decreases |peers|
  {
    if peers != [] {
      var n := |peers| - 1;
      var before := Share(peers[..n], d, j);
      ShareAt(peers[..n], d, j);
      ShareLast(peers, d, j);
      NextTurn(n, d, j);
      hide Share, Turn, Place;
      assert forall i | 0 <= i < |before| :: before[i] == peers[Place(i, d, j)];
    }
  }

  /** The place of the i-th seed of lookup j. */
  function Place(i: nat, d: nat, j: nat): nat {
    d * i + j
  }

  lemma ShareLast(peers: seq<PeerID>, d: nat, j: nat)
    requires d > 0 && peers != []
    ensures var n := |peers| - 1;
            Share(peers, d, j) == Share(peers[..n], d, j) + if Turn(n, d) == j then [peers[n]] else []
  {
    hide Turn;
  }

  // how many of the first n + 1 positions fall to j
  lemma NextTurn(n: nat, d: nat, j: nat)
    requires j < d
    ensures var before := if n <= j then 0 else (n - 1 - j) / d + 1;
            var after := if n + 1 <= j then 0 else (n - j) / d + 1;
            if Turn(n, d) == j then after == before + 1 && Place(before, d, j) == n else after == before
  {
    if n >= j {
      var q, r := (n - j) / d, (n - j) % d;
      assert n == d * q + (r + j);
      if r == 0 {
        ModOf(n, d, q, j);
        if n > j {
          QuotientOf(n - 1 - j, d, q - 1, d - 1);
        }
      } else {
        QuotientOf(n - 1 - j, d, q, r - 1);
        if r + j < d {
          ModOf(n, d, q, r + j);
        } else {
          ModOf(n, d, q + 1, r + j - d);
        }
      }
    }
  }

  lemma ModOf(x: nat, d: nat, q: int, r: nat)
    requires r < d && x == d * q + r
    ensures Turn(x, d) == r
  {
    ModUnique(x, d, q, r);
  }

  lemma QuotientOf(x: int, d: nat, q: int, r: nat)
    requires r < d && x == d * q + r
    ensures x / d == q
  {
    ModUnique(x, d, q, r);
  }

  /** Every seed is queued, and queued once: peer k is in the share of turn k, and the shares are as long as all
      seeds. */
  lemma SharedOut(peers: seq<PeerID>, d: nat, k: nat)
    requires d > 0 && k < |peers|
    ensures Shares(peers, d, d) == |peers| && peers[k] in Share(peers, d, Turn(k, d))
  {
    hide Shares, Share, Turn;
    SharesTotal(peers, d);
    Shared(peers, d, k);
  }

  lemma {:induction false} SharesTotal(peers: seq<PeerID>, d: nat)
    requires d > 0
    ensures Shares(peers, d, d) == |peers|
    decreases |peers|
  {
    hide Shares, Turn;
    if peers == [] {
      SharesNone(d, d);
    } else {
      SharesSnoc(peers, d, d);
      SharesTotal(peers[..|peers| - 1], d);
    }
  }

  lemma {:induction false} Shared(peers: seq<PeerID>, d: nat, k: nat)
    requires d > 0 && k < |peers|
    ensures peers[k] in Share(peers, d, Turn(k, d))
    decreases |peers|
  {
    hide Turn;
    if k < |peers| - 1 {
      Shared(peers[..|peers| - 1], d, k);
    }
  }

  lemma {:induction false} SharesNone(d: nat, m: nat)
    requires d > 0
    ensures Shares([], d, m) == 0
    decreases m
  {
    if m > 0 {
      SharesNone(d, m - 1);
    }
  }

  /**
   * The seeding loop of FindNode. It panics, ok being false, exactly when there are seeds but no paths; otherwise it
   * makes min(seeds, paths) lookups, deals the seeds out to them in turn and marks all of them visited.
   */
  method Seed(peers: seq<PeerID>, disjointPaths: int, visited: Visited) returns (ok: bool, lookups: seq<LookupBucket>)
    modifies visited
    ensures ok <==> disjointPaths > 0 || peers == []
    ensures ok ==> visited.keys == old(visited.keys) + KeysOf(peers)
    ensures ok ==> |lookups| == (if |peers| <= disjointPaths then |peers| else if peers == [] then 0 else disjointPaths)
    ensures ok ==> forall j :: 0 <= j < |lookups| ==>
                     fresh(lookups[j]) && lookups[j].pending == 0 && lookups[j].queue == Share(peers, disjointPaths, j)
  {
    lookups := [];
    if peers == [] {
      assert KeysOf(peers) == {};
      return true, [];
    }
    if disjointPaths <= 0 {
      return false, [];
    }
    lookups := DealAll(peers, disjointPaths, visited);
    DealtAll(peers, disjointPaths, lookups);
    return true, lookups;
  }

  // the loop itself
  method DealAll(peers: seq<PeerID>, d: nat, visited: Visited) returns (lookups: seq<LookupBucket>)
    requires d > 0
    modifies visited
    ensures visited.keys == Marked(old(visited.keys), peers)
    ensures Dealt(peers, d, lookups)
    ensures forall j :: 0 <= j < |lookups| ==> fresh(lookups[j])
  {
    var i := 0;
    ghost var keys := visited.keys;
    lookups := [];
    MarkedNone(keys, peers);
    DealtNone(peers, d);
    hide Marked, With, Share, Turn, Dealt;
    while i < |peers|
      invariant i <= |peers| && visited.keys == Marked(keys, peers[..i])
      invariant Dealt(peers[..i], d, lookups)
      invariant forall j :: 0 <= j < |lookups| ==> fresh(lookups[j])
    {
      MarkedSnoc(keys, peers, i);
      lookups := Deal(peers, i, d, lookups, visited);
      i := i + 1;
    }
    assert peers[..i] == peers;
  }

  function With(keys: set<Key>, k: Key): set<Key> {
    keys + {k}
  }

  lemma MarkedNone(keys: set<Key>, peers: seq<PeerID>)
    ensures Marked(keys, peers[..0]) == keys
  {
    assert KeysOf(peers[..0]) == {};
  }

  lemma MarkedSnoc(keys: set<Key>, peers: seq<PeerID>, i: nat)
    requires i < |peers|
    ensures Marked(keys, peers[..i + 1]) == With(Marked(keys, peers[..i]), peers[i].netKey)
  {
    KeysSnoc(peers[..i], peers[i]);
    assert peers[..i + 1] == peers[..i] + [peers[i]];
  }

  /** The lookups are distinct objects, not started, and each has its share of the peers. */
  ghost predicate Dealt(peers: seq<PeerID>, d: nat, lookups: seq<LookupBucket>)
    requires d > 0
    reads lookups
  {
    |lookups| == (if |peers| <= d then |peers| else d)
    && (forall j, k :: 0 <= j < k < |lookups| ==> lookups[j] != lookups[k])
    && forall j :: 0 <= j < |lookups| ==> lookups[j].pending == 0 && lookups[j].queue == Share(peers, d, j)
  }

  lemma DealtNone(peers: seq<PeerID>, d: nat)
    requires d > 0
    ensures Dealt(peers[..0], d, [])
  {
  }

  lemma DealtAll(peers: seq<PeerID>, d: nat, lookups: seq<LookupBucket>)
    requires d > 0 && Dealt(peers, d, lookups)
    ensures |lookups| == if |peers| <= d then |peers| else d
    ensures forall j :: 0 <= j < |lookups| ==> lookups[j].pending == 0 && lookups[j].queue == Share(peers, d, j)
  {
  }

  // seed i is visited and goes to the lookup whose turn it is, which is made if it is not there yet
  method Deal(peers: seq<PeerID>, i: nat, d: nat, lookups: seq<LookupBucket>, visited: Visited)
      returns (more: seq<LookupBucket>)
    requires i < |peers| && d > 0 && Dealt(peers[..i], d, lookups)
    modifies lookups, visited
    ensures visited.keys == With(old(visited.keys), peers[i].netKey)
    ensures Dealt(peers[..i + 1], d, more)
    ensures forall j :: 0 <= j < |more| ==> (j < |lookups| && more[j] == lookups[j]) || fresh(more[j])
  {
    hide Share, Turn;
    var seen := visited.LoadOrStore(peers[i].netKey);
    more := lookups;
    if |more| < d {
      var lookup := new LookupBucket();
      ShareLate(peers[..i], d, i);
      more := more + [lookup];
    }
    var lookup := more[Turn(i, d)];
    lookup.queue := lookup.queue + [peers[i]];
    forall j | 0 <= j < |more| ensures more[j].queue == Share(peers[..i + 1], d, j) {
      ShareNext(peers, i, d, j);
    }
  }

  lemma ShareNext(peers: seq<PeerID>, i: nat, d: nat, j: nat)
    requires d > 0 && i < |peers|
    ensures Share(peers[..i + 1], d, j) == if Turn(i, d) == j then Share(peers[..i], d, j) + [peers[i]]
            else Share(peers[..i], d, j)
  {
    assert peers[..i + 1][..i] == peers[..i];
  }

  lemma {:induction false} ShareLate(peers: seq<PeerID>, d: nat, j: nat)
    requires d > 0 && |peers| <= j < d
    ensures Share(peers, d, j) == []
    decreases |peers|
  {
    if peers != [] {
      ShareLate(peers[..|peers| - 1], d, j);
    }
  }
}
