/** The receive window: network/recv_window.go, a ring buffer that hands out values in nonce order. */
module RecvWindow {
  import opened Machine
  import opened Bits
  import opened Wrappers

  // ---- the state as a value ----

  datatype Window<V> = Window(lastNonce: nat, size: nat, buf: seq<Option<V>>, once: bool)

  /** idx: the place of a nonce in a ring of this size. */
  function At(nonce: nat, size: nat): (slot: nat)
    requires size > 0
    ensures slot < size
  {
    nonce % size
  }

  /** The size is a positive Go int. */
  predicate Valid<V>(w: Window<V>) {
    0 < w.size < 0x8000_0000_0000_0000 && |w.buf| == w.size
  }

  function Created<V>(size: nat): Window<V> {
    Window(0, size, seq(size, _ => None), false)
  }

  function Pushed<V>(w: Window<V>, nonce: nat, value: Option<V>): (r: Window<V>)
    requires Valid(w)
    ensures Valid(r)
  {
    Window(if w.once then w.lastNonce else nonce, w.size, w.buf[At(nonce, w.size) := value], true)
  }

  /** Range from its i-th step on, at nonce id: the window it leaves and what it returns. */
  function Ranged<V>(fn: (nat, Option<V>) -> bool, w: Window<V>, id: nat, i: nat): (r: (Window<V>, seq<Option<V>>))
    requires Valid(w)
    ensures Valid(r.0)
    decreases w.size - i
  {
    if i >= w.size then (w, [])
    else
      var idx := At(id, w.size);
      var val := w.buf[idx];
      if !fn(id, val) then (w.(lastNonce := idx), [])
      else
        var r := Ranged(fn, w.(buf := w.buf[idx := None]), Uint64(id + 1), i + 1);
        (r.0, [val] + r.1)
  }

  function Present<V>(): (nat, Option<V>) -> bool {
    (nonce: nat, v: Option<V>) => v.Some?
  }

  function Popped<V>(w: Window<V>): (r: (Window<V>, seq<Option<V>>))
    requires Valid(w)
    ensures Valid(r.0)
  {
    Ranged(Present(), w, w.lastNonce, 0)
  }

  // ---- the object ----

  class RecvWindow<V(0)> {
    var lastNonce: nat
    const size: nat
    const buf: array<Option<V>>
    var once: bool

    ghost function Value(): Window<V>
      reads this, buf
    {
      Window(lastNonce, size, buf[..], once)
    }

    constructor (size: nat)
      requires 0 < size < 0x8000_0000_0000_0000
      ensures Value() == Created(size) && fresh(buf)
    {
      this.size := size;
      lastNonce := 0;
      once := false;
      buf := new Option<V>[size](_ => None);
    }

    method Push(nonce: nat, value: Option<V>)
      requires Valid(Value())
      modifies this, buf
      ensures Value() == Pushed(old(Value()), nonce, value)
    {
      if !once {
        once := true;
        lastNonce := nonce;
      }
      buf[At(nonce, size)] := value;
    }

    method Range(fn: (nat, Option<V>) -> bool) returns (res: seq<Option<V>>)
      requires Valid(Value())
      modifies this, buf
      ensures (Value(), res) == Ranged(fn, old(Value()), old(lastNonce), 0)
    {
      ghost var whole := Ranged(fn, Value(), lastNonce, 0);
      res := [];
      var id: nat := lastNonce;
      var i: nat := 0;
      assert [] + whole.1 == whole.1;
      while i < size
        invariant Valid(Value())
        invariant var rest := Ranged(fn, Value(), id, i); whole == (rest.0, res + rest.1)
      {
        var idx := At(id, size);
        var val := buf[idx];
        if !fn(id, val) {
          lastNonce := idx;
          assert res + [] == res;
          return;
        }
        ghost var rest := Ranged(fn, Value().(buf := Value().buf[idx := None]), Uint64(id + 1), i + 1);
        assert res + ([val] + rest.1) == res + [val] + rest.1;
        res := res + [val];
        buf[idx] := None;
        id := Uint64(id + 1);
        i := i + 1;
      }
      assert res + [] == res;
    }

    method Pop() returns (res: seq<Option<V>>)
      requires Valid(Value())
      modifies this, buf
      ensures (Value(), res) == Popped(old(Value()))
    {
      res := Range(Present());
    }
  }

  // ---- what a window is for ----

  datatype Operation<V> = Push(nonce: nat, value: V) | Pop

  /** The last value pushed under each nonce, the first nonce pushed and the next nonce to hand out. */
  datatype Log<V> = Log(started: bool, first: nat, next: nat, pushed: map<nat, V>)

  function NewLog<V>(): Log<V> {
    Log(false, 0, 0, map[])
  }

  const WORD := 0x1_0000_0000_0000_0000

  /** The nonce is counted right by 64-bit words: it is one of them, or the wrap-around keeps every slot. */
  predicate Fits(nonce: nat, size: nat)
    requires size > 0
  {
    nonce < WORD || WORD % size == 0
  }

  /** Push as a sender calls it: the nonce arrives as a 64-bit word. */
  function Sent<V>(w: Window<V>, nonce: nat, value: V): (r: Window<V>)
    requires Valid(w)
    ensures Valid(r) && r.size == w.size
  {
    Pushed(w, Uint64(nonce), Some(value))
  }

  /** A push the window can serve: the first, or less than size ahead of the next nonce. */
  predicate Admissible<V>(log: Log<V>, size: nat, op: Operation<V>)
    requires size > 0
  {
    op.Push? ==> Fits(op.nonce, size) && (log.started ==> log.next <= op.nonce < log.next + size)
  }

  /** How many nonces from k on, at most limit, have been pushed without a gap. */
  function Consecutive<V>(pushed: map<nat, V>, k: nat, limit: nat): (n: nat)
    ensures n <= limit
    ensures forall j :: k <= j < k + n ==> j in pushed
    ensures n < limit ==> k + n !in pushed
    decreases limit
  {
    if limit == 0 || k !in pushed then 0 else 1 + Consecutive(pushed, k + 1, limit - 1)
  }

  /** The values pushed under the nonces from k to n - 1. */
  function Values<V>(pushed: map<nat, V>, k: nat, n: nat): seq<Option<V>>
    requires forall j :: k <= j < n ==> j in pushed
    decreases n - k
  {
    if k >= n then [] else [Some(pushed[k])] + Values(pushed, k + 1, n)
  }

  function LogAfter<V>(log: Log<V>, size: nat, op: Operation<V>): Log<V> {
    match op
    case Push(nonce, value) =>
      var first := if log.started then log.first else nonce;
      var next := if log.started then log.next else nonce;
      Log(true, first, next, log.pushed[nonce := value])
    case Pop => log.(next := log.next + Consecutive(log.pushed, log.next, size))
  }

  /** The log is consistent: everything handed out was pushed, and nothing is further ahead than the window. */
  ghost predicate Consistent<V>(log: Log<V>, size: nat)
    requires size > 0
  {
    log.first <= log.next
    && (forall j :: log.first <= j < log.next ==> j in log.pushed)
    && (forall j :: j in log.pushed ==> j < log.next + size && Fits(j, size))
    && (!log.started ==> log.pushed == map[] && log.first == log.next)
  }

  /** The buffer holds, at its place, every value pushed and not yet handed out, and nothing else. */
  ghost predicate Slots<V>(w: Window<V>, pushed: map<nat, V>, base: nat, next: nat)
    requires Valid(w)
  {
    forall k :: base <= k < base + w.size ==>
      w.buf[At(k, w.size)] == if k >= next && k in pushed then Some(pushed[k]) else None
  }

  /**
   * A cursor at id finds the slot of nonce k, and those of the left nonces from there on. Before the first Pop it is
   * the first nonce itself and may come to the end of the words; then no nonce that fits is left.
   */
  predicate Cursor(id: nat, k: nat, left: nat, size: nat)
    requires size > 0
  {
    id < WORD && (Fits(k, size) ==> At(id, size) == At(k, size) && (WORD % size == 0 || id + left <= WORD || id == k))
  }

  /** The window agrees with the log. */
  ghost predicate Agrees<V>(w: Window<V>, log: Log<V>) {
    Valid(w) && Consistent(log, w.size) && w.once == log.started
    && Slots(w, log.pushed, log.next, log.next)
    && (log.started ==> Cursor(w.lastNonce, log.next, w.size, w.size))
  }

  /** A nonce that fits has the slot of its word. */
  lemma WordSlot(nonce: nat, size: nat)
    requires size > 0 && Fits(nonce, size)
    ensures At(Uint64(nonce), size) == At(nonce, size)
  {
    if WORD % size == 0 {
      var c, q, r := WORD / size, nonce / WORD, nonce % WORD;
      assert nonce == WORD * q + r && r == size * (r / size) + r % size;
      assert WORD * q == size * (c * q);
      assert size * (c * q) + size * (r / size) == size * (c * q + r / size);
      ModUnique(nonce, size, c * q + r / size, r % size);
    }
  }

  // from one nonce to the next
  lemma CursorStep(id: nat, k: nat, left: nat, size: nat)
    requires 0 < size && left > 1 && Cursor(id, k, left, size)
    ensures Cursor(Uint64(id + 1), k + 1, left - 1, size)
  {
    if Fits(k + 1, size) {
      ModNext(id, k, size);
      if WORD % size == 0 {
        WordSlot(id + 1, size);
      }
    }
  }

  lemma ModShift(k: nat, size: nat)
    requires size > 0
    ensures At(k + size, size) == At(k, size)
  {
    ModUnique(k + size, size, k / size + 1, At(k, size));
  }

  lemma ModStep(a: nat, size: nat)
    requires size > 0
    ensures At(a + 1, size) == if At(a, size) + 1 == size then 0 else At(a, size) + 1
  {
    if At(a, size) + 1 == size {
      ModUnique(a + 1, size, a / size + 1, 0);
    } else {
      ModUnique(a + 1, size, a / size, At(a, size) + 1);
    }
  }

  lemma ModNext(a: nat, b: nat, size: nat)
    requires size > 0 && At(a, size) == At(b, size)
    ensures At(a + 1, size) == At(b + 1, size)
  {
    ModStep(a, size);
    ModStep(b, size);
  }

  lemma ModDistinct(j: nat, k: nat, size: nat)
    requires j < k < j + size
    ensures At(j, size) != At(k, size)
  {
    var d := k / size - j / size;
    if At(j, size) == At(k, size) {
      MulAtLeast(size, d);
      Difference(j, k, size);
    }
  }

  lemma Difference(j: nat, k: nat, size: nat)
    requires size > 0 && At(j, size) == At(k, size)
    ensures k - j == size * (k / size - j / size)
  {
    assert k == size * (k / size) + At(k, size) && j == size * (j / size) + At(j, size);
  }

  // one slot changed
  lemma SlotsChange<V>(w: Window<V>, pushed: map<nat, V>, after: map<nat, V>, base: nat, next: nat, upto: nat,
                       nonce: nat, v: Option<V>)
    requires Valid(w) && Slots(w, pushed, base, next) && base <= nonce < base + w.size
    requires v == if nonce >= upto && nonce in after then Some(after[nonce]) else None
    requires forall k :: base <= k < base + w.size && k != nonce ==>
               (k >= next && k in pushed <==> k >= upto && k in after)
                 && (k in pushed && k in after ==> pushed[k] == after[k])
    ensures Slots(w.(buf := w.buf[At(nonce, w.size) := v]), after, base, upto)
  {
    var u := w.(buf := w.buf[At(nonce, w.size) := v]);
    forall k | base <= k < base + w.size
      ensures u.buf[At(k, u.size)] == if k >= upto && k in after then Some(after[k]) else None
    {
      if k < nonce {
        ModDistinct(k, nonce, w.size);
      } else if k > nonce {
        ModDistinct(nonce, k, w.size);
      }
    }
  }

  lemma PushAgrees<V>(w: Window<V>, log: Log<V>, nonce: nat, value: V)
    requires Agrees(w, log) && Admissible(log, w.size, Push(nonce, value))
    ensures Agrees(Sent(w, nonce, value), LogAfter(log, w.size, Push(nonce, value)))
  {
    var after := LogAfter(log, w.size, Push(nonce, value));
    hide Slots;
    if !log.started {
      NoSlots(w, log.next, nonce);
    }
    WordSlot(nonce, w.size);
    SlotsChange(w, log.pushed, after.pushed, after.next, after.next, after.next, nonce, Some(value));
    SlotsSame(w.(buf := w.buf[At(nonce, w.size) := Some(value)]), Sent(w, nonce, value), after.pushed, after.next,
      after.next);
  }

  /** Any push into the slot under the cursor, that of the next nonce, is handed out next, whatever its own nonce. */
  lemma AnyNonceNext<V>(w: Window<V>, log: Log<V>, nonce: nat, value: V)
    requires Agrees(w, log) && log.started && At(Uint64(nonce), w.size) == At(w.lastNonce, w.size)
    ensures var out := Popped(Sent(w, nonce, value)).1; out != [] && out[0] == Some(value)
    ensures Fits(nonce, w.size) && Fits(log.next, w.size) ==> At(nonce, w.size) == At(log.next, w.size)
  {
    hide Ranged;
    if Fits(nonce, w.size) {
      WordSlot(nonce, w.size);
    }
    DrainStep(Sent(w, nonce, value), w.lastNonce, 0);
  }

  // a window that has had no push is empty, wherever it is taken to begin
  lemma NoSlots<V>(w: Window<V>, next: nat, nonce: nat)
    requires Valid(w) && Slots(w, map[], next, next)
    ensures Slots(w, map[], nonce, nonce)
  {
    forall k | nonce <= k < nonce + w.size ensures w.buf[At(k, w.size)] == None {
      SlotHit(next, w.size, At(k, w.size));
    }
  }

  lemma SlotHit(base: nat, size: nat, slot: nat)
    requires slot < size
    ensures exists k :: base <= k < base + size && At(k, size) == slot
  {
    var r := At(base, size);
    var k := if slot >= r then base + slot - r else base + slot - r + size;
    ModUnique(k, size, if slot >= r then base / size else base / size + 1, slot);
    assert base <= k < base + size && At(k, size) == slot;
  }

  lemma SlotsSame<V>(w: Window<V>, u: Window<V>, pushed: map<nat, V>, base: nat, next: nat)
    requires Valid(w) && Valid(u) && u.buf == w.buf && u.size == w.size && Slots(w, pushed, base, next)
    ensures Slots(u, pushed, base, next)
  {
  }

  // the window begins where the next nonce is
  lemma SlotsMove<V>(w: Window<V>, pushed: map<nat, V>, base: nat, next: nat)
    requires Valid(w) && Slots(w, pushed, base, next) && base <= next <= base + w.size
    requires forall j :: j in pushed ==> j < base + w.size
    ensures Slots(w, pushed, next, next)
  {
    forall k | next <= k < next + w.size
      ensures w.buf[At(k, w.size)] == if k in pushed then Some(pushed[k]) else None
    {
      if k >= base + w.size {
        ModShift(k - w.size, w.size);
      }
    }
  }

  /** Range, come to nonce k, hands out the consecutive values from there on, and clears their slots. */
  lemma {:induction false} DrainExact<V>(w: Window<V>, pushed: map<nat, V>, base: nat, k: nat, id: nat)
    requires Valid(w) && base <= k <= base + w.size && Slots(w, pushed, base, k) && AllFit(pushed, w.size)
    requires k < base + w.size ==> Cursor(id, k, base + w.size - k, w.size)
    ensures var r := Ranged(Present(), w, id, k - base);
            var n := Consecutive(pushed, k, base + w.size - k);
            r.1 == Values(pushed, k, k + n) && Valid(r.0) && r.0.size == w.size && r.0.once == w.once
            && Slots(r.0, pushed, base, k + n)
            && if k + n < base + w.size then Cursor(r.0.lastNonce, k + n, w.size, w.size)
               else r.0.lastNonce == w.lastNonce
    decreases base + w.size - k
  {
    hide Slots, Ranged, Consecutive, Values, Uint64, At, Cursor, AllFit;
    if k == base + w.size {
      DrainEnd(w, pushed, base, id);
    } else {
      DrainStep(w, id, k - base);
      RunStep(pushed, k, base + w.size - k);
      CursorSlot(w, pushed, base, k, id);
      if k in pushed {
        ClearSlot(w, pushed, base, k);
        var u := w.(buf := w.buf[At(k, w.size) := None]);
        if k + 1 < base + w.size {
          CursorStep(id, k, base + w.size - k, w.size);
          DrainExact(u, pushed, base, k + 1, Uint64(id + 1));
        } else {
          DrainEnd(u, pushed, base, Uint64(id + 1));
        }
      } else {
        SlotsSame(w, w.(lastNonce := At(id, w.size)), pushed, base, k);
      }
    }
  }

  ghost predicate AllFit<V>(pushed: map<nat, V>, size: nat)
    requires size > 0
  {
    forall j :: j in pushed ==> Fits(j, size)
  }

  // the slot under the cursor; when the words have come to an end, all slots are empty
  lemma CursorSlot<V>(w: Window<V>, pushed: map<nat, V>, base: nat, k: nat, id: nat)
    requires Valid(w) && base <= k < base + w.size && Slots(w, pushed, base, k) && AllFit(pushed, w.size)
    requires Cursor(id, k, base + w.size - k, w.size)
    ensures w.buf[At(id, w.size)] == if k in pushed then Some(pushed[k]) else None
    ensures k in pushed ==> At(id, w.size) == At(k, w.size)
    ensures k !in pushed ==> Cursor(At(id, w.size), k, w.size, w.size)
  {
    ModSmall(id, w.size);
    SlotAt(w, pushed, base, k, k);
    if !Fits(k, w.size) {
      SlotHit(base, w.size, At(id, w.size));
    }
  }

  lemma DrainStep<V>(w: Window<V>, id: nat, i: nat)
    requires Valid(w) && i < w.size
    ensures var val := w.buf[At(id, w.size)];
            var rest := Ranged(Present(), w.(buf := w.buf[At(id, w.size) := None]), Uint64(id + 1), i + 1);
            Ranged(Present(), w, id, i)
            == if val.None? then (w.(lastNonce := At(id, w.size)), []) else (rest.0, [val] + rest.1)
  {
    PresentMeans<V>(id, w.buf[At(id, w.size)]);
  }

  lemma RunStep<V>(pushed: map<nat, V>, k: nat, limit: nat)
    requires limit > 0
    ensures Consecutive(pushed, k, limit) == if k !in pushed then 0 else 1 + Consecutive(pushed, k + 1, limit - 1)
    ensures Values(pushed, k, k + Consecutive(pushed, k, limit))
            == if k !in pushed then [] else [Some(pushed[k])] + Values(pushed, k + 1, k + Consecutive(pushed, k, limit))
  {
  }

  lemma ClearSlot<V>(w: Window<V>, pushed: map<nat, V>, base: nat, k: nat)
    requires Valid(w) && base <= k < base + w.size && Slots(w, pushed, base, k)
    ensures Slots(w.(buf := w.buf[At(k, w.size) := None]), pushed, base, k + 1)
  {
    hide Slots;
    SlotsChange(w, pushed, pushed, base, k, k + 1, k, None);
  }

  lemma DrainEnd<V>(w: Window<V>, pushed: map<nat, V>, base: nat, id: nat)
    requires Valid(w)
    ensures Ranged(Present(), w, id, w.size) == (w, [])
    ensures Consecutive(pushed, base + w.size, 0) == 0 && Values(pushed, base + w.size, base + w.size) == []
  {
  }

  lemma PresentMeans<V>(id: nat, v: Option<V>)
    ensures Present<V>()(id, v) <==> v.Some?
  {
  }

  lemma SlotAt<V>(w: Window<V>, pushed: map<nat, V>, base: nat, next: nat, k: nat)
    requires Valid(w) && Slots(w, pushed, base, next) && base <= k < base + w.size
    ensures w.buf[At(k, w.size)] == if k >= next && k in pushed then Some(pushed[k]) else None
  {
  }

  lemma PopConsistent<V>(log: Log<V>, size: nat)
    requires size > 0 && Consistent(log, size)
    ensures var after := LogAfter(log, size, Pop);
            Consistent(after, size) && after.next !in after.pushed
            && (forall j :: log.next <= j < after.next ==> j in log.pushed)
            && (forall j :: j in log.pushed ==> j < log.next + size)
  {
  }

  // a started window
  lemma PopStarted<V>(w: Window<V>, log: Log<V>)
    requires Agrees(w, log) && log.started
    ensures var after := LogAfter(log, w.size, Pop);
            Agrees(Popped(w).0, after) && (forall j :: log.next <= j < after.next ==> j in log.pushed)
            && Popped(w).1 == Values(log.pushed, log.next, after.next)
  {
    hide Slots, Ranged, Consecutive, Values, Consistent, At, Cursor, Fits;
    PopConsistent(log, w.size);
    PushedFit(log, w.size);
    DrainExact(w, log.pushed, log.next, log.next, w.lastNonce);
    var n := Consecutive(log.pushed, log.next, w.size);
    var u := Popped(w).0;
    if n == w.size {
      CursorRound(w.lastNonce, log.next, w.size);
    }
    SlotsMove(u, log.pushed, log.next, log.next + n);
    assert LogAfter(log, w.size, Pop) == log.(next := log.next + n);
  }

  lemma PushedFit<V>(log: Log<V>, size: nat)
    requires size > 0 && Consistent(log, size)
    ensures AllFit(log.pushed, size)
  {
  }

  // once round the ring
  lemma CursorRound(id: nat, k: nat, size: nat)
    requires size > 0 && Cursor(id, k, size, size) && Fits(k + size - 1, size)
    ensures Cursor(id, k + size, size, size)
  {
    ModShift(k, size);
  }

  /** Pop returns exactly the consecutive run of values at the next nonce, as long as it can be. */
  lemma PopAgrees<V>(w: Window<V>, log: Log<V>)
    requires Agrees(w, log)
    ensures var after := LogAfter(log, w.size, Pop);
            Agrees(Popped(w).0, after) && after.next !in after.pushed
            && (forall j :: log.next <= j < after.next ==> j in log.pushed)
            && Popped(w).1 == Values(log.pushed, log.next, after.next)
  {
    PopConsistent(log, w.size);
    if log.started {
      hide Agrees, Popped, Values, Consistent, LogAfter;
      PopStarted(w, log);
    } else {
      hide Popped, Slots;
      PopNothing(w, log);
      Unstarted(log, w.size);
    }
  }

  lemma ModSmall(k: nat, size: nat)
    requires size > 0
    ensures At(At(k, size), size) == At(k, size) && At(k, size) < size
  {
  }

  lemma PopNothing<V>(w: Window<V>, log: Log<V>)
    requires Agrees(w, log) && !log.started
    ensures Popped(w).1 == [] && Popped(w).0.buf == w.buf && Popped(w).0.size == w.size && !Popped(w).0.once
    ensures Slots(Popped(w).0, log.pushed, log.next, log.next)
  {
    var slot := At(w.lastNonce, w.size);
    SlotHit(log.next, w.size, slot);
    PresentMeans<V>(w.lastNonce, w.buf[slot]);
  }

  /**
   * Range, for any fn: it takes the values of consecutive slots as long as fn says yes, at most a whole round, and
   * empties just those slots. If fn says no the cursor becomes that slot, else it stays.
   */
  lemma {:induction false} RangeExact<V>(fn: (nat, Option<V>) -> bool, w: Window<V>, id: nat, i: nat)
    requires Valid(w) && i <= w.size && id + (w.size - i) <= WORD
    ensures var (u, out) := Ranged(fn, w, id, i);
            var n := |out|;
            && n <= w.size - i
            && (forall k | 0 <= k < n :: out[k] == From(w, id, k) && fn(id + k, out[k]))
            && (if n < w.size - i then !fn(id + n, From(w, id, n)) && u.lastNonce == At(id + n, w.size)
                else u.lastNonce == w.lastNonce)
            && u.buf == Emptied(w, id, n)
    decreases w.size - i
  {
    hide At, Uint64;
    if i < w.size && fn(id, w.buf[At(id, w.size)]) {
      var v := w.(buf := w.buf[At(id, w.size) := None]);
      var (u, out) := Ranged(fn, v, Uint64(id + 1), i + 1);
      RangeStep(fn, w, id, i);
      hide Ranged;
      if i + 1 < w.size {
        SmallWord(id + 1);
        RangeExact(fn, v, id + 1, i + 1);
        EmptiedMore(w, id, |out|);
        hide From, Emptied;
        NextSlot(w, id, |out| + 1);
        TakenOne(fn, w, id, out);
      } else {
        EmptiedMore(w, id, 0);
      }
    }
  }

  /** The k-th slot from nonce id on. */
  function From<V>(w: Window<V>, id: nat, k: nat): Option<V>
    requires Valid(w)
  {
    w.buf[At(id + k, w.size)]
  }

  lemma TakenOne<V>(fn: (nat, Option<V>) -> bool, w: Window<V>, id: nat, out: seq<Option<V>>)
    requires Valid(w) && |out| < w.size && fn(id, w.buf[At(id, w.size)])
    requires var v := w.(buf := w.buf[At(id, w.size) := None]);
             forall k | 0 <= k < |out| :: out[k] == From(v, id + 1, k) && fn(id + 1 + k, out[k])
    ensures var all := [w.buf[At(id, w.size)]] + out;
            forall k | 0 <= k < |all| :: all[k] == From(w, id, k) && fn(id + k, all[k])
  {
    hide From, At;
    var v := w.(buf := w.buf[At(id, w.size) := None]);
    var all := [w.buf[At(id, w.size)]] + out;
    forall k | 0 <= k < |all| ensures all[k] == From(w, id, k) && fn(id + k, all[k]) {
      if k > 0 {
        NextSlot(w, id, k);
        assert out[k - 1] == From(v, id + 1, k - 1) && fn(id + 1 + (k - 1), out[k - 1]);
      } else {
        FirstSlot(w, id);
      }
    }
  }

  // the slots behind one that has been emptied
  lemma NextSlot<V>(w: Window<V>, id: nat, k: nat)
    requires Valid(w) && k > 0
    ensures k < w.size ==> From(w.(buf := w.buf[At(id, w.size) := None]), id + 1, k - 1) == From(w, id, k)
  {
    hide At;
    if k < w.size {
      ModDistinct(id, id + k, w.size);
      assert id + 1 + (k - 1) == id + k;
    }
  }

  lemma FirstSlot<V>(w: Window<V>, id: nat)
    requires Valid(w)
    ensures From(w, id, 0) == w.buf[At(id, w.size)]
  {
  }

  lemma SmallWord(x: nat)
    requires x < WORD
    ensures Uint64(x) == x
  {
  }

  /** The slots of n nonces from id on emptied. */
  function Emptied<V>(w: Window<V>, id: nat, n: nat): seq<Option<V>>
    requires Valid(w)
    decreases n
  {
    if n == 0 then w.buf else Emptied(w.(buf := w.buf[At(id, w.size) := None]), id + 1, n - 1)
  }

  lemma EmptiedMore<V>(w: Window<V>, id: nat, n: nat)
    requires Valid(w)
    ensures Emptied(w, id, n + 1) == Emptied(w.(buf := w.buf[At(id, w.size) := None]), id + 1, n)
    ensures Emptied(w, id, 0) == w.buf
  {
    hide At;
  }

  lemma RangeStep<V>(fn: (nat, Option<V>) -> bool, w: Window<V>, id: nat, i: nat)
    requires Valid(w) && i < w.size && fn(id, w.buf[At(id, w.size)])
    ensures var r := Ranged(fn, w.(buf := w.buf[At(id, w.size) := None]), Uint64(id + 1), i + 1);
            Ranged(fn, w, id, i) == (r.0, [w.buf[At(id, w.size)]] + r.1)
            && (i + 1 == w.size ==> r == (w.(buf := w.buf[At(id, w.size) := None]), []))
  {
  }

  /** Of a whole round, the first n slots are empty and the others as they were. */
  lemma {:induction false} EmptiedMeaning<V>(w: Window<V>, id: nat, n: nat, k: nat)
    requires Valid(w) && n <= w.size && id <= k < id + w.size
    ensures |Emptied(w, id, n)| == w.size
    ensures Emptied(w, id, n)[At(k, w.size)] == if k < id + n then None else w.buf[At(k, w.size)]
    decreases n
  {
    hide At;
    if n > 0 {
      var v := w.(buf := w.buf[At(id, w.size) := None]);
      EmptiedMore(w, id, n - 1);
      if k > id {
        EmptiedMeaning(v, id + 1, n - 1, k);
        ModDistinct(id, k, w.size);
      } else {
        ModShift(id, w.size);
        EmptiedMeaning(v, id + 1, n - 1, id + w.size);
      }
    }
  }

  // ---- runs ----

  function LogRun<V>(log: Log<V>, size: nat, ops: seq<Operation<V>>): Log<V>
    decreases |ops|
  {
    if ops == [] then log else LogRun(LogAfter(log, size, ops[0]), size, ops[1..])
  }

  predicate AllAdmissible<V>(log: Log<V>, size: nat, ops: seq<Operation<V>>)
    requires size > 0
    decreases |ops|
  {
    ops == [] || (Admissible(log, size, ops[0]) && AllAdmissible(LogAfter(log, size, ops[0]), size, ops[1..]))
  }

  /** Everything the Pops of a run return, one after the other. */
  function Output<V>(w: Window<V>, ops: seq<Operation<V>>): seq<Option<V>>
    requires Valid(w)
    decreases |ops|
  {
    if ops == [] then []
    else
      match ops[0]
      case Push(nonce, value) => Output(Sent(w, nonce, value), ops[1..])
      case Pop => Popped(w).1 + Output(Popped(w).0, ops[1..])
  }

  lemma {:induction false} ValuesConcat<V>(pushed: map<nat, V>, a: nat, b: nat, c: nat)
    requires a <= b <= c && forall j :: a <= j < c ==> j in pushed
    ensures Values(pushed, a, b) + Values(pushed, b, c) == Values(pushed, a, c)
    decreases b - a
  {
    if a < b {
      ValuesConcat(pushed, a + 1, b, c);
    }
  }

  lemma {:induction false} ValuesSame<V>(pushed: map<nat, V>, after: map<nat, V>, a: nat, b: nat)
    requires forall j :: a <= j < b ==> j in pushed && j in after && pushed[j] == after[j]
    ensures Values(pushed, a, b) == Values(after, a, b)
    decreases b - a
  {
    if a < b {
      ValuesSame(pushed, after, a + 1, b);
    }
  }

  /**
   * Over any admissible run, what the Pops return, taken together, is exactly the values of consecutive nonces from the
   * first pushed on (from the next one, if the run starts later): none missing, none twice, none out of order.
   */
  lemma {:induction false} RunDelivers<V>(w: Window<V>, log: Log<V>, ops: seq<Operation<V>>)
    requires Agrees(w, log) && AllAdmissible(log, w.size, ops)
    ensures var end := LogRun(log, w.size, ops);
            var from := if log.started then log.next else end.first;
            Consistent(end, w.size) && from <= end.next && (log.started ==> end.first == log.first)
            && (log.started ==> KeptBelow(log.next, log.pushed, end.pushed))
            && end.first <= from && Output(w, ops) == Values(end.pushed, from, end.next)
    decreases |ops|
  {
    hide Agrees, Consistent, Popped, Sent, Admissible, KeptBelow;
    AgreesIsConsistent(w, log);
    KeptSelf(log.next, log.pushed);
    if ops != [] {
      var after := LogAfter(log, w.size, ops[0]);
      match ops[0]
      case Push(nonce, value) =>
        PushAgrees(w, log, nonce, value);
        RunDelivers(Sent(w, nonce, value), after, ops[1..]);
        Pushes(log, w.size, nonce, value);
        if log.started {
          KeptOn(log.next, log.next, log.pushed, after.pushed, LogRun(log, w.size, ops).pushed);
        }
      case Pop =>
        PopAgrees(w, log);
        PopKeepsSize(w);
        RunDelivers(Popped(w).0, after, ops[1..]);
        var end := LogRun(log, w.size, ops);
        HandedOut(end, w.size);
        if log.started {
          KeptOn(log.next, after.next, log.pushed, log.pushed, end.pushed);
          HandedOut(after, w.size);
          KeptMeans(after.next, log.pushed, end.pushed);
          ValuesSame(log.pushed, end.pushed, log.next, after.next);
          ValuesConcat(end.pushed, log.next, after.next, end.next);
        } else {
          Unstarted(log, w.size);
        }
    }
  }

  /** What was pushed below n stays as it is. */
  ghost predicate KeptBelow<V>(n: nat, pushed: map<nat, V>, after: map<nat, V>) {
    forall j :: j in pushed && j < n ==> j in after && after[j] == pushed[j]
  }

  lemma KeptOn<V>(n: nat, m: nat, pushed: map<nat, V>, between: map<nat, V>, after: map<nat, V>)
    requires n <= m && KeptBelow(n, pushed, between) && KeptBelow(m, between, after)
    ensures KeptBelow(n, pushed, after)
  {
    forall j | j in pushed && j < n ensures j in after && after[j] == pushed[j] {
      assert j in between;
    }
  }

  lemma KeptSelf<V>(n: nat, pushed: map<nat, V>)
    ensures KeptBelow(n, pushed, pushed)
  {
  }

  lemma KeptMeans<V>(n: nat, pushed: map<nat, V>, after: map<nat, V>)
    requires KeptBelow(n, pushed, after)
    ensures forall j :: j in pushed && j < n ==> j in after && after[j] == pushed[j]
  {
  }

  lemma Pushes<V>(log: Log<V>, size: nat, nonce: nat, value: V)
    requires size > 0 && Consistent(log, size) && Admissible(log, size, Push(nonce, value))
    ensures log.started ==> KeptBelow(log.next, log.pushed, LogAfter(log, size, Push(nonce, value)).pushed)
  {
  }

  lemma Unstarted<V>(log: Log<V>, size: nat)
    requires size > 0 && Consistent(log, size) && !log.started
    ensures LogAfter(log, size, Pop) == log && Values(log.pushed, log.next, log.next) == []
  {
  }

  lemma HandedOut<V>(log: Log<V>, size: nat)
    requires size > 0 && Consistent(log, size)
    ensures log.first <= log.next && forall j :: log.first <= j < log.next ==> j in log.pushed
  {
  }

  lemma AgreesIsConsistent<V>(w: Window<V>, log: Log<V>)
    requires Agrees(w, log)
    ensures Consistent(log, w.size) && Valid(w)
  {
  }

  lemma PopKeepsSize<V>(w: Window<V>)
    requires Valid(w)
    ensures Popped(w).0.size == w.size
  {
    RangedSize(w, w.lastNonce, 0);
  }

  lemma {:induction false} RangedSize<V>(w: Window<V>, id: nat, i: nat)
    requires Valid(w)
    ensures Ranged(Present(), w, id, i).0.size == w.size
    decreases w.size - i
  {
    if i < w.size {
      RangedSize(w.(buf := w.buf[At(id, w.size) := None]), Uint64(id + 1), i + 1);
    }
  }

  /** A new window: whatever admissible pushes and pops follow, the output is the values from the first nonce on. */
  lemma NewWindowDelivers<V>(size: nat, ops: seq<Operation<V>>)
    requires 0 < size < 0x8000_0000_0000_0000 && AllAdmissible(NewLog(), size, ops)
    ensures var end := LogRun(NewLog(), size, ops);
            Consistent(end, size) && Output(Created(size), ops) == Values(end.pushed, end.first, end.next)
  {
    hide AllAdmissible, LogRun, Output;
    NewAgrees<V>(size);
    RunDelivers(Created(size), NewLog(), ops);
  }

  lemma NewAgrees<V>(size: nat)
    requires 0 < size < 0x8000_0000_0000_0000
    ensures Agrees(Created<V>(size), NewLog<V>())
  {
  }

  // ---- which pushes keep every later output right ----

  /** What the Pops of a run ought to return: each the consecutive values from the next nonce on. */
  function Due<V>(log: Log<V>, size: nat, ops: seq<Operation<V>>): seq<Option<V>>
    requires size > 0
    decreases |ops|
  {
    if ops == [] then []
    else
      var after := LogAfter(log, size, ops[0]);
      if ops[0].Push? then Due(after, size, ops[1..])
      else Values(log.pushed, log.next, after.next) + Due(after, size, ops[1..])
  }

  /** Whatever admissible run follows, the Pops return what they ought to. */
  ghost predicate Delivers<V(!new)>(w: Window<V>, log: Log<V>)
    requires Valid(w)
  {
    forall ops :: AllAdmissible(log, w.size, ops) ==> Output(w, ops) == Due(log, w.size, ops)
  }

  lemma {:induction false} AgreesDelivers<V>(w: Window<V>, log: Log<V>, ops: seq<Operation<V>>)
    requires Agrees(w, log) && AllAdmissible(log, w.size, ops)
    ensures Output(w, ops) == Due(log, w.size, ops)
    decreases |ops|
  {
    hide Agrees, Popped, Sent, Admissible, Values, Consecutive;
    AgreesIsConsistent(w, log);
    if ops != [] {
      var after := LogAfter(log, w.size, ops[0]);
      match ops[0]
      case Push(nonce, value) =>
        PushAgrees(w, log, nonce, value);
        AgreesDelivers(Sent(w, nonce, value), after, ops[1..]);
      case Pop =>
        PopAgrees(w, log);
        PopKeepsSize(w);
        AgreesDelivers(Popped(w).0, after, ops[1..]);
    }
  }

  /** The first push, a push into the window, or one behind it that finds its value in the slot already. */
  ghost predicate Harmless<V>(w: Window<V>, log: Log<V>, nonce: nat, value: V)
    requires Valid(w)
  {
    !log.started || log.next <= nonce < log.next + w.size
    || (nonce < log.next && w.buf[At(nonce, w.size)] == Some(value))
  }

  /**
   * After a push every admissible run delivers what it ought to exactly if the push was harmless. The exception are
   * windows that pass the end of the words, where some slots are never reached again.
   */
  lemma PushIff<V(!new)>(w: Window<V>, log: Log<V>, nonce: nat, value: V)
    requires Agrees(w, log) && Fits(nonce, w.size)
    ensures var u, after := Sent(w, nonce, value), LogAfter(log, w.size, Push(nonce, value));
            (Harmless(w, log, nonce, value) ==> Delivers(u, after))
            && (Fits(log.next + w.size - 1, w.size) ==> (Delivers(u, after) <==> Harmless(w, log, nonce, value)))
  {
    hide Delivers, Agrees, Sent;
    AgreesIsConsistent(w, log);
    var u, after := Sent(w, nonce, value), LogAfter(log, w.size, Push(nonce, value));
    if Admissible(log, w.size, Push(nonce, value)) {
      PushAgrees(w, log, nonce, value);
      AlwaysDelivers(u, after);
    } else if w.buf[At(nonce, w.size)] == Some(value) {
      SlotKept(w, log, nonce, value);
      if nonce < log.next {
        AlwaysDelivers(u, after);
      } else {
        var ops := FarAhead(w, log, nonce, value);
        FailsOn(u, after, ops);
      }
    } else if Fits(log.next + w.size - 1, w.size) {
      var ops := SlotTaken(w, log, nonce, value);
      FailsOn(u, after, ops);
    }
  }

  lemma AlwaysDelivers<V(!new)>(w: Window<V>, log: Log<V>)
    requires Agrees(w, log)
    ensures Delivers(w, log)
  {
    hide Agrees;
    AgreesIsConsistent(w, log);
    forall ops | AllAdmissible(log, w.size, ops) ensures Output(w, ops) == Due(log, w.size, ops) {
      AgreesDelivers(w, log, ops);
    }
  }

  lemma FailsOn<V(!new)>(w: Window<V>, log: Log<V>, ops: seq<Operation<V>>)
    requires Valid(w) && AllAdmissible(log, w.size, ops) && Output(w, ops) != Due(log, w.size, ops)
    ensures !Delivers(w, log)
  {
  }

  // a push that finds its value in the slot changes nothing
  lemma SlotKept<V>(w: Window<V>, log: Log<V>, nonce: nat, value: V)
    requires Agrees(w, log) && log.started && Fits(nonce, w.size) && w.buf[At(nonce, w.size)] == Some(value)
    ensures Sent(w, nonce, value) == w
    ensures nonce < log.next ==> Agrees(w, LogAfter(log, w.size, Push(nonce, value)))
  {
    WordSlot(nonce, w.size);
  }

  // a nonce outside the window takes the slot of one inside; a run shows it
  lemma SlotTaken<V>(w: Window<V>, log: Log<V>, nonce: nat, value: V) returns (ops: seq<Operation<V>>)
    requires Agrees(w, log) && log.started && Fits(nonce, w.size) && Fits(log.next + w.size - 1, w.size)
    requires nonce < log.next || log.next + w.size <= nonce
    requires w.buf[At(nonce, w.size)] != Some(value)
    ensures var u, after := Sent(w, nonce, value), LogAfter(log, w.size, Push(nonce, value));
            AllAdmissible(after, w.size, ops) && Output(u, ops) != Due(after, w.size, ops)
  {
    hide AllAdmissible, Output, Due, Cursor;
    WordSlot(nonce, w.size);
    SlotHit(log.next, w.size, At(nonce, w.size));
    var k :| log.next <= k < log.next + w.size && At(k, w.size) == At(nonce, w.size);
    SlotAt(w, log.pushed, log.next, log.next, k);
    ops := FillThenPop(Sent(w, nonce, value), LogAfter(log, w.size, Push(nonce, value)), log.next, k, value);
  }

  /** If the slot of some nonce k of the window is wrong, then filling the window up to k and a Pop show it. */
  lemma {:induction false} FillThenPop<V>(w: Window<V>, log: Log<V>, j: nat, k: nat, filler: V)
      returns (ops: seq<Operation<V>>)
    requires Valid(w) && w.once && log.started && Cursor(w.lastNonce, log.next, w.size, w.size) && Fits(k, w.size)
    requires log.next <= j <= k < log.next + w.size && !RightAt(w, log, k)
    requires forall i :: log.next <= i < j ==> RightAt(w, log, i) && i in log.pushed
    ensures AllAdmissible(log, w.size, ops) && Output(w, ops) != Due(log, w.size, ops)
    decreases k - j
  {
    hide Cursor;
    if j == k {
      ops := [Pop];
      PopShows(w, log, log.next, k, w.lastNonce);
      OnePop(w, log);
    } else {
      hide AllAdmissible, Output, Due;
      var u, after := Sent(w, j, filler), LogAfter(log, w.size, Push(j, filler));
      WordSlot(j, w.size);
      forall i | log.next <= i <= k ensures RightAt(u, after, i) <==> i == j || RightAt(w, log, i) {
        if i < j {
          ModDistinct(i, j, w.size);
        } else if j < i {
          ModDistinct(j, i, w.size);
        }
      }
      var rest := FillThenPop(u, after, j + 1, k, filler);
      ops := [Push(j, filler)] + rest;
      PushFirst(w, log, j, filler, rest);
    }
  }

  /** The slot of nonce k is as it should be. */
  ghost predicate RightAt<V>(w: Window<V>, log: Log<V>, k: nat)
    requires Valid(w)
  {
    w.buf[At(k, w.size)] == if k in log.pushed then Some(log.pushed[k]) else None
  }

  lemma OnePop<V>(w: Window<V>, log: Log<V>)
    requires Valid(w)
    ensures Output(w, [Pop]) == Popped(w).1 && AllAdmissible(log, w.size, [Pop])
    ensures Due(log, w.size, [Pop])
            == Values(log.pushed, log.next, log.next + Consecutive(log.pushed, log.next, w.size))
  {
    hide Popped, Values, Consecutive;
    var ops: seq<Operation<V>> := [Pop];
    PopFirst(w, log, []);
    assert ops + [] == ops;
  }

  lemma PushFirst<V>(w: Window<V>, log: Log<V>, nonce: nat, value: V, rest: seq<Operation<V>>)
    requires Valid(w) && Admissible(log, w.size, Push(nonce, value))
    ensures var ops, after := [Push(nonce, value)] + rest, LogAfter(log, w.size, Push(nonce, value));
            (AllAdmissible(log, w.size, ops) <==> AllAdmissible(after, w.size, rest))
            && Output(w, ops) == Output(Sent(w, nonce, value), rest)
            && Due(log, w.size, ops) == Due(after, w.size, rest)
  {
    hide Sent;
    assert ([Push(nonce, value)] + rest)[1..] == rest;
  }

  lemma PopFirst<V>(w: Window<V>, log: Log<V>, rest: seq<Operation<V>>)
    requires Valid(w)
    ensures var ops, after := [Pop] + rest, LogAfter(log, w.size, Pop);
            (AllAdmissible(log, w.size, ops) <==> AllAdmissible(after, w.size, rest))
            && Output(w, ops) == Popped(w).1 + Output(Popped(w).0, rest)
            && Due(log, w.size, ops) == Values(log.pushed, log.next, after.next) + Due(after, w.size, rest)
  {
    hide Popped, Values, Consecutive;
    assert ([Pop] + rest)[1..] == rest;
  }

  // from slot i on, right up to k and wrong there
  lemma {:induction false} PopShows<V>(w: Window<V>, log: Log<V>, i: nat, k: nat, id: nat)
    requires Valid(w) && log.next <= i <= k < log.next + w.size && !RightAt(w, log, k) && Fits(k, w.size)
    requires Cursor(id, i, log.next + w.size - i, w.size)
    requires forall j :: i <= j < k ==> RightAt(w, log, j) && j in log.pushed
    ensures Ranged(Present(), w, id, i - log.next).1
            != Values(log.pushed, i, i + Consecutive(log.pushed, i, log.next + w.size - i))
    decreases k - i
  {
    hide Ranged, Consecutive, Values, Cursor, Fits, Uint64, RightAt, At;
    CursorAt(id, i, k, log.next + w.size - i, w.size);
    DrainStep(w, id, i - log.next);
    RunStep(log.pushed, i, log.next + w.size - i);
    RightMeans(w, log, i);
    if i < k {
      var u := w.(buf := w.buf[At(id, w.size) := None]);
      forall j | i < j <= k ensures RightAt(u, log, j) <==> RightAt(w, log, j) {
        RightElsewhere(w, log, i, None, j);
      }
      CursorStep(id, i, log.next + w.size - i, w.size);
      PopShows(u, log, i + 1, k, Uint64(id + 1));
      SamePrefix([Some(log.pushed[i])], Ranged(Present(), u, Uint64(id + 1), i + 1 - log.next).1,
        Values(log.pushed, i + 1, i + Consecutive(log.pushed, i, log.next + w.size - i)));
    } else if k in log.pushed {
      OtherHead(w.buf[At(k, w.size)], Some(log.pushed[k]),
        Ranged(Present(), w.(buf := w.buf[At(id, w.size) := None]), Uint64(id + 1), i + 1 - log.next).1,
        Values(log.pushed, i + 1, i + Consecutive(log.pushed, i, log.next + w.size - i)));
    }
  }

  lemma OtherHead<T>(x: T, y: T, s: seq<T>, t: seq<T>)
    requires x != y
    ensures [x] + s != [y] + t && [y] + t != []
  {
    assert ([x] + s)[0] == x && ([y] + t)[0] == y;
  }

  lemma RightMeans<V>(w: Window<V>, log: Log<V>, k: nat)
    requires Valid(w)
    ensures RightAt(w, log, k) <==> w.buf[At(k, w.size)] == if k in log.pushed then Some(log.pushed[k]) else None
  {
  }

  lemma RightElsewhere<V>(w: Window<V>, log: Log<V>, i: nat, v: Option<V>, j: nat)
    requires Valid(w) && i < j < i + w.size
    ensures RightAt(w.(buf := w.buf[At(i, w.size) := v]), log, j) <==> RightAt(w, log, j)
  {
    ModDistinct(i, j, w.size);
  }

  lemma CursorAt(id: nat, i: nat, k: nat, left: nat, size: nat)
    requires size > 0 && Cursor(id, i, left, size) && i <= k && Fits(k, size)
    ensures At(id, size) == At(i, size)
  {
  }

  lemma SamePrefix<T>(p: seq<T>, s: seq<T>, t: seq<T>)
    requires s != t
    ensures p + s != p + t
  {
    assert (p + s)[|p|..] == s && (p + t)[|p|..] == t;
  }

  /** A value pushed too far ahead, though its slot holds it, is missing when its nonce comes. */
  lemma {:induction false} FarAhead<V>(w: Window<V>, log: Log<V>, nonce: nat, value: V)
      returns (ops: seq<Operation<V>>)
    requires Agrees(w, log) && log.started && nonce >= log.next + w.size && Fits(nonce, w.size)
    ensures var late := log.(pushed := log.pushed[nonce := value]);
            AllAdmissible(late, w.size, ops) && Output(w, ops) != Due(late, w.size, ops)
    decreases nonce - log.next
  {
    hide Agrees, AllAdmissible, Output, Due, Popped, Sent, Consecutive, Values;
    AgreesIsConsistent(w, log);
    var late := log.(pushed := log.pushed[nonce := value]);
    var w1, log1 := Sent(w, log.next, value), LogAfter(log, w.size, Push(log.next, value));
    PushAgrees(w, log, log.next, value);
    var w2, log2 := Popped(w1).0, LogAfter(log1, w.size, Pop);
    PopAgrees(w1, log1);
    PopKeepsSize(w1);
    var late1 := LogAfter(late, w.size, Push(log.next, value));
    ghost var n := Consecutive(log1.pushed, log.next, w.size);
    assert late1.pushed == log1.pushed[nonce := value];
    OneAtLeast(log1.pushed, log.next, w.size);
    ConsecutiveNear(log1.pushed, log.next, w.size, nonce, value);
    ValuesSame(log1.pushed, late1.pushed, log.next, log2.next);
    var late2 := LogAfter(late1, w.size, Pop);
    assert late2 == log2.(pushed := log2.pushed[nonce := value]);
    var rest;
    if nonce >= log2.next + w.size {
      rest := FarAhead(w2, log2, nonce, value);
    } else {
      NotYet(w, log, nonce);
      Missing(w2, log2, nonce, value);
      rest := FillThenPop(w2, late2, log2.next, nonce, value);
    }
    PushFirst(w, late, log.next, value, [Pop] + rest);
    PopFirst(w1, late1, rest);
    SamePrefix(Popped(w1).1, Output(w2, rest), Due(late2, w.size, rest));
    ops := [Push(log.next, value)] + ([Pop] + rest);
  }

  lemma NotYet<V>(w: Window<V>, log: Log<V>, nonce: nat)
    requires Agrees(w, log) && nonce >= log.next + w.size
    ensures nonce !in log.pushed
  {
  }

  lemma Missing<V>(w: Window<V>, log: Log<V>, nonce: nat, value: V)
    requires Agrees(w, log) && log.started && log.next <= nonce < log.next + w.size && nonce !in log.pushed
    ensures !RightAt(w, log.(pushed := log.pushed[nonce := value]), nonce)
    ensures Cursor(w.lastNonce, log.next, w.size, w.size) && w.once
  {
    SlotAt(w, log.pushed, log.next, log.next, nonce);
  }

  lemma OneAtLeast<V>(pushed: map<nat, V>, k: nat, limit: nat)
    requires k in pushed && limit > 0
    ensures Consecutive(pushed, k, limit) > 0
  {
  }

  lemma {:induction false} ConsecutiveNear<V>(pushed: map<nat, V>, k: nat, limit: nat, far: nat, value: V)
    requires far >= k + limit
    ensures Consecutive(pushed[far := value], k, limit) == Consecutive(pushed, k, limit)
    decreases limit
  {
    if limit > 0 {
      ConsecutiveNear(pushed, k + 1, limit - 1, far, value);
    }
  }

  /**
   * Outside the admissible pushes the order is lost: a value pushed again under a nonce already handed out is handed
   * out as if it belonged to a later nonce that was never pushed.
   */
  lemma StaleNonceReappears(a: int, b: int, c: int)
    ensures Output(Created<int>(2), [Push(0, a), Pop, Push(0, b), Push(1, c), Pop]) == [Some(a), Some(c), Some(b)]
    ensures !AllAdmissible(NewLog(), 2, [Push(0, a), Pop, Push(0, b), Push(1, c), Pop])
  {
    hide Popped, AllAdmissible;
    var w1 := Window(0, 2, [Some(a), None], true);
    assert Pushed(Created<int>(2), 0, Some(a)) == w1;
    var w2 := Window(1, 2, [None, None], true);
    PopTwo(w1);
    assert Popped(w1) == (w2, [Some(a)]);
    var u3 := Window(1, 2, [Some(b), None], true);
    var w3 := Window(1, 2, [Some(b), Some(c)], true);
    assert Pushed(w2, 0, Some(b)) == u3 && Pushed(u3, 1, Some(c)) == w3;
    PopTwo(w3);
    var w4 := Window(1, 2, [None, None], true);
    assert Popped(w3) == (w4, [Some(c), Some(b)]);
    var ops := [Push(0, a), Pop, Push(0, b), Push(1, c), Pop];
    Refused(ops, a);
    assert ops[1..] == [Pop, Push(0, b), Push(1, c), Pop];
    assert ops[1..][1..] == [Push(0, b), Push(1, c), Pop];
    assert ops[1..][1..][1..] == [Push(1, c), Pop];
    assert ops[1..][1..][1..][1..] == [Pop];
    assert Output(w4, [Pop][1..]) == [];
    assert Output(w3, [Pop]) == [Some(c), Some(b)];
    assert Output(u3, [Push(1, c), Pop]) == [Some(c), Some(b)];
    assert Output(w2, [Push(0, b), Push(1, c), Pop]) == [Some(c), Some(b)];
    assert Output(w1, [Pop, Push(0, b), Push(1, c), Pop]) == [Some(a), Some(c), Some(b)];
  }

  lemma PopTwo(w: Window<int>)
    requires w.size == 2 && |w.buf| == 2 && w.lastNonce < 2
    ensures var i := w.lastNonce;
            var j := 1 - i;
            Popped(w) == if w.buf[i].None? then (w, [])
                         else if w.buf[j].None? then (w.(buf := [None, None], lastNonce := j), [w.buf[i]])
                         else (w.(buf := [None, None]), [w.buf[i], w.buf[j]])
  {
    var i := w.lastNonce;
    var j := 1 - i;
    var u := w.(buf := w.buf[i := None]);
    var v := u.(buf := u.buf[j := None]);
    assert v.buf == [None, None];
    DrainStep(w, i, 0);
    DrainStep(u, i + 1, 1);
    DrainEnd(v, map[], 0, Uint64(i + 2));
    assert At(i, 2) == i && At(i + 1, 2) == j;
    assert [w.buf[i]] + [u.buf[j]] == [w.buf[i], w.buf[j]];
    assert [w.buf[i]] + [] == [w.buf[i]];
    assert Uint64(i + 1) == i + 1;
    if w.buf[i].None? {
      assert w.(lastNonce := i) == w;
    } else if w.buf[j].None? {
      assert u.buf == [None, None];
      assert Ranged(Present(), u, i + 1, 1) == (u.(lastNonce := j), []);
    } else {
      assert [u.buf[j]] + [] == [u.buf[j]];
      assert Ranged(Present(), u, i + 1, 1) == (v, [u.buf[j]]);
    }
  }

  lemma Refused(ops: seq<Operation<int>>, a: int)
    requires |ops| > 2 && ops[0] == Push(0, a) && ops[1] == Pop && ops[2].Push? && ops[2].nonce == 0
    ensures !AllAdmissible(NewLog(), 2, ops)
  {
    var log1 := LogAfter(NewLog(), 2, ops[0]);
    var log2 := LogAfter(log1, 2, ops[1]);
    assert 0 in log2.pushed;
    assert ops[1..][1..][0] == ops[2] && ops[1..][0] == ops[1];
    assert !Admissible(log2, 2, ops[2]);
    assert !AllAdmissible(log2, 2, ops[1..][1..]);
    assert !AllAdmissible(log1, 2, ops[1..]);
  }
}
