/** The queue of timers of an event loop: an ordered set by expiration, the same timers by
    address and sequence number, and one alarm. Timers live at addresses that are reused. */
module TimerQueues {
  const UINTPTR_MAX: int := 0xFFFF_FFFF_FFFF_FFFF
  const FLOOR: int := 100

  datatype Entry = Entry(when: int, timer: int)

  datatype TimerId = TimerId(timer: int, sequence: int)

  datatype Timer = Timer(expiration: int, interval: real, sequence: int) {
    predicate Repeats() {
      interval > 0.0
    }

    /** The next time of a timer that repeats. */
    function Restarted(now: int): Timer {
      Timer(now + (interval * 1000000.0).Floor, interval, sequence)
    }
  }

  /** An interval is in seconds, a time in microseconds: the next one is later by the interval, less what
      is smaller than a microsecond. */
  lemma RestartedAfter(timer: Timer, now: int, seconds: int)
    ensures var later := timer.Restarted(now).expiration - now;
      && later as real <= timer.interval * 1000000.0 < later as real + 1.0
      && (timer.interval == seconds as real ==> later == seconds * 1000 * 1000)
  {
  }

  /** The descriptor that wakes the loop: set at a moment, due at another, both in microseconds. */
  datatype Alarm = Unset | Set(at: int, due: int)

  /** What matters of a run: which timers a batch took, and which were cancelled. */
  datatype Event = Batch(now: int, ids: set<TimerId>) | Cancelled(id: TimerId)

  /** What happens while callbacks run: a callback adds or cancels, another thread makes a timer
      for a later insertion. Addresses come from an allocator, clock readings from outside. */
  datatype Act = Add(at: int, when: int, interval: real, clock: int) | Cancel(id: TimerId)
      | Make(at: int, when: int, interval: real)

  // Ordered sets.

  predicate Before(a: Entry, b: Entry) {
    a.when < b.when || (a.when == b.when && a.timer < b.timer)
  }

  predicate Sorted(s: seq<Entry>) {
    forall i, j :: 0 <= i < j < |s| ==> Before(s[i], s[j])
  }

  function LowerBound(s: seq<Entry>, e: Entry): (k: nat)
    ensures k <= |s| && (k < |s| ==> !Before(s[k], e))
    ensures forall i :: 0 <= i < k ==> Before(s[i], e)
  {
    if s == [] || !Before(s[0], e) then 0 else 1 + LowerBound(s[1..], e)
  }

  function Inserted(s: seq<Entry>, e: Entry): seq<Entry> {
    s[..LowerBound(s, e)] + [e] + s[LowerBound(s, e)..]
  }

  function Erased(s: seq<Entry>, e: Entry): seq<Entry> {
    var k := LowerBound(s, e);
    if k < |s| && s[k] == e then s[..k] + s[k + 1..] else s
  }

  lemma InTwo(s: seq<Entry>, k: nat)
    requires k <= |s|
    ensures forall x :: x in s <==> x in s[..k] || x in s[k..]
  {
    assert s == s[..k] + s[k..];
  }

  lemma InsertedSorted(s: seq<Entry>, e: Entry)
    requires Sorted(s) && e !in s
    ensures Sorted(Inserted(s, e)) && |Inserted(s, e)| == |s| + 1
    ensures forall x :: x in Inserted(s, e) <==> x == e || x in s
    ensures Inserted(s, e)[0] == if s == [] || Before(e, s[0]) then e else s[0]
  {
    var k := LowerBound(s, e);
    InTwo(s, k);
    Above(s, e, k);
    JoinSorted(s, k, e);
  }

  lemma Above(s: seq<Entry>, e: Entry, k: nat)
    requires Sorted(s) && e !in s && k <= |s| && (k < |s| ==> !Before(s[k], e))
    ensures forall i :: k <= i < |s| ==> Before(e, s[i])
  {
    forall i | k <= i < |s|
      ensures Before(e, s[i])
    {
      assert s[i] in s;
      assert k < i ==> Before(s[k], s[i]);
    }
  }

  lemma JoinSorted(s: seq<Entry>, k: nat, e: Entry)
    requires Sorted(s) && k <= |s|
    requires forall i :: 0 <= i < k ==> Before(s[i], e)
    requires forall i :: k <= i < |s| ==> Before(e, s[i])
    ensures Sorted(s[..k] + [e] + s[k..])
  {
    var t := s[..k] + [e] + s[k..];
    forall i, j | 0 <= i < j < |t|
      ensures Before(t[i], t[j])
    {
      assert t[i] == if i < k then s[i] else if i == k then e else s[i - 1];
      assert t[j] == if j < k then s[j] else if j == k then e else s[j - 1];
    }
  }

  lemma ErasedSorted(s: seq<Entry>, e: Entry)
    requires Sorted(s) && e in s
    ensures Sorted(Erased(s, e)) && |Erased(s, e)| == |s| - 1
    ensures forall x :: x in Erased(s, e) <==> x != e && x in s
    ensures Erased(s, e) != [] ==> s[0].when <= Erased(s, e)[0].when
  {
    var k := LowerBound(s, e);
    var i :| 0 <= i < |s| && s[i] == e;
    assert k < |s| && s[k] == e;
    CutSorted(s, k);
  }

  lemma CutSorted(s: seq<Entry>, k: nat)
    requires Sorted(s) && k < |s|
    ensures var t := s[..k] + s[k + 1..];
      && Sorted(t) && (t != [] ==> s[0].when <= t[0].when)
      && (forall x :: x in t <==> x != s[k] && x in s)
  {
    var t := s[..k] + s[k + 1..];
    assert forall i :: 0 <= i < |t| ==> t[i] == s[if i < k then i else i + 1];
    forall x
      ensures x in t <==> x != s[k] && x in s
    {
      if x in s && x != s[k] {
        var i :| 0 <= i < |s| && s[i] == x;
        assert x == t[if i < k then i else i - 1];
      }
    }
  }

  /** The split at a moment: every address is below the sentry's. */
  lemma SplitAt(s: seq<Entry>, now: int)
    requires Sorted(s) && forall e :: e in s ==> e.timer < UINTPTR_MAX
    ensures var k := LowerBound(s, Entry(now, UINTPTR_MAX));
      && Sorted(s[..k]) && Sorted(s[k..])
      && (forall e :: e in s[..k] <==> e in s && e.when <= now)
      && (forall e :: e in s[k..] <==> e in s && e.when > now)
  {
    var k := LowerBound(s, Entry(now, UINTPTR_MAX));
    InTwo(s, k);
    forall i | 0 <= i < k
      ensures s[i].when <= now
    {
      assert Before(s[i], Entry(now, UINTPTR_MAX));
    }
    forall i | k <= i < |s|
      ensures s[i].when > now
    {
      assert s[k] in s;
      assert k < i ==> Before(s[k], s[i]);
    }
  }

  // The state of the queue.

  predicate Live(heap: map<int, Timer>, id: TimerId) {
    id.timer in heap && heap[id.timer].sequence == id.sequence
  }

  predicate Queued(heap: map<int, Timer>, timers: seq<Entry>, a: int) {
    a in heap && Entry(heap[a].expiration, a) in timers
  }

  /** Entries are keyed by the current expiration of a live timer. */
  ghost predicate Keyed(heap: map<int, Timer>, timers: seq<Entry>) {
    Sorted(timers) && forall e :: e in timers ==> e.timer in heap && heap[e.timer].expiration == e.when
  }

  ghost predicate SameTimers(heap: map<int, Timer>, timers: seq<Entry>, active: set<TimerId>) {
    forall id: TimerId :: id in active <==> Live(heap, id) && Queued(heap, timers, id.timer)
  }

  /** Every live timer is in exactly one place: queued, waiting to be inserted, or in the batch. */
  ghost predicate Placed(heap: map<int, Timer>, timers: seq<Entry>, pending: set<int>, batch: set<int>) {
    && (forall a :: a in pending ==> a in heap && !Queued(heap, timers, a) && a !in batch)
    && (forall a :: a in batch ==> a in heap && !Queued(heap, timers, a))
    && (forall a :: a in heap ==> a in pending || a in batch || Queued(heap, timers, a))
  }

  ghost predicate Numbered(heap: map<int, Timer>, created: int) {
    && (forall a :: a in heap ==> 0 <= a < UINTPTR_MAX && 1 <= heap[a].sequence <= created)
    && (forall a, b :: a in heap && b in heap && heap[a].sequence == heap[b].sequence ==> a == b)
  }

  /** A cancelled timer is gone for good, or in the batch and noted. */
  ghost predicate Bars(id: TimerId, heap: map<int, Timer>, batch: set<int>, canceling: set<TimerId>, created: int) {
    id.sequence <= created && (Live(heap, id) ==> id.timer in batch && id in canceling)
  }

  ghost predicate Barred(log: seq<Event>, heap: map<int, Timer>, batch: set<int>, canceling: set<TimerId>,
      created: int) {
    forall i :: 0 <= i < |log| && log[i].Cancelled? ==> Bars(log[i].id, heap, batch, canceling, created)
  }

  /** No batch takes a timer that was cancelled before. */
  ghost predicate NoneAfterCancel(log: seq<Event>) {
    forall i, j :: 0 <= i < j < |log| && log[i].Cancelled? && log[j].Batch? ==> log[i].id !in log[j].ids
  }

  /** The alarm is due no later than the earliest expiration, up to the floor after it was set. */
  predicate Covered(timers: seq<Entry>, alarm: Alarm) {
    timers != [] ==> alarm.Set? && (alarm.due <= timers[0].when || alarm.due <= alarm.at + FLOOR)
  }

  /** Set at a clock reading and due at an expiration, or 100 microseconds from the reading if that is later. */
  predicate AlarmFor(alarm: Alarm, expiration: int, clock: int) {
    alarm.Set? && alarm.at == clock && alarm.due >= expiration && alarm.due >= clock + 100
    && (alarm.due == expiration || alarm.due == clock + 100)
  }

  /** While a batch is handled, setting the alarm can wait for valid times only. */
  predicate WillCover(timers: seq<Entry>, alarm: Alarm) {
    Covered(timers, alarm) || timers[0].when > 0
  }

  /** What is left of the timers once those of done have been handled. */
  predicate Renews(heap: map<int, Timer>, a: int, canceling: set<TimerId>) {
    a in heap && heap[a].Repeats() && TimerId(a, heap[a].sequence) !in canceling
  }

  function AfterReset(heap: map<int, Timer>, done: set<int>, canceling: set<TimerId>, now: int): map<int, Timer> {
    map a | a in heap && (a in done ==> Renews(heap, a, canceling)) ::
      if a in done then heap[a].Restarted(now) else heap[a]
  }

  /** The two sets have the same size, as the source asserts before and after every step. */
  lemma {:induction false} SameSize(heap: map<int, Timer>, timers: seq<Entry>, active: set<TimerId>)
    requires Keyed(heap, timers) && SameTimers(heap, timers, active)
    ensures |timers| == |active|
  {
    if timers == [] {
      assert active == {};
    } else {
      var e, rest := timers[0], timers[1..];
      var id := TimerId(e.timer, heap[e.timer].sequence);
      assert timers == [e] + rest;
      assert e !in rest;
      SameSize(heap, rest, active - {id});
      assert active == active - {id} + {id};
    }
  }

  // Steps on values.

  lemma Taken(heap: map<int, Timer>, timers: seq<Entry>, timers': seq<Entry>, active: set<TimerId>, pending: set<int>,
      batch: set<int>,
      created: int, id: TimerId)
    requires
      && Keyed(heap, timers) && SameTimers(heap, timers, active) && Placed(heap, timers, pending, batch)
      && Numbered(heap, created)
    requires id in active && Sorted(timers')
    requires forall x :: x in timers' <==> x != Entry(heap[id.timer].expiration, id.timer) && x in timers
    ensures var h := heap - {id.timer};
      && Keyed(h, timers') && SameTimers(h, timers', active - {id}) && Placed(h, timers', pending, batch)
      && Numbered(h, created)
  {
    hide Sorted;
    var h := heap - {id.timer};
    assert forall x :: Queued(h, timers', x) <==> x != id.timer && Queued(heap, timers, x);
  }

  lemma StillBarred(log: seq<Event>, heap: map<int, Timer>, heap': map<int, Timer>, batch: set<int>,
      canceling: set<TimerId>, created: int)
    requires Barred(log, heap, batch, canceling, created)
    requires forall a :: a in heap' ==> a in heap && heap'[a].sequence == heap[a].sequence
    ensures Barred(log, heap', batch, canceling, created)
  {
    forall i | 0 <= i < |log| && log[i].Cancelled?
      ensures Bars(log[i].id, heap', batch, canceling, created)
    {
      assert Bars(log[i].id, heap, batch, canceling, created);
    }
  }

  lemma MoreBarred(log: seq<Event>, heap: map<int, Timer>, batch: set<int>, canceling: set<TimerId>,
      canceling': set<TimerId>, created: int)
    requires Barred(log, heap, batch, canceling, created) && canceling <= canceling'
    ensures Barred(log, heap, batch, canceling', created)
  {
    forall i | 0 <= i < |log| && log[i].Cancelled?
      ensures Bars(log[i].id, heap, batch, canceling', created)
    {
      assert Bars(log[i].id, heap, batch, canceling, created);
    }
  }

  lemma NowBars(heap: map<int, Timer>, timers: seq<Entry>, active: set<TimerId>, pending: set<int>, batch: set<int>,
      canceling: set<TimerId>,
      created: int, id: TimerId)
    requires SameTimers(heap, timers, active) && Placed(heap, timers, pending, batch) && id.sequence <= created
    requires
      && id !in active && !(id.timer in pending && Live(heap, id))
      && (batch != {} ==> Live(heap, id) ==> id in canceling)
    ensures Bars(id, heap, batch, canceling, created)
  {
  }

  lemma LogCancel(log: seq<Event>, heap: map<int, Timer>, batch: set<int>, canceling: set<TimerId>, created: int,
      id: TimerId)
    requires
      && Barred(log, heap, batch, canceling, created) && NoneAfterCancel(log)
      && Bars(id, heap, batch, canceling, created)
    ensures Barred(log + [Cancelled(id)], heap, batch, canceling, created) && NoneAfterCancel(log + [Cancelled(id)])
  {
    hide Bars;
  }

  function Addresses(es: seq<Entry>): set<int> {
    set e | e in es :: e.timer
  }

  function Ids(es: seq<Entry>, heap: map<int, Timer>): set<TimerId> {
    set e | e in es && e.timer in heap :: TimerId(e.timer, heap[e.timer].sequence)
  }

  /** Taking the entries due at a moment out of both sets makes them the batch. */
  lemma Expire(heap: map<int, Timer>, timers: seq<Entry>, active: set<TimerId>, pending: set<int>, due: seq<Entry>,
      later: seq<Entry>)
    requires
      && Keyed(heap, timers) && SameTimers(heap, timers, active) && Placed(heap, timers, pending, {}) && Sorted(later)
    requires forall e :: e in timers <==> e in due || e in later
    requires forall e :: e in due ==> e !in later
    ensures
      && Keyed(heap, later) && SameTimers(heap, later, active - Ids(due, heap))
      && Placed(heap, later, pending, Addresses(due))
    ensures Ids(due, heap) <= active
  {
    hide Sorted;
    forall a
      ensures Queued(heap, timers, a) <==> Queued(heap, later, a) || a in Addresses(due)
      ensures a in Addresses(due) ==> !Queued(heap, later, a)
    {
      if a in Addresses(due) {
        var e :| e in due && e.timer == a;
        assert e in timers;
      }
    }
    forall id: TimerId
      ensures id in Ids(due, heap) <==> Live(heap, id) && id.timer in Addresses(due)
    {
    }
  }

  lemma LogBatch(log: seq<Event>, heap: map<int, Timer>, batch: set<int>, canceling: set<TimerId>, created: int,
      now: int, ids: set<TimerId>)
    requires Barred(log, heap, {}, canceling, created) && NoneAfterCancel(log)
    requires forall id :: id in ids ==> Live(heap, id)
    ensures
      && Barred(log + [Batch(now, ids)], heap, batch, canceling, created)
      && Barred(log + [Batch(now, ids)], heap, batch, {}, created)
    ensures NoneAfterCancel(log + [Batch(now, ids)])
  {
    forall i | 0 <= i < |log| && log[i].Cancelled?
      ensures
        && log[i].id !in ids && Bars(log[i].id, heap, batch, canceling, created)
        && Bars(log[i].id, heap, batch, {}, created)
    {
      assert Bars(log[i].id, heap, {}, canceling, created);
    }
  }

  predicate Apart(es: seq<Entry>) {
    forall i, j :: 0 <= i < j < |es| ==> es[i].timer != es[j].timer
  }

  lemma Renewed(heap: map<int, Timer>, timers: seq<Entry>, active: set<TimerId>, pending: set<int>, batch: set<int>,
      created: int, a: int, now: int)
    requires
      && Keyed(heap, timers) && SameTimers(heap, timers, active) && Placed(heap, timers, pending, batch)
      && Numbered(heap, created)
    requires a in batch
    ensures var h := heap[a := heap[a].Restarted(now)];
      && Keyed(h, timers) && SameTimers(h, timers, active) && Numbered(h, created) && !Queued(h, timers, a)
      && (forall x :: x != a ==> (Queued(h, timers, x) <==> Queued(heap, timers, x)))
  {
    hide Sorted;
    assert forall e :: e in timers ==> e.timer != a;
  }

  lemma Deleted(heap: map<int, Timer>, timers: seq<Entry>, active: set<TimerId>, pending: set<int>, batch: set<int>,
      created: int, a: int)
    requires
      && Keyed(heap, timers) && SameTimers(heap, timers, active) && Placed(heap, timers, pending, batch)
      && Numbered(heap, created)
    requires a in batch
    ensures var h := heap - {a};
      && Keyed(h, timers) && SameTimers(h, timers, active) && Placed(h, timers, pending, batch - {a})
      && Numbered(h, created)
  {
    hide Sorted;
    assert forall e :: e in timers ==> e.timer != a;
    assert forall x :: Queued(heap - {a}, timers, x) <==> x != a && Queued(heap, timers, x);
  }

  lemma RenewedBarred(log: seq<Event>, heap: map<int, Timer>, batch: set<int>, canceling: set<TimerId>, created: int,
      a: int, now: int)
    requires Barred(log, heap, batch, canceling, created) && Renews(heap, a, canceling)
    ensures Barred(log, heap[a := heap[a].Restarted(now)], batch - {a}, canceling, created)
  {
    forall i | 0 <= i < |log| && log[i].Cancelled?
      ensures Bars(log[i].id, heap[a := heap[a].Restarted(now)], batch - {a}, canceling, created)
    {
      assert Bars(log[i].id, heap, batch, canceling, created);
    }
  }

  lemma DeletedBarred(log: seq<Event>, heap: map<int, Timer>, batch: set<int>, canceling: set<TimerId>, created: int,
      a: int)
    requires Barred(log, heap, batch, canceling, created)
    ensures Barred(log, heap - {a}, batch - {a}, canceling, created)
  {
    forall i | 0 <= i < |log| && log[i].Cancelled?
      ensures Bars(log[i].id, heap - {a}, batch - {a}, canceling, created)
    {
      assert Bars(log[i].id, heap, batch, canceling, created);
    }
  }

  lemma ResetNext(heap: map<int, Timer>, es: seq<Entry>, i: nat, canceling: set<TimerId>, now: int)
    requires i < |es| && Apart(es) && es[i].timer in heap
    ensures var a, h := es[i].timer, AfterReset(heap, Addresses(es[..i]), canceling, now);
      && a in h && h[a] == heap[a] && a in Addresses(es[i..])
      && AfterReset(heap, Addresses(es[..i + 1]), canceling, now)
        == (if Renews(heap, a, canceling) then h[a := heap[a].Restarted(now)] else h - {a})
    ensures Addresses(es[i + 1..]) == Addresses(es[i..]) - {es[i].timer}
  {
    assert es[..i + 1] == es[..i] + [es[i]];
    assert es[i..] == [es[i]] + es[i + 1..];
    assert Addresses(es[..i + 1]) == Addresses(es[..i]) + {es[i].timer};
    assert Addresses(es[i..]) == Addresses(es[i + 1..]) + {es[i].timer};
  }

  lemma BatchLive(heap: map<int, Timer>, timers: seq<Entry>, pending: set<int>, expired: seq<Entry>)
    requires Placed(heap, timers, pending, Addresses(expired))
    ensures forall i :: 0 <= i < |expired| ==> expired[i].timer in heap
  {
  }

  function Members(ids: seq<TimerId>): set<TimerId> {
    set id | id in ids
  }

  /** The timers of the batch are as they were. */
  predicate Kept(heap: map<int, Timer>, heap': map<int, Timer>, batch: set<int>) {
    forall a :: a in batch ==> a in heap && a in heap' && heap'[a] == heap[a]
  }

  lemma BatchKept(heap: map<int, Timer>, timers: seq<Entry>, pending: set<int>, batch: set<int>)
    requires Placed(heap, timers, pending, batch)
    ensures Kept(heap, heap, batch)
  {
  }

  /** The log has grown, and the timers of the batch noted are among those cancelled since. */
  ghost predicate Noted(log: seq<Event>, log': seq<Event>, heap: map<int, Timer>, batch: set<int>,
      canceling: set<TimerId>) {
    && log <= log'
    && forall id :: id in canceling && id.timer in batch && Live(heap, id) ==> Cancelled(id) in log'[|log|..]
  }

  ghost predicate Since(log: seq<Event>, log': seq<Event>, heap: map<int, Timer>, batch: set<int>,
      canceling: set<TimerId>) {
    && log <= log'
    && forall id: TimerId :: id.timer in batch && Live(heap, id) ==>
      (id in canceling <==> Cancelled(id) in log'[|log|..])
  }

  /** The timers of the batch noted are those that some act of its callbacks cancels. */
  ghost predicate Tells(canceling: set<TimerId>, heap: map<int, Timer>, batch: set<int>, acts: seq<Act>) {
    forall id: TimerId :: id.timer in batch && Live(heap, id) ==> (id in canceling <==> Cancel(id) in acts)
  }

  /** What the first n callbacks do, in order.  Callback i is that of timer i of the batch; the last ones
      may do nothing. */
  function DoneActs(calls: seq<seq<Act>>, n: nat): seq<Act> {
    if n == 0 then [] else DoneActs(calls, n - 1) + (if n <= |calls| then calls[n - 1] else [])
  }

  /** Callbacks further on do not matter, and the last one comes last. */
  lemma {:induction false} DoneFirst(calls: seq<seq<Act>>, more: seq<seq<Act>>, n: nat)
    requires n <= |calls|
    ensures DoneActs(calls + more, n) == DoneActs(calls, n)
    ensures n == |calls| && more != [] ==> DoneActs(calls + more, n + 1) == DoneActs(calls, n) + more[0]
  {
    if n > 0 {
      DoneFirst(calls, more, n - 1);
    }
  }

  lemma TellsNext(canceling: set<TimerId>, canceling': set<TimerId>, heap: map<int, Timer>, heap': map<int, Timer>,
      batch: set<int>,
      acts: seq<Act>, act: Act)
    requires Tells(canceling, heap, batch, acts) && Kept(heap, heap', batch)
    requires forall id: TimerId :: id.timer in batch && Live(heap', id) ==>
      (id in canceling' <==> id in canceling || act == Cancel(id))
    ensures Tells(canceling', heap', batch, acts + [act])
  {
  }

  /** An active timer is as it was, unless it was cancelled; then it is gone for good. */
  ghost predicate Waits(heap: map<int, Timer>, heap': map<int, Timer>, active': set<TimerId>, created': int,
      id: TimerId, cancelled: bool) {
    && id.timer in heap && id.sequence <= created'
    && (Live(heap', id) <==> !cancelled)
    && (Live(heap', id) ==> id in active' && heap'[id.timer] == heap[id.timer])
  }

  /** All timers that were active wait on, but for those some act cancels. */
  ghost predicate AllWait(heap: map<int, Timer>, active: set<TimerId>, heap': map<int, Timer>, active': set<TimerId>,
      created': int, acts: seq<Act>) {
    forall id :: id in active ==> Waits(heap, heap', active', created', id, Cancel(id) in acts)
  }

  /** What one act does to the timers that are active. */
  ghost predicate ActWaits(heap: map<int, Timer>, active: set<TimerId>, heap': map<int, Timer>, active': set<TimerId>,
      created: int, created': int, act: Act) {
    && created <= created'
    && (forall id :: id in active ==> Waits(heap, heap', active', created', id, act == Cancel(id)))
    && (forall id: TimerId :: id.sequence <= created && !Live(heap, id) ==> !Live(heap', id))
  }

  /** The act makes a timer at an address. */
  predicate Makes(act: Act, a: int) {
    (act.Add? || act.Make?) && act.at == a
  }

  /** Act j makes a timer at an address that was free before and that no earlier act took. */
  predicate Adds(heap: map<int, Timer>, acts: seq<Act>, j: nat) {
    && j < |acts| && !acts[j].Cancel? && 0 <= acts[j].at < UINTPTR_MAX && acts[j].at !in heap
    && forall i :: 0 <= i < j ==> !Makes(acts[i], acts[j].at)
  }

  /** The timer of an act, with a new sequence number, is queued as the act says, unless it was cancelled;
      then it is gone.  One made by another thread is there and waits to be inserted, cancelled or not. */
  ghost predicate Joins(created: int, heap': map<int, Timer>, active': set<TimerId>, pending': set<int>,
      created': int, act: Act, s: int, cancelled: bool)
    requires !act.Cancel?
  {
    var id := TimerId(act.at, s);
    && created < s <= created'
    && (Live(heap', id) <==> !cancelled || act.Make?)
    && (Live(heap', id) ==> heap'[act.at] == Timer(act.when, act.interval, s))
    && (Live(heap', id) ==> if act.Add? then id in active' else act.at in pending')
  }

  /** Timers made by the acts are where they belong, but for added ones that a later act cancels. */
  ghost predicate AllJoin(heap: map<int, Timer>, created: int, heap': map<int, Timer>, active': set<TimerId>,
      pending': set<int>, created': int, acts: seq<Act>) {
    forall j: nat :: Adds(heap, acts, j) ==> exists s ::
      Joins(created, heap', active', pending', created', acts[j], s, Cancel(TimerId(acts[j].at, s)) in acts[j + 1..])
  }

  /** Only acts take addresses. */
  ghost predicate OnlyMade(heap: map<int, Timer>, heap': map<int, Timer>, acts: seq<Act>) {
    forall a :: a in heap' && a !in heap ==> exists i :: 0 <= i < |acts| && Makes(acts[i], a)
  }

  /** The timer is as some act adds it. */
  ghost predicate AddedBy(heap': map<int, Timer>, id: TimerId, acts: seq<Act>) {
    Live(heap', id) && exists j :: 0 <= j < |acts| && AddedAs(heap'[id.timer], id.timer, acts[j])
  }

  predicate AddedAs(timer: Timer, a: int, act: Act) {
    act.Add? && act.at == a && timer == Timer(act.when, act.interval, timer.sequence)
  }

  /** No other timer is queued than those that were and those added. */
  ghost predicate NoneElse(active: set<TimerId>, heap': map<int, Timer>, active': set<TimerId>, acts: seq<Act>) {
    forall id: TimerId :: id in active' ==> id in active || AddedBy(heap', id, acts)
  }

  lemma NoneElseNext(active: set<TimerId>, heap1: map<int, Timer>, active1: set<TimerId>, heap2: map<int, Timer>,
      active2: set<TimerId>, created1: int, created2: int, acts: seq<Act>, act: Act)
    requires NoneElse(active, heap1, active1, acts) && NoneElse(active1, heap2, active2, [act])
    requires ActWaits(heap1, active1, heap2, active2, created1, created2, act)
    requires forall id :: id in active2 ==> Live(heap2, id)
    ensures NoneElse(active, heap2, active2, acts + [act])
  {
    var next := acts + [act];
    forall id: TimerId | id in active2 && id !in active
      ensures AddedBy(heap2, id, next)
    {
      if id in active1 {
        assert Waits(heap1, heap2, active2, created2, id, act == Cancel(id));
        var j :| 0 <= j < |acts| && AddedAs(heap1[id.timer], id.timer, acts[j]);
        assert AddedAs(heap2[id.timer], id.timer, next[j]);
      } else {
        assert AddedAs(heap2[id.timer], id.timer, next[|acts|]);
      }
    }
  }

  /** After the batch is handled its timers are back or gone, and nothing else is queued. */
  lemma NoneElseReset(active0: set<TimerId>, active1: set<TimerId>, heap1: map<int, Timer>, timers1: seq<Entry>,
      active2: set<TimerId>, heap: map<int, Timer>, timers: seq<Entry>, active: set<TimerId>, pending: set<int>,
      batch: set<int>, canceling: set<TimerId>, acts: seq<Act>, now: int)
    requires NoneElse(active1, heap1, active2, acts) && heap == AfterReset(heap1, batch, canceling, now)
    requires active1 <= active0 && forall id :: Live(heap1, id) && id.timer in batch ==> id in active0
    requires SameTimers(heap1, timers1, active2) && Placed(heap1, timers1, pending, batch)
    requires SameTimers(heap, timers, active) && Placed(heap, timers, pending, {})
    ensures NoneElse(active0, heap, active, acts)
  {
    forall id: TimerId | id in active && id !in active0
      ensures AddedBy(heap, id, acts)
    {
      assert id.timer !in batch && id in active2;
      assert AddedBy(heap1, id, acts);
    }
  }

  /** What one act makes: a timer under the next sequence number, at a free address; timers that wait to
      be inserted stay. */
  ghost predicate ActJoins(heap: map<int, Timer>, heap': map<int, Timer>, active': set<TimerId>, pending: set<int>,
      pending': set<int>, created: int, created': int, act: Act) {
    && (!act.Cancel? && 0 <= act.at < UINTPTR_MAX && act.at !in heap ==>
      && created' == created + 1 && act.at in heap' && heap'[act.at] == Timer(act.when, act.interval, created')
      && (if act.Add? then TimerId(act.at, created') in active' else act.at in pending'))
    && (forall a :: a in heap' && a !in heap ==> Makes(act, a))
    && (forall a :: a in pending ==> a in heap && a in heap' && heap'[a] == heap[a] && a in pending')
  }

  lemma JoinNext(heap: map<int, Timer>, created: int, heap1: map<int, Timer>, active1: set<TimerId>, pending1: set<int>,
      created1: int, heap2: map<int, Timer>, active2: set<TimerId>, pending2: set<int>, created2: int, acts: seq<Act>,
      act: Act)
    requires AllJoin(heap, created, heap1, active1, pending1, created1, acts) && OnlyMade(heap, heap1, acts)
    requires ActWaits(heap1, active1, heap2, active2, created1, created2, act) && created <= created1
    requires ActJoins(heap1, heap2, active2, pending1, pending2, created1, created2, act)
    ensures AllJoin(heap, created, heap2, active2, pending2, created2, acts + [act])
    ensures OnlyMade(heap, heap2, acts + [act])
  {
    var next := acts + [act];
    forall a | a in heap2 && a !in heap
      ensures exists i :: 0 <= i < |next| && Makes(next[i], a)
    {
      if a in heap1 {
        var i :| 0 <= i < |acts| && Makes(acts[i], a);
        assert Makes(next[i], a);
      } else {
        assert Makes(next[|acts|], a);
      }
    }
    forall j: nat | Adds(heap, next, j)
      ensures exists s ::
        Joins(created, heap2, active2, pending2, created2, next[j], s, Cancel(TimerId(next[j].at, s)) in next[j + 1..])
    {
      if j < |acts| {
        assert forall i :: 0 <= i < j ==> next[i] == acts[i];
        assert Adds(heap, acts, j) && next[j + 1..] == acts[j + 1..] + [act];
        var add, later := acts[j], acts[j + 1..];
        var s :| Joins(created, heap1, active1, pending1, created1, add, s, Cancel(TimerId(add.at, s)) in later);
        JoinKept(heap1, active1, pending1, heap2, active2, pending2, created, created1, created2, add, s, later, act);
      } else {
        assert forall i :: 0 <= i < |acts| ==> next[i] == acts[i];
        assert act.at !in heap1;
        assert next[j + 1..] == [];
        assert Joins(created, heap2, active2, pending2, created2, act, created2, false);
      }
    }
  }

  lemma JoinKept(heap1: map<int, Timer>, active1: set<TimerId>, pending1: set<int>, heap2: map<int, Timer>,
      active2: set<TimerId>, pending2: set<int>, created: int, created1: int, created2: int, add: Act, s: int,
      later: seq<Act>, act: Act)
    requires !add.Cancel? && ActWaits(heap1, active1, heap2, active2, created1, created2, act)
    requires ActJoins(heap1, heap2, active2, pending1, pending2, created1, created2, act)
    requires Joins(created, heap1, active1, pending1, created1, add, s, Cancel(TimerId(add.at, s)) in later)
    ensures Joins(created, heap2, active2, pending2, created2, add, s, Cancel(TimerId(add.at, s)) in later + [act])
  {
    var id := TimerId(add.at, s);
    if id in active1 {
      assert Waits(heap1, heap2, active2, created2, id, act == Cancel(id));
    }
  }

  /** Handling the batch leaves the timers made alone. */
  lemma JoinReset(heap0: map<int, Timer>, created0: int, heap1: map<int, Timer>, timers1: seq<Entry>,
      active1: set<TimerId>, heap: map<int, Timer>, timers: seq<Entry>, active: set<TimerId>, pending: set<int>,
      batch: set<int>, canceling: set<TimerId>, created: int, acts: seq<Act>, now: int)
    requires AllJoin(heap0, created0, heap1, active1, pending, created, acts)
    requires heap == AfterReset(heap1, batch, canceling, now)
    requires SameTimers(heap1, timers1, active1) && Placed(heap1, timers1, pending, batch)
    requires SameTimers(heap, timers, active) && Placed(heap, timers, pending, {}) && batch <= heap0.Keys
    ensures AllJoin(heap0, created0, heap, active, pending, created, acts)
  {
    forall j: nat | Adds(heap0, acts, j)
      ensures exists s ::
        Joins(created0, heap, active, pending, created, acts[j], s, Cancel(TimerId(acts[j].at, s)) in acts[j + 1..])
    {
      var s :|
        Joins(created0, heap1, active1, pending, created, acts[j], s, Cancel(TimerId(acts[j].at, s)) in acts[j + 1..]);
      assert acts[j].at !in batch;
      assert
        Joins(created0, heap, active, pending, created, acts[j], s, Cancel(TimerId(acts[j].at, s)) in acts[j + 1..]);
    }
  }

  lemma WaitNext(heap: map<int, Timer>, active: set<TimerId>, heap1: map<int, Timer>, active1: set<TimerId>,
      heap2: map<int, Timer>, active2: set<TimerId>, created1: int, created2: int, acts: seq<Act>, act: Act)
    requires AllWait(heap, active, heap1, active1, created1, acts)
    requires ActWaits(heap1, active1, heap2, active2, created1, created2, act)
    ensures AllWait(heap, active, heap2, active2, created2, acts + [act])
  {
    forall id | id in active
      ensures Waits(heap, heap2, active2, created2, id, Cancel(id) in acts + [act])
    {
      assert Waits(heap, heap1, active1, created1, id, Cancel(id) in acts);
      assert Live(heap1, id) ==> Waits(heap1, heap2, active2, created2, id, act == Cancel(id));
    }
  }

  lemma JoinNone(heap: map<int, Timer>, active: set<TimerId>, pending: set<int>, created: int)
    ensures AllJoin(heap, created, heap, active, pending, created, []) && OnlyMade(heap, heap, [])
  {
  }

  lemma NoneElseNone(heap: map<int, Timer>, active: set<TimerId>)
    ensures NoneElse(active, heap, active, [])
  {
  }

  lemma WaitNone(heap: map<int, Timer>, timers: seq<Entry>, active: set<TimerId>, created: int)
    requires SameTimers(heap, timers, active) && Numbered(heap, created)
    ensures AllWait(heap, active, heap, active, created, [])
  {
  }

  /** Handling the batch leaves the waiting timers alone. */
  lemma WaitReset(heap0: map<int, Timer>, active0: set<TimerId>, heap1: map<int, Timer>, timers1: seq<Entry>,
      active1: set<TimerId>, heap: map<int, Timer>, timers: seq<Entry>, active: set<TimerId>, pending: set<int>,
      batch: set<int>, canceling: set<TimerId>, created: int, acts: seq<Act>, now: int)
    requires AllWait(heap0, active0, heap1, active1, created, acts) && heap == AfterReset(heap1, batch, canceling, now)
    requires SameTimers(heap1, timers1, active1) && Placed(heap1, timers1, pending, batch)
    requires SameTimers(heap, timers, active) && Placed(heap, timers, pending, {})
    ensures forall id ::
      id in active0 && id.timer !in batch ==> Waits(heap0, heap, active, created, id, Cancel(id) in acts)
  {
    forall id | id in active0 && id.timer !in batch
      ensures Waits(heap0, heap, active, created, id, Cancel(id) in acts)
    {
      assert Waits(heap0, heap1, active1, created, id, Cancel(id) in acts);
    }
  }

  lemma NotedNext(log0: seq<Event>, log: seq<Event>, log': seq<Event>, heap: map<int, Timer>, heap': map<int, Timer>,
      batch: set<int>,
      canceling: set<TimerId>, canceling': set<TimerId>)
    requires Noted(log0, log, heap, batch, canceling) && log <= log' && Kept(heap, heap', batch)
    requires forall id :: id in canceling' && id !in canceling && id.timer in batch && Live(heap', id) ==>
      log' == log + [Cancelled(id)]
    ensures Noted(log0, log', heap', batch, canceling')
  {
    assert log'[|log0|..] == log[|log0|..] + log'[|log|..];
  }

  lemma NotedSince(log0: seq<Event>, log: seq<Event>, heap: map<int, Timer>, batch: set<int>, canceling: set<TimerId>,
      created: int)
    requires Noted(log0, log, heap, batch, canceling) && Barred(log, heap, batch, canceling, created)
    ensures Since(log0, log, heap, batch, canceling)
  {
    forall id: TimerId | Live(heap, id) && Cancelled(id) in log[|log0|..]
      ensures id in canceling
    {
      var i :| |log0| <= i < |log| && log[i] == Cancelled(id);
      assert Bars(log[i].id, heap, batch, canceling, created);
    }
  }

  lemma KeyedApart(heap: map<int, Timer>, es: seq<Entry>)
    requires Keyed(heap, es)
    ensures Apart(es)
  {
    forall i, j | 0 <= i < j < |es|
      ensures es[i].timer != es[j].timer
    {
      assert es[i] in es && es[j] in es && Before(es[i], es[j]);
    }
  }

  /** A run of callbacks: exactly the active timers due, each once, earliest first. */
  ghost predicate RanDue(heap: map<int, Timer>, active: set<TimerId>, ran: seq<TimerId>, now: int) {
    && (forall id: TimerId :: id in active ==> id.timer in heap)
    && (forall id :: id in ran <==> id in active && heap[id.timer].expiration <= now)
    && (forall i, j :: 0 <= i < j < |ran| ==>
      ran[i] != ran[j] && heap[ran[i].timer].expiration <= heap[ran[j].timer].expiration)
  }

  /** A timer of a batch is queued again, from now, when it repeats and was not cancelled; else it is gone. */
  ghost predicate Settled(heap: map<int, Timer>, heap': map<int, Timer>, active': set<TimerId>, id: TimerId,
      cancelled: bool, now: int) {
    && id.timer in heap
    && (Live(heap', id) <==> heap[id.timer].interval > 0.0 && !cancelled)
    && (Live(heap', id) ==> id in active' && heap'[id.timer] == heap[id.timer].Restarted(now))
  }

  lemma DueInOrder(heap: map<int, Timer>, timers: seq<Entry>, active: set<TimerId>, expired: seq<Entry>,
      heap': map<int, Timer>,
      ran: seq<TimerId>, now: int)
    requires Keyed(heap, timers) && SameTimers(heap, timers, active) && Sorted(expired) && Apart(expired)
    requires forall e :: e in expired <==> e in timers && e.when <= now
    requires Kept(heap, heap', Addresses(expired))
    requires
      && |ran| == |expired|
      && forall i :: 0 <= i < |ran| ==> ran[i].timer == expired[i].timer && Live(heap', ran[i])
    ensures RanDue(heap, active, ran, now) && Members(ran) == Ids(expired, heap)
  {
    forall i | 0 <= i < |ran|
      ensures
        && Live(heap, ran[i]) && Queued(heap, timers, ran[i].timer) && heap[ran[i].timer].expiration == expired[i].when
      ensures ran[i] in active && ran[i] in Ids(expired, heap)
    {
      assert expired[i] in expired && ran[i].timer in Addresses(expired);
    }
    forall id: TimerId | id in active && heap[id.timer].expiration <= now
      ensures id in ran
    {
      var e := Entry(heap[id.timer].expiration, id.timer);
      assert e in expired;
      var i :| 0 <= i < |expired| && expired[i] == e;
      assert ran[i] == id;
    }
    forall id | id in Ids(expired, heap)
      ensures id in ran
    {
      var e :| e in expired && e.timer in heap && id == TimerId(e.timer, heap[e.timer].sequence);
      var i :| 0 <= i < |expired| && expired[i] == e;
      assert ran[i] == id;
    }
  }

  /** The timers that are not of the batch have other addresses. */
  lemma NotInBatch(heap: map<int, Timer>, timers: seq<Entry>, active: set<TimerId>, expired: seq<Entry>,
      active1: set<TimerId>)
    requires Keyed(heap, timers) && SameTimers(heap, timers, active) && active1 == active - Ids(expired, heap)
    requires forall e :: e in expired ==> e in timers
    ensures forall id :: id in active1 ==> id.timer !in Addresses(expired)
  {
    hide Sorted;
  }

  lemma BatchIds(heap0: map<int, Timer>, timers0: seq<Entry>, active0: set<TimerId>, expired: seq<Entry>,
      heap1: map<int, Timer>)
    requires SameTimers(heap0, timers0, active0) && Keyed(heap0, timers0) && Kept(heap0, heap1, Addresses(expired))
    requires forall e :: e in expired ==> e in timers0
    ensures forall id: TimerId :: Live(heap1, id) && id.timer in Addresses(expired) ==> id in active0
  {
    hide Sorted;
  }

  lemma BatchInHeap(heap: map<int, Timer>, timers: seq<Entry>, pending: set<int>, batch: set<int>)
    requires Placed(heap, timers, pending, batch)
    ensures batch <= heap.Keys
  {
    assert forall a :: a in batch ==> a in heap.Keys;
  }

  lemma AllSettled(heap0: map<int, Timer>, heap1: map<int, Timer>, heap: map<int, Timer>, timers: seq<Entry>,
      active: set<TimerId>, timers1: seq<Entry>,
      pending: set<int>, batch: set<int>, canceling: set<TimerId>, id: TimerId, now: int)
    requires id.timer in batch && Live(heap1, id) && Kept(heap0, heap1, batch)
    requires heap == AfterReset(heap1, batch, canceling, now)
    requires
      && SameTimers(heap, timers, active) && Placed(heap, timers, pending, {}) && Placed(heap1, timers1, pending, batch)
    ensures Settled(heap0, heap, active, id, id in canceling, now)
  {
  }

  lemma BatchApart(heap: map<int, Timer>, timers: seq<Entry>, active: set<TimerId>, pending: set<int>, batch: set<int>,
      created: int)
    requires SameTimers(heap, timers, active) && Placed(heap, timers, pending, batch) && Numbered(heap, created)
    ensures forall a :: a in batch ==> a in heap && a !in pending && heap[a].sequence <= created
    ensures forall id: TimerId :: id in active ==> Live(heap, id) && id.timer !in batch
  {
  }

  /** A timer made at a free address, and queued or left to wait. */
  lemma MadeActs(heap: map<int, Timer>, timers: seq<Entry>, active: set<TimerId>, pending: set<int>, batch: set<int>,
      created: int, heap': map<int, Timer>, timers': seq<Entry>, active': set<TimerId>, pending': set<int>, act: Act)
    requires SameTimers(heap, timers, active) && Placed(heap, timers, pending, batch) && Numbered(heap, created)
    requires SameTimers(heap', timers', active') && !act.Cancel? && act.at !in heap
    requires heap' == heap[act.at := Timer(act.when, act.interval, created + 1)]
    requires pending' == if act.Add? then pending else pending + {act.at}
    requires forall x :: Queued(heap', timers', x) <==> (x == act.at && act.Add?) || Queued(heap, timers, x)
    ensures ActWaits(heap, active, heap', active', created, created + 1, act)
    ensures ActJoins(heap, heap', active', pending, pending', created, created + 1, act)
    ensures NoneElse(active, heap', active', [act])
  {
    forall id: TimerId | id in active' && id !in active
      ensures AddedBy(heap', id, [act])
    {
      assert AddedAs(heap'[id.timer], id.timer, [act][0]);
    }
  }

  /** A cancellation, or an act at an address that is not free, makes nothing. */
  lemma OtherActs(heap: map<int, Timer>, timers: seq<Entry>, active: set<TimerId>, pending: set<int>, batch: set<int>,
      created: int, heap': map<int, Timer>, active': set<TimerId>, act: Act)
    requires SameTimers(heap, timers, active) && Placed(heap, timers, pending, batch) && Numbered(heap, created)
    requires act.Cancel? || act.at in heap || !(0 <= act.at < UINTPTR_MAX)
    requires heap' == if act.Cancel? && act.id in active then heap - {act.id.timer} else heap
    requires active' == if act.Cancel? then active - {act.id} else active
    ensures ActWaits(heap, active, heap', active', created, created, act)
    ensures ActJoins(heap, heap', active', pending, pending, created, created, act)
    ensures NoneElse(active, heap', active', [act])
  {
  }

  class TimerQueue {
    var timers: seq<Entry>
    var active: set<TimerId>
    var calling: bool
    var canceling: set<TimerId>
    var heap: map<int, Timer>
    var created: int
    var alarm: Alarm
    ghost var pending: set<int>
    ghost var batch: set<int>
    ghost var log: seq<Event>

    ghost predicate Core()
      reads this
    {
      && Keyed(heap, timers) && SameTimers(heap, timers, active) && Placed(heap, timers, pending, batch)
      && Numbered(heap, created) && created >= 0
      && Barred(log, heap, batch, canceling, created) && NoneAfterCancel(log)
    }

    ghost predicate Valid()
      reads this
    {
      Core() && WillCover(timers, alarm) && (!calling ==> batch == {} && Covered(timers, alarm))
    }

    constructor ()
      ensures Valid() && !calling && timers == [] && heap == map[] && log == [] && alarm == Unset
    {
      timers, active, calling, canceling, heap, created, alarm := [], {}, false, {}, map[], 0, Unset;
      pending, batch, log := {}, {}, [];
    }

    /** Sets the alarm for an expiration, at least the floor from now. */
    method ResetTimerfd(expiration: int, clock: int)
      modifies `alarm
      ensures AlarmFor(alarm, expiration, clock)
    {
      var microseconds := expiration - clock;
      if microseconds < FLOOR {
        microseconds := FLOOR;
      }
      alarm := Set(clock, clock + microseconds);
    }

    /** A new timer object, not yet inserted; any thread does this. */
    method MakeTimer(at: int, when: int, interval: real) returns (id: TimerId)
      requires Valid() && at !in heap && 0 <= at < UINTPTR_MAX
      modifies `heap, `created, `pending
      ensures Valid() && id == TimerId(at, created) && created == old(created) + 1
      ensures heap == old(heap)[at := Timer(when, interval, created)] && pending == old(pending) + {at}
    {
      created := created + 1;
      heap := heap[at := Timer(when, interval, created)];
      pending := pending + {at};
      id := TimerId(at, created);
      assert forall a :: a != at ==> (Queued(heap, timers, a) <==> old(Queued(heap, timers, a)));
    }

    /** Puts a live timer into both sets; tells whether it is now the earliest. */
    method Insert(a: int) returns (earliestChanged: bool)
      requires Keyed(heap, timers) && SameTimers(heap, timers, active) && a in heap && !Queued(heap, timers, a)
      modifies `timers, `active
      ensures Keyed(heap, timers) && SameTimers(heap, timers, active)
      ensures forall x :: Queued(heap, timers, x) <==> x == a || old(Queued(heap, timers, x))
      ensures timers != [] && earliestChanged == (old(timers) == [] || heap[a].expiration < old(timers)[0].when)
      ensures timers[0].when == if earliestChanged then heap[a].expiration else old(timers)[0].when
    {
      var e := Entry(heap[a].expiration, a);
      earliestChanged := timers == [] || e.when < timers[0].when;
      InsertedSorted(timers, e);
      timers := Inserted(timers, e);
      active := active + {TimerId(a, heap[a].sequence)};
    }

    /** The loop inserts a timer that was made before, and sets the alarm if it is the earliest. */
    method AddTimerInLoop(a: int, clock: int)
      requires Valid() && a in pending
      modifies `timers, `active, `alarm, `pending
      ensures Valid() && pending == old(pending) - {a}
      ensures forall x :: Queued(heap, timers, x) <==> x == a || old(Queued(heap, timers, x))
      ensures if old(timers) == [] || heap[a].expiration < old(timers)[0].when
        then AlarmFor(alarm, heap[a].expiration, clock) else alarm == old(alarm)
    {
      var earliestChanged := Insert(a);
      pending := pending - {a};
      if earliestChanged {
        ResetTimerfd(heap[a].expiration, clock);
      }
    }

    /** A timer added in the loop's own thread. */
    method AddTimer(at: int, when: int, interval: real, clock: int) returns (id: TimerId)
      requires Valid() && at !in heap && 0 <= at < UINTPTR_MAX
      modifies `heap, `created, `pending, `timers, `active, `alarm
      ensures Valid() && id == TimerId(at, created) && created == old(created) + 1 && id in active
      ensures heap == old(heap)[at := Timer(when, interval, created)] && pending == old(pending)
      ensures forall x :: Queued(heap, timers, x) <==> x == at || old(Queued(heap, timers, x))
    {
      id := MakeTimer(at, when, interval);
      AddTimerInLoop(at, clock);
    }

    /** Cancels: an active timer goes at once, one of the batch is noted, and one that still waits
        to be inserted stays. What was cancelled is in no later batch. */
    method CancelInLoop(id: TimerId)
      requires Valid()
      modifies `timers, `active, `heap, `canceling, `log
      ensures Valid()
      ensures heap == if id in old(active) then old(heap) - {id.timer} else old(heap)
      ensures active == old(active) - {id}
      ensures canceling == if id !in old(active) && calling then old(canceling) + {id} else old(canceling)
      ensures log == if id.sequence <= created && !(id.timer in pending && Live(heap,
          id)) then old(log) + [Cancelled(id)] else old(log)
    {
      hide Inserted, LowerBound, Sorted, NoneAfterCancel, Bars, Barred, Placed, Numbered;
      if id in active {
        var e := Entry(heap[id.timer].expiration, id.timer);
        ErasedSorted(timers, e);
        Taken(heap, timers, Erased(timers, e), active, pending, batch, created, id);
        StillBarred(log, heap, heap - {id.timer}, batch, canceling, created);
        timers := Erased(timers, e);
        heap := heap - {id.timer};
        active := active - {id};
      } else if calling {
        MoreBarred(log, heap, batch, canceling, canceling + {id}, created);
        canceling := canceling + {id};
      }
      if id.sequence <= created && !(id.timer in pending && Live(heap, id)) {
        NowBars(heap, timers, active, pending, batch, canceling, created, id);
        LogCancel(log, heap, batch, canceling, created, id);
        log := log + [Cancelled(id)];
      }
    }

    /** Reading the descriptor: it will not wake the loop again before it is set again. */
    method ReadTimerfd()
      modifies `alarm
      ensures alarm == Unset
    {
      alarm := Unset;
    }

    /** Moves the timers due now, and no others, out of both sets, earliest first. */
    method GetExpired(now: int) returns (expired: seq<Entry>)
      requires Core() && batch == {}
      modifies `timers, `active, `batch, `log
      ensures
        && Core() && Barred(log, heap, batch, {}, created) && batch == Addresses(expired) && Sorted(expired)
        && Apart(expired)
      ensures now > 0 ==> WillCover(timers, alarm)
      ensures forall e :: e in expired <==> e in old(timers) && e.when <= now
      ensures forall e :: e in timers <==> e in old(timers) && e.when > now
      ensures active == old(active) - Ids(expired, heap) && Ids(expired, heap) <= old(active)
      ensures log == old(log) + [Batch(now, Ids(expired, heap))]
    {
      hide Sorted, LowerBound, Placed, Numbered, Barred, NoneAfterCancel;
      var end := Split(now);
      expired := timers[..end];
      assert Apart(expired) by { KeyedApart(heap, expired); }
      Expire(heap, timers, active, pending, expired, timers[end..]);
      LogBatch(log, heap, Addresses(expired), canceling, created, now, Ids(expired, heap));
      timers := timers[end..];
      for i := 0 to |expired|
        invariant active == old(active) - Ids(expired[..i], heap)
        modifies `active
      {
        assert expired[i] in old(timers);
        IdsNext(expired, i, heap);
        active := active - {TimerId(expired[i].timer, heap[expired[i].timer].sequence)};
      }
      assert expired[..|expired|] == expired;
      batch, log := Addresses(expired), log + [Batch(now, Ids(expired, heap))];
    }

    /** Where the entries after a moment begin. */
    method Split(now: int) returns (end: nat)
      requires Keyed(heap, timers) && Numbered(heap, created)
      ensures end <= |timers| && Sorted(timers[..end]) && Sorted(timers[end..])
      ensures forall e :: e in timers[..end] <==> e in timers && e.when <= now
      ensures forall e :: e in timers[end..] <==> e in timers && e.when > now
    {
      end := LowerBound(timers, Entry(now, UINTPTR_MAX));
      SplitAt(timers, now);
    }

    /** One timer of the batch: it starts again unless it does not repeat or was cancelled. */
    method ResetOne(a: int, now: int)
      requires Core() && WillCover(timers, alarm) && a in batch && now > 0
      modifies `timers, `active, `heap, `batch
      ensures Core() && WillCover(timers, alarm) && batch == old(batch) - {a}
      ensures heap == if old(Renews(heap, a, canceling)) then old(heap)[a := old(heap)[a].Restarted(now)]
        else old(heap) - {a}
    {
      hide Sorted, NoneAfterCancel, Barred, Numbered;
      if heap[a].Repeats() && TimerId(a, heap[a].sequence) !in canceling {
        Renewed(heap, timers, active, pending, batch, created, a, now);
        RenewedBarred(log, heap, batch, canceling, created, a, now);
        heap := heap[a := heap[a].Restarted(now)];
        var _ := Insert(a);
      } else {
        Deleted(heap, timers, active, pending, batch, created, a);
        DeletedBarred(log, heap, batch, canceling, created, a);
        heap := heap - {a};
      }
      batch := batch - {a};
    }

    /** After the callbacks: timers of the batch start again or go, and the alarm is set. */
    method Reset(expired: seq<Entry>, now: int, clock: int)
      requires Core() && WillCover(timers, alarm) && batch == Addresses(expired) && Apart(expired) && now > 0
      modifies `timers, `active, `heap, `batch, `alarm
      ensures Core() && batch == {} && Covered(timers, alarm)
      ensures timers != [] && timers[0].when > 0 ==> AlarmFor(alarm, timers[0].when, clock)
      ensures heap == AfterReset(old(heap), Addresses(expired), canceling, now)
    {
      hide Sorted, NoneAfterCancel, Barred, Numbered, Keyed, SameTimers, Placed;
      ghost var heap0 := heap;
      BatchLive(heap, timers, pending, expired);
      assert expired[0..] == expired;
      for i := 0 to |expired|
        invariant Core() && WillCover(timers, alarm) && batch == Addresses(expired[i..])
        invariant heap == AfterReset(heap0, Addresses(expired[..i]), canceling, now)
        invariant forall j :: i <= j < |expired| ==> expired[j].timer in heap0
      {
        var a := expired[i].timer;
        ResetNext(heap0, expired, i, canceling, now);
        ResetOne(a, now);
      }
      assert expired[..|expired|] == expired;
      SetAlarm(clock);
    }

    /** The alarm for the earliest timer, if its time is valid. */
    method SetAlarm(clock: int)
      requires Keyed(heap, timers) && WillCover(timers, alarm)
      modifies `alarm
      ensures Covered(timers, alarm)
      ensures timers != [] && timers[0].when > 0 ==> AlarmFor(alarm, timers[0].when, clock)
    {
      var nextExpire := 0;
      if timers != [] {
        nextExpire := heap[timers[0].timer].expiration;
      }
      if nextExpire > 0 {
        ResetTimerfd(nextExpire, clock);
      }
    }

    /** Something happens while callbacks run; an address in use is never handed out. */
    method Perform(act: Act)
      requires Valid() && calling
      modifies `timers, `active, `heap, `created, `alarm, `canceling, `pending, `log
      ensures Valid() && old(canceling) <= canceling
      ensures forall a :: a in batch ==> a in heap && a in old(heap) && heap[a] == old(heap)[a]
      ensures log == old(log) || (act.Cancel? && log == old(log) + [Cancelled(act.id)])
      ensures forall id :: id in canceling && id !in old(canceling) && id.timer in batch && Live(heap, id) ==>
        log == old(log) + [Cancelled(id)]
      ensures forall id: TimerId :: id.timer in batch && Live(heap, id) ==>
        (id in canceling <==> id in old(canceling) || act == Cancel(id))
      ensures ActWaits(old(heap), old(active), heap, active, old(created), created, act)
      ensures ActJoins(old(heap), heap, active, old(pending), pending, old(created), created, act)
      ensures NoneElse(old(active), heap, active, [act])
    {
      hide ActWaits, ActJoins, NoneElse, SameTimers, Placed, Numbered, Sorted, NoneAfterCancel, Barred, Covered;
      ghost var heap0, timers0, active0, pending0, created0 := heap, timers, active, pending, created;
      BatchApart(heap, timers, active, pending, batch, created);
      if act.Cancel? {
        CancelInLoop(act.id);
        OtherActs(heap0, timers0, active0, pending0, batch, created0, heap, active, act);
      } else if act.at !in heap && 0 <= act.at < UINTPTR_MAX {
        if act.Add? {
          var _ := AddTimer(act.at, act.when, act.interval, act.clock);
        } else {
          var _ := MakeTimer(act.at, act.when, act.interval);
        }
        MadeActs(heap0, timers0, active0, pending0, batch, created0, heap, timers, active, pending, act);
      } else {
        OtherActs(heap0, timers0, active0, pending0, batch, created0, heap, active, act);
      }
    }

    /** The callbacks of a batch run in order, whatever each of them does; their timers stay live,
        and those noted as cancelled are those cancelled meanwhile. */
    method RunCallbacks(expired: seq<Entry>, calls: seq<seq<Act>>) returns (ran: seq<TimerId>)
      requires Valid() && calling && batch == Addresses(expired) && canceling == {}
      modifies `timers, `active, `heap, `created, `alarm, `canceling, `pending, `log
      ensures Valid() && Kept(old(heap), heap, batch) && Since(old(log), log, heap, batch, canceling)
      ensures Tells(canceling, heap, batch, DoneActs(calls, |expired|))
      ensures AllWait(old(heap), old(active), heap, active, created, DoneActs(calls, |expired|))
      ensures AllJoin(old(heap), old(created), heap, active, pending, created, DoneActs(calls, |expired|))
      ensures NoneElse(old(active), heap, active, DoneActs(calls, |expired|))
      ensures
        && |ran| == |expired|
        && forall i :: 0 <= i < |ran| ==> ran[i].timer == expired[i].timer && Live(heap, ran[i])
    {
      hide Sorted, NoneAfterCancel, Barred, Numbered, Keyed, SameTimers, Covered, WillCover, AllJoin, OnlyMade,
        NoneElse;
      ran := [];
      assert NoneElse(active, heap, active, []) by { NoneElseNone(heap, active); }
      WaitNone(heap, timers, active, created);
      JoinNone(heap, active, pending, created);
      for i := 0 to |expired|
        invariant AllWait(old(heap), old(active), heap, active, created, DoneActs(calls, i))
        invariant AllJoin(old(heap), old(created), heap, active, pending, created, DoneActs(calls, i))
        invariant OnlyMade(old(heap), heap, DoneActs(calls, i)) && old(created) <= created
        invariant NoneElse(old(active), heap, active, DoneActs(calls, i))
        invariant Valid() && Kept(old(heap), heap, batch) && Noted(old(log), log, heap, batch, canceling)
        invariant Tells(canceling, heap, batch, DoneActs(calls, i))
        invariant |ran| == i && forall k :: 0 <= k < i ==> ran[k].timer == expired[k].timer && Live(heap, ran[k])
      {
        assert expired[i] in expired && expired[i].timer in batch;
        ran := ran + [TimerId(expired[i].timer, heap[expired[i].timer].sequence)];
        assert i >= |calls| ==> DoneActs(calls, i + 1) == DoneActs(calls, i);
        if i < |calls| {
          RunOne(calls[i], old(log), DoneActs(calls, i), old(heap), old(active), old(created));
        }
      }
      NotedSince(old(log), log, heap, batch, canceling, created);
    }

    /** One callback. */
    method RunOne(acts: seq<Act>, ghost log0: seq<Event>, ghost before: seq<Act>, ghost heap0: map<int, Timer>,
        ghost active0: set<TimerId>, ghost created0: int)
      requires Valid() && calling && Noted(log0, log, heap, batch, canceling) && Tells(canceling, heap, batch, before)
      requires AllWait(heap0, active0, heap, active, created, before)
      requires AllJoin(heap0, created0, heap, active, pending, created, before) && OnlyMade(heap0, heap, before)
      requires created0 <= created && NoneElse(active0, heap, active, before)
      modifies `timers, `active, `heap, `created, `alarm, `canceling, `pending, `log
      ensures Valid() && Kept(old(heap), heap, batch) && Noted(log0, log, heap, batch, canceling)
      ensures Tells(canceling, heap, batch, before + acts)
      ensures AllWait(heap0, active0, heap, active, created, before + acts)
      ensures AllJoin(heap0, created0, heap, active, pending, created, before + acts)
      ensures OnlyMade(heap0, heap, before + acts)
      ensures created0 <= created && NoneElse(active0, heap, active, before + acts)
    {
      hide Sorted, NoneAfterCancel, Barred, Numbered, Keyed, SameTimers, Placed, Covered, WillCover, AllJoin, OnlyMade,
        ActJoins, NoneElse;
      assert Kept(heap, heap, batch) by { BatchKept(heap, timers, pending, batch); }
      assert before + acts[..0] == before;
      for j := 0 to |acts|
        invariant Valid() && Kept(old(heap), heap, batch) && Noted(log0, log, heap, batch, canceling)
        invariant Tells(canceling, heap, batch, before + acts[..j])
        invariant AllWait(heap0, active0, heap, active, created, before + acts[..j])
        invariant AllJoin(heap0, created0, heap, active, pending, created, before + acts[..j])
        invariant OnlyMade(heap0, heap, before + acts[..j]) && created0 <= created
        invariant NoneElse(active0, heap, active, before + acts[..j])
      {
        ghost var heap1, log1, canceling1 := heap, log, canceling;
        ghost var active1, pending1, created1 := active, pending, created;
        Perform(acts[j]);
        NotedNext(log0, log1, log, heap1, heap, batch, canceling1, canceling);
        TellsNext(canceling1, canceling, heap1, heap, batch, before + acts[..j], acts[j]);
        WaitNext(heap0, active0, heap1, active1, heap, active, created1, created, before + acts[..j], acts[j]);
        BatchApart(heap, timers, active, pending, batch, created);
        NoneElseNext(active0, heap1, active1, heap, active, created1, created, before + acts[..j], acts[j]);
        JoinNext(heap0, created0, heap1, active1, pending1, created1, heap, active, pending, created,
          before + acts[..j], acts[j]);
        assert before + acts[..j] + [acts[j]] == before + acts[..j + 1];
      }
      assert acts[..|acts|] == acts;
    }

    /** The loop wakes up: exactly the timers due run, earliest first.  A timer one of these callbacks
        cancels still runs in this batch; afterwards those that repeat and were not cancelled are
        queued again, and the others are gone.  Timers that were not due wait on as they were,
        except those some callback cancels, which are gone.  Timers the callbacks add are queued for
        their times, except those a later act cancels. */
    method HandleRead(now: int, calls: seq<seq<Act>>, clock: int) returns (ran: seq<TimerId>)
      requires Valid() && !calling && now > 0
      modifies this
      ensures Valid() && !calling
      ensures RanDue(old(heap), old(active), ran, now)
      ensures old(log) + [Batch(now, Members(ran))] <= log
      ensures forall id :: id in ran ==> Settled(old(heap), heap, active, id, Cancel(id) in DoneActs(calls, |ran|), now)
      ensures forall id :: id in ran ==>
        (Cancelled(id) in log[|old(log)| + 1..] <==> Cancel(id) in DoneActs(calls, |ran|))
      ensures forall id :: id in old(active) && id !in ran ==>
        Waits(old(heap), heap, active, created, id, Cancel(id) in DoneActs(calls, |ran|))
      ensures AllJoin(old(heap), old(created), heap, active, pending, created, DoneActs(calls, |ran|))
      ensures NoneElse(old(active), heap, active, DoneActs(calls, |ran|))
      ensures timers != [] && timers[0].when > 0 ==> AlarmFor(alarm, timers[0].when, clock)
    {
      hide Sorted, LowerBound, NoneAfterCancel, Barred, Numbered, Keyed, SameTimers, Placed, Apart, AfterReset, Kept,
        RanDue, Settled, Waits, AllWait, AllJoin, NoneElse;
      ReadTimerfd();
      ghost var heap0, timers0, active0, log0 := heap, timers, active, log;
      var expired := GetExpired(now);
      calling := true;
      canceling := {};
      ghost var log1, active1, created0 := log, active, created;
      BatchInHeap(heap, timers, pending, batch);
      ran := RunCallbacks(expired, calls);
      calling := false;
      ghost var heap1, timers1, active2 := heap, timers, active;
      DueInOrder(heap0, timers0, active0, expired, heap1, ran, now);
      Reset(expired, now, clock);
      forall id | id in ran
        ensures Settled(heap0, heap, active, id, Cancel(id) in DoneActs(calls, |ran|), now)
        ensures Cancelled(id) in log[|log0| + 1..] <==> Cancel(id) in DoneActs(calls, |ran|)
      {
        assert id.timer in Addresses(expired) && Live(heap1, id);
        AllSettled(heap0, heap1, heap, timers, active, timers1, pending, Addresses(expired), canceling, id, now);
      }
      WaitReset(heap0, active1, heap1, timers1, active2, heap, timers, active, pending, Addresses(expired), canceling,
        created, DoneActs(calls, |ran|), now);
      NotInBatch(heap0, timers0, active0, expired, active1);
      BatchIds(heap0, timers0, active0, expired, heap1);
      NoneElseReset(active0, active1, heap1, timers1, active2, heap, timers, active, pending, Addresses(expired),
        canceling, DoneActs(calls, |ran|), now);
      JoinReset(heap0, created0, heap1, timers1, active2, heap, timers, active, pending, Addresses(expired), canceling,
        created, DoneActs(calls, |ran|), now);
    }
  }

  /** A cancellation that reaches the loop before the insertion it is meant for is lost. */
  method CancelledTooEarly() returns (id: TimerId, ran: seq<TimerId>)
    ensures id in ran
  {
    var q := new TimerQueue();
    id := q.MakeTimer(1, 10, 0.0);
    q.CancelInLoop(id);
    q.AddTimerInLoop(1, 5);
    ran := q.HandleRead(20, [], 20);
  }

  /** A timer cancelled by an earlier callback of its batch still runs in that batch, and never again. */
  method CancelledTooLate() returns (id: TimerId, ran: seq<TimerId>, later: seq<TimerId>)
    ensures id in ran && id !in later
  {
    var q := new TimerQueue();
    var _ := q.AddTimer(1, 10, 0.0, 5);
    id := q.AddTimer(2, 11, 1.0, 5);
    ran := q.HandleRead(20, [[Cancel(id)]], 20);
    CancelledFirst([Cancel(id)], [[Cancel(id)]], |ran|);
    later := q.HandleRead(2000000, [], 2000000);
  }

  /** A timer added by a callback runs when it is due. */
  method AddedRuns() returns (ran: seq<TimerId>)
    ensures exists id :: id in ran && id.timer == 2
  {
    var q := new TimerQueue();
    var id := q.AddTimer(1, 10, 0.0, 5);
    var act := Add(2, 30, 0.0, 20);
    ghost var heap0, created0 := q.heap, q.created;
    assert id in q.active && heap0.Keys == {1};
    var first := q.HandleRead(20, [[act]], 20);
    CancelledFirst([act], [[act]], |first|);
    assert Adds(heap0, [act], 0);
    ghost var s :| Joins(created0, q.heap, q.active, q.pending, q.created, act, s, Cancel(TimerId(2, s)) in [act][1..]);
    assert [act][1..] == [] && TimerId(2, s) in q.active;
    ran := q.HandleRead(40, [], 40);
  }

  lemma {:induction false} CancelledFirst(acts: seq<Act>, calls: seq<seq<Act>>, n: nat)
    requires calls == [acts] && n > 0
    ensures DoneActs(calls, n) == acts
  {
    if n > 1 {
      CancelledFirst(acts, calls, n - 1);
    }
  }

  lemma IdsNext(es: seq<Entry>, i: nat, heap: map<int, Timer>)
    requires i < |es| && es[i].timer in heap
    ensures Ids(es[..i + 1], heap) == Ids(es[..i], heap) + {TimerId(es[i].timer, heap[es[i].timer].sequence)}
  {
    assert es[..i + 1] == es[..i] + [es[i]];
  }
}
