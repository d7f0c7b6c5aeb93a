/**
 Whole runs of the message store: a sequence of locked steps under a clock that never goes back, with the
 history of every message ever created kept beside the store. `UpdateMessage` is not a step of these runs.
 */
module SqsHistory {
  import opened SqsModel
  import opened Wrappers

  /** What happened to one message. */
  datatype Entry =
    | Created(message: Message)
    | Received(queueUrl: string, handle: string, at: int, until: int)
    | Redriven
    | Removed

  /** The store, the history of every oid ever created, the receipt handles in use so far, and the time. */
  datatype World = World(store: Store, history: map<string, seq<Entry>>, handles: set<string>, now: int)

  datatype Step =
    | Create(oid: string, message: Message)
    | Receive(region: string, queueUrl: string, visibility: int, maxMessages: int, queued: nat, at: int, issued: Handles)
    | Reset(queueUrl: string, clock: Clock)
    | ResetDelayed(queueUrl: string, clock: Clock)
    | Redrive(queueUrl: string, maxReceiveCount: int, dlqUrl: string)
    | Delete(handle: string)
    | DeleteQueue(queueUrl: string)
    | Purge(region: string, queueUrl: string)
    | DeleteAll

  /** A step together with the time at which it releases the lock. */
  datatype Event = Event(step: Step, finish: int)

  const EMPTY_WORLD := World(map[], map[], {}, 0)

  ghost predicate ReadsClock(w: World, clock: Clock, finish: int) {
    w.store.Keys <= clock.Keys && forall k :: k in w.store ==> w.now <= clock[k] <= finish
  }

  predicate Clash(issued: Handles, k: string, k': string) {
    k in issued && k' in issued && k != k' && issued[k] == issued[k']
  }

  /** The assumptions on the environment: the clock does not go back, new oids and receipt handles are fresh. */
  ghost predicate Enabled(w: World, e: Event) {
    && w.now <= e.finish
    && match e.step
       case Create(oid, message) =>
         oid !in w.history && (message.receiptHandle == "" || message.receiptHandle !in w.handles)
       case Receive(region, queueUrl, visibility, maxMessages, queued, at, issued) =>
         && w.now <= at <= e.finish && w.store.Keys <= issued.Keys
         && (forall k :: k in w.store ==> issued[k] != "" && issued[k] !in w.handles)
         && (forall k, k' {:trigger Clash(issued, k, k')} :: k in w.store && k' in w.store ==> !Clash(issued, k, k'))
       case Reset(queueUrl, clock) => ReadsClock(w, clock, e.finish)
       case ResetDelayed(queueUrl, clock) => ReadsClock(w, clock, e.finish)
       case _ => true
  }

  /** The keys that a step removes. */
  function Gone(s: Store, step: Step): set<string> {
    match step
    case Delete(handle) => Holders(s, handle)
    case DeleteQueue(queueUrl) => OnQueue(s, queueUrl)
    case Purge(region, queueUrl) => OnRegionQueue(s, region, queueUrl)
    case DeleteAll => s.Keys
    case _ => {}
  }

  ghost function StoreAfter(w: World, e: Event): Store
    requires Enabled(w, e)
  {
    match e.step
    case Create(oid, message) => AfterCreate(w.store, oid, message)
    case Receive(region, queueUrl, visibility, maxMessages, queued, at, issued) =>
      AfterReceive(w.store, region, queueUrl, maxMessages, queued, at + visibility, issued)
    case Reset(queueUrl, clock) => AfterReset(w.store, queueUrl, clock)
    case ResetDelayed(queueUrl, clock) => AfterResetDelayed(w.store, queueUrl, clock)
    case Redrive(queueUrl, maxReceiveCount, dlqUrl) => AfterRedrive(w.store, queueUrl, maxReceiveCount, dlqUrl)
    case _ => AfterErase(w.store, Gone(w.store, e.step))
  }

  /** What a step adds to the history of a message that already has one. */
  ghost function News(w: World, e: Event, k: string): seq<Entry>
    requires Enabled(w, e) && k in w.history
  {
    if k !in w.store then []
    else
      match e.step
      case Receive(region, queueUrl, visibility, maxMessages, queued, at, issued) =>
        if k !in Taken(w.store, region, queueUrl, maxMessages, queued) then []
        else [Received(queueUrl, issued[k], at, at + visibility)]
      case Redrive(queueUrl, maxReceiveCount, dlqUrl) =>
        if IsExhausted(w.store[k], queueUrl, maxReceiveCount) then [Redriven] else []
      case _ => if k in Gone(w.store, e.step) then [Removed] else []
  }

  ghost function HistoryAfter(w: World, e: Event): map<string, seq<Entry>>
    requires Enabled(w, e)
  {
    var kept := map k | k in w.history :: w.history[k] + News(w, e, k);
    if e.step.Create? then kept[e.step.oid := [Created(e.step.message)]] else kept
  }

  ghost function HandlesAfter(w: World, e: Event): set<string>
    requires Enabled(w, e)
  {
    match e.step
    case Create(oid, message) => w.handles + {message.receiptHandle}
    case Receive(_, _, _, _, _, _, issued) => w.handles + issued.Values
    case _ => w.handles
  }

  ghost function Apply(w: World, e: Event): World
    requires Enabled(w, e)
  {
    World(StoreAfter(w, e), HistoryAfter(w, e), HandlesAfter(w, e), e.finish)
  }

  ghost predicate Legal(w: World, es: seq<Event>)
    decreases |es|
  {
    es == [] || (Enabled(w, es[0]) && Legal(Apply(w, es[0]), es[1..]))
  }

  ghost function Run(w: World, es: seq<Event>): World
    requires Legal(w, es)
    decreases |es|
  {
    if es == [] then w else Run(Apply(w, es[0]), es[1..])
  }

  // ---- reading a history ----

  /** Receives since creation or since the last redrive, on top of the counter the message was created with. */
  function Attempts(h: seq<Entry>): int {
    if h == [] then 0
    else
      match h[|h| - 1]
      case Created(m) => m.retries
      case Received(_, _, _, _) => Attempts(h[..|h| - 1]) + 1
      case Redriven => 0
      case Removed => Attempts(h[..|h| - 1])
  }

  /** The index of the last receive, or -1. */
  function LastReceive(h: seq<Entry>): int {
    if h == [] then -1
    else if h[|h| - 1].Received? then |h| - 1
    else LastReceive(h[..|h| - 1])
  }

  predicate IsRemoved(h: seq<Entry>) {
    h != [] && h[|h| - 1].Removed?
  }

  lemma AppendEntry(h: seq<Entry>, x: Entry)
    ensures Attempts(h + [x]) == match x
                                 case Created(m) => m.retries
                                 case Received(_, _, _, _) => Attempts(h) + 1
                                 case Redriven => 0
                                 case Removed => Attempts(h)
    ensures LastReceive(h + [x]) == if x.Received? then |h| else LastReceive(h)
  {
    assert (h + [x])[..|h|] == h;
  }

  // ---- the invariant ----

  /** A history starts with the creation and ends with the removal, if there is one. */
  predicate WellFormed(h: seq<Entry>) {
    && h != [] && h[0].Created?
    && (forall i :: 0 < i < |h| ==> !h[i].Created?)
    && (forall i :: 0 <= i < |h| - 1 ==> !h[i].Removed?)
  }

  /** No receive falls into the visibility window of an earlier one. */
  predicate Exclusive(h: seq<Entry>) {
    forall i, j :: 0 <= i < j < |h| && h[i].Received? && h[j].Received? ==> h[i].until < h[j].at
  }

  /** Every window is over, or the message is still invisible for at least as long. */
  predicate Guarded(h: seq<Entry>, m: Message, now: int) {
    forall i :: 0 <= i < |h| && h[i].Received? ==> h[i].until < now || (m.status.INVISIBLE? && h[i].until <= m.reset)
  }

  predicate HandlesKnown(h: seq<Entry>, handles: set<string>) {
    forall i :: 0 <= i < |h| && h[i].Received? ==> h[i].handle != "" && h[i].handle in handles
  }

  /** What the store says about a message agrees with its history. */
  predicate Agrees(k: string, h: seq<Entry>, m: Message) {
    && m.oid == k
    && h != [] && h[0].Created? && m.region == h[0].message.region && m.body == h[0].message.body
    && m.retries == Attempts(h)
    && (m.status.INVISIBLE? && LastReceive(h) >= 0 ==>
          var i := LastReceive(h); i < |h| && h[i].Received? && m.receiptHandle == h[i].handle)
  }

  function Lookup(s: Store, k: string): Option<Message> {
    if k in s then Some(s[k]) else None
  }

  predicate MessageSafe(k: string, h: seq<Entry>, stored: Option<Message>, handles: set<string>, now: int) {
    && WellFormed(h) && Exclusive(h) && HandlesKnown(h, handles)
    && match stored
       case None => h[|h| - 1].Removed?
       case Some(m) =>
         && !h[|h| - 1].Removed? && Agrees(k, h, m) && Guarded(h, m, now)
         && (m.receiptHandle == "" || m.receiptHandle in handles)
  }

  predicate KeySafe(w: World, k: string)
    requires k in w.history
  {
    MessageSafe(k, w.history[k], Lookup(w.store, k), w.handles, w.now)
  }

  /** No two stored messages share a non-empty receipt handle. */
  predicate HandlesDistinct(s: Store) {
    forall k, k' :: k in s && k' in s && k != k' && s[k].receiptHandle != "" ==> s[k].receiptHandle != s[k'].receiptHandle
  }

  /** An issued handle is held by nobody but its own message, and only as its latest handle while invisible. */
  predicate HandlesOwned(w: World) {
    forall k, i, k' :: k in w.history && 0 <= i < |w.history[k]| && w.history[k][i].Received?
                       && k' in w.store && w.store[k'].receiptHandle == w.history[k][i].handle ==>
      k' == k && w.store[k].status.INVISIBLE? && i == LastReceive(w.history[k])
  }

  predicate Safe(w: World) {
    && w.store.Keys <= w.history.Keys
    && (forall k :: k in w.history ==> KeySafe(w, k))
    && HandlesDistinct(w.store)
    && HandlesOwned(w)
  }

  // ---- every step keeps it: one message at a time ----

  lemma IdleKeeps(k: string, h: seq<Entry>, stored: Option<Message>, handles: set<string>, now: int,
                  handles': set<string>, now': int)
    requires MessageSafe(k, h, stored, handles, now) && handles <= handles' && now <= now'
    ensures MessageSafe(k, h, stored, handles', now')
  {}

  lemma CreateKeeps(k: string, m: Message, handles: set<string>, now: int)
    requires m.receiptHandle in handles
    ensures MessageSafe(k, [Created(m)], Some(m.(oid := k)), handles, now)
  {
    AppendEntry([], Created(m));
    assert [] + [Created(m)] == [Created(m)];
  }

  lemma ReceiveKeeps(k: string, h: seq<Entry>, m: Message, handles: set<string>, now: int,
                     queueUrl: string, handle: string, at: int, until: int, handles': set<string>, now': int)
    requires MessageSafe(k, h, Some(m), handles, now) && m.status.INITIAL? && now <= at <= now'
    requires handle != "" && handle in handles' && handles <= handles'
    ensures MessageSafe(k, h + [Received(queueUrl, handle, at, until)], Some(Delivered(m, handle, until)), handles', now')
  {
    AppendEntry(h, Received(queueUrl, handle, at, until));
  }

  lemma ResetKeeps(k: string, h: seq<Entry>, m: Message, handles: set<string>, now: int, reading: int, now': int)
    requires MessageSafe(k, h, Some(m), handles, now)
    requires m.status.INVISIBLE? && m.reset < reading && now <= reading <= now'
    ensures MessageSafe(k, h, Some(m.(status := INITIAL, receiptHandle := "")), handles, now')
  {}

  lemma ReleaseKeeps(k: string, h: seq<Entry>, m: Message, handles: set<string>, now: int, now': int)
    requires MessageSafe(k, h, Some(m), handles, now) && m.status.DELAYED? && now <= now'
    ensures MessageSafe(k, h, Some(m.(status := INITIAL)), handles, now')
  {}

  lemma RedriveKeeps(k: string, h: seq<Entry>, m: Message, handles: set<string>, now: int, dlqUrl: string, now': int)
    requires MessageSafe(k, h, Some(m), handles, now) && m.status.INITIAL? && now <= now'
    ensures MessageSafe(k, h + [Redriven], Some(m.(retries := 0, queueUrl := dlqUrl)), handles, now')
  {
    AppendEntry(h, Redriven);
  }

  lemma RemoveKeeps(k: string, h: seq<Entry>, m: Message, handles: set<string>, now: int)
    requires MessageSafe(k, h, Some(m), handles, now)
    ensures MessageSafe(k, h + [Removed], None, handles, now)
  {}

  lemma KeyStaysSafe(w: World, e: Event, k: string)
    requires Enabled(w, e) && k in w.history && KeySafe(w, k)
    requires e.step.Create? ==> k != e.step.oid
    ensures KeySafe(Apply(w, e), k)
  {
    var w' := Apply(w, e);
    var h := w.history[k];
    if k !in w.store {
      assert h + [] == h;
      IdleKeeps(k, h, None, w.handles, w.now, w'.handles, w'.now);
    } else if e.step.Receive? {
      KeySafeAfterReceive(w, e, k);
    } else if e.step.Reset? || e.step.ResetDelayed? || e.step.Redrive? {
      KeySafeAfterMaintenance(w, e, k);
    } else {
      KeySafeAfterOther(w, e, k);
    }
  }

  lemma DeliveryKeeps(w: World, k: string, ks: seq<string>, queueUrl: string, issued: Handles, at: int, until: int,
                      handles': set<string>, now': int)
    requires k in w.history && k in w.store && KeySafe(w, k) && w.now <= at <= now'
    requires k in ks ==> w.store[k].status.INITIAL?
    requires w.store.Keys <= issued.Keys && issued[k] != "" && issued[k] in handles' && w.handles <= handles'
    ensures MessageSafe(k, w.history[k] + if k in ks then [Received(queueUrl, issued[k], at, until)] else [],
                        Lookup(Deliver(w.store, ks, until, issued), k), handles', now')
  {
    var h, m := w.history[k], w.store[k];
    if k in ks {
      ReceiveKeeps(k, h, m, w.handles, w.now, queueUrl, issued[k], at, until, handles', now');
    } else {
      assert h + [] == h;
      IdleKeeps(k, h, Some(m), w.handles, w.now, handles', now');
    }
  }

  lemma KeySafeAfterReceive(w: World, e: Event, k: string)
    requires Enabled(w, e) && k in w.history && k in w.store && KeySafe(w, k) && e.step.Receive?
    ensures KeySafe(Apply(w, e), k)
  {
    var Receive(region, queueUrl, visibility, maxMessages, queued, at, issued) := e.step;
    var w', ks := Apply(w, e), Taken(w.store, region, queueUrl, maxMessages, queued);
    assert Lookup(w'.store, k) == Lookup(Deliver(w.store, ks, at + visibility, issued), k);
    assert w'.history[k] == w.history[k] + if k in ks then [Received(queueUrl, issued[k], at, at + visibility)] else [];
    DeliveryKeeps(w, k, ks, queueUrl, issued, at, at + visibility, w'.handles, w'.now);
  }

  lemma KeySafeAfterMaintenance(w: World, e: Event, k: string)
    requires Enabled(w, e) && k in w.history && k in w.store && KeySafe(w, k)
    requires e.step.Reset? || e.step.ResetDelayed? || e.step.Redrive?
    ensures KeySafe(Apply(w, e), k)
  {
    var h, m, now, now' := w.history[k], w.store[k], w.now, e.finish;
    assert h + [] == h;
    IdleKeeps(k, h, Some(m), w.handles, now, w.handles, now');
    match e.step
    case Reset(queueUrl, clock) =>
      if IsExpired(m, queueUrl, clock[k]) {
        ResetKeeps(k, h, m, w.handles, now, clock[k], now');
      }
    case ResetDelayed(queueUrl, clock) =>
      if IsDue(m, queueUrl, clock[k]) {
        ReleaseKeeps(k, h, m, w.handles, now, now');
      }
    case Redrive(queueUrl, maxReceiveCount, dlqUrl) =>
      if IsExhausted(m, queueUrl, maxReceiveCount) {
        RedriveKeeps(k, h, m, w.handles, now, dlqUrl, now');
      }
  }

  lemma KeySafeAfterOther(w: World, e: Event, k: string)
    requires Enabled(w, e) && k in w.history && k in w.store && KeySafe(w, k)
    requires !e.step.Receive? && !e.step.Reset? && !e.step.ResetDelayed? && !e.step.Redrive?
    requires e.step.Create? ==> k != e.step.oid
    ensures KeySafe(Apply(w, e), k)
  {
    var w', h, m := Apply(w, e), w.history[k], w.store[k];
    assert h + [] == h;
    if k in Gone(w.store, e.step) {
      RemoveKeeps(k, h, m, w.handles, w.now);
      IdleKeeps(k, h + [Removed], None, w.handles, w.now, w'.handles, w'.now);
    } else {
      IdleKeeps(k, h, Some(m), w.handles, w.now, w'.handles, w'.now);
    }
  }

  // ---- every step keeps it: receipt handles ----

  /** A handle that this step brought into the store. */
  ghost predicate IsNewHandle(w: World, e: Event, k: string, handle: string)
    requires Enabled(w, e)
  {
    match e.step
    case Create(oid, message) => k == oid && handle == message.receiptHandle
    case Receive(region, queueUrl, visibility, maxMessages, queued, at, issued) =>
      k in Taken(w.store, region, queueUrl, maxMessages, queued) && handle == issued[k]
    case _ => false
  }

  /** Where the handle of a stored message comes from. */
  lemma HandleOrigin(w: World, e: Event, k: string)
    requires Enabled(w, e) && k in Apply(w, e).store
    requires k in w.store ==> k in w.history && KeySafe(w, k)
    ensures var m := Apply(w, e).store[k];
            || m.receiptHandle == ""
            || (IsNewHandle(w, e, k, m.receiptHandle) && m.receiptHandle !in w.handles)
            || (&& k in w.store && m.receiptHandle == w.store[k].receiptHandle && m.receiptHandle in w.handles
                && (w.store[k].status.INVISIBLE? ==> m.status.INVISIBLE?))
  {}

  lemma NewHandlesDiffer(w: World, e: Event, k: string, k': string, handle: string)
    requires Enabled(w, e) && IsNewHandle(w, e, k, handle) && IsNewHandle(w, e, k', handle)
    ensures k == k'
  {
    if e.step.Receive? {
      assert !Clash(e.step.issued, k, k');
    }
  }

  lemma HandlesStayDistinct(w: World, e: Event)
    requires Enabled(w, e) && Safe(w)
    ensures HandlesDistinct(Apply(w, e).store)
  {
    var s := Apply(w, e).store;
    forall k, k' | k in s && k' in s && k != k' && s[k].receiptHandle != ""
      ensures s[k].receiptHandle != s[k'].receiptHandle
    {
      HandleOrigin(w, e, k);
      HandleOrigin(w, e, k');
      if IsNewHandle(w, e, k, s[k].receiptHandle) && IsNewHandle(w, e, k', s[k].receiptHandle) {
        NewHandlesDiffer(w, e, k, k', s[k].receiptHandle);
      }
    }
  }

  lemma OldEntry(w: World, e: Event, k: string, i: nat)
    requires Enabled(w, e) && k in w.history && KeySafe(w, k) && (e.step.Create? ==> k != e.step.oid)
    requires i < |w.history[k]| && w.history[k][i].Received?
    ensures var h, h' := w.history[k], Apply(w, e).history[k];
            && i < |h'| && h'[i] == h[i] && h[i].handle in w.handles && h[i].handle != ""
            && (LastReceive(h') == LastReceive(h) || (k in w.store && w.store[k].status.INITIAL?))
  {
    var h, news := w.history[k], News(w, e, k);
    assert Apply(w, e).history[k] == h + news;
    if news == [] {
      assert h + news == h;
    } else {
      assert news == [news[0]];
      AppendEntry(h, news[0]);
    }
  }

  lemma NewEntry(w: World, e: Event, k: string, i: nat)
    requires Enabled(w, e) && k in w.history && (e.step.Create? ==> k != e.step.oid)
    requires |w.history[k]| <= i < |Apply(w, e).history[k]| && Apply(w, e).history[k][i].Received?
    ensures var h' := Apply(w, e).history[k];
            && k in Apply(w, e).store && Apply(w, e).store[k].status.INVISIBLE? && i == LastReceive(h')
            && IsNewHandle(w, e, k, h'[i].handle) && h'[i].handle !in w.handles && h'[i].handle != ""
  {
    var h, news := w.history[k], News(w, e, k);
    assert Apply(w, e).history[k] == h + news;
    assert news == [news[0]];
    AppendEntry(h, news[0]);
  }

  /** An entry of the new history is an old one, or the last one, of a receive that issued a new handle. */
  lemma EntryOrigin(w: World, e: Event, k: string, i: nat)
    requires Enabled(w, e) && w.store.Keys <= w.history.Keys && (k in w.history ==> KeySafe(w, k))
    requires k in Apply(w, e).history && i < |Apply(w, e).history[k]| && Apply(w, e).history[k][i].Received?
    ensures var h := Apply(w, e).history[k];
            || (&& IsNewHandle(w, e, k, h[i].handle) && h[i].handle !in w.handles && h[i].handle != ""
                && Apply(w, e).store[k].status.INVISIBLE? && i == LastReceive(h))
            || (&& k in w.history && i < |w.history[k]| && w.history[k][i] == h[i] && h[i].handle in w.handles
                && h[i].handle != ""
                && (LastReceive(h) == LastReceive(w.history[k]) || (k in w.store && w.store[k].status.INITIAL?)))
  {
    if k in w.history {
      if i < |w.history[k]| {
        OldEntry(w, e, k, i);
      } else {
        NewEntry(w, e, k, i);
      }
    }
  }

  lemma HandlesStayOwned(w: World, e: Event)
    requires Enabled(w, e) && Safe(w)
    ensures HandlesOwned(Apply(w, e))
  {
    var w' := Apply(w, e);
    forall k, i, k' | k in w'.history && 0 <= i < |w'.history[k]| && w'.history[k][i].Received?
                      && k' in w'.store && w'.store[k'].receiptHandle == w'.history[k][i].handle
      ensures k' == k && w'.store[k].status.INVISIBLE? && i == LastReceive(w'.history[k])
    {
      EntryOrigin(w, e, k, i);
      HandleOrigin(w, e, k');
      var handle := w'.history[k][i].handle;
      if handle !in w.handles {
        NewHandlesDiffer(w, e, k, k', handle);
      } else {
        assert w.store[k'].receiptHandle == w.history[k][i].handle;
      }
    }
  }

  lemma StepKeepsSafe(w: World, e: Event)
    requires Enabled(w, e) && Safe(w)
    ensures Safe(Apply(w, e))
  {
    HandlesStayDistinct(w, e);
    HandlesStayOwned(w, e);
    var w' := Apply(w, e);
    forall k | k in w'.history ensures KeySafe(w', k) {
      if e.step.Create? && k == e.step.oid {
        CreateKeeps(k, e.step.message, w'.handles, w'.now);
      } else {
        KeyStaysSafe(w, e, k);
      }
    }
  }

  lemma {:induction false} RunKeepsSafe(w: World, es: seq<Event>)
    requires Safe(w) && Legal(w, es)
    ensures Safe(Run(w, es))
    decreases |es|
  {
    if es != [] {
      StepKeepsSafe(w, es[0]);
      RunKeepsSafe(Apply(w, es[0]), es[1..]);
    }
  }
}
