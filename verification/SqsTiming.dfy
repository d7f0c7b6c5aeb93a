/** When messages are released: exactly when a reset finds their time past, and never before. */
module SqsTiming {
  import opened SqsModel
  import opened SqsHistory
  import opened SqsTheorems

  /**
   What the history says about status and reset time. A message created delayed keeps its reset time while it is
   delayed, and is released only when that has passed; a message that was handed out keeps the end of its window while
   it is invisible.
   */
  predicate Timed(h: seq<Entry>, m: Message, now: int)
    requires h != [] && h[0].Created?
  {
    && (m.status.DELAYED? ==> LastReceive(h) < 0 && h[0].message.status.DELAYED? && m.reset == h[0].message.reset)
    && (h[0].message.status.DELAYED? && !m.status.DELAYED? ==> h[0].message.reset < now)
    && (LastReceive(h) >= 0 && m.status.INVISIBLE? ==> IsWindow(h, LastReceive(h), m.reset))
  }

  predicate IsWindow(h: seq<Entry>, i: int, until: int) {
    0 <= i < |h| && h[i].Received? && h[i].until == until
  }

  /** No delayed message was handed out up to its reset time. */
  predicate Withheld(h: seq<Entry>)
    requires h != [] && h[0].Created?
  {
    h[0].message.status.DELAYED? ==>
      forall i :: 0 <= i < |h| && h[i].Received? ==> h[0].message.reset < h[i].at
  }

  predicate IsTimed(w: World, k: string)
    requires k in w.history
  {
    && w.history[k] != [] && w.history[k][0].Created? && Withheld(w.history[k])
    && (k in w.store ==> Timed(w.history[k], w.store[k], w.now))
  }

  predicate AllTimed(w: World) {
    w.store.Keys <= w.history.Keys && forall k :: k in w.history ==> IsTimed(w, k)
  }

  // ---- one message, one entry ----

  lemma CreatedIsTimed(m: Message, k: string, now: int)
    ensures Withheld([Created(m)]) && Timed([Created(m)], m.(oid := k), now)
  {
    AppendEntry([], Created(m));
    assert [] + [Created(m)] == [Created(m)];
  }

  lemma ReceivedIsTimed(h: seq<Entry>, m: Message, now: int, queueUrl: string, handle: string, at: int, until: int,
                        now': int)
    requires h != [] && h[0].Created? && Withheld(h) && Timed(h, m, now)
    requires m.status.INITIAL? && now <= at <= now'
    ensures var h' := h + [Received(queueUrl, handle, at, until)];
            h'[0].Created? && Withheld(h') && Timed(h', Delivered(m, handle, until), now')
  {
    AppendEntry(h, Received(queueUrl, handle, at, until));
  }

  lemma LaterIsTimed(h: seq<Entry>, x: Entry)
    requires h != [] && h[0].Created? && Withheld(h) && (x.Redriven? || x.Removed?)
    ensures (h + [x])[0].Created? && Withheld(h + [x])
    ensures forall m, now :: Timed(h, m, now) && !m.status.INVISIBLE? ==> Timed(h + [x], m, now)
  {
    AppendEntry(h, x);
  }

  // ---- one step ----

  lemma TimedAfterReceive(w: World, e: Event, k: string)
    requires Enabled(w, e) && k in w.history && IsTimed(w, k) && e.step.Receive?
    ensures IsTimed(Apply(w, e), k)
  {
    var Receive(region, queueUrl, visibility, maxMessages, queued, at, issued) := e.step;
    var h := w.history[k];
    if k in w.store && k in Taken(w.store, region, queueUrl, maxMessages, queued) {
      ReceivedIsTimed(h, w.store[k], w.now, queueUrl, issued[k], at, at + visibility, e.finish);
    } else {
      assert h + [] == h;
    }
  }

  lemma TimedAfterReset(w: World, e: Event, k: string)
    requires Enabled(w, e) && k in w.history && IsTimed(w, k) && (e.step.Reset? || e.step.ResetDelayed?)
    ensures IsTimed(Apply(w, e), k)
  {
    assert w.history[k] + [] == w.history[k];
  }

  lemma TimedAfterOther(w: World, e: Event, k: string)
    requires Enabled(w, e) && k in w.history && IsTimed(w, k) && (e.step.Create? ==> k != e.step.oid)
    requires !e.step.Receive? && !e.step.Reset? && !e.step.ResetDelayed?
    ensures IsTimed(Apply(w, e), k)
  {
    var h, news := w.history[k], News(w, e, k);
    assert Apply(w, e).history[k] == h + news;
    if news == [] {
      assert h + news == h;
    } else {
      assert news == [news[0]];
      LaterIsTimed(h, news[0]);
    }
  }

  lemma StepKeepsTimed(w: World, e: Event)
    requires Enabled(w, e) && AllTimed(w)
    ensures AllTimed(Apply(w, e))
  {
    var w' := Apply(w, e);
    forall k | k in w'.history ensures IsTimed(w', k) {
      if e.step.Create? && k == e.step.oid {
        CreatedIsTimed(e.step.message, k, w'.now);
      } else if e.step.Receive? {
        TimedAfterReceive(w, e, k);
      } else if e.step.Reset? || e.step.ResetDelayed? {
        TimedAfterReset(w, e, k);
      } else {
        TimedAfterOther(w, e, k);
      }
    }
  }

  lemma {:induction false} RunKeepsTimed(w: World, es: seq<Event>)
    requires AllTimed(w) && Legal(w, es)
    ensures AllTimed(Run(w, es))
    decreases |es|
  {
    if es != [] {
      StepKeepsTimed(w, es[0]);
      RunKeepsTimed(Apply(w, es[0]), es[1..]);
    }
  }

  // ---- what holds over every run ----

  /** A message created delayed is handed out only after its reset time. */
  lemma DelayIsKept(es: seq<Event>, w: World, k: string, i: nat)
    requires Reaches(es, w) && k in w.history && 0 < i < |w.history[k]| && w.history[k][i].Received?
    ensures w.history[k][0].Created?
    ensures w.history[k][0].message.status.DELAYED? ==> w.history[k][0].message.reset < w.history[k][i].at
  {
    RunKeepsTimed(EMPTY_WORLD, es);
    assert IsTimed(w, k);
  }

  /** A delayed message becomes initial exactly when its queue is reset after the reset time it was created with. */
  lemma DelayEndsExactly(es: seq<Event>, w: World, e: Event, k: string)
    requires Reaches(es, w) && Enabled(w, e) && e.step.ResetDelayed? && k in w.store && w.store[k].status == DELAYED
    ensures k in w.history && w.history[k] != [] && w.history[k][0].Created? && k in Apply(w, e).store
    ensures Apply(w, e).store[k].status
         == if w.store[k].queueUrl == e.step.queueUrl && e.step.clock[k] > w.history[k][0].message.reset
            then INITIAL else DELAYED
    ensures Apply(w, e).store[k] == w.store[k].(status := Apply(w, e).store[k].status)
  {
    RunKeepsTimed(EMPTY_WORLD, es);
    assert IsTimed(w, k);
  }

  /** A message in flight becomes initial again exactly when its queue is reset after the end of its window. */
  lemma WindowEndsExactly(es: seq<Event>, w: World, e: Event, k: string)
    requires Reaches(es, w) && Enabled(w, e) && e.step.Reset? && k in w.store && k in w.history
    requires LastReceive(w.history[k]) >= 0 && w.store[k].status == INVISIBLE
    ensures var i := LastReceive(w.history[k]);
            && i < |w.history[k]| && w.history[k][i].Received? && k in Apply(w, e).store
            && Apply(w, e).store[k]
               == if w.store[k].queueUrl == e.step.queueUrl && e.step.clock[k] > w.history[k][i].until
                  then w.store[k].(status := INITIAL, receiptHandle := "") else w.store[k]
  {
    RunKeepsTimed(EMPTY_WORLD, es);
    assert IsTimed(w, k);
  }

  /** A reset touches nothing but messages that are invisible, and a delayed reset nothing but delayed ones. */
  lemma ResetsLeaveOthers(w: World, e: Event, k: string)
    requires Enabled(w, e) && k in w.store
    ensures e.step.Reset? && w.store[k].status != INVISIBLE ==>
              k in Apply(w, e).store && Apply(w, e).store[k] == w.store[k]
    ensures e.step.ResetDelayed? && w.store[k].status != DELAYED ==>
              k in Apply(w, e).store && Apply(w, e).store[k] == w.store[k]
  {
  }

  /**
   A redrive of the queue adds to the history of a message exactly if that is initial on the queue with more than
   `maxReceiveCount` receives since its creation or its last redrive, and moves exactly those, with a fresh counter.
   */
  lemma RedriveIsExact(es: seq<Event>, w: World, e: Event, k: string)
    requires Reaches(es, w) && Enabled(w, e) && e.step.Redrive? && k in w.store
    ensures k in w.history && k in Apply(w, e).store && k in Apply(w, e).history
    ensures var m := w.store[k];
            var exhausted := && m.queueUrl == e.step.queueUrl && m.status == INITIAL
                             && Attempts(w.history[k]) > e.step.maxReceiveCount;
            && Apply(w, e).history[k] == (if exhausted then w.history[k] + [Redriven] else w.history[k])
            && Apply(w, e).store[k] == (if exhausted then m.(queueUrl := e.step.dlqUrl, retries := 0) else m)
  {
    RetriesCountReceives(es, w, k);
    assert w.history[k] + [] == w.history[k];
  }
}
