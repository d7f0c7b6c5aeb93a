/** How often a message can be handed out before it is redriven. */
module SqsDeliveries {
  import opened SqsModel
  import opened SqsHistory
  import opened SqsTheorems

  /** How often a message has been handed out from one queue. */
  function DeliveriesFrom(h: seq<Entry>, queueUrl: string): nat {
    if h == [] then 0
    else
      DeliveriesFrom(h[..|h| - 1], queueUrl)
      + if h[|h| - 1].Received? && h[|h| - 1].queueUrl == queueUrl then 1 else 0
  }

  /** Whenever the message was handed out from the queue, its receives since creation or the last redrive were few. */
  predicate StaysBounded(h: seq<Entry>, queueUrl: string, maxReceiveCount: int) {
    forall i :: 0 <= i < |h| ==> IsBoundedAt(h, i, queueUrl, maxReceiveCount)
  }

  predicate IsBoundedAt(h: seq<Entry>, i: nat, queueUrl: string, maxReceiveCount: int)
    requires i < |h|
  {
    h[i].Received? && h[i].queueUrl == queueUrl ==> Attempts(h[..i + 1]) <= maxReceiveCount + 1
  }

  predicate AllStaysBounded(w: World, queueUrl: string, maxReceiveCount: int) {
    forall k :: k in w.history ==> StaysBounded(w.history[k], queueUrl, maxReceiveCount)
  }

  // ---- the exact guard ----

  /** A receive from the queue finds no message whose retry counter is above the limit. */
  ghost predicate ReadsWithin(w: World, e: Event, queueUrl: string, maxReceiveCount: int) {
    e.step.Receive? && e.step.queueUrl == queueUrl ==>
      forall k :: k in Taken(w.store, e.step.region, queueUrl, e.step.maxMessages, e.step.queued) ==>
        w.store[k].retries <= maxReceiveCount
  }

  /** So does every receive of a run. */
  ghost predicate AlwaysReadsWithin(w: World, es: seq<Event>, queueUrl: string, maxReceiveCount: int)
    requires Legal(w, es)
    decreases |es|
  {
    es == [] ||
    (&& ReadsWithin(w, es[0], queueUrl, maxReceiveCount)
     && AlwaysReadsWithin(Apply(w, es[0]), es[1..], queueUrl, maxReceiveCount))
  }

  lemma StaysGrow(h: seq<Entry>, x: Entry, queueUrl: string, maxReceiveCount: int)
    ensures StaysBounded(h + [x], queueUrl, maxReceiveCount)
       <==> && StaysBounded(h, queueUrl, maxReceiveCount)
            && (x.Received? && x.queueUrl == queueUrl ==> Attempts(h) <= maxReceiveCount)
  {
    var t := h + [x];
    forall i | 0 <= i < |h|
      ensures IsBoundedAt(t, i, queueUrl, maxReceiveCount) <==> IsBoundedAt(h, i, queueUrl, maxReceiveCount)
    {
      BoundedBefore(h, x, i, queueUrl, maxReceiveCount);
    }
    BoundedLast(h, x, queueUrl, maxReceiveCount);
  }

  lemma BoundedBefore(h: seq<Entry>, x: Entry, i: nat, queueUrl: string, maxReceiveCount: int)
    requires i < |h|
    ensures IsBoundedAt(h + [x], i, queueUrl, maxReceiveCount) <==> IsBoundedAt(h, i, queueUrl, maxReceiveCount)
  {
    assert (h + [x])[..i + 1] == h[..i + 1];
  }

  lemma BoundedLast(h: seq<Entry>, x: Entry, queueUrl: string, maxReceiveCount: int)
    ensures IsBoundedAt(h + [x], |h|, queueUrl, maxReceiveCount)
       <==> (x.Received? && x.queueUrl == queueUrl ==> Attempts(h) <= maxReceiveCount)
  {
    AppendEntry(h, x);
    assert (h + [x])[..|h| + 1] == h + [x];
  }

  /** What one step adds to one message. */
  lemma KeyStays(w: World, e: Event, k: string, queueUrl: string, maxReceiveCount: int)
    requires Enabled(w, e) && k in w.history && KeySafe(w, k) && (e.step.Create? ==> k != e.step.oid)
    ensures StaysBounded(Apply(w, e).history[k], queueUrl, maxReceiveCount)
       <==> && StaysBounded(w.history[k], queueUrl, maxReceiveCount)
            && (&& e.step.Receive? && e.step.queueUrl == queueUrl
                && k in Taken(w.store, e.step.region, queueUrl, e.step.maxMessages, e.step.queued)
                ==> w.store[k].retries <= maxReceiveCount)
  {
    var h, news := w.history[k], News(w, e, k);
    assert Apply(w, e).history[k] == h + news;
    if news == [] {
      assert h + news == h;
    } else {
      assert news == [news[0]];
      StaysGrow(h, news[0], queueUrl, maxReceiveCount);
    }
  }

  lemma StepStays(w: World, e: Event, queueUrl: string, maxReceiveCount: int)
    requires Enabled(w, e) && Safe(w)
    ensures AllStaysBounded(Apply(w, e), queueUrl, maxReceiveCount)
       <==> AllStaysBounded(w, queueUrl, maxReceiveCount) && ReadsWithin(w, e, queueUrl, maxReceiveCount)
  {
    var w' := Apply(w, e);
    forall k | k in w.history && (e.step.Create? ==> k != e.step.oid)
      ensures k in w'.history
      ensures StaysBounded(w'.history[k], queueUrl, maxReceiveCount)
         <==> && StaysBounded(w.history[k], queueUrl, maxReceiveCount)
              && (&& e.step.Receive? && e.step.queueUrl == queueUrl
                  && k in Taken(w.store, e.step.region, queueUrl, e.step.maxMessages, e.step.queued)
                  ==> w.store[k].retries <= maxReceiveCount)
    {
      assert KeySafe(w, k);
      KeyStays(w, e, k, queueUrl, maxReceiveCount);
    }
  }

  lemma {:induction false} RunStays(w: World, es: seq<Event>, queueUrl: string, maxReceiveCount: int)
    requires Safe(w) && Legal(w, es)
    ensures AllStaysBounded(Run(w, es), queueUrl, maxReceiveCount)
       <==> AllStaysBounded(w, queueUrl, maxReceiveCount) && AlwaysReadsWithin(w, es, queueUrl, maxReceiveCount)
    decreases |es|
  {
    if es != [] {
      StepKeepsSafe(w, es[0]);
      StepStays(w, es[0], queueUrl, maxReceiveCount);
      RunStays(Apply(w, es[0]), es[1..], queueUrl, maxReceiveCount);
    }
  }

  /**
   In every run, no stay on the queue sees more than `maxReceiveCount + 1` deliveries exactly when no receive from it
   takes a message whose retry counter is above `maxReceiveCount`; dead letter queues are queues like any other here.
   */
  lemma StaysAreBoundedExactly(es: seq<Event>, w: World, queueUrl: string, maxReceiveCount: int)
    requires Reaches(es, w)
    ensures AllStaysBounded(w, queueUrl, maxReceiveCount)
       <==> AlwaysReadsWithin(EMPTY_WORLD, es, queueUrl, maxReceiveCount)
  {
    RunStays(EMPTY_WORLD, es, queueUrl, maxReceiveCount);
  }

  // ---- all deliveries from a queue to which nothing is redriven ----

  /** Messages start with counter 0, and the queue is nobody's dead letter queue. */
  predicate KeepsToFirstStay(step: Step, queueUrl: string) {
    match step
    case Create(_, message) => message.retries == 0
    case Redrive(_, _, dlqUrl) => dlqUrl != queueUrl
    case _ => true
  }

  predicate AllKeepToFirstStay(es: seq<Event>, queueUrl: string) {
    forall i :: 0 <= i < |es| ==> KeepsToFirstStay(es[i].step, queueUrl)
  }

  predicate IsOn(s: Store, k: string, queueUrl: string) {
    k in s && s[k].queueUrl == queueUrl
  }

  /** A message that is still on the queue is there since its creation, and both ways of counting agree. */
  predicate FirstStay(h: seq<Entry>, isOn: bool, queueUrl: string, maxReceiveCount: int) {
    && (isOn ==> DeliveriesFrom(h, queueUrl) == Attempts(h))
    && (StaysBounded(h, queueUrl, maxReceiveCount) <==> DeliveriesFrom(h, queueUrl) <= maxReceiveCount + 1)
  }

  predicate AllFirstStay(w: World, queueUrl: string, maxReceiveCount: int) {
    && w.store.Keys <= w.history.Keys
    && forall k :: k in w.history ==> FirstStay(w.history[k], IsOn(w.store, k, queueUrl), queueUrl, maxReceiveCount)
  }

  lemma DeliveriesGrow(h: seq<Entry>, x: Entry, queueUrl: string)
    ensures DeliveriesFrom(h + [x], queueUrl)
         == DeliveriesFrom(h, queueUrl) + if x.Received? && x.queueUrl == queueUrl then 1 else 0
  {
    assert (h + [x])[..|h|] == h;
  }

  lemma FirstStayCreated(message: Message, isOn: bool, queueUrl: string, maxReceiveCount: int)
    requires message.retries == 0 && maxReceiveCount >= -1
    ensures FirstStay([Created(message)], isOn, queueUrl, maxReceiveCount)
  {
    assert [Created(message)] == [] + [Created(message)];
    DeliveriesGrow([], Created(message), queueUrl);
    AppendEntry([], Created(message));
  }

  lemma FirstStayLater(h: seq<Entry>, x: Entry, wasOn: bool, isOn: bool, queueUrl: string, maxReceiveCount: int)
    requires FirstStay(h, wasOn, queueUrl, maxReceiveCount)
    requires match x
             case Created(_) => false
             case Received(q, _, _, _) => wasOn == isOn == (q == queueUrl)
             case _ => !isOn
    ensures FirstStay(h + [x], isOn, queueUrl, maxReceiveCount)
  {
    StaysGrow(h, x, queueUrl, maxReceiveCount);
    DeliveriesGrow(h, x, queueUrl);
    AppendEntry(h, x);
  }

  lemma KeyKeepsFirstStay(w: World, e: Event, k: string, queueUrl: string, maxReceiveCount: int)
    requires Enabled(w, e) && k in w.history && (e.step.Create? ==> k != e.step.oid)
    requires FirstStay(w.history[k], IsOn(w.store, k, queueUrl), queueUrl, maxReceiveCount)
    requires KeepsToFirstStay(e.step, queueUrl)
    ensures FirstStay(Apply(w, e).history[k], IsOn(Apply(w, e).store, k, queueUrl), queueUrl, maxReceiveCount)
  {
    var h, news := w.history[k], News(w, e, k);
    assert Apply(w, e).history[k] == h + news;
    if news == [] {
      assert h + news == h;
    } else {
      assert news == [news[0]];
      FirstStayLater(h, news[0], IsOn(w.store, k, queueUrl), IsOn(Apply(w, e).store, k, queueUrl), queueUrl,
                     maxReceiveCount);
    }
  }

  lemma {:induction false} RunKeepsFirstStay(w: World, es: seq<Event>, queueUrl: string, maxReceiveCount: int)
    requires Legal(w, es) && maxReceiveCount >= -1
    requires AllFirstStay(w, queueUrl, maxReceiveCount) && AllKeepToFirstStay(es, queueUrl)
    ensures AllFirstStay(Run(w, es), queueUrl, maxReceiveCount)
    decreases |es|
  {
    if es != [] {
      var e, w' := es[0], Apply(w, es[0]);
      assert KeepsToFirstStay(e.step, queueUrl);
      forall k | k in w'.history
        ensures FirstStay(w'.history[k], IsOn(w'.store, k, queueUrl), queueUrl, maxReceiveCount)
      {
        if e.step.Create? && k == e.step.oid {
          FirstStayCreated(e.step.message, IsOn(w'.store, k, queueUrl), queueUrl, maxReceiveCount);
        } else {
          KeyKeepsFirstStay(w, e, k, queueUrl, maxReceiveCount);
        }
      }
      RunKeepsFirstStay(w', es[1..], queueUrl, maxReceiveCount);
    }
  }

  /** Counted over all time, the same guard is the exact condition for a queue that nothing is redriven to. */
  lemma DeliveriesAreBoundedExactly(es: seq<Event>, w: World, queueUrl: string, maxReceiveCount: int)
    requires Reaches(es, w) && AllKeepToFirstStay(es, queueUrl) && maxReceiveCount >= -1
    ensures (forall k :: k in w.history ==> DeliveriesFrom(w.history[k], queueUrl) <= maxReceiveCount + 1)
       <==> AlwaysReadsWithin(EMPTY_WORLD, es, queueUrl, maxReceiveCount)
  {
    RunKeepsFirstStay(EMPTY_WORLD, es, queueUrl, maxReceiveCount);
    StaysAreBoundedExactly(es, w, queueUrl, maxReceiveCount);
    assert forall k :: k in w.history ==>
                         FirstStay(w.history[k], IsOn(w.store, k, queueUrl), queueUrl, maxReceiveCount);
  }

  // ---- redriving after every reset ----

  /** A reset of the queue may leave exhausted messages behind until its next redrive. */
  predicate NextDirty(step: Step, queueUrl: string, maxReceiveCount: int, dirty: bool) {
    match step
    case Reset(q, _) => dirty || q == queueUrl
    case Redrive(q, n, _) => dirty && !(q == queueUrl && n <= maxReceiveCount)
    case _ => dirty
  }

  /** Messages start below the limit, and the queue is not read while dirty. */
  predicate Allowed(step: Step, queueUrl: string, maxReceiveCount: int, dirty: bool) {
    match step
    case Create(_, message) => message.retries <= maxReceiveCount
    case Receive(_, q, _, _, _, _, _) => q == queueUrl ==> !dirty
    case _ => true
  }

  predicate Disciplined(es: seq<Event>, queueUrl: string, maxReceiveCount: int, dirty: bool) {
    es == [] ||
    (&& Allowed(es[0].step, queueUrl, maxReceiveCount, dirty)
     && Disciplined(es[1..], queueUrl, maxReceiveCount, NextDirty(es[0].step, queueUrl, maxReceiveCount, dirty)))
  }

  /** No message that can be read, or can become so without a reset, is above the limit. */
  predicate Calm(s: Store, queueUrl: string, maxReceiveCount: int, dirty: bool) {
    forall k :: k in s ==>
      && (s[k].status.DELAYED? ==> s[k].retries <= maxReceiveCount)
      && (s[k].status.INITIAL? && s[k].queueUrl == queueUrl && !dirty ==> s[k].retries <= maxReceiveCount)
  }

  lemma StepKeepsCalm(w: World, e: Event, queueUrl: string, maxReceiveCount: int, dirty: bool)
    requires Enabled(w, e) && Calm(w.store, queueUrl, maxReceiveCount, dirty) && maxReceiveCount >= 0
    requires Allowed(e.step, queueUrl, maxReceiveCount, dirty)
    ensures ReadsWithin(w, e, queueUrl, maxReceiveCount)
    ensures Calm(Apply(w, e).store, queueUrl, maxReceiveCount, NextDirty(e.step, queueUrl, maxReceiveCount, dirty))
  {
  }

  lemma {:induction false} DisciplinedReadsWithin(w: World, es: seq<Event>, queueUrl: string, maxReceiveCount: int,
                                                  dirty: bool)
    requires Legal(w, es) && Calm(w.store, queueUrl, maxReceiveCount, dirty) && maxReceiveCount >= 0
    requires Disciplined(es, queueUrl, maxReceiveCount, dirty)
    ensures AlwaysReadsWithin(w, es, queueUrl, maxReceiveCount)
    decreases |es|
  {
    if es != [] {
      StepKeepsCalm(w, es[0], queueUrl, maxReceiveCount, dirty);
      DisciplinedReadsWithin(Apply(w, es[0]), es[1..], queueUrl, maxReceiveCount,
                             NextDirty(es[0].step, queueUrl, maxReceiveCount, dirty));
    }
  }

  /**
   If every reset of a queue is followed by its redrive before the next receive from it, no stay of a message there
   sees more than `maxReceiveCount + 1` deliveries, nor does a queue to which nothing is redriven over all time.
   */
  lemma DeliveriesAreBounded(es: seq<Event>, w: World, queueUrl: string, maxReceiveCount: int, k: string)
    requires Reaches(es, w) && maxReceiveCount >= 0 && k in w.history
    requires Disciplined(es, queueUrl, maxReceiveCount, false)
    ensures StaysBounded(w.history[k], queueUrl, maxReceiveCount)
    ensures AllKeepToFirstStay(es, queueUrl) ==> DeliveriesFrom(w.history[k], queueUrl) <= maxReceiveCount + 1
  {
    DisciplinedReadsWithin(EMPTY_WORLD, es, queueUrl, maxReceiveCount, false);
    StaysAreBoundedExactly(es, w, queueUrl, maxReceiveCount);
    if AllKeepToFirstStay(es, queueUrl) {
      DeliveriesAreBoundedExactly(es, w, queueUrl, maxReceiveCount);
    }
  }
}
