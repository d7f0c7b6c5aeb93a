/** What holds in every reachable state of the message store, and over every run that reaches it. */
module SqsTheorems {
  import opened SqsModel
  import opened SqsHistory

  ghost predicate Reaches(es: seq<Event>, w: World) {
    Legal(EMPTY_WORLD, es) && Run(EMPTY_WORLD, es) == w
  }

  lemma ReachableIsSafe(es: seq<Event>, w: World)
    requires Reaches(es, w)
    ensures Safe(w)
  {
    RunKeepsSafe(EMPTY_WORLD, es);
  }

  /** Two receives of one message are further apart than the visibility timeout of the earlier one, on any queue. */
  lemma VisibilityIsExclusive(es: seq<Event>, w: World, k: string, i: nat, j: nat)
    requires Reaches(es, w) && k in w.history && i < j < |w.history[k]|
    requires w.history[k][i].Received? && w.history[k][j].Received?
    ensures w.history[k][i].until < w.history[k][j].at
  {
    ReachableIsSafe(es, w);
    assert KeySafe(w, k);
  }

  /** Inside the window of an earlier receive the next receive does not hand the message out. */
  lemma WindowBlocksReceive(es: seq<Event>, w: World, e: Event, k: string, i: nat)
    requires Reaches(es, w) && Enabled(w, e) && e.step.Receive?
    requires k in w.history && i < |w.history[k]| && w.history[k][i].Received? && e.step.at <= w.history[k][i].until
    ensures k !in Taken(w.store, e.step.region, e.step.queueUrl, e.step.maxMessages, e.step.queued)
  {
    ReachableIsSafe(es, w);
    assert KeySafe(w, k);
  }

  /** The retry counter is the number of receives since creation or the last redrive. */
  lemma RetriesCountReceives(es: seq<Event>, w: World, k: string)
    requires Reaches(es, w) && k in w.store
    ensures k in w.history && w.store[k].retries == Attempts(w.history[k])
  {
    ReachableIsSafe(es, w);
    assert KeySafe(w, k);
  }

  /** An issued handle finds its own message while that receive is the latest and invisible, and nothing otherwise. */
  lemma HandleIsExact(es: seq<Event>, w: World, k: string, i: nat)
    requires Reaches(es, w) && k in w.history && i < |w.history[k]| && w.history[k][i].Received?
    ensures var handle := w.history[k][i].handle;
            var live := k in w.store && w.store[k].status.INVISIBLE? && i == LastReceive(w.history[k]);
            && Holders(w.store, handle) == (if live then {k} else {})
            && AfterErase(w.store, Holders(w.store, handle)) == (if live then w.store - {k} else w.store)
  {
    ReachableIsSafe(es, w);
    assert KeySafe(w, k);
  }

  /** Once no message holds a known handle, none ever does again. */
  lemma {:induction false} StaleHandleStaysDead(w: World, es: seq<Event>, handle: string)
    requires Safe(w) && Legal(w, es) && handle in w.handles && handle != "" && Holders(w.store, handle) == {}
    ensures Holders(Run(w, es).store, handle) == {}
    decreases |es|
  {
    if es != [] {
      var w' := Apply(w, es[0]);
      forall k | k in w'.store ensures w'.store[k].receiptHandle != handle {
        assert k in w.store ==> KeySafe(w, k) && k !in Holders(w.store, handle);
        HandleOrigin(w, es[0], k);
      }
      StepKeepsSafe(w, es[0]);
      StaleHandleStaysDead(w', es[1..], handle);
    }
  }

  lemma StoredUnlessRemoved(w: World, k: string)
    requires Safe(w) && k in w.history
    ensures k in w.store <==> !IsRemoved(w.history[k])
    ensures w.history[k] != [] && w.history[k][0].Created?
    ensures k in w.store ==> Agrees(k, w.history[k], w.store[k])
  {
    assert KeySafe(w, k);
  }

  lemma KeysAreConserved(w: World)
    requires Safe(w)
    ensures w.store.Keys == w.history.Keys - set k | k in w.history && IsRemoved(w.history[k])
  {
    forall k | k in w.history ensures k in w.store <==> !IsRemoved(w.history[k]) {
      StoredUnlessRemoved(w, k);
    }
  }

  lemma SizeOfRest(all: set<string>, part: set<string>)
    requires part <= all
    ensures |all - part| == |all| - |part|
  {
  }

  /** Each message keeps oid, region and body, and the store is what was created and not removed. */
  lemma StoreIsConserved(es: seq<Event>, w: World)
    requires Reaches(es, w)
    ensures var removed := set k | k in w.history && IsRemoved(w.history[k]);
            w.store.Keys == w.history.Keys - removed && |w.store| == |w.history| - |removed|
    ensures forall k :: k in w.store ==>
              && w.history[k] != [] && w.history[k][0].Created?
              && w.store[k].oid == k
              && w.store[k].region == w.history[k][0].message.region
              && w.store[k].body == w.history[k][0].message.body
  {
    ReachableIsSafe(es, w);
    KeysAreConserved(w);
    SizeOfRest(w.history.Keys, set k | k in w.history && IsRemoved(w.history[k]));
    forall k | k in w.store
      ensures w.history[k] != [] && w.history[k][0].Created? && Agrees(k, w.history[k], w.store[k])
    {
      StoredUnlessRemoved(w, k);
    }
  }

  // ---- what a delete removes ----

  /** A message that was handed out has a handle only while invisible; before, it has the one it was created with. */
  predicate HoldsCurrent(h: seq<Entry>, m: Message)
    requires h != [] && h[0].Created?
  {
    if LastReceive(h) >= 0 then m.status.INVISIBLE? || m.receiptHandle == ""
    else
      && (m.status.INVISIBLE? ==> h[0].message.status.INVISIBLE?)
      && (m.receiptHandle == h[0].message.receiptHandle || (m.receiptHandle == "" && h[0].message.status.INVISIBLE?))
  }

  predicate AllHoldCurrent(w: World) {
    forall k :: k in w.store ==>
      k in w.history && w.history[k] != [] && w.history[k][0].Created? && HoldsCurrent(w.history[k], w.store[k])
  }

  lemma CreatedHoldsCurrent(message: Message, k: string)
    ensures HoldsCurrent([Created(message)], message.(oid := k))
  {
    AppendEntry([], Created(message));
    assert [] + [Created(message)] == [Created(message)];
  }

  lemma HoldsCurrentLater(h: seq<Entry>, x: Entry, m: Message)
    requires h != [] && h[0].Created? && !x.Created?
    requires if x.Received? then m.status.INVISIBLE? else HoldsCurrent(h, m)
    ensures (h + [x])[0] == h[0] && HoldsCurrent(h + [x], m)
  {
    AppendEntry(h, x);
  }

  lemma KeyHoldsCurrent(w: World, e: Event, k: string)
    requires Enabled(w, e) && k in w.store && k in w.history && (e.step.Create? ==> k != e.step.oid)
    requires w.history[k] != [] && w.history[k][0].Created? && HoldsCurrent(w.history[k], w.store[k])
    requires k in Apply(w, e).store
    ensures k in Apply(w, e).history && Apply(w, e).history[k] != [] && Apply(w, e).history[k][0].Created?
    ensures HoldsCurrent(Apply(w, e).history[k], Apply(w, e).store[k])
  {
    var h, news := w.history[k], News(w, e, k);
    assert Apply(w, e).history[k] == h + news;
    if news == [] {
      assert h + news == h;
    } else {
      assert news == [news[0]];
      HoldsCurrentLater(h, news[0], Apply(w, e).store[k]);
    }
  }

  lemma {:induction false} RunHoldsCurrent(w: World, es: seq<Event>)
    requires AllHoldCurrent(w) && Legal(w, es)
    ensures AllHoldCurrent(Run(w, es))
    decreases |es|
  {
    if es != [] {
      var w' := Apply(w, es[0]);
      forall k | k in w'.store
        ensures k in w'.history && w'.history[k] != [] && w'.history[k][0].Created?
        ensures HoldsCurrent(w'.history[k], w'.store[k])
      {
        if es[0].step.Create? && k == es[0].step.oid {
          CreatedHoldsCurrent(es[0].step.message, k);
        } else {
          KeyHoldsCurrent(w, es[0], k);
        }
      }
      RunHoldsCurrent(w', es[1..]);
    }
  }

  /**
   A delete by a handle removes at most one message. A delete by the empty handle removes all that hold none: of the
   messages that were ever handed out, those that are not in flight; of the others, those created without a handle, and
   of those created invisible also the ones that were reset.
   */
  lemma DeleteIsExact(es: seq<Event>, w: World, handle: string, k: string)
    requires Reaches(es, w) && k in w.store
    ensures handle != "" ==> |Holders(w.store, handle)| <= 1
    ensures k in w.history && w.history[k] != [] && w.history[k][0].Created?
    ensures var created := w.history[k][0].message;
            if LastReceive(w.history[k]) >= 0
            then k in Holders(w.store, "") <==> !w.store[k].status.INVISIBLE?
            else (created.receiptHandle == "" ==> k in Holders(w.store, ""))
                 && (k in Holders(w.store, "") ==> created.receiptHandle == "" || created.status.INVISIBLE?)
  {
    ReachableIsSafe(es, w);
    RunHoldsCurrent(EMPTY_WORLD, es);
    assert KeySafe(w, k);
    if handle != "" && Holders(w.store, handle) != {} {
      var j :| j in Holders(w.store, handle);
      assert Holders(w.store, handle) == {j};
    }
  }

  // ---- single steps, field by field ----

  lemma CreateIsExact(w: World, e: Event, k: string)
    requires Enabled(w, e) && e.step.Create? && (k in w.store || k == e.step.oid)
    ensures k in Apply(w, e).store
    ensures Apply(w, e).store[k] == if k == e.step.oid then e.step.message.(oid := k) else w.store[k]
  {
  }

  /** A receive takes only initial messages of its region and queue, starts their window and leaves all others. */
  lemma ReceiveIsSelective(w: World, e: Event, k: string)
    requires Enabled(w, e) && e.step.Receive? && k in w.store
    ensures k in Apply(w, e).store
    ensures var m, m' := w.store[k], Apply(w, e).store[k];
            || m' == m
            || (&& m.region == e.step.region && m.queueUrl == e.step.queueUrl && m.status == INITIAL
                && m' == m.(status := INVISIBLE, retries := m.retries + 1, receiptHandle := e.step.issued[k],
                            reset := e.step.at + e.step.visibility))
  {
  }

  /** What the removing steps keep, and that it is kept as it was. */
  lemma RemovalIsExact(w: World, e: Event, k: string)
    requires Enabled(w, e) && k in w.store
    requires e.step.Delete? || e.step.DeleteQueue? || e.step.Purge? || e.step.DeleteAll?
    ensures k in Apply(w, e).store <==>
              match e.step
              case Delete(handle) => w.store[k].receiptHandle != handle
              case DeleteQueue(queueUrl) => w.store[k].queueUrl != queueUrl
              case Purge(region, queueUrl) => w.store[k].region != region || w.store[k].queueUrl != queueUrl
              case _ => false
    ensures k in Apply(w, e).store ==> Apply(w, e).store[k] == w.store[k]
    ensures Apply(w, e).store.Keys <= w.store.Keys
  {
  }
}
