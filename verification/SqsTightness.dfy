/** The delivery bound is reached: redriving after every reset, and still `maxReceiveCount + 1` deliveries. */
module SqsTightness {
  import opened SqsModel
  import opened SqsHistory
  import opened SqsTheorems
  import opened SqsDeliveries
  import opened SqsRepository

  /** The only message has been handed out `receives` times and never redriven. */
  ghost predicate InFlight(w: World, receives: nat, visibility: nat) {
    && Waiting(w, receives, visibility) && w.store[KEY].status.INVISIBLE?
    && w.store[KEY].retries == receives
  }

  /** After the window, a reset frees the message, and a redrive leaves it if it is within the limit. */
  lemma ResetAndRedrive(w: World, receives: nat, visibility: nat, maxReceiveCount: nat, dlqUrl: string)
    returns (e1: Event, e2: Event, v: World)
    requires InFlight(w, receives, visibility) && receives <= maxReceiveCount
    ensures e1.step.Reset? && e1.step.queueUrl == QUEUE && e2.step == Redrive(QUEUE, maxReceiveCount, dlqUrl)
    ensures Leads(w, [e1, e2], v)
    ensures Waiting(v, receives, visibility) && v.store[KEY].status.INITIAL? && v.store[KEY].retries == receives
    ensures forall x :: x in v.handles ==> |x| <= v.now
  {
    e1 := ResetAt(w.now + visibility + 1);
    ResetOnce(w, receives, visibility);
    v := Apply(w, e1);
    e2 := RedriveAt(v.now, maxReceiveCount, dlqUrl);
    assert v.history[KEY] + [] == v.history[KEY];
    assert Enabled(v, e2) && Apply(v, e2) == v;
    LeadsByTwo(w, e1, e2);
  }

  lemma ReadCounts(w: World, receives: nat, visibility: nat) returns (e: Event, v: World)
    requires Waiting(w, receives, visibility) && w.store[KEY].status.INITIAL? && w.store[KEY].retries == receives
    requires forall x :: x in w.handles ==> |x| <= w.now
    ensures e.step.Receive? && e.step.queueUrl == QUEUE
    ensures Leads(w, [e], v) && InFlight(v, receives + 1, visibility)
  {
    e := ReadAt(w.now, visibility);
    ReadOnce(w, receives, visibility);
    ReadResult(w, visibility);
    v := Apply(w, e);
    LeadsByOne(w, e);
  }

  /** Rounds of a reset, a redrive and a receive are disciplined, each leaving the queue clean. */
  lemma RoundIsDisciplined(e1: Event, e2: Event, e: Event, rest: seq<Event>, maxReceiveCount: nat, dlqUrl: string)
    requires e1.step.Reset? && e1.step.queueUrl == QUEUE && e2.step == Redrive(QUEUE, maxReceiveCount, dlqUrl)
    requires e.step.Receive? && e.step.queueUrl == QUEUE && Disciplined(rest, QUEUE, maxReceiveCount, false)
    ensures Disciplined([e1, e2] + [e] + rest, QUEUE, maxReceiveCount, false)
  {
    var es := [e1, e2] + [e] + rest;
    assert es[1..] == [e2] + [e] + rest;
    assert es[1..][1..] == [e] + rest;
    assert es[1..][1..][1..] == rest;
    assert Disciplined([e] + rest, QUEUE, maxReceiveCount, false);
    assert Disciplined(es[1..], QUEUE, maxReceiveCount, true);
  }

  lemma {:induction false} HandOutUpTo(w: World, receives: nat, visibility: nat, maxReceiveCount: nat, dlqUrl: string)
    returns (es: seq<Event>, w': World)
    requires InFlight(w, receives, visibility) && receives <= maxReceiveCount + 1
    ensures Leads(w, es, w') && InFlight(w', maxReceiveCount + 1, visibility)
    ensures Disciplined(es, QUEUE, maxReceiveCount, false)
    decreases maxReceiveCount + 1 - receives
  {
    es, w' := [], w;
    if receives <= maxReceiveCount {
      var e1, e2, v := ResetAndRedrive(w, receives, visibility, maxReceiveCount, dlqUrl);
      var e, u := ReadCounts(v, receives, visibility);
      var rest;
      rest, w' := HandOutUpTo(u, receives + 1, visibility, maxReceiveCount, dlqUrl);
      LeadsThrice(w, [e1, e2], v, [e], u, rest, w');
      RoundIsDisciplined(e1, e2, e, rest, maxReceiveCount, dlqUrl);
      es := [e1, e2] + [e] + rest;
    }
  }

  lemma CreatedFirst(visibility: nat) returns (e: Event, v: World)
    ensures e.step.Create? && e.step.message.retries == 0 && Leads(EMPTY_WORLD, [e], v)
    ensures Waiting(v, 0, visibility) && v.store[KEY].status.INITIAL? && v.store[KEY].retries == 0
    ensures forall x :: x in v.handles ==> |x| <= v.now
  {
    e := Event(Create(KEY, Message("", "r", QUEUE, "body", INITIAL, 0, 0, "")), 0);
    v := Apply(EMPTY_WORLD, e);
    assert v.history[KEY][..0] == [];
    LeadsByOne(EMPTY_WORLD, e);
  }

  lemma StartIsDisciplined(create: Event, e: Event, rest: seq<Event>, maxReceiveCount: nat)
    requires create.step.Create? && create.step.message.retries == 0 && e.step.Receive?
    requires Disciplined(rest, QUEUE, maxReceiveCount, false)
    ensures Disciplined([create] + [e] + rest, QUEUE, maxReceiveCount, false)
  {
    var es := [create] + [e] + rest;
    assert es[1..] == [e] + rest && es[1..][1..] == rest;
    assert Disciplined(es[1..], QUEUE, maxReceiveCount, false);
  }

  lemma InFlightCounts(es: seq<Event>, w: World, receives: nat, visibility: nat)
    requires Reaches(es, w) && InFlight(w, receives, visibility)
    ensures KEY in w.history && Attempts(w.history[KEY]) == receives
    ensures DeliveriesFrom(w.history[KEY], QUEUE) == receives
  {
    RetriesCountReceives(es, w, KEY);
  }

  lemma FullRun(visibility: nat, maxReceiveCount: nat, dlqUrl: string) returns (es: seq<Event>, w: World)
    ensures Leads(EMPTY_WORLD, es, w) && InFlight(w, maxReceiveCount + 1, visibility)
    ensures Disciplined(es, QUEUE, maxReceiveCount, false)
  {
    var create, w0 := CreatedFirst(visibility);
    var e, v := ReadCounts(w0, 0, visibility);
    var rest;
    rest, w := HandOutUpTo(v, 1, visibility, maxReceiveCount, dlqUrl);
    LeadsThrice(EMPTY_WORLD, [create], w0, [e], v, rest, w);
    es := [create] + [e] + rest;
    StartIsDisciplined(create, e, rest, maxReceiveCount);
  }

  /**
   For every limit there is a run, with a redrive after every reset before the next receive, in which one stay of a
   message on the queue sees exactly `maxReceiveCount + 1` deliveries; so the bound cannot be lowered.
   */
  lemma BoundIsReached(visibility: nat, maxReceiveCount: nat, dlqUrl: string) returns (es: seq<Event>, w: World)
    ensures Reaches(es, w) && Disciplined(es, QUEUE, maxReceiveCount, false)
    ensures KEY in w.history && Attempts(w.history[KEY]) == maxReceiveCount + 1
    ensures DeliveriesFrom(w.history[KEY], QUEUE) == maxReceiveCount + 1
  {
    es, w := FullRun(visibility, maxReceiveCount, dlqUrl);
    InFlightCounts(es, w, maxReceiveCount + 1, visibility);
  }
}
