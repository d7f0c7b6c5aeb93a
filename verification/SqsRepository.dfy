/**
 Receives through `SQSDatabase`, which resets the queue and reads it at once, against the periodic worker, which resets
 and redrives it: the guard of the delivery bound fails although every worker round redrives.
 */
module SqsRepository {
  import opened Orders
  import opened SqsModel
  import opened SqsHistory
  import opened SqsTheorems
  import opened SqsDeliveries

  const QUEUE := "q"
  const KEY := "m"

  /** The worker resets the queue and redrives it. */
  predicate IsWorkerRound(es: seq<Event>, queueUrl: string, maxReceiveCount: int, dlqUrl: string) {
    |es| == 2 && es[0].step.Reset? && es[0].step.queueUrl == queueUrl
    && es[1].step == Redrive(queueUrl, maxReceiveCount, dlqUrl)
  }

  /** A receive through the repository resets the queue and reads it. */
  predicate IsRepositoryReceive(es: seq<Event>, queueUrl: string) {
    |es| == 2 && es[0].step.Reset? && es[0].step.queueUrl == queueUrl
    && es[1].step.Receive? && es[1].step.queueUrl == queueUrl
  }

  /** Receives through the repository, with a worker round before each. */
  predicate Served(es: seq<Event>, queueUrl: string, maxReceiveCount: int, dlqUrl: string) {
    es == [] ||
    (&& |es| >= 4
     && IsWorkerRound(es[..2], queueUrl, maxReceiveCount, dlqUrl) && IsRepositoryReceive(es[2..4], queueUrl)
     && Served(es[4..], queueUrl, maxReceiveCount, dlqUrl))
  }

  // ---- the four events of a round ----

  function ResetAt(at: int): Event {
    Event(Reset(QUEUE, map[KEY := at]), at)
  }

  function RedriveAt(at: int, maxReceiveCount: int, dlqUrl: string): Event {
    Event(Redrive(QUEUE, maxReceiveCount, dlqUrl), at)
  }

  function HandleAt(at: nat): (handle: string)
    ensures |handle| == at + 1
  {
    seq(at + 1, _ => 'h')
  }

  function ReadAt(at: nat, visibility: nat): Event {
    Event(Receive("r", QUEUE, visibility, 1, 0, at, map[KEY := HandleAt(at)]), at)
  }

  /** The only message, ready or still in its visibility window. */
  ghost predicate Waiting(w: World, deliveries: nat, visibility: nat) {
    && w.store.Keys == {KEY} && w.history.Keys == {KEY} && w.now >= 0
    && w.store[KEY].region == "r" && w.store[KEY].queueUrl == QUEUE
    && DeliveriesFrom(w.history[KEY], QUEUE) == deliveries
    && (forall x :: x in w.handles ==> |x| <= w.now + 1)
    && (w.store[KEY].status.INITIAL? || (w.store[KEY].status.INVISIBLE? && w.store[KEY].reset == w.now + visibility))
  }

  /** A worker round inside the window changes nothing. */
  lemma WorkerRound(w: World, deliveries: nat, visibility: nat, maxReceiveCount: int, dlqUrl: string)
    requires Waiting(w, deliveries, visibility) && w.store[KEY].status.INVISIBLE?
    ensures Enabled(w, ResetAt(w.now)) && Apply(w, ResetAt(w.now)) == w
    ensures Enabled(w, RedriveAt(w.now, maxReceiveCount, dlqUrl))
         && Apply(w, RedriveAt(w.now, maxReceiveCount, dlqUrl)) == w
  {
    assert w.history[KEY] + [] == w.history[KEY];
  }

  lemma ResetOnce(w: World, deliveries: nat, visibility: nat)
    requires Waiting(w, deliveries, visibility)
    ensures var e := ResetAt(w.now + visibility + 1);
            var w' := Apply(w, e);
            && Enabled(w, e) && Waiting(w', deliveries, visibility)
            && w'.store[KEY].status.INITIAL? && w'.now == w.now + visibility + 1 && w'.handles == w.handles
  {
    assert w.history[KEY] + [] == w.history[KEY];
  }

  lemma OnlyKeyTaken(s: Store)
    requires s.Keys == {KEY} && IsEligible(s[KEY], "r", QUEUE)
    ensures Taken(s, "r", QUEUE, 1, 0) == [KEY]
  {
    AscendingIsUnique(Eligible(s, "r", QUEUE), [KEY]);
  }

  lemma ReadEnabled(w: World, visibility: nat)
    requires w.store.Keys == {KEY} && w.now >= 0 && forall x :: x in w.handles ==> |x| <= w.now
    ensures Enabled(w, ReadAt(w.now, visibility))
  {
  }

  /** What the read does to the only message. */
  lemma ReadResult(w: World, visibility: nat)
    requires w.store.Keys == {KEY} && w.history.Keys == {KEY} && IsEligible(w.store[KEY], "r", QUEUE)
    requires w.now >= 0 && Enabled(w, ReadAt(w.now, visibility))
    ensures var w', handle := Apply(w, ReadAt(w.now, visibility)), HandleAt(w.now);
            && w'.store == map[KEY := Delivered(w.store[KEY], handle, w.now + visibility)]
            && w'.history == map[KEY := w.history[KEY] + [Received(QUEUE, handle, w.now, w.now + visibility)]]
            && w'.now == w.now
  {
    OnlyKeyTaken(w.store);
  }

  lemma ReadHandles(w: World, visibility: nat)
    requires w.now >= 0 && Enabled(w, ReadAt(w.now, visibility)) && forall x :: x in w.handles ==> |x| <= w.now
    ensures forall x :: x in Apply(w, ReadAt(w.now, visibility)).handles ==> |x| <= w.now + 1
  {
  }

  lemma ReadOnce(w: World, deliveries: nat, visibility: nat)
    requires Waiting(w, deliveries, visibility) && w.store[KEY].status.INITIAL?
    requires forall x :: x in w.handles ==> |x| <= w.now
    ensures var e := ReadAt(w.now, visibility);
            && Enabled(w, e) && Waiting(Apply(w, e), deliveries + 1, visibility)
            && Apply(w, e).store[KEY].status.INVISIBLE?
  {
    ReadEnabled(w, visibility);
    ReadResult(w, visibility);
    ReadHandles(w, visibility);
    DeliveriesGrow(w.history[KEY], Received(QUEUE, HandleAt(w.now), w.now, w.now + visibility), QUEUE);
  }

  // ---- runs ----

  ghost predicate Leads(w: World, es: seq<Event>, w': World) {
    Legal(w, es) && Run(w, es) == w'
  }

  lemma {:induction false} LeadsOn(w: World, es: seq<Event>, v: World, fs: seq<Event>, w': World)
    requires Leads(w, es, v) && Leads(v, fs, w')
    ensures Leads(w, es + fs, w')
    decreases |es|
  {
    if es == [] {
      assert es + fs == fs;
    } else {
      assert (es + fs)[1..] == es[1..] + fs;
      LeadsOn(Apply(w, es[0]), es[1..], v, fs, w');
    }
  }

  lemma LeadsThrice(w: World, es: seq<Event>, u: World, fs: seq<Event>, v: World, gs: seq<Event>, w': World)
    requires Leads(w, es, u) && Leads(u, fs, v) && Leads(v, gs, w')
    ensures Leads(w, es + fs + gs, w')
  {
    LeadsOn(w, es, u, fs, v);
    LeadsOn(w, es + fs, v, gs, w');
  }

  lemma LeadsByOne(w: World, e: Event)
    requires Enabled(w, e)
    ensures Leads(w, [e], Apply(w, e))
  {
    assert [e][1..] == [];
  }

  lemma LeadsByTwo(w: World, e1: Event, e2: Event)
    requires Enabled(w, e1) && Enabled(Apply(w, e1), e2)
    ensures Leads(w, [e1, e2], Apply(Apply(w, e1), e2))
  {
    var v := Apply(w, e1);
    LeadsByOne(w, e1);
    LeadsByOne(v, e2);
    LeadsOn(w, [e1], v, [e2], Apply(v, e2));
    assert [e1] + [e2] == [e1, e2];
  }

  lemma ServedMore(worker: seq<Event>, receive: seq<Event>, rest: seq<Event>, queueUrl: string, maxReceiveCount: int,
                   dlqUrl: string)
    requires IsWorkerRound(worker, queueUrl, maxReceiveCount, dlqUrl) && IsRepositoryReceive(receive, queueUrl)
    requires Served(rest, queueUrl, maxReceiveCount, dlqUrl)
    ensures Served(worker + receive + rest, queueUrl, maxReceiveCount, dlqUrl)
  {
    var es := worker + receive + rest;
    assert es[..2] == worker && es[2..4] == receive && es[4..] == rest;
  }

  lemma RepositoryReceive(w: World, deliveries: nat, visibility: nat) returns (es: seq<Event>, w': World)
    requires Waiting(w, deliveries, visibility)
    ensures IsRepositoryReceive(es, QUEUE) && Leads(w, es, w')
    ensures Waiting(w', deliveries + 1, visibility) && w'.store[KEY].status.INVISIBLE?
  {
    var e1 := ResetAt(w.now + visibility + 1);
    ResetOnce(w, deliveries, visibility);
    var v := Apply(w, e1);
    var e2 := ReadAt(v.now, visibility);
    ReadOnce(v, deliveries, visibility);
    LeadsByTwo(w, e1, e2);
    es, w' := [e1, e2], Apply(v, e2);
  }

  lemma {:induction false} ServeRepeatedly(w: World, deliveries: nat, visibility: nat, maxReceiveCount: int,
                                           dlqUrl: string, n: nat) returns (es: seq<Event>, w': World)
    requires Waiting(w, deliveries, visibility) && w.store[KEY].status.INVISIBLE?
    ensures Served(es, QUEUE, maxReceiveCount, dlqUrl) && |es| == 4 * n
    ensures Leads(w, es, w') && Waiting(w', deliveries + n, visibility)
    decreases n
  {
    es, w' := [], w;
    if n > 0 {
      var worker := [ResetAt(w.now), RedriveAt(w.now, maxReceiveCount, dlqUrl)];
      WorkerRound(w, deliveries, visibility, maxReceiveCount, dlqUrl);
      LeadsByTwo(w, worker[0], worker[1]);
      var receive, v := RepositoryReceive(w, deliveries, visibility);
      var rest;
      rest, w' := ServeRepeatedly(v, deliveries + 1, visibility, maxReceiveCount, dlqUrl, n - 1);
      LeadsThrice(w, worker, w, receive, v, rest, w');
      ServedMore(worker, receive, rest, QUEUE, maxReceiveCount, dlqUrl);
      es := worker + receive + rest;
    }
  }

  /**
   The repository resets before it reads, so the bound does not hold for its receives, however the queue is redriven:
   for every number of rounds, every limit and every visibility timeout there is a run with a worker round, its redrive
   included, before every receive but the first, in which one message is handed out every time.
   */
  lemma RepositoryReceiveIsUnbounded(n: nat, maxReceiveCount: int, dlqUrl: string, visibility: nat)
    returns (es: seq<Event>, w: World)
    ensures Reaches(es, w) && |es| == 3 + 4 * n
    ensures es[0].step.Create? && es[0].step.message.retries == 0 && IsRepositoryReceive(es[1..3], QUEUE)
    ensures Served(es[3..], QUEUE, maxReceiveCount, dlqUrl)
    ensures KEY in w.history && DeliveriesFrom(w.history[KEY], QUEUE) == n + 1
  {
    var create := Event(Create(KEY, Message("", "r", QUEUE, "body", INITIAL, 0, 0, "")), 0);
    var w0 := Apply(EMPTY_WORLD, create);
    assert w0.history[KEY][..0] == [];
    LeadsByOne(EMPTY_WORLD, create);
    var receive, v := RepositoryReceive(w0, 0, visibility);
    var rest;
    rest, w := ServeRepeatedly(v, 1, visibility, maxReceiveCount, dlqUrl, n);
    LeadsThrice(EMPTY_WORLD, [create], w0, receive, v, rest, w);
    es := [create] + receive + rest;
    assert es[1..3] == receive && es[3..] == rest;
  }
}
