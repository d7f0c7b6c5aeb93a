/**
 Runs in which messages are also looked up and updated: an update can write any status, handle or reset time, but the
 identity of messages survives it.
 */
module SqsIdentity {
  import opened SqsModel
  import opened SqsHistory

  datatype Action =
    | Locked(event: Event)
    | Update(message: Message)
    | LookUpById(oid: string)
    | LookUpByHandle(receiptHandle: string)

  ghost predicate CanDo(w: World, a: Action) {
    match a
    case Locked(e) => Enabled(w, e)
    case Update(message) => WithOid(w.store, message.oid) != {}
    case _ => true
  }

  ghost function Do(w: World, a: Action): World
    requires CanDo(w, a)
  {
    match a
    case Locked(e) => Apply(w, e)
    case Update(message) => w.(store := AfterUpdate(w.store, message))
    case LookUpById(oid) => w.(store := AfterLookupById(w.store, oid))
    case LookUpByHandle(receiptHandle) => w.(store := AfterLookupByHandle(w.store, receiptHandle))
  }

  ghost predicate Possible(w: World, actions: seq<Action>)
    decreases |actions|
  {
    actions == [] || (CanDo(w, actions[0]) && Possible(Do(w, actions[0]), actions[1..]))
  }

  ghost function Perform(w: World, actions: seq<Action>): World
    requires Possible(w, actions)
    decreases |actions|
  {
    if actions == [] then w else Perform(Do(w, actions[0]), actions[1..])
  }

  /** The oids that a run creates. */
  function CreatedBy(actions: seq<Action>): set<string> {
    if actions == [] then {}
    else
      (if actions[0].Locked? && actions[0].event.step.Create? then {actions[0].event.step.oid} else {})
      + CreatedBy(actions[1..])
  }

  // ---- identity ----

  /** Every stored message carries its key, and what is not stored has been removed. */
  predicate Identified(w: World) {
    && (forall k :: k in w.store ==> k in w.history && w.store[k].oid == k)
    && (forall k :: k in w.history ==> (k in w.store <==> !IsRemoved(w.history[k])))
  }

  lemma IdentifiedOid(w: World, k: string)
    requires Identified(w)
    ensures WithOid(w.store, k) == if k in w.store then {k} else {}
  {
  }

  /** Lookups, which write the key into what they find, change nothing. */
  lemma LookupsChangeNothing(w: World, oid: string, receiptHandle: string)
    requires Identified(w)
    ensures AfterLookupById(w.store, oid) == w.store
    ensures AfterLookupByHandle(w.store, receiptHandle) == w.store
  {
  }

  /** So they could stand anywhere in the runs without updates. */
  lemma LookupsKeepSafe(w: World, oid: string, receiptHandle: string)
    requires Safe(w)
    ensures Identified(w)
    ensures AfterLookupById(w.store, oid) == w.store && AfterLookupByHandle(w.store, receiptHandle) == w.store
  {
    forall k | k in w.history
      ensures (k in w.store <==> !IsRemoved(w.history[k])) && (k in w.store ==> w.store[k].oid == k)
    {
      assert KeySafe(w, k);
    }
    LookupsChangeNothing(w, oid, receiptHandle);
  }

  lemma UpdateHitsItsEntry(w: World, message: Message)
    requires Identified(w) && WithOid(w.store, message.oid) != {}
    ensures message.oid in w.store && AfterUpdate(w.store, message) == w.store[message.oid := message]
  {
    IdentifiedOid(w, message.oid);
  }

  lemma RemovedLater(w: World, e: Event, k: string)
    requires Identified(w) && Enabled(w, e) && k in w.history && (e.step.Create? ==> k != e.step.oid)
    ensures k in Apply(w, e).store <==> !IsRemoved(Apply(w, e).history[k])
  {
    var h, news := w.history[k], News(w, e, k);
    assert Apply(w, e).history[k] == h + news;
    if news == [] {
      assert h + news == h;
    } else {
      assert news == [news[0]] && (h + news)[|h|] == news[0];
    }
  }

  lemma OidsStay(w: World, e: Event, k: string)
    requires Identified(w) && Enabled(w, e) && k in Apply(w, e).store
    ensures k in Apply(w, e).history && Apply(w, e).store[k].oid == k
  {
  }

  lemma LockedKeepsIdentified(w: World, e: Event)
    requires Identified(w) && Enabled(w, e)
    ensures Identified(Apply(w, e))
    ensures Apply(w, e).history.Keys == w.history.Keys + if e.step.Create? then {e.step.oid} else {}
  {
    var w' := Apply(w, e);
    forall k | k in w'.store ensures k in w'.history && w'.store[k].oid == k {
      OidsStay(w, e, k);
    }
    forall k | k in w'.history ensures k in w'.store <==> !IsRemoved(w'.history[k]) {
      if e.step.Create? && k == e.step.oid {
        assert w'.history[k] == [Created(e.step.message)];
      } else {
        RemovedLater(w, e, k);
      }
    }
  }

  lemma ActionKeepsIdentified(w: World, a: Action)
    requires Identified(w) && CanDo(w, a)
    ensures Identified(Do(w, a))
    ensures Do(w, a).history.Keys
         == w.history.Keys + if a.Locked? && a.event.step.Create? then {a.event.step.oid} else {}
  {
    match a
    case Locked(e) => LockedKeepsIdentified(w, e);
    case Update(message) => UpdateHitsItsEntry(w, message);
    case LookUpById(oid) => LookupsChangeNothing(w, oid, "");
    case LookUpByHandle(receiptHandle) => LookupsChangeNothing(w, "", receiptHandle);
  }

  lemma {:induction false} PerformKeepsIdentified(w: World, actions: seq<Action>)
    requires Identified(w) && Possible(w, actions)
    ensures Identified(Perform(w, actions))
    ensures Perform(w, actions).history.Keys == w.history.Keys + CreatedBy(actions)
    decreases |actions|
  {
    if actions == [] {
      assert w.history.Keys + {} == w.history.Keys;
    } else {
      ActionKeepsIdentified(w, actions[0]);
      PerformKeepsIdentified(Do(w, actions[0]), actions[1..]);
    }
  }

  /**
   After every run, updates and lookups included, the store holds what was created and not removed, an oid is carried
   by its own entry alone, and so an update addressed by a stored oid changes that entry and no other.
   */
  lemma OidIsKey(actions: seq<Action>, w: World, message: Message)
    requires Possible(EMPTY_WORLD, actions) && Perform(EMPTY_WORLD, actions) == w
    ensures forall k :: k in w.store ==> w.store[k].oid == k
    ensures w.history.Keys == CreatedBy(actions)
    ensures w.store.Keys == set k | k in CreatedBy(actions) && !IsRemoved(w.history[k])
    ensures WithOid(w.store, message.oid) == if message.oid in w.store then {message.oid} else {}
    ensures CanDo(w, Update(message)) <==> message.oid in w.store
    ensures message.oid in w.store ==> AfterUpdate(w.store, message) == w.store[message.oid := message]
  {
    PerformKeepsIdentified(EMPTY_WORLD, actions);
    IdentifiedOid(w, message.oid);
    if message.oid in w.store {
      UpdateHitsItsEntry(w, message);
    }
  }
}
