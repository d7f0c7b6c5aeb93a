/** The algebra of bucket notifications, as lists and in the store. */
module S3Theorems {
  import opened Orders
  import opened S3Model
  import opened StringUtils

  // ---- notifications as lists ----

  /** The notifications of other events than these, in their order. */
  function Others(ns: seq<Notification>, events: set<string>): seq<Notification> {
    if ns == [] then []
    else (if ns[0].event in events then [] else [ns[0]]) + Others(ns[1..], events)
  }

  lemma {:induction false} OthersOfOthers(ns: seq<Notification>, events: set<string>, event: string)
    ensures Without(Others(ns, events), event) == Others(ns, events + {event})
  {
    if ns != [] {
      OthersOfOthers(ns[1..], events, event);
      if ns[0].event !in events {
        assert Others(ns, events)[1..] == Others(ns[1..], events);
      } else {
        assert Others(ns, events) == Others(ns[1..], events);
      }
    }
  }

  function EventSet(events: seq<string>, n: nat): set<string>
    requires n <= |events|
  {
    set i | 0 <= i < n :: events[i]
  }

  lemma EventSetStep(events: seq<string>, n: nat)
    requires 0 < n <= |events|
    ensures EventSet(events, n) == EventSet(events, n - 1) + {events[n - 1]}
  {
  }

  /** Removing events one after the other keeps exactly the notifications of all other events, in their order. */
  lemma {:induction false} WithoutAllKeepsOthers(ns: seq<Notification>, events: seq<string>, n: nat)
    requires n <= |events|
    ensures WithoutAll(ns, events, n) == Others(ns, EventSet(events, n))
  {
    if n == 0 {
      assert EventSet(events, 0) == {};
      OthersOfNone(ns);
    } else {
      WithoutAllKeepsOthers(ns, events, n - 1);
      OthersOfOthers(ns, EventSet(events, n - 1), events[n - 1]);
      EventSetStep(events, n);
    }
  }

  lemma {:induction false} OthersOfNone(ns: seq<Notification>)
    ensures Others(ns, {}) == ns
  {
    if ns != [] {
      OthersOfNone(ns[1..]);
    }
  }

  lemma {:induction false} OthersAllGone(ns: seq<Notification>, events: set<string>)
    ensures Others(ns, events) == [] <==> forall i :: 0 <= i < |ns| ==> ns[i].event in events
  {
    if ns != [] {
      OthersAllGone(ns[1..], events);
      if ns[0].event in events {
        assert forall i :: 0 < i < |ns| ==> ns[i] == ns[1..][i - 1];
        assert forall i :: 0 <= i < |ns| - 1 ==> ns[1..][i] == ns[i + 1];
      }
    }
  }

  // ---- notifications in the store ----

  lemma NotificationsAfterCreate(s: Store, region: string, name: string, n: Notification)
    requires Holders(s, region, name) != {}
    ensures IsAt(Found(s, region, name), region, name)
    ensures var k := FirstHolder(s, region, name);
            AfterCreateNotification(s, region, name, n)
            == s[k := s[k].(oid := k, notifications := NotificationsFor(n, ConcreteEvents(n.event)))]
  {
    WriteBackExisting(s, region, name, NotificationsFor(n, ConcreteEvents(n.event)));
  }

  /** The bucket keeps the notifications of other events than these, and all else stays. */
  ghost function Narrowed(s: Store, region: string, name: string, events: set<string>): Store
    requires Holders(s, region, name) != {}
  {
    var k := FirstHolder(s, region, name);
    s[k := s[k].(oid := k, notifications := Others(s[k].notifications, events))]
  }

  /** A new notification is stored as it is, or once for every event of its wildcard with the same targets. */
  lemma CreatedNotifications(s: Store, region: string, name: string, n: Notification)
    requires Holders(s, region, name) != {}
    ensures IsAt(Found(s, region, name), region, name)
    ensures var k := FirstHolder(s, region, name);
            var ns := AfterCreateNotification(s, region, name, n)[k].notifications;
            if '*' !in n.event then ns == [n]
            else
              && |ns| == |AllowedEvents(n.event)|
              && forall i :: 0 <= i < |ns| ==>
                   ns[i] == Notification(AllowedEvents(n.event)[i], n.notificationId, n.queueArn, n.lambdaArn)
  {
    NotificationsAfterCreate(s, region, name, n);
    if '*' in n.event {
      SplitAtFirst(n.event, '*');
      var i := IndexOf(n.event, '*');
      FindChar(n.event[..i], '*', n.event[i + 1..]);
    } else {
      FindNoChar(n.event, '*');
    }
  }

  /** Deleting by an event, wildcard or not, keeps the notifications of all other events of the bucket in their order. */
  lemma NotificationsAfterDelete(s: Store, region: string, name: string, event: string)
    requires Holders(s, region, name) != {}
    ensures IsAt(Found(s, region, name), region, name)
    ensures var events := ConcreteEvents(event);
            AfterDeleteNotifications(s, region, name, event)
            == Narrowed(s, region, name, EventSet(events, |events|))
  {
    var events := ConcreteEvents(event);
    var b := Found(s, region, name);
    WithoutAllKeepsOthers(b.notifications, events, |events|);
    WriteBackExisting(s, region, name, WithoutAll(b.notifications, events, |events|));
  }

  /** A bucket stays where it is, and under its key. */
  lemma HolderStays(s: Store, region: string, name: string, ns: seq<Notification>)
    requires Holders(s, region, name) != {}
    ensures var k := FirstHolder(s, region, name);
            var t := s[k := s[k].(oid := k, notifications := ns)];
            Holders(t, region, name) == Holders(s, region, name) && FirstHolder(t, region, name) == k
  {
    var k := FirstHolder(s, region, name);
    var t := s[k := s[k].(oid := k, notifications := ns)];
    assert Holders(t, region, name) == Holders(s, region, name);
    FirstIsUnique(Holders(s, region, name), k, FirstHolder(t, region, name));
  }

  /** Creating a notification and deleting by the same event leaves the bucket without notifications, for any event. */
  lemma CreateThenDeleteLeavesNone(s: Store, region: string, name: string, n: Notification)
    requires Holders(s, region, name) != {}
    ensures IsAt(Found(s, region, name), region, name)
    ensures var k := FirstHolder(s, region, name);
            var t := AfterCreateNotification(s, region, name, n);
            && Holders(t, region, name) != {} && IsAt(Found(t, region, name), region, name)
            && AfterDeleteNotifications(t, region, name, n.event) == s[k := s[k].(oid := k, notifications := [])]
  {
    var k, events := FirstHolder(s, region, name), ConcreteEvents(n.event);
    var ns := NotificationsFor(n, events);
    NotificationsAfterCreate(s, region, name, n);
    HolderStays(s, region, name, ns);
    var t := AfterCreateNotification(s, region, name, n);
    NotificationsAfterDelete(t, region, name, n.event);
    assert forall i :: 0 <= i < |ns| ==> ns[i].event == events[i] && events[i] in EventSet(events, |events|);
    OthersAllGone(ns, EventSet(events, |events|));
  }

  lemma CreateIsIdempotent(s: Store, region: string, name: string, n: Notification)
    requires Holders(s, region, name) != {}
    ensures IsAt(Found(s, region, name), region, name)
    ensures var t := AfterCreateNotification(s, region, name, n);
            && Holders(t, region, name) != {} && IsAt(Found(t, region, name), region, name)
            && AfterCreateNotification(t, region, name, n) == t
  {
    NotificationsAfterCreate(s, region, name, n);
    HolderStays(s, region, name, NotificationsFor(n, ConcreteEvents(n.event)));
    NotificationsAfterCreate(AfterCreateNotification(s, region, name, n), region, name, n);
  }

  /** `DeleteBucketNotifications` called for the first `n` events one after the other. */
  ghost function DeleteEach(s: Store, region: string, name: string, events: seq<string>, n: nat): (t: Store)
    requires Holders(s, region, name) != {} && n <= |events|
    ensures Holders(t, region, name) == Holders(s, region, name)
  {
    if n == 0 then s
    else
      var t := DeleteEach(s, region, name, events, n - 1);
      NotificationsAfterDelete(t, region, name, events[n - 1]);
      var ns := Others(Found(t, region, name).notifications,
                       EventSet(ConcreteEvents(events[n - 1]), |ConcreteEvents(events[n - 1])|));
      HolderStays(t, region, name, ns);
      AfterDeleteNotifications(t, region, name, events[n - 1])
  }

  lemma {:induction false} OthersTwice(ns: seq<Notification>, a: set<string>, b: set<string>)
    ensures Others(Others(ns, a), b) == Others(ns, a + b)
  {
    if ns != [] {
      OthersTwice(ns[1..], a, b);
      if ns[0].event !in a {
        assert Others(ns, a)[1..] == Others(ns[1..], a);
      } else {
        assert Others(ns, a) == Others(ns[1..], a);
      }
    }
  }

  lemma NarrowedTwice(s: Store, region: string, name: string, a: set<string>, b: set<string>)
    requires Holders(s, region, name) != {}
    ensures Holders(Narrowed(s, region, name, a), region, name) != {}
    ensures Narrowed(Narrowed(s, region, name, a), region, name, b) == Narrowed(s, region, name, a + b)
  {
    var ns := s[FirstHolder(s, region, name)].notifications;
    HolderStays(s, region, name, Others(ns, a));
    OthersTwice(ns, a, b);
  }

  lemma DeleteOne(s: Store, region: string, name: string, event: string)
    requires Holders(s, region, name) != {} && !IsWildcard(event)
    ensures IsAt(Found(s, region, name), region, name)
    ensures AfterDeleteNotifications(s, region, name, event) == Narrowed(s, region, name, {event})
  {
    NotificationsAfterDelete(s, region, name, event);
    assert EventSet([event], 1) == {event};
  }

  lemma DeleteEachStep(s: Store, region: string, name: string, events: seq<string>, n: nat)
    requires Holders(s, region, name) != {} && 0 < n <= |events| && !IsWildcard(events[n - 1])
    ensures DeleteEach(s, region, name, events, n)
         == Narrowed(DeleteEach(s, region, name, events, n - 1), region, name, {events[n - 1]})
  {
    DeleteOne(DeleteEach(s, region, name, events, n - 1), region, name, events[n - 1]);
  }

  lemma {:induction false} DeleteEachKeepsOthers(s: Store, region: string, name: string, events: seq<string>, n: nat)
    requires Holders(s, region, name) != {} && 0 < n <= |events|
    requires forall i :: 0 <= i < |events| ==> !IsWildcard(events[i])
    ensures DeleteEach(s, region, name, events, n) == Narrowed(s, region, name, EventSet(events, n))
  {
    DeleteEachStep(s, region, name, events, n);
    EventSetStep(events, n);
    if n == 1 {
      assert EventSet(events, 0) + {events[0]} == {events[0]};
    } else {
      DeleteEachKeepsOthers(s, region, name, events, n - 1);
      NarrowedTwice(s, region, name, EventSet(events, n - 1), {events[n - 1]});
    }
  }

  /** A class wildcard deletes what its concrete events delete one by one, in whatever order they are given. */
  lemma WildcardIsItsEvents(s: Store, region: string, name: string, wildcard: string, events: seq<string>)
    requires Holders(s, region, name) != {} && IsWildcard(wildcard) && AllowedEvents(wildcard) != []
    requires multiset(events) == multiset(AllowedEvents(wildcard))
    ensures IsAt(Found(s, region, name), region, name)
    ensures DeleteEach(s, region, name, events, |events|) == AfterDeleteNotifications(s, region, name, wildcard)
  {
    AllowedAreConcrete(wildcard);
    DeletedByWildcard(s, region, name, wildcard, AllowedEvents(wildcard), events);
  }

  lemma AllowedAreConcrete(wildcard: string)
    requires IsWildcard(wildcard)
    ensures ConcreteEvents(wildcard) == AllowedEvents(wildcard)
    ensures forall i :: 0 <= i < |AllowedEvents(wildcard)| ==> !IsWildcard(AllowedEvents(wildcard)[i])
  {
    NoWildcards(CREATED_EVENTS);
    NoWildcards(DELETED_EVENTS);
  }

  lemma DeletedByWildcard(s: Store, region: string, name: string, wildcard: string, all: seq<string>,
                          events: seq<string>)
    requires Holders(s, region, name) != {} && ConcreteEvents(wildcard) == all && all != []
    requires forall i :: 0 <= i < |all| ==> !IsWildcard(all[i])
    requires multiset(events) == multiset(all)
    ensures IsAt(Found(s, region, name), region, name)
    ensures DeleteEach(s, region, name, events, |events|) == AfterDeleteNotifications(s, region, name, wildcard)
  {
    NotificationsAfterDelete(s, region, name, wildcard);
    DeletedInAnyOrder(s, region, name, events, all);
  }

  lemma DeletedInAnyOrder(s: Store, region: string, name: string, events: seq<string>, all: seq<string>)
    requires Holders(s, region, name) != {} && all != [] && multiset(events) == multiset(all)
    requires forall i :: 0 <= i < |all| ==> !IsWildcard(all[i])
    ensures DeleteEach(s, region, name, events, |events|) == Narrowed(s, region, name, EventSet(all, |all|))
  {
    SameEvents(events, all);
    forall i | 0 <= i < |events| ensures !IsWildcard(events[i]) {
      assert events[i] in EventSet(events, |events|);
    }
    DeleteEachKeepsOthers(s, region, name, events, |events|);
  }

  lemma SameEvents(a: seq<string>, b: seq<string>)
    requires multiset(a) == multiset(b)
    ensures |a| == |b| && EventSet(a, |a|) == EventSet(b, |b|)
  {
    assert |multiset(a)| == |multiset(b)|;
    forall e ensures e in EventSet(a, |a|) <==> e in EventSet(b, |b|) {
      assert e in a <==> e in multiset(a);
      assert e in b <==> e in multiset(b);
    }
  }

  lemma NoStars()
    ensures forall i :: 0 <= i < |CREATED_EVENTS| ==> Free(CREATED_EVENTS[i], '*')
    ensures forall i :: 0 <= i < |DELETED_EVENTS| ==> Free(DELETED_EVENTS[i], '*')
  {
  }

  /** A wildcard stands for events of its own class: four of creation, two of removal, and none without a class. */
  lemma WildcardStaysInClass(wildcard: string)
    ensures "s3:ObjectCreated:" <= wildcard ==>
              && (forall i :: 0 <= i < |AllowedEvents(wildcard)| ==> "s3:ObjectCreated:" <= AllowedEvents(wildcard)[i])
              && AllowedEvents(wildcard) == ["s3:ObjectCreated:Put", "s3:ObjectCreated:Post", "s3:ObjectCreated:Copy",
                                             "s3:ObjectCreated:CompleteMultipartUpload"]
    ensures "s3:ObjectRemoved:" <= wildcard ==>
              && (forall i :: 0 <= i < |AllowedEvents(wildcard)| ==> "s3:ObjectRemoved:" <= AllowedEvents(wildcard)[i])
              && AllowedEvents(wildcard) == ["s3:ObjectRemoved:Delete", "s3:ObjectRemoved:DeleteMarkerCreated"]
    ensures !("s3:ObjectCreated:" <= wildcard) && !("s3:ObjectRemoved:" <= wildcard) ==> AllowedEvents(wildcard) == []
  {
    ClassesDiffer(wildcard);
  }

  lemma ClassesDiffer(event: string)
    ensures !("s3:ObjectCreated:" <= event && "s3:ObjectRemoved:" <= event)
  {
    assert "s3:ObjectCreated:"[9] == 'C' && "s3:ObjectRemoved:"[9] == 'R';
  }

  lemma NoWildcards(events: seq<string>)
    requires events == CREATED_EVENTS || events == DELETED_EVENTS
    ensures forall i :: 0 <= i < |events| ==> !IsWildcard(events[i])
  {
    NoStars();
    forall i | 0 <= i < |events| ensures !IsWildcard(events[i]) {
      FindNoChar(events[i], '*');
    }
  }

  /** An unclassed wildcard deletes nothing, but as a new notification it clears the bucket's notifications. */
  lemma UnclassedWildcard(s: Store, region: string, name: string, n: Notification)
    requires Holders(s, region, name) != {} && IsWildcard(n.event)
    ensures IsAt(Found(s, region, name), region, name)
    ensures var k := FirstHolder(s, region, name);
            && (AfterDeleteNotifications(s, region, name, n.event) == s[k := s[k].(oid := k)]
                <== !StartsWith(n.event, "s3:ObjectCreated:") && !StartsWith(n.event, "s3:ObjectRemoved:"))
            && (AfterCreateNotification(s, region, name, n) == s[k := s[k].(oid := k, notifications := [])]
                <==> !StartsWith(n.event, "s3:ObjectCreated:") && !StartsWith(n.event, "s3:ObjectRemoved:"))
  {
    NotificationsAfterCreate(s, region, name, n);
    NotificationsAfterDelete(s, region, name, n.event);
    var k := FirstHolder(s, region, name);
    if AllowedEvents(n.event) == [] {
      assert EventSet([], 0) == {};
      OthersOfNone(s[k].notifications);
    } else {
      assert |AfterCreateNotification(s, region, name, n)[k].notifications| > 0;
    }
  }

  /** A notification for a bucket that does not exist replaces the bucket without region and name, if there is one. */
  lemma MissingBucketOverwritesUnnamed(s: Store, region: string, name: string, n: Notification)
    requires Holders(s, region, name) == {} && Holders(s, "", "") != {}
    ensures AfterCreateNotification(s, region, name, n)
         == s[FirstHolder(s, "", "") := EMPTY_BUCKET.(notifications := NotificationsFor(n, ConcreteEvents(n.event)))]
    ensures AfterDeleteNotifications(s, region, name, n.event) == s[FirstHolder(s, "", "") := EMPTY_BUCKET]
  {
    var events := ConcreteEvents(n.event);
    WithoutAllKeepsOthers([], events, |events|);
  }
}
