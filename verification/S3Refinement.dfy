/** Every run of the searched, randomly keyed bucket store is a run of a plain map from region and name to bucket. */
module S3Refinement {
  import opened S3Model
  import opened S3Theorems

  datatype Event =
    | CreateOrUpdate(bucket: Bucket, oid: string)
    | Delete(region: string, name: string)
    | LookUp(region: string, name: string)
    | CreateNotification(region: string, name: string, notification: Notification)
    | DeleteNotifications(region: string, name: string, event: string)

  /** Identifiers are fresh, and notifications go to buckets that exist. */
  predicate Enabled(s: Store, e: Event) {
    match e
    case CreateOrUpdate(_, oid) => oid !in s
    case CreateNotification(region, name, _) => Holders(s, region, name) != {}
    case DeleteNotifications(region, name, _) => Holders(s, region, name) != {}
    case _ => true
  }

  ghost function Step(s: Store, e: Event): Store
    requires Enabled(s, e)
  {
    match e
    case CreateOrUpdate(bucket, oid) => AfterCreateOrUpdate(s, bucket, oid)
    case Delete(region, name) => AfterDelete(s, region, name)
    case LookUp(region, name) => AfterLookup(s, region, name)
    case CreateNotification(region, name, n) =>
      NotificationsAfterCreate(s, region, name, n);
      AfterCreateNotification(s, region, name, n)
    case DeleteNotifications(region, name, event) =>
      NotificationsAfterDelete(s, region, name, event);
      AfterDeleteNotifications(s, region, name, event)
  }

  // ---- the plain map ----

  type Place = (string, string)
  type Plain = map<Place, Bucket>

  function At(b: Bucket): Place {
    (b.region, b.name)
  }

  /** A bucket without its key. */
  function Bare(b: Bucket): Bucket {
    b.(oid := "")
  }

  function PlainStep(m: Plain, e: Event): Plain {
    match e
    case CreateOrUpdate(bucket, _) => m[At(bucket) := Bare(bucket)]
    case Delete(region, name) => m - {(region, name)}
    case LookUp(_, _) => m
    case CreateNotification(region, name, n) =>
      if (region, name) !in m then m
      else m[(region, name) := m[(region, name)].(notifications := NotificationsFor(n, ConcreteEvents(n.event)))]
    case DeleteNotifications(region, name, event) =>
      if (region, name) !in m then m
      else
        var b, events := m[(region, name)], ConcreteEvents(event);
        m[(region, name) := b.(notifications := Others(b.notifications, EventSet(events, |events|)))]
  }

  /** The store has one entry for every place of the map, with its bucket. */
  ghost predicate Represents(s: Store, m: Plain) {
    && (forall k :: k in s ==> At(s[k]) in m && m[At(s[k])] == Bare(s[k]))
    && (forall p :: p in m ==> exists k :: k in s && At(s[k]) == p)
    && OnePerPlace(s)
  }

  predicate OnePerPlace(s: Store) {
    forall j, k :: j in s && k in s && At(s[j]) == At(s[k]) ==> j == k
  }

  // ---- every step refines ----

  lemma HolderOf(s: Store, m: Plain, region: string, name: string)
    requires Represents(s, m)
    ensures Holders(s, region, name) != {} <==> (region, name) in m
    ensures Holders(s, region, name) != {} ==>
              var k := FirstHolder(s, region, name);
              k in s && At(s[k]) == (region, name) && m[(region, name)] == Bare(s[k])
  {
    if (region, name) in m {
      var k :| k in s && At(s[k]) == (region, name);
      assert k in Holders(s, region, name);
    }
    if Holders(s, region, name) != {} {
      var k := FirstHolder(s, region, name);
      assert k in Holders(s, region, name);
      assert At(s[k]) == (region, name);
    }
  }

  /** Writing a bucket over the one at its place, or under a new key at a new place. */
  lemma PutRefines(s: Store, m: Plain, k: string, b: Bucket)
    requires Represents(s, m)
    requires if k in s then At(s[k]) == At(b) else At(b) !in m
    ensures Represents(s[k := b], m[At(b) := Bare(b)])
  {
    PutIsOnePerPlace(s, m, k, b);
    PutCovers(s, m, k, b, s[k := b], m[At(b) := Bare(b)]);
  }

  lemma PutCovers(s: Store, m: Plain, k: string, b: Bucket, t: Store, n: Plain)
    requires Represents(s, m) && (if k in s then At(s[k]) == At(b) else At(b) !in m)
    requires t == s[k := b] && n == m[At(b) := Bare(b)]
    ensures forall p :: p in n ==> exists j :: j in t && At(t[j]) == p
  {
    forall p | p in n ensures exists j :: j in t && At(t[j]) == p {
      if p == At(b) {
        assert At(t[k]) == p;
      } else {
        var j :| j in s && At(s[j]) == p;
        assert At(t[j]) == p;
      }
    }
  }

  lemma PutIsOnePerPlace(s: Store, m: Plain, k: string, b: Bucket)
    requires Represents(s, m) && (if k in s then At(s[k]) == At(b) else At(b) !in m)
    ensures OnePerPlace(s[k := b]) && forall j :: j in s && j != k ==> At(s[j]) != At(b)
  {
    var t := s[k := b];
    forall j | j in s && j != k ensures At(s[j]) != At(b) {
      assert At(s[j]) in m;
    }
    forall i, j | i in t && j in t && At(t[i]) == At(t[j]) ensures i == j {
      assert i != k ==> i in s && t[i] == s[i];
      assert j != k ==> j in s && t[j] == s[j];
    }
  }

  lemma DeleteRefines(s: Store, m: Plain, region: string, name: string)
    requires Represents(s, m)
    ensures Represents(AfterDelete(s, region, name), m - {(region, name)})
  {
    var t := AfterDelete(s, region, name);
    forall p | p in m - {(region, name)} ensures exists j :: j in t && At(t[j]) == p {
      var j :| j in s && At(s[j]) == p;
      assert At(t[j]) == p;
    }
    forall i, j | i in t && j in t && At(t[i]) == At(t[j]) ensures i == j {
      assert At(s[i]) == At(s[j]);
    }
  }

  lemma LookupRefines(s: Store, m: Plain, region: string, name: string)
    requires Represents(s, m)
    ensures Represents(AfterLookup(s, region, name), m)
    ensures Bare(Found(s, region, name)) == if (region, name) in m then m[(region, name)] else EMPTY_BUCKET
  {
    HolderOf(s, m, region, name);
    if Holders(s, region, name) != {} {
      var k := FirstHolder(s, region, name);
      var b := Found(s, region, name);
      PutRefines(s, m, k, b);
      assert m[At(b) := Bare(b)] == m;
    }
  }

  lemma NotifyRefines(s: Store, m: Plain, region: string, name: string, ns: seq<Notification>)
    requires Represents(s, m) && Holders(s, region, name) != {}
    ensures (region, name) in m
    ensures var k := FirstHolder(s, region, name);
            Represents(s[k := s[k].(oid := k, notifications := ns)],
                       m[(region, name) := m[(region, name)].(notifications := ns)])
  {
    HolderOf(s, m, region, name);
    var k := FirstHolder(s, region, name);
    PutRefines(s, m, k, s[k].(oid := k, notifications := ns));
  }

  lemma StepRefines(s: Store, m: Plain, e: Event)
    requires Represents(s, m) && Enabled(s, e)
    ensures Represents(Step(s, e), PlainStep(m, e))
  {
    match e
    case CreateOrUpdate(bucket, oid) =>
      HolderOf(s, m, bucket.region, bucket.name);
      if Holders(s, bucket.region, bucket.name) != {} {
        PutRefines(s, m, FirstHolder(s, bucket.region, bucket.name), bucket);
      } else {
        PutRefines(s, m, oid, bucket.(oid := oid));
      }
    case Delete(region, name) => DeleteRefines(s, m, region, name);
    case LookUp(region, name) => LookupRefines(s, m, region, name);
    case CreateNotification(region, name, n) =>
      NotificationsAfterCreate(s, region, name, n);
      NotifyRefines(s, m, region, name, NotificationsFor(n, ConcreteEvents(n.event)));
    case DeleteNotifications(region, name, event) =>
      var events := ConcreteEvents(event);
      HolderOf(s, m, region, name);
      NotificationsAfterDelete(s, region, name, event);
      NotifyRefines(s, m, region, name,
                    Others(s[FirstHolder(s, region, name)].notifications, EventSet(events, |events|)));
  }

  // ---- every run refines ----

  ghost predicate Legal(es: seq<Event>)
    decreases |es|, 0
  {
    es == [] || (Legal(es[..|es| - 1]) && Enabled(Run(es[..|es| - 1]), es[|es| - 1]))
  }

  /** The store after a run from the empty one. */
  ghost function Run(es: seq<Event>): Store
    requires Legal(es)
    decreases |es|, 1
  {
    if es == [] then map[] else Step(Run(es[..|es| - 1]), es[|es| - 1])
  }

  function PlainRun(es: seq<Event>): Plain {
    if es == [] then map[] else PlainStep(PlainRun(es[..|es| - 1]), es[|es| - 1])
  }

  lemma {:induction false} RunRefines(es: seq<Event>)
    requires Legal(es)
    ensures Represents(Run(es), PlainRun(es))
  {
    if es == [] {
      assert Run(es) == map[] && PlainRun(es) == map[];
    } else {
      RunRefines(es[..|es| - 1]);
      StepRefines(Run(es[..|es| - 1]), PlainRun(es[..|es| - 1]), es[|es| - 1]);
    }
  }

  lemma {:induction false} SizesAgree(s: Store, m: Plain)
    requires Represents(s, m)
    ensures |s| == |m|
  {
    if s == map[] {
      assert m == map[] by {
        forall p ensures p !in m {
        }
      }
    } else {
      var k :| k in s;
      OneLess(s, m, k);
      SizesAgree(s - {k}, m - {At(s[k])});
      Shrinks(s, k);
      Shrinks(m, At(s[k]));
    }
  }

  lemma Shrinks<K, V>(m: map<K, V>, k: K)
    requires k in m
    ensures |m - {k}| == |m| - 1
  {
    assert (m - {k}).Keys == m.Keys - {k};
  }

  lemma OneLess(s: Store, m: Plain, k: string)
    requires Represents(s, m) && k in s
    ensures Represents(s - {k}, m - {At(s[k])})
  {
    var t, n := s - {k}, m - {At(s[k])};
    forall j | j in t ensures At(t[j]) in n {
      assert At(s[j]) != At(s[k]);
    }
    forall p | p in n ensures exists j :: j in t && At(t[j]) == p {
      var j :| j in s && At(s[j]) == p;
      assert At(t[j]) == p;
    }
    forall i, j | i in t && j in t && At(t[i]) == At(t[j]) ensures i == j {
      assert At(s[i]) == At(s[j]);
    }
  }

  lemma OneHolder(s: Store, region: string, name: string)
    requires OnePerPlace(s)
    ensures |Holders(s, region, name)| <= 1
  {
    if Holders(s, region, name) != {} {
      var k :| k in Holders(s, region, name);
      forall j | j in Holders(s, region, name) ensures j == k {
        assert At(s[j]) == At(s[k]);
      }
      assert Holders(s, region, name) == {k};
    }
  }

  /**
   * After any run from the empty store: no two entries share region and name, a lookup gives what the plain map has
   * there, up to the key, a bucket exists where the plain map has one, and the count is the size of the plain map.
   */
  lemma StoreIsAPlainMap(es: seq<Event>, region: string, name: string)
    requires Legal(es)
    ensures var s, m := Run(es), PlainRun(es);
            && OnePerPlace(s)
            && Bare(Found(s, region, name)) == (if (region, name) in m then m[(region, name)] else EMPTY_BUCKET)
            && (Holders(s, region, name) != {} <==> (region, name) in m)
            && |Holders(s, region, name)| <= 1
            && |s| == |m|
  {
    var s, m := Run(es), PlainRun(es);
    RunRefines(es);
    LookupRefines(s, m, region, name);
    HolderOf(s, m, region, name);
    SizesAgree(s, m);
    OneHolder(s, region, name);
  }
}
