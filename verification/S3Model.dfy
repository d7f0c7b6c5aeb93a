/** Buckets, their notifications, and the effect of every operation on the bucket store as a value. */
module S3Model {
  import opened Orders
  import opened StringUtils

  datatype Notification = Notification(event: string, notificationId: string, queueArn: string, lambdaArn: string)

  datatype VersionStatus = ENABLED | SUSPENDED | DISABLED

  datatype Bucket = Bucket(oid: string, region: string, name: string, owner: string,
                           notifications: seq<Notification>, versionStatus: VersionStatus)

  /** What is returned where nothing is found. */
  const EMPTY_BUCKET := Bucket("", "", "", "", [], DISABLED)

  type Store = map<string, Bucket>

  // ---- the store ----

  predicate IsAt(b: Bucket, region: string, name: string) {
    b.region == region && b.name == name
  }

  function Holders(s: Store, region: string, name: string): set<string> {
    set k | k in s && IsAt(s[k], region, name)
  }

  /** Where a linear search over the map ends. */
  ghost function FirstHolder(s: Store, region: string, name: string): (k: string)
    requires Holders(s, region, name) != {}
    ensures IsFirst(k, Holders(s, region, name))
  {
    FirstKey(Holders(s, region, name))
  }

  /** A lookup by region and name, which also writes the key into the bucket it finds. */
  ghost function Found(s: Store, region: string, name: string): Bucket {
    if Holders(s, region, name) == {} then EMPTY_BUCKET
    else var k := FirstHolder(s, region, name); s[k].(oid := k)
  }

  ghost function AfterLookup(s: Store, region: string, name: string): Store {
    if Holders(s, region, name) == {} then s else s[FirstHolder(s, region, name) := Found(s, region, name)]
  }

  function AfterCreate(s: Store, bucket: Bucket, oid: string): Store {
    s[oid := bucket.(oid := oid)]
  }

  ghost function AfterUpdate(s: Store, bucket: Bucket): Store
    requires Holders(s, bucket.region, bucket.name) != {}
  {
    s[FirstHolder(s, bucket.region, bucket.name) := bucket]
  }

  function AfterDelete(s: Store, region: string, name: string): Store {
    map k | k in s && !IsAt(s[k], region, name) :: s[k]
  }

  ghost function AfterCreateOrUpdate(s: Store, bucket: Bucket, oid: string): Store {
    if Holders(s, bucket.region, bucket.name) != {} then AfterUpdate(s, bucket) else AfterCreate(s, bucket, oid)
  }

  // ---- notifications ----

  const CREATED_EVENTS := ["s3:ObjectCreated:Put", "s3:ObjectCreated:Post", "s3:ObjectCreated:Copy",
                           "s3:ObjectCreated:CompleteMultipartUpload"]

  const DELETED_EVENTS := ["s3:ObjectRemoved:Delete", "s3:ObjectRemoved:DeleteMarkerCreated"]

  predicate IsWildcard(event: string) {
    Contains(event, "*")
  }

  /** The events that a wildcard stands for; one that belongs to no class stands for none. */
  function AllowedEvents(event: string): seq<string> {
    if StartsWith(event, "s3:ObjectCreated:") then CREATED_EVENTS
    else if StartsWith(event, "s3:ObjectRemoved:") then DELETED_EVENTS
    else []
  }

  function ConcreteEvents(event: string): seq<string> {
    if IsWildcard(event) then AllowedEvents(event) else [event]
  }

  /** One notification an event. */
  function NotificationsFor(n: Notification, events: seq<string>): (ns: seq<Notification>)
    ensures |ns| == |events| && forall i :: 0 <= i < |events| ==> ns[i] == n.(event := events[i])
  {
    seq(|events|, i requires 0 <= i < |events| => n.(event := events[i]))
  }

  /** `erase` with `remove_if`: the notifications of other events, in their order. */
  function Without(ns: seq<Notification>, event: string): seq<Notification> {
    if ns == [] then []
    else (if ns[0].event == event then [] else [ns[0]]) + Without(ns[1..], event)
  }

  /** The first `n` events removed one after the other. */
  function WithoutAll(ns: seq<Notification>, events: seq<string>, n: nat): seq<Notification>
    requires n <= |events|
  {
    if n == 0 then ns else Without(WithoutAll(ns, events, n - 1), events[n - 1])
  }

  ghost function AfterCreateNotification(s: Store, region: string, name: string, n: Notification): Store
    requires var b := Found(s, region, name); Holders(s, b.region, b.name) != {}
  {
    WriteBack(s, region, name, NotificationsFor(n, ConcreteEvents(n.event)))
  }

  ghost function AfterDeleteNotifications(s: Store, region: string, name: string, event: string): Store
    requires var b := Found(s, region, name); Holders(s, b.region, b.name) != {}
  {
    var events := ConcreteEvents(event);
    WriteBack(s, region, name, WithoutAll(Found(s, region, name).notifications, events, |events|))
  }

  /** The bucket that a lookup gives is written back with other notifications, wherever its region and name are found. */
  ghost function WriteBack(s: Store, region: string, name: string, ns: seq<Notification>): Store
    requires var b := Found(s, region, name); Holders(s, b.region, b.name) != {}
  {
    LookupKeepsHolders(s, region, name, Found(s, region, name).region, Found(s, region, name).name);
    AfterUpdate(AfterLookup(s, region, name), Found(s, region, name).(notifications := ns))
  }

  lemma LookupKeepsHolders(s: Store, region: string, name: string, r: string, n: string)
    ensures Holders(AfterLookup(s, region, name), r, n) == Holders(s, r, n)
  {
  }

  /** For a bucket that is there, only its own entry changes. */
  lemma WriteBackExisting(s: Store, region: string, name: string, ns: seq<Notification>)
    requires Holders(s, region, name) != {}
    ensures IsAt(Found(s, region, name), region, name)
    ensures var k := FirstHolder(s, region, name);
            WriteBack(s, region, name, ns) == s[k := s[k].(oid := k, notifications := ns)]
  {
    LookupKeepsHolders(s, region, name, region, name);
    FirstIsUnique(Holders(s, region, name), FirstHolder(s, region, name),
                  FirstHolder(AfterLookup(s, region, name), region, name));
  }
}
