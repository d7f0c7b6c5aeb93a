/**
 The message table of `SQSMemoryDb` as a value, and the effect of each locked operation on it.
 A store maps the UUID under which a message was inserted to the message.
 */
module SqsModel {
  import opened Orders
  import opened SizeT

  datatype MessageStatus = INITIAL | DELAYED | INVISIBLE | UNKNOWN

  /** The fields that the store reads or writes; `body` stands for the payload fields it only carries along. */
  datatype Message = Message(
    oid: string,
    region: string,
    queueUrl: string,
    body: string,
    status: MessageStatus,
    reset: int,
    retries: int,
    receiptHandle: string)

  const EMPTY_MESSAGE := Message("", "", "", "", INITIAL, 0, 0, "")

  type Store = map<string, Message>

  /** A clock may advance while a loop runs: this gives the reading taken when the message under a key is examined. */
  type Clock = map<string, int>

  /** Random generation as a parameter: the receipt handle generated when the message under a key is handed out. */
  type Handles = map<string, string>

  // ---- selections ----

  function OnQueue(s: Store, queueUrl: string): set<string> {
    set k | k in s && s[k].queueUrl == queueUrl
  }

  function OnRegionQueue(s: Store, region: string, queueUrl: string): set<string> {
    set k | k in s && s[k].region == region && s[k].queueUrl == queueUrl
  }

  function Holders(s: Store, receiptHandle: string): set<string> {
    set k | k in s && s[k].receiptHandle == receiptHandle
  }

  function WithOid(s: Store, oid: string): set<string> {
    set k | k in s && s[k].oid == oid
  }

  // ---- receive ----

  predicate IsEligible(m: Message, region: string, queueUrl: string) {
    m.region == region && m.queueUrl == queueUrl && m.status.INITIAL?
  }

  ghost function Eligible(s: Store, region: string, queueUrl: string): (ks: seq<string>)
    ensures Ascending(ks)
    ensures forall k :: k in ks <==> k in s && IsEligible(s[k], region, queueUrl)
  {
    SortedKeys(set k | k in s && IsEligible(s[k], region, queueUrl))
  }

  /** How many of `eligible` messages are handed out when the caller's list already holds `queued`. */
  function BatchSize(eligible: nat, maxMessages: int, queued: nat): nat {
    var room := AsSize(maxMessages) - queued;
    var wanted := if room < 1 then 1 else room;
    if eligible < wanted then eligible else wanted
  }

  /** The keys that one receive hands out. */
  ghost function Taken(s: Store, region: string, queueUrl: string, maxMessages: int, queued: nat): (ks: seq<string>)
    ensures forall k :: k in ks ==> k in s && IsEligible(s[k], region, queueUrl)
  {
    var ks := Eligible(s, region, queueUrl);
    ks[..BatchSize(|ks|, maxMessages, queued)]
  }

  /** What the receiver gets: the handle and the retry counter are new, status and reset time are not. */
  function Snapshot(m: Message, handle: string): Message {
    m.(retries := m.retries + 1, receiptHandle := handle)
  }

  /** The copies appended to the caller's list for `ks`. */
  function Snapshots(s: Store, ks: seq<string>, handles: Handles): seq<Message>
    requires s.Keys <= handles.Keys
  {
    seq(|ks|, i requires 0 <= i < |ks| => if ks[i] in s then Snapshot(s[ks[i]], handles[ks[i]]) else EMPTY_MESSAGE)
  }

  /** A copy carries the retry counter and the handle that the store now holds, but the old status and reset time. */
  lemma SnapshotAgrees(s: Store, ks: seq<string>, handles: Handles, reset: int, i: nat)
    requires s.Keys <= handles.Keys && i < |ks| && ks[i] in s
    ensures Snapshots(s, ks, handles)[i]
         == Deliver(s, ks, reset, handles)[ks[i]].(status := s[ks[i]].status, reset := s[ks[i]].reset)
  {
    assert ks[i] in ks;
  }

  /** What stays in the store. */
  function Delivered(m: Message, handle: string, reset: int): Message {
    Snapshot(m, handle).(status := INVISIBLE, reset := reset)
  }

  function Deliver(s: Store, ks: seq<string>, reset: int, handles: Handles): Store
    requires s.Keys <= handles.Keys
  {
    map k | k in s ::
      if k in ks then Delivered(s[k], handles[k], reset) else s[k]
  }

  ghost function AfterReceive(s: Store, region: string, queueUrl: string, maxMessages: int, queued: nat,
                        reset: int, handles: Handles): Store
    requires s.Keys <= handles.Keys
  {
    Deliver(s, Taken(s, region, queueUrl, maxMessages, queued), reset, handles)
  }

  // ---- maintenance ----

  predicate IsExpired(m: Message, queueUrl: string, now: int) {
    m.queueUrl == queueUrl && m.status.INVISIBLE? && m.reset < now
  }

  function AfterReset(s: Store, queueUrl: string, clock: Clock): Store
    requires s.Keys <= clock.Keys
  {
    map k | k in s ::
      if IsExpired(s[k], queueUrl, clock[k]) then s[k].(status := INITIAL, receiptHandle := "") else s[k]
  }

  predicate IsDue(m: Message, queueUrl: string, now: int) {
    m.queueUrl == queueUrl && m.status.DELAYED? && m.reset < now
  }

  function AfterResetDelayed(s: Store, queueUrl: string, clock: Clock): Store
    requires s.Keys <= clock.Keys
  {
    map k | k in s :: if IsDue(s[k], queueUrl, clock[k]) then s[k].(status := INITIAL) else s[k]
  }

  predicate IsExhausted(m: Message, queueUrl: string, maxReceiveCount: int) {
    m.queueUrl == queueUrl && m.status.INITIAL? && m.retries > maxReceiveCount
  }

  function AfterRedrive(s: Store, queueUrl: string, maxReceiveCount: int, dlqUrl: string): Store {
    map k | k in s ::
      if IsExhausted(s[k], queueUrl, maxReceiveCount) then s[k].(retries := 0, queueUrl := dlqUrl) else s[k]
  }

  // ---- insertion, lookup, update and removal ----

  function AfterCreate(s: Store, oid: string, message: Message): Store {
    s[oid := message.(oid := oid)]
  }

  /** A lookup writes the key into the message it finds. */
  function Stamped(s: Store, k: string): Store
    requires k in s
  {
    s[k := s[k].(oid := k)]
  }

  function AfterLookupById(s: Store, oid: string): Store {
    if oid in s then Stamped(s, oid) else s
  }

  ghost function AfterLookupByHandle(s: Store, receiptHandle: string): Store {
    if Holders(s, receiptHandle) == {} then s else Stamped(s, FirstKey(Holders(s, receiptHandle)))
  }

  /** An update overwrites the first message that carries the oid. */
  ghost function AfterUpdate(s: Store, message: Message): Store
    requires WithOid(s, message.oid) != {}
  {
    s[FirstKey(WithOid(s, message.oid)) := message]
  }

  /** `std::erase_if` with a predicate that selects `gone`. */
  function AfterErase(s: Store, gone: set<string>): Store {
    map k | k in s && k !in gone :: s[k]
  }

  // ---- facts about single operations ----

  /** One receive hands out distinct messages in key order, and exactly those stop being eligible. */
  lemma ReceiveIsExact(s: Store, region: string, queueUrl: string, maxMessages: int, queued: nat,
                       reset: int, handles: Handles)
    requires s.Keys <= handles.Keys
    ensures var ks := Taken(s, region, queueUrl, maxMessages, queued);
            var e := Eligible(s, region, queueUrl);
            var t := Deliver(s, ks, reset, handles);
            && ks <= e && InOrder(e)
            && (forall k :: k in e <==>
                  k in s && s[k].region == region && s[k].queueUrl == queueUrl && s[k].status == INITIAL)
            && Eligible(t, region, queueUrl) == e[|ks|..]
            && t.Keys == s.Keys && (forall k :: k in s && k !in ks ==> t[k] == s[k])
            && (maxMessages >= 0 ==>
                  var wanted := if maxMessages - queued > 1 then maxMessages - queued else 1;
                  |ks| == if |e| < wanted then |e| else wanted)
            && (-0x8000_0000 <= maxMessages < 0 && |e| + queued < 0xFFFF_FFFF_8000_0000 ==> ks == e)
  {
    var ks := Taken(s, region, queueUrl, maxMessages, queued);
    var e := Eligible(s, region, queueUrl);
    AscendingSplit(e, |ks|);
    AscendingIsInOrder(e);
    AscendingIsUnique(Eligible(Deliver(s, ks, reset, handles), region, queueUrl), e[|ks|..]);
  }

  function Exhausted(s: Store, queueUrl: string, maxReceiveCount: int): set<string> {
    set k | k in s && IsExhausted(s[k], queueUrl, maxReceiveCount)
  }

  lemma RedriveMoves(s: Store, queueUrl: string, maxReceiveCount: int, dlqUrl: string)
    requires queueUrl != dlqUrl
    ensures var t := AfterRedrive(s, queueUrl, maxReceiveCount, dlqUrl);
            var moved := Exhausted(s, queueUrl, maxReceiveCount);
            && OnQueue(t, queueUrl) == OnQueue(s, queueUrl) - moved
            && OnQueue(t, dlqUrl) == OnQueue(s, dlqUrl) + moved
            && moved <= OnQueue(s, queueUrl) && moved !! OnQueue(s, dlqUrl)
            && Exhausted(t, queueUrl, maxReceiveCount) == {}
  {}

  lemma RedriveSettles(s: Store, queueUrl: string, maxReceiveCount: int, dlqUrl: string)
    requires Exhausted(s, queueUrl, maxReceiveCount) == {}
    ensures AfterRedrive(s, queueUrl, maxReceiveCount, dlqUrl) == s
  {
    var t := AfterRedrive(s, queueUrl, maxReceiveCount, dlqUrl);
    forall k | k in s ensures t[k] == s[k] {
      assert k !in Exhausted(s, queueUrl, maxReceiveCount);
    }
  }

  /** With the dead letter queue elsewhere, a redrive moves every exhausted message and nothing else. */
  lemma RedriveConserves(s: Store, queueUrl: string, maxReceiveCount: int, dlqUrl: string)
    requires queueUrl != dlqUrl
    ensures var t := AfterRedrive(s, queueUrl, maxReceiveCount, dlqUrl);
            var moved := Exhausted(s, queueUrl, maxReceiveCount);
            && t.Keys == s.Keys
            && (forall k :: k in s ==> t[k].body == s[k].body && t[k].status == s[k].status)
            && |OnQueue(t, queueUrl)| == |OnQueue(s, queueUrl)| - |moved|
            && |OnQueue(t, dlqUrl)| == |OnQueue(s, dlqUrl)| + |moved|
            && Exhausted(t, queueUrl, maxReceiveCount) == {}
            && AfterRedrive(t, queueUrl, maxReceiveCount, dlqUrl) == t
  {
    var t := AfterRedrive(s, queueUrl, maxReceiveCount, dlqUrl);
    RedriveMoves(s, queueUrl, maxReceiveCount, dlqUrl);
    RedriveSettles(t, queueUrl, maxReceiveCount, dlqUrl);
  }

  /** Redriving a queue into itself moves nothing and forgives every exhausted message. */
  lemma SelfRedriveForgives(s: Store, queueUrl: string, maxReceiveCount: int)
    requires maxReceiveCount >= 0
    ensures var t := AfterRedrive(s, queueUrl, maxReceiveCount, queueUrl);
            && OnQueue(t, queueUrl) == OnQueue(s, queueUrl)
            && Exhausted(t, queueUrl, maxReceiveCount) == {}
            && (forall k :: k in Exhausted(s, queueUrl, maxReceiveCount) ==> t[k].retries == 0)
  {
    var t := AfterRedrive(s, queueUrl, maxReceiveCount, queueUrl);
    assert OnQueue(t, queueUrl) == OnQueue(s, queueUrl);
  }

  // ---- counting ----

  /** What `CountMessages` counts: an empty region or queue URL matches everything. */
  function Matching(s: Store, region: string, queueUrl: string): set<string> {
    set k | k in s && (region == "" || s[k].region == region) && (queueUrl == "" || s[k].queueUrl == queueUrl)
  }

  /** Both arguments empty count all messages, one empty argument leaves the other one to decide. */
  lemma EmptyMatchesAll(s: Store, region: string, queueUrl: string)
    ensures Matching(s, "", "") == s.Keys && |Matching(s, "", "")| == |s|
    ensures region != "" ==> forall k :: k in Matching(s, region, "") <==> k in s && s[k].region == region
    ensures queueUrl != "" ==> forall k :: k in Matching(s, "", queueUrl) <==> k in s && s[k].queueUrl == queueUrl
    ensures region != "" && queueUrl != "" ==>
              forall k :: k in Matching(s, region, queueUrl) <==>
                            k in s && s[k].region == region && s[k].queueUrl == queueUrl
  {
    assert Matching(s, "", "") == s.Keys;
  }

  /** What `CountMessagesByStatus` counts: an empty region or queue URL matches only the empty string. */
  function WithStatus(s: Store, region: string, queueUrl: string, status: MessageStatus): set<string> {
    set k | k in s && s[k].region == region && s[k].queueUrl == queueUrl && s[k].status == status
  }

  function StatusTotal(s: Store, region: string, queueUrl: string): nat {
    |WithStatus(s, region, queueUrl, INITIAL)| + |WithStatus(s, region, queueUrl, DELAYED)|
    + |WithStatus(s, region, queueUrl, INVISIBLE)| + |WithStatus(s, region, queueUrl, UNKNOWN)|
  }

  lemma FourDisjoint(a: set<string>, b: set<string>, c: set<string>, d: set<string>)
    requires a !! b && a !! c && a !! d && b !! c && b !! d && c !! d
    ensures |a + b + c + d| == |a| + |b| + |c| + |d|
  {
    assert a + b !! c && a + b + c !! d;
  }

  lemma StatusesCover(s: Store, region: string, queueUrl: string)
    ensures OnRegionQueue(s, region, queueUrl)
         == WithStatus(s, region, queueUrl, INITIAL) + WithStatus(s, region, queueUrl, DELAYED)
            + WithStatus(s, region, queueUrl, INVISIBLE) + WithStatus(s, region, queueUrl, UNKNOWN)
  {
  }

  lemma StatusesExclude(s: Store, region: string, queueUrl: string, x: MessageStatus, y: MessageStatus)
    requires x != y
    ensures WithStatus(s, region, queueUrl, x) !! WithStatus(s, region, queueUrl, y)
  {
  }

  lemma StatusTotalIsExact(s: Store, region: string, queueUrl: string)
    ensures StatusTotal(s, region, queueUrl) == |OnRegionQueue(s, region, queueUrl)|
  {
    StatusesCover(s, region, queueUrl);
    StatusesExclude(s, region, queueUrl, INITIAL, DELAYED);
    StatusesExclude(s, region, queueUrl, INITIAL, INVISIBLE);
    StatusesExclude(s, region, queueUrl, INITIAL, UNKNOWN);
    StatusesExclude(s, region, queueUrl, DELAYED, INVISIBLE);
    StatusesExclude(s, region, queueUrl, DELAYED, UNKNOWN);
    StatusesExclude(s, region, queueUrl, INVISIBLE, UNKNOWN);
    FourDisjoint(WithStatus(s, region, queueUrl, INITIAL), WithStatus(s, region, queueUrl, DELAYED),
                 WithStatus(s, region, queueUrl, INVISIBLE), WithStatus(s, region, queueUrl, UNKNOWN));
  }

  /**
   The four per-status counts add up to `CountMessages` exactly when every message counted through an
   empty argument really has the empty string there; so always for a non-empty region and queue URL.
   */
  lemma StatusCountsSum(s: Store, region: string, queueUrl: string)
    ensures StatusTotal(s, region, queueUrl) == |Matching(s, region, queueUrl)|
       <==> forall k :: k in Matching(s, region, queueUrl) ==> s[k].region == region && s[k].queueUrl == queueUrl
    ensures region != "" && queueUrl != "" ==> StatusTotal(s, region, queueUrl) == |Matching(s, region, queueUrl)|
  {
    StatusTotalIsExact(s, region, queueUrl);
    var exact := OnRegionQueue(s, region, queueUrl);
    var extra := Matching(s, region, queueUrl) - exact;
    assert Matching(s, region, queueUrl) == exact + extra;
    assert extra == {} <==> |extra| == 0;
    assert forall k :: k in extra ==> !(s[k].region == region && s[k].queueUrl == queueUrl);
    assert extra == {} <==> forall k :: k in Matching(s, region, queueUrl) ==> k in exact;
  }
}
