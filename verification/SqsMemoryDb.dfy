/** `SQSMemoryDb`: the locked operations, each proved against its effect on the store value. */
module SqsMemoryDb {
  import opened Orders
  import opened SizeT
  import opened SqsModel
  import Arn

  /** The caller's list that `ReceiveMessages` appends to. */
  class MessageList {
    var items: seq<Message>

    constructor ()
      ensures items == []
    {
      items := [];
    }
  }

  class SQSMemoryDb {
    var messages: Store

    constructor ()
      ensures messages == map[]
    {
      messages := map[];
    }

    method CreateMessage(message: Message, oid: string) returns (result: Message)
      modifies this
      ensures messages == AfterCreate(old(messages), oid, message)
      ensures result == message.(oid := oid)
    {
      messages := messages[oid := message];
      result := GetMessageById(oid);
    }

    /** A lookup also writes the key into the message it finds. */
    method GetMessageById(oid: string) returns (result: Message)
      modifies this
      ensures messages == AfterLookupById(old(messages), oid)
      ensures result == if oid in old(messages) then old(messages)[oid].(oid := oid) else EMPTY_MESSAGE
    {
      if oid in messages {
        messages := messages[oid := messages[oid].(oid := oid)];
        return messages[oid];
      }
      return EMPTY_MESSAGE;
    }

    method GetMessageByReceiptHandle(receiptHandle: string) returns (result: Message)
      modifies this
      ensures messages == AfterLookupByHandle(old(messages), receiptHandle)
      ensures result == if Holders(old(messages), receiptHandle) == {} then EMPTY_MESSAGE
                        else messages[FirstKey(Holders(old(messages), receiptHandle))]
    {
      ghost var holders := Holders(messages, receiptHandle);
      var ks := Iterate(messages.Keys);
      var i := 0;
      while i < |ks|
        invariant 0 <= i <= |ks| && messages == old(messages)
        invariant forall j :: 0 <= j < i ==> ks[j] !in holders
      {
        if messages[ks[i]].receiptHandle == receiptHandle {
          FirstOfIteration(ks, i, holders);
          FirstIsUnique(holders, ks[i], FirstKey(holders));
          result := messages[ks[i]].(oid := ks[i]);
          messages := messages[ks[i] := result];
          return;
        }
        i := i + 1;
      }
      assert holders == {};
      result := EMPTY_MESSAGE;
    }

    /** The source dereferences the end iterator when no stored message carries the oid. */
    method UpdateMessage(message: Message) returns (result: Message)
      requires WithOid(messages, message.oid) != {}
      modifies this
      ensures result == message
      ensures messages == AfterUpdate(old(messages), message)
    {
      ghost var same := WithOid(messages, message.oid);
      var ks := Iterate(messages.Keys);
      var i := 0;
      while messages[ks[i]].oid != message.oid
        invariant 0 <= i < |ks| && messages == old(messages)
        invariant forall j :: 0 <= j < i ==> messages[ks[j]].oid != message.oid
        decreases |ks| - i
      {
        ghost var k :| k in same;
        assert k in ks;
        i := i + 1;
      }
      FirstOfIteration(ks, i, same);
      FirstIsUnique(same, ks[i], FirstKey(same));
      messages := messages[ks[i] := message];
      result := messages[ks[i]];
    }

    method ReceiveMessages(region: string, queueUrl: string, visibility: int, maxMessages: int,
                           messageList: MessageList, now: int, handles: Handles)
      requires messages.Keys <= handles.Keys
      modifies this, messageList
      ensures messages == AfterReceive(old(messages), region, queueUrl, maxMessages, |old(messageList.items)|,
                                       now + visibility, handles)
      ensures messageList.items == old(messageList.items)
              + Snapshots(old(messages),
                          Taken(old(messages), region, queueUrl, maxMessages, |old(messageList.items)|), handles)
    {
      ghost var s, queued := messages, messageList.items;
      var ks := Iterate(messages.Keys);
      ghost var n, full := HandOutAll(ks, region, queueUrl, now + visibility, maxMessages, messageList, handles);
      ReceiveIsDone(s, queued, ks, n, region, queueUrl, now + visibility, maxMessages, handles,
                    messages, messageList.items, full);
    }

    /** The receive loop, which stops at key `n`. */
    method HandOutAll(ks: seq<string>, region: string, queueUrl: string, reset: int, maxMessages: int,
                      messageList: MessageList, handles: Handles) returns (ghost n: nat, full: bool)
      requires Lists(ks, messages.Keys) && messages.Keys <= handles.Keys
      modifies this, messageList
      ensures n <= |ks| && (n == |ks| || full)
      ensures HandedOut(old(messages), old(messageList.items), Pick(old(messages), ks, n, region, queueUrl),
                        reset, handles, messages, messageList.items)
      ensures Fills(|old(messageList.items)|, |messageList.items|, maxMessages, full)
    {
      ghost var s, queued := messages, messageList.items;
      var i := 0;
      full := false;
      while i < |ks| && !full
        invariant i <= |ks|
        invariant HandedOut(s, queued, Pick(s, ks, i, region, queueUrl), reset, handles, messages, messageList.items)
        invariant Fills(|queued|, |messageList.items|, maxMessages, full)
      {
        VisitOne(s, queued, ks, i, region, queueUrl, reset, handles, messages, messageList.items);
        full := HandOut(ks[i], region, queueUrl, reset, handles[ks[i]], maxMessages, messageList);
        i := i + 1;
      }
      n := i;
    }

    /** The body of the receive loop: the receiver's copy is taken before status and reset time change. */
    method HandOut(k: string, region: string, queueUrl: string, reset: int, handle: string, maxMessages: int,
                   messageList: MessageList) returns (full: bool)
      requires k in messages
      modifies this, messageList
      ensures var m := old(messages)[k];
              var eligible := IsEligible(m, region, queueUrl);
              && messages == (if eligible then old(messages)[k := Delivered(m, handle, reset)] else old(messages))
              && messageList.items == old(messageList.items) + (if eligible then [Snapshot(m, handle)] else [])
              && full == (eligible && |messageList.items| >= AsSize(maxMessages))
    {
      full := false;
      var message := messages[k];
      if message.region == region && message.queueUrl == queueUrl && message.status.INITIAL? {
        message := message.(retries := message.retries + 1);
        message := message.(receiptHandle := handle);
        messageList.items := messageList.items + [message];

        message := message.(status := INVISIBLE);
        message := message.(reset := reset);
        messages := messages[k := message];

        full := |messageList.items| >= AsSize(maxMessages);
      }
    }

    method ResetMessages(queueUrl: string, clock: Clock)
      requires messages.Keys <= clock.Keys
      modifies this
      ensures messages == AfterReset(old(messages), queueUrl, clock)
    {
      var ks := Iterate(messages.Keys);
      ghost var s := messages;
      ghost var t := AfterReset(s, queueUrl, clock);
      for i := 0 to |ks|
        invariant messages == Partly(s, t, ks[..i])
      {
        PartlyStep(s, t, ks, i);
        var message := messages[ks[i]];
        if message.queueUrl == queueUrl && message.status.INVISIBLE? && message.reset < clock[ks[i]] {
          message := message.(status := INITIAL, receiptHandle := "");
          messages := messages[ks[i] := message];
        }
      }
      PartlyDone(s, t, ks);
    }

    method ResetDelayedMessages(queueUrl: string, clock: Clock)
      requires messages.Keys <= clock.Keys
      modifies this
      ensures messages == AfterResetDelayed(old(messages), queueUrl, clock)
    {
      var ks := Iterate(messages.Keys);
      ghost var s := messages;
      ghost var t := AfterResetDelayed(s, queueUrl, clock);
      for i := 0 to |ks|
        invariant messages == Partly(s, t, ks[..i])
      {
        PartlyStep(s, t, ks, i);
        var message := messages[ks[i]];
        if message.queueUrl == queueUrl && message.status.DELAYED? && message.reset < clock[ks[i]] {
          messages := messages[ks[i] := message.(status := INITIAL)];
        }
      }
      PartlyDone(s, t, ks);
    }

    method RedriveMessages(queueUrl: string, deadLetterTargetArn: string, maxReceiveCount: int, config: Arn.Config)
      modifies this
      ensures messages == AfterRedrive(old(messages), queueUrl, maxReceiveCount,
                                       Arn.ConvertSQSQueueArnToUrl(config, deadLetterTargetArn))
    {
      var dlqUrl := Arn.ConvertSQSQueueArnToUrl(config, deadLetterTargetArn);
      var ks := Iterate(messages.Keys);
      ghost var s := messages;
      ghost var t := AfterRedrive(s, queueUrl, maxReceiveCount, dlqUrl);
      for i := 0 to |ks|
        invariant messages == Partly(s, t, ks[..i])
      {
        PartlyStep(s, t, ks, i);
        var message := messages[ks[i]];
        if message.queueUrl == queueUrl && message.status.INITIAL? && message.retries > maxReceiveCount {
          message := message.(retries := 0);
          message := message.(queueUrl := dlqUrl);
          messages := messages[ks[i] := message];
        }
      }
      PartlyDone(s, t, ks);
    }

    method CountMessages(region: string, queueUrl: string) returns (count: int)
      ensures count == |Matching(messages, region, queueUrl)|
    {
      count := 0;
      if region == "" && queueUrl == "" {
        assert Matching(messages, region, queueUrl) == messages.Keys;
        return |messages|;
      }
      var ks := Iterate(messages.Keys);
      ghost var all := Matching(messages, region, queueUrl);
      for i := 0 to |ks|
        invariant count == |Among(ks[..i], all)|
      {
        CountOneMore(ks, i, all);
        var message := messages[ks[i]];
        if region != "" && queueUrl != "" {
          if message.region == region && message.queueUrl == queueUrl {
            count := count + 1;
          }
        } else if region == "" {
          if message.queueUrl == queueUrl {
            count := count + 1;
          }
        } else {
          if message.region == region {
            count := count + 1;
          }
        }
      }
      assert Among(ks[..|ks|], all) == all;
    }

    method CountMessagesByStatus(region: string, queueUrl: string, status: MessageStatus) returns (count: int)
      ensures count == |WithStatus(messages, region, queueUrl, status)|
    {
      count := 0;
      var ks := Iterate(messages.Keys);
      ghost var all := WithStatus(messages, region, queueUrl, status);
      for i := 0 to |ks|
        invariant count == |Among(ks[..i], all)|
      {
        CountOneMore(ks, i, all);
        var message := messages[ks[i]];
        if message.region == region && message.queueUrl == queueUrl && message.status == status {
          count := count + 1;
        }
      }
      assert Among(ks[..|ks|], all) == all;
    }

    method PurgeQueue(region: string, queueUrl: string)
      modifies this
      ensures messages == AfterErase(old(messages), OnRegionQueue(old(messages), region, queueUrl))
    {
      messages := map k | k in messages && !(messages[k].region == region && messages[k].queueUrl == queueUrl)
        :: messages[k];
    }

    method DeleteMessages(queueUrl: string)
      modifies this
      ensures messages == AfterErase(old(messages), OnQueue(old(messages), queueUrl))
    {
      messages := map k | k in messages && !(messages[k].queueUrl == queueUrl) :: messages[k];
    }

    method DeleteMessage(receiptHandle: string)
      modifies this
      ensures messages == AfterErase(old(messages), Holders(old(messages), receiptHandle))
    {
      messages := map k | k in messages && !(messages[k].receiptHandle == receiptHandle) :: messages[k];
    }

    method DeleteAllMessages()
      modifies this
      ensures messages == AfterErase(old(messages), old(messages).Keys)
    {
      messages := map[];
    }
  }

  // ---- loop bookkeeping ----

  /** A store in which only the messages under `done` have been updated from `s` to `t`. */
  ghost function Partly(s: Store, t: Store, done: seq<string>): Store
    requires s.Keys == t.Keys
  {
    map k | k in s :: if k in done then t[k] else s[k]
  }

  lemma PartlyStep(s: Store, t: Store, ks: seq<string>, i: nat)
    requires s.Keys == t.Keys && Lists(ks, s.Keys) && i < |ks|
    ensures ks[i] in s && ks[i] in Partly(s, t, ks[..i]) && Partly(s, t, ks[..i])[ks[i]] == s[ks[i]]
    ensures Partly(s, t, ks[..i + 1]) == Partly(s, t, ks[..i])[ks[i] := t[ks[i]]]
    ensures t[ks[i]] == s[ks[i]] ==> Partly(s, t, ks[..i + 1]) == Partly(s, t, ks[..i])
  {
    Unvisited(ks, i);
  }

  lemma PartlyDone(s: Store, t: Store, ks: seq<string>)
    requires s.Keys == t.Keys && Lists(ks, s.Keys)
    ensures Partly(s, t, ks[..|ks|]) == t
  {
    assert ks[..|ks|] == ks;
  }

  ghost function Among(ks: seq<string>, all: set<string>): set<string> {
    set k | k in ks && k in all
  }

  lemma CountOneMore(ks: seq<string>, i: nat, all: set<string>)
    requires Ascending(ks) && i < |ks|
    ensures ks[i] in ks
    ensures |Among(ks[..i + 1], all)| == |Among(ks[..i], all)| + if ks[i] in all then 1 else 0
  {
    Unvisited(ks, i);
    assert Among(ks[..i + 1], all) == Among(ks[..i], all) + if ks[i] in all then {ks[i]} else {};
  }

  /** The eligible ones among the first `n` keys of the iteration. */
  ghost function Pick(s: Store, ks: seq<string>, n: nat, region: string, queueUrl: string): seq<string>
    requires n <= |ks|
  {
    if n == 0 then []
    else
      Pick(s, ks, n - 1, region, queueUrl)
      + if ks[n - 1] in s && IsEligible(s[ks[n - 1]], region, queueUrl) then [ks[n - 1]] else []
  }

  lemma {:induction false} PickMembers(s: Store, ks: seq<string>, n: nat, region: string, queueUrl: string)
    requires n <= |ks|
    ensures forall k :: k in Pick(s, ks, n, region, queueUrl)
                   <==> k in ks[..n] && k in s && IsEligible(s[k], region, queueUrl)
  {
    if n > 0 {
      PickMembers(s, ks, n - 1, region, queueUrl);
      assert ks[..n] == ks[..n - 1] + [ks[n - 1]];
    }
  }

  lemma PickOneMore(s: Store, ks: seq<string>, i: nat, region: string, queueUrl: string)
    requires Lists(ks, s.Keys) && i < |ks|
    ensures ks[i] in s && ks[i] !in Pick(s, ks, i, region, queueUrl)
  {
    Unvisited(ks, i);
    PickMembers(s, ks, i, region, queueUrl);
  }

  /** The store and the caller's list after `picked` have been handed out. */
  ghost predicate HandedOut(s: Store, queued: seq<Message>, picked: seq<string>, reset: int, handles: Handles,
                            messages: Store, items: seq<Message>)
  {
    && s.Keys <= handles.Keys
    && messages == Deliver(s, picked, reset, handles)
    && items == queued + Snapshots(s, picked, handles)
  }

  lemma OneMoreHandedOut(s: Store, queued: seq<Message>, picked: seq<string>, reset: int, handles: Handles,
                         messages: Store, items: seq<Message>, k: string)
    requires HandedOut(s, queued, picked, reset, handles, messages, items) && k in s && k !in picked
    ensures HandedOut(s, queued, picked + [k], reset, handles,
                      messages[k := Delivered(s[k], handles[k], reset)], items + [Snapshot(s[k], handles[k])])
  {}

  lemma VisitOne(s: Store, queued: seq<Message>, ks: seq<string>, i: nat, region: string, queueUrl: string,
                 reset: int, handles: Handles, messages: Store, items: seq<Message>)
    requires Lists(ks, s.Keys) && i < |ks|
    requires HandedOut(s, queued, Pick(s, ks, i, region, queueUrl), reset, handles, messages, items)
    ensures var k := ks[i];
            && k in messages && k in handles && messages[k] == s[k]
            && HandedOut(s, queued, Pick(s, ks, i + 1, region, queueUrl), reset, handles,
                         if IsEligible(s[k], region, queueUrl)
                         then messages[k := Delivered(s[k], handles[k], reset)] else messages,
                         items + if IsEligible(s[k], region, queueUrl) then [Snapshot(s[k], handles[k])] else [])
  {
    PickOneMore(s, ks, i, region, queueUrl);
    if IsEligible(s[ks[i]], region, queueUrl) {
      OneMoreHandedOut(s, queued, Pick(s, ks, i, region, queueUrl), reset, handles, messages, items, ks[i]);
    }
  }

  /** The list has just reached its limit, or has not grown, or is still below the limit. */
  ghost predicate Fills(before: nat, length: nat, maxMessages: int, full: bool) {
    if full
    then length > before && (length == before + 1 || length == AsSize(maxMessages)) && length >= AsSize(maxMessages)
    else length == before || (length > before && length < AsSize(maxMessages))
  }

  lemma {:induction false} PickIsAscending(s: Store, ks: seq<string>, n: nat, region: string, queueUrl: string)
    requires Ascending(ks) && n <= |ks|
    ensures Ascending(Pick(s, ks, n, region, queueUrl))
  {
    if n > 0 {
      PickIsAscending(s, ks, n - 1, region, queueUrl);
      PickMembers(s, ks, n - 1, region, queueUrl);
      var r := Pick(s, ks, n - 1, region, queueUrl);
      AscendingPairs(ks);
      AscendingPairs(r);
      forall i | 0 <= i < |r| ensures Less(r[i], ks[n - 1]) {
        assert r[i] in ks[..n - 1];
      }
      PairsAscend(Pick(s, ks, n, region, queueUrl));
    }
  }

  lemma PickIsEligible(s: Store, ks: seq<string>, region: string, queueUrl: string)
    requires Lists(ks, s.Keys)
    ensures Pick(s, ks, |ks|, region, queueUrl) == Eligible(s, region, queueUrl)
  {
    PickIsAscending(s, ks, |ks|, region, queueUrl);
    PickMembers(s, ks, |ks|, region, queueUrl);
    assert ks[..|ks|] == ks;
    AscendingIsUnique(Pick(s, ks, |ks|, region, queueUrl), Eligible(s, region, queueUrl));
  }

  /** Picking from a prefix of the iteration gives a prefix of the eligible keys. */
  lemma {:induction false} PickIsPrefix(s: Store, ks: seq<string>, n: nat, region: string, queueUrl: string)
    requires n <= |ks|
    ensures Pick(s, ks, n, region, queueUrl) <= Pick(s, ks, |ks|, region, queueUrl)
    decreases |ks| - n
  {
    if n < |ks| {
      PickIsPrefix(s, ks, n + 1, region, queueUrl);
    }
  }

  /** Stopping at the first full list, or at the end, takes exactly `Taken`. */
  lemma PickIsTaken(s: Store, ks: seq<string>, n: nat, region: string, queueUrl: string, maxMessages: int, queued: nat,
                    full: bool)
    requires Lists(ks, s.Keys) && n <= |ks|
    requires Fills(queued, queued + |Pick(s, ks, n, region, queueUrl)|, maxMessages, full) && (n == |ks| || full)
    ensures Pick(s, ks, n, region, queueUrl) == Taken(s, region, queueUrl, maxMessages, queued)
  {
    PickIsPrefix(s, ks, n, region, queueUrl);
    PickIsEligible(s, ks, region, queueUrl);
  }

  lemma ReceiveIsDone(s: Store, queued: seq<Message>, ks: seq<string>, n: nat, region: string, queueUrl: string,
                      reset: int, maxMessages: int, handles: Handles, messages: Store, items: seq<Message>, full: bool)
    requires Lists(ks, s.Keys) && n <= |ks| && (n == |ks| || full)
    requires HandedOut(s, queued, Pick(s, ks, n, region, queueUrl), reset, handles, messages, items)
    requires Fills(|queued|, |items|, maxMessages, full)
    ensures messages == AfterReceive(s, region, queueUrl, maxMessages, |queued|, reset, handles)
    ensures items == queued + Snapshots(s, Taken(s, region, queueUrl, maxMessages, |queued|), handles)
  {
    PickIsTaken(s, ks, n, region, queueUrl, maxMessages, |queued|, full);
  }
}
