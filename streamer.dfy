/** The streamer library's consumer and publisher (libs/streamer/redis.go):
    the consumer-group bootstrap run before the consume loop, and Publish,
    which stamps the caller's message with the current time in milliseconds
    before appending it to the stream. */
module Streamer {
  import opened Common
  import opened ConsumeLoop
  import ConsumeLoopProperties

  /** The id the group is created from: the start of the stream. */
  const GroupStart: string := "0"

  /** One entry of the XINFO GROUPS reply; the bootstrap compares names only. */
  datatype GroupInfo = GroupInfo(name: string, consumers: nat, pending: nat, lastDeliveredId: string)

  /** The XINFO GROUPS reply: the groups, the nil reply, or another error. */
  datatype GroupsReply = Groups(groups: seq<GroupInfo>) | GroupsNil | GroupsError(cause: string)

  /** The XGROUP CREATE ... MKSTREAM reply: done, the nil reply, or another error. */
  datatype CreateReply = Created | CreateNil | CreateError(cause: string)

  /** The groups a reply lists; the nil reply lists none. */
  function Listed(reply: GroupsReply): seq<GroupInfo>
  {
    if reply.Groups? then reply.groups else []
  }

  predicate HasGroup(groups: seq<GroupInfo>, group: string)
  {
    exists i :: 0 <= i < |groups| && groups[i].name == group
  }

  /** The reads of this consumer: the group's new entries, ten at a time, with
      no Block argument (its zero value). */
  function StreamerReadArgs(topic: string, group: string, consumer: string): ReadArgs
  {
    ReadArgs(group, consumer, topic, NewEntriesCursor, ReadCount, 0)
  }

  /** The bootstrap's linear search of the listed groups, stopping at the
      first one with the wanted name. */
  method GroupExists(groups: seq<GroupInfo>, group: string) returns (found: bool)
    ensures found <==> exists i :: 0 <= i < |groups| && groups[i].name == group
  {
    found := false;
    for i := 0 to |groups|
      invariant !found
      invariant forall k :: 0 <= k < i ==> groups[k].name != group
    {
      if groups[i].name == group {
        found := true;
        break;
      }
    }
  }

  /** The bootstrap fails fatally: the group listing fails, or the group is
      absent and its creation fails (a nil reply is no failure). */
  predicate SetupExits(group: string, listed: GroupsReply, created: CreateReply)
  {
    listed.GroupsError? || (!HasGroup(Listed(listed), group) && created.CreateError?)
  }

  /** The bootstrap's events: list the groups, then create the group when it
      is absent, exiting the process on a failure that is not nil. */
  function SetupTrace(topic: string, group: string, listed: GroupsReply, created: CreateReply): seq<Event>
  {
    [ListGroups(topic)] +
    if listed.GroupsError? then [Exit(GroupListFailure(listed.cause))]
    else if HasGroup(Listed(listed), group) then []
    else
      [CreateGroup(topic, group, GroupStart)] +
      (if created.CreateError? then [Exit(GroupCreateFailure(created.cause))] else [])
  }

  /** The whole of Consume: the bootstrap, then, unless it exited, the loop. */
  function ConsumeTrace(topic: string, group: string, consumer: string, listed: GroupsReply,
                        created: CreateReply, script: seq<ReadOutcome>): seq<Event>
  {
    SetupTrace(topic, group, listed, created) +
    if SetupExits(group, listed, created) then []
    else LoopTrace(StreamerReadArgs(topic, group, consumer), script)
  }

  /** Consume as the source writes it. */
  method Consume(topic: string, consumerGroup: string, consumerName: string, listed: GroupsReply,
                 created: CreateReply, script: seq<ReadOutcome>) returns (trace: seq<Event>)
    requires WellFormedReads(script, ReadCount)
    ensures trace == ConsumeTrace(topic, consumerGroup, consumerName, listed, created, script)
  {
    trace := [ListGroups(topic)];
    if listed.GroupsError? {
      trace := trace + [Exit(GroupListFailure(listed.cause))];
      return;
    }
    var groupExists := GroupExists(Listed(listed), consumerGroup);
    if !groupExists {
      trace := trace + [CreateGroup(topic, consumerGroup, GroupStart)];
      if created.CreateError? {
        trace := trace + [Exit(GroupCreateFailure(created.cause))];
        return;
      }
    }
    assert !SetupExits(consumerGroup, listed, created);
    assert trace == SetupTrace(topic, consumerGroup, listed, created);
    var loop := ConsumeLoop.Consume(StreamerReadArgs(topic, consumerGroup, consumerName), script);
    trace := trace + loop;
  }

  /** Creation of the group from id "0" is attempted exactly when the listing
      succeeded (or was nil) and names no group `group`. */
  lemma CreateIffAbsent(topic: string, group: string, consumer: string, listed: GroupsReply,
                        created: CreateReply, script: seq<ReadOutcome>)
    ensures CreateGroup(topic, group, GroupStart) in ConsumeTrace(topic, group, consumer, listed, created, script)
      <==> !listed.GroupsError? && forall i :: 0 <= i < |Listed(listed)| ==> Listed(listed)[i].name != group
  {
    var setup := SetupTrace(topic, group, listed, created);
    var t := ConsumeTrace(topic, group, consumer, listed, created, script);
    var args := StreamerReadArgs(topic, group, consumer);
    var rest := if SetupExits(group, listed, created) then [] else LoopTrace(args, script);
    assert t == setup + rest;
    forall k | 0 <= k < |rest| ensures rest[k] != CreateGroup(topic, group, GroupStart) {
      ConsumeLoopProperties.LoopProtocol(args, script, k);
    }
    if !listed.GroupsError? && !HasGroup(Listed(listed), group) {
      assert t[1] == CreateGroup(topic, group, GroupStart);
    }
  }

  /** A nil reply to either bootstrap call is tolerated: the nil listing acts
      as an empty one, and a nil creation reply as a successful one. */
  lemma NilTolerated(topic: string, group: string, consumer: string, listed: GroupsReply,
                     created: CreateReply, script: seq<ReadOutcome>)
    ensures ConsumeTrace(topic, group, consumer, GroupsNil, created, script) ==
            ConsumeTrace(topic, group, consumer, Groups([]), created, script)
    ensures ConsumeTrace(topic, group, consumer, listed, CreateNil, script) ==
            ConsumeTrace(topic, group, consumer, listed, Created, script)
    ensures !listed.GroupsError? ==> !SetupExits(group, listed, CreateNil)
  {
  }

  /** A fatal bootstrap exits the process: the last event is the exit and
      nothing is ever read. */
  lemma FatalSetupNeverReads(topic: string, group: string, consumer: string, listed: GroupsReply,
                             created: CreateReply, script: seq<ReadOutcome>)
    requires SetupExits(group, listed, created)
    ensures var t := ConsumeTrace(topic, group, consumer, listed, created, script);
      t[|t| - 1].Exit? && forall k :: 0 <= k < |t| ==> !t[k].Read?
  {
  }

  /** Otherwise the loop starts right after the bootstrap, reading the group's
      new entries ten at a time. */
  lemma SetupThenLoop(topic: string, group: string, consumer: string, listed: GroupsReply,
                      created: CreateReply, script: seq<ReadOutcome>)
    requires !SetupExits(group, listed, created)
    ensures var t := ConsumeTrace(topic, group, consumer, listed, created, script);
      var n := if HasGroup(Listed(listed), group) then 1 else 2;
      |t| >= n && t[..n] == SetupTrace(topic, group, listed, created) &&
      t[n..] == LoopTrace(ReadArgs(group, consumer, topic, ">", 10, 0), script)
  {
  }

  /** The message as Publish leaves it: every other field kept, `timestamp`
      set to the current time in milliseconds. */
  function Stamped(values: map<string, Field>, nowNs: int): (r: map<string, Field>)
    ensures r.Keys == values.Keys + {TimestampKey}
    ensures r[TimestampKey] == Num(MillisOf(nowNs))
    ensures forall k :: k in values && k != TimestampKey ==> r[k] == values[k]
  {
    values[TimestampKey := Num(MillisOf(nowNs))]
  }

  /** Publish: stamp the caller's map in place, append it to the topic, and
      wrap a failing append; the message id is not used. */
  method Publish(topic: string, messageID: string, message: FieldMap, nowNs: int,
                 appendError: Option<string>) returns (call: AppendCall, err: Option<Failure>)
    modifies message
    ensures message.entries == Stamped(old(message.entries), nowNs)
    ensures call == AppendCall(topic, message.entries)
    ensures err == if appendError.Some? then Some(PublishFailure(appendError.value)) else None
  {
    message.entries := message.entries[TimestampKey := Num(MillisOf(nowNs))];
    call := AppendCall(topic, message.entries);
    if appendError.Some? {
      return call, Some(PublishFailure(appendError.value));
    }
    return call, None;
  }

  /** Publishing twice stamps once: the second stamp overwrites the first, and
      a later clock never yields an earlier stamp. */
  lemma StampOverwrites(values: map<string, Field>, firstNs: int, secondNs: int)
    requires firstNs <= secondNs
    ensures Stamped(Stamped(values, firstNs), secondNs) == Stamped(values, secondNs)
    ensures Stamped(values, firstNs)[TimestampKey].n <= Stamped(values, secondNs)[TimestampKey].n
  {
    MillisMonotone(firstNs, secondNs);
  }
}
