/** The subscriber program: its own copy of the consume loop
    (consumeMessages), the creation of its consumer group, and the driver
    that handles the channel's messages in order and exits the process on
    the first error message. */
module Subscriber {
  import opened Common
  import opened ConsumeLoop
  import opened ConsumeLoopProperties
  import Stream
  import Streamer

  const MainStream: string := "mystream"
  const MainGroup: string := "mygroup"
  const MainConsumer: string := "consumer1"

  /** consumeMessages: the consume loop with the same read arguments as the
      stream package. */
  method ConsumeMessages(stream: string, consumerGroup: string, consumerName: string,
                         script: seq<ReadOutcome>) returns (trace: seq<Event>)
    requires WellFormedReads(script, ReadCount)
    ensures trace == LoopTrace(ReadArgs(consumerGroup, consumerName, stream, ">", 10, 5000), script)
  {
    trace := ConsumeLoop.Consume(Stream.StreamReadArgs(stream, consumerGroup, consumerName), script);
  }

  /** The position of the first message with an error, or the number of
      messages when none has one. */
  function FirstErrorAt(msgs: seq<Message>): (n: nat)
    ensures n <= |msgs|
    ensures forall k :: 0 <= k < n ==> msgs[k].error.None?
    ensures n < |msgs| ==> msgs[n].error.Some?
  {
    if msgs == [] || msgs[0].error.Some? then 0 else 1 + FirstErrorAt(msgs[1..])
  }

  /** The driver: handle the messages in channel order; the first message
      with an error exits the process with that error, and nothing after it
      is handled. */
  method Drive(msgs: seq<Message>) returns (handled: seq<Message>, fatal: Option<Failure>)
    ensures handled == msgs[..FirstErrorAt(msgs)]
    ensures fatal.Some? <==> FirstErrorAt(msgs) < |msgs|
    ensures fatal.Some? ==> fatal == msgs[FirstErrorAt(msgs)].error
  {
    handled := [];
    for i := 0 to |msgs|
      invariant handled == msgs[..i]
      invariant forall k :: 0 <= k < i ==> msgs[k].error.None?
    {
      if msgs[i].error.Some? {
        return handled, msgs[i].error;
      }
      handled := handled + [msgs[i]];
    }
    assert msgs[..|msgs|] == msgs;
    fatal := None;
  }

  /** The driver over the loop's channel: it handles every entry the reads
      deliver, in order, and exits exactly when a read or an acknowledgement
      fails, on the channel's last message. */
  lemma DriveOverLoop(args: ReadArgs, script: seq<ReadOutcome>)
    ensures var c := Channel(LoopTrace(args, script));
      && (FirstErrorAt(c) < |c| <==> Fails(script))
      && (Fails(script) ==> FirstErrorAt(c) == |c| - 1)
      && (!Fails(script) ==> c[..FirstErrorAt(c)] == DataOfAll(Entries(script)))
  {
    var c := Channel(LoopTrace(args, script));
    LoopChannel(args, script);
    if Fails(script) {
      assert c[|c| - 1].error.Some?;
    } else {
      assert c[..|c|] == c;
    }
  }

  /** main: create the group (a nil reply is tolerated, any other error
      exits), then drive the channel of consumeMessages. */
  method Run(created: Streamer.CreateReply, script: seq<ReadOutcome>)
    returns (handled: seq<Message>, fatal: Option<Failure>)
    requires WellFormedReads(script, ReadCount)
    ensures created.CreateError? ==> handled == [] && fatal == Some(GroupCreateFailure(created.cause))
    ensures !created.CreateError? ==>
      var c := Channel(LoopTrace(Stream.StreamReadArgs(MainStream, MainGroup, MainConsumer), script));
      && handled == c[..FirstErrorAt(c)]
      && (fatal.Some? <==> Fails(script))
      && (fatal.Some? ==> c != [] && fatal == c[|c| - 1].error)
  {
    if created.CreateError? {
      return [], Some(GroupCreateFailure(created.cause));
    }
    var trace := ConsumeMessages(MainStream, MainGroup, MainConsumer, script);
    handled, fatal := Drive(Channel(trace));
    DriveOverLoop(Stream.StreamReadArgs(MainStream, MainGroup, MainConsumer), script);
  }
}
