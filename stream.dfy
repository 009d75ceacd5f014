/** The subscriber's stream package: the same consume loop as the streamer
    library, without any consumer-group bootstrap and with a five-second
    block on each read, and a Publish that appends the caller's message as
    it is. */
module Stream {
  import opened Common
  import opened ConsumeLoop
  import ConsumeLoopProperties

  /** `Block: 5 * time.Second`, in milliseconds. */
  const BlockMs: nat := 5000

  /** The reads of this package: the group's new entries, ten at a time,
      blocking for at most five seconds. */
  function StreamReadArgs(stream: string, group: string, consumer: string): ReadArgs
  {
    ReadArgs(group, consumer, stream, NewEntriesCursor, ReadCount, BlockMs)
  }

  /** Consume: straight into the loop, no group listing or creation. */
  method Consume(stream: string, consumerGroup: string, consumerName: string,
                 script: seq<ReadOutcome>) returns (trace: seq<Event>)
    requires WellFormedReads(script, ReadCount)
    ensures trace == LoopTrace(StreamReadArgs(stream, consumerGroup, consumerName), script)
  {
    trace := ConsumeLoop.Consume(StreamReadArgs(stream, consumerGroup, consumerName), script);
  }

  /** No group setup: every event of the trace is the loop's own (a read, a
      send, an acknowledgement or the close), and the first one is a read
      of the group's new entries that blocks for five seconds. */
  lemma NoGroupSetup(stream: string, group: string, consumer: string, script: seq<ReadOutcome>)
    ensures var t := LoopTrace(StreamReadArgs(stream, group, consumer), script);
      && (forall k :: 0 <= k < |t| ==> !t[k].ListGroups? && !t[k].CreateGroup? && !t[k].Exit?)
      && (script != [] ==> t != [] && t[0] == Read(ReadArgs(group, consumer, stream, ">", 10, 5000)))
  {
    var args := StreamReadArgs(stream, group, consumer);
    var t := LoopTrace(args, script);
    forall k | 0 <= k < |t| ensures !t[k].ListGroups? && !t[k].CreateGroup? && !t[k].Exit? {
      ConsumeLoopProperties.LoopProtocol(args, script, k);
    }
    if script != [] {
      LoopUnfold(args, script, 0);
      assert script[0..] == script;
    }
  }

  /** Publish: append the caller's map unchanged (no timestamp is added and
      the map is not written), and wrap a failing append. */
  method Publish(stream: string, messageID: string, message: FieldMap,
                 appendError: Option<string>) returns (call: AppendCall, err: Option<Failure>)
    ensures call.stream == stream && call.values == message.entries
    ensures appendError.None? ==> err.None?
    ensures appendError.Some? ==> err == Some(PublishFailure(appendError.value))
  {
    call := AppendCall(stream, message.entries);
    if appendError.Some? {
      return call, Some(PublishFailure(appendError.value));
    }
    return call, None;
  }
}
