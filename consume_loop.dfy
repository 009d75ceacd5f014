/** The consume loop that the repository writes three times (the streamer
    library, the subscriber's stream package and the subscriber's main):
    read a batch from the consumer group, send each entry on the output
    channel and acknowledge it, and on the first read or acknowledgement
    error send one error message and close the channel.

    The transport is a script: the outcome of each successive read, where a
    successful read carries, per entry, the reply its acknowledgement gets.
    The loop's behaviour is the trace of transport calls and channel
    operations it produces. */
module ConsumeLoop {
  import opened Common

  /** `Count: 10` in every XREADGROUP of the repository. */
  const ReadCount: nat := 10
  /** The ">" cursor: entries never delivered to this group. */
  const NewEntriesCursor: string := ">"

  /** The arguments of one XREADGROUP call. */
  datatype ReadArgs = ReadArgs(group: string, consumer: string, stream: string,
                               cursor: string, count: nat, blockMs: nat)

  /** An entry as a read returns it, with the reply its XACK will get
      (None: acknowledged). */
  datatype Delivery = Delivery(id: string, values: map<string, Field>, ackError: Option<string>)

  /** The entries a read returns for one stream. */
  datatype StreamBatch = StreamBatch(stream: string, deliveries: seq<Delivery>)

  /** The outcome of one XREADGROUP: per-stream batches or an error (a
      timeout with no data is reported by the transport as an error too). */
  datatype ReadOutcome = ReadOk(streams: seq<StreamBatch>) | ReadError(cause: string)

  /** What the consumer does, in order: transport calls, channel sends, the
      channel close, and (for the group bootstrap) a fatal process exit. */
  datatype Event =
    | ListGroups(stream: string)
    | CreateGroup(stream: string, group: string, start: string)
    | Exit(failure: Failure)
    | Read(args: ReadArgs)
    | Sent(msg: Message)
    | Ack(stream: string, group: string, id: string)
    | Closed

  /** A successful read names exactly the one stream asked for and returns
      at most `count` entries; the loop indexes the first stream unguarded. */
  predicate SingleStream(r: ReadOutcome, count: nat)
  {
    r.ReadOk? ==> |r.streams| == 1 && |r.streams[0].deliveries| <= count
  }

  predicate WellFormedReads(script: seq<ReadOutcome>, count: nat)
  {
    forall i :: 0 <= i < |script| ==> SingleStream(script[i], count)
  }

  /** The entries of a successful read: those of its first (and, for a
      well-formed read, only) stream. */
  function Batch(r: ReadOutcome): seq<Delivery>
  {
    if r.ReadOk? && |r.streams| >= 1 then r.streams[0].deliveries else []
  }

  function DataOf(d: Delivery): Message
  {
    DataMessage(d.id, d.values)
  }

  /** Some entry of the batch has a failing acknowledgement. */
  predicate AckFails(ds: seq<Delivery>)
  {
    exists i :: 0 <= i < |ds| && ds[i].ackError.Some?
  }

  /** The position of the first read that fails or whose batch holds a failing
      acknowledgement, or the script's length when there is none. */
  function FirstFailure(script: seq<ReadOutcome>): (n: nat)
    ensures n <= |script|
    ensures forall k :: 0 <= k < n ==> script[k].ReadOk? && !AckFails(Batch(script[k]))
    ensures n < |script| ==> script[n].ReadError? || AckFails(Batch(script[n]))
  {
    if script == [] || script[0].ReadError? || AckFails(Batch(script[0])) then 0
    else 1 + FirstFailure(script[1..])
  }

  /** Some read of the script fails, or an acknowledgement in a batch it returns. */
  predicate Fails(script: seq<ReadOutcome>)
  {
    FirstFailure(script) < |script|
  }

  /** The events of one batch: each entry sent then acknowledged; a failing
      acknowledgement is followed by the error message and the close. */
  function BatchTrace(args: ReadArgs, ds: seq<Delivery>): seq<Event>
  {
    if ds == [] then []
    else
      [Sent(DataOf(ds[0])), Ack(args.stream, args.group, ds[0].id)] +
      match ds[0].ackError
      case Some(cause) => [Sent(ErrorMessage(AckFailure(cause))), Closed]
      case None => BatchTrace(args, ds[1..])
  }

  /** The events of the loop over a script of read outcomes. When the script
      runs out with no error the loop is still running: no close. */
  function LoopTrace(args: ReadArgs, script: seq<ReadOutcome>): seq<Event>
  {
    if script == [] then []
    else
      [Read(args)] +
      match script[0]
      case ReadError(cause) => [Sent(ErrorMessage(ReadFailure(cause))), Closed]
      case ReadOk(_) =>
        BatchTrace(args, Batch(script[0])) +
        (if AckFails(Batch(script[0])) then [] else LoopTrace(args, script[1..]))
  }

  /** One step of LoopTrace on the rest of the script from position i. */
  lemma LoopUnfold(args: ReadArgs, script: seq<ReadOutcome>, i: nat)
    requires i < |script|
    ensures script[i].ReadError? ==>
      LoopTrace(args, script[i..]) == [Read(args), Sent(ErrorMessage(ReadFailure(script[i].cause))), Closed]
    ensures script[i].ReadOk? ==>
      LoopTrace(args, script[i..]) == [Read(args)] + BatchTrace(args, Batch(script[i])) +
        (if AckFails(Batch(script[i])) then [] else LoopTrace(args, script[i + 1..]))
  {
    assert script[i..][0] == script[i] && script[i..][1..] == script[i + 1..];
  }

  /** The first step of BatchTrace and of AckFails. */
  lemma BatchUnfold(args: ReadArgs, ds: seq<Delivery>)
    requires ds != []
    ensures AckFails(ds) == (ds[0].ackError.Some? || AckFails(ds[1..]))
    ensures ds[0].ackError.Some? ==>
      BatchTrace(args, ds) ==
        [Sent(DataOf(ds[0])), Ack(args.stream, args.group, ds[0].id),
         Sent(ErrorMessage(AckFailure(ds[0].ackError.value))), Closed]
    ensures ds[0].ackError.None? ==>
      BatchTrace(args, ds) ==
        [Sent(DataOf(ds[0])), Ack(args.stream, args.group, ds[0].id)] + BatchTrace(args, ds[1..])
  {
    if AckFails(ds) && ds[0].ackError.None? {
      var i :| 0 <= i < |ds| && ds[i].ackError.Some?;
      assert ds[1..][i - 1] == ds[i];
    }
    if AckFails(ds[1..]) {
      var i :| 0 <= i < |ds[1..]| && ds[1..][i].ackError.Some?;
      assert ds[i + 1] == ds[1..][i];
    }
  }

  /** When no acknowledgement in `done` fails, the events of the batch
      `done + later` are those of `done` followed by those of `later`. */
  lemma {:induction false} BatchAppend(args: ReadArgs, done: seq<Delivery>, later: seq<Delivery>)
    requires !AckFails(done)
    ensures BatchTrace(args, done + later) == BatchTrace(args, done) + BatchTrace(args, later)
  {
    if done == [] {
      assert done + later == later;
    } else {
      assert (done + later)[0] == done[0] && (done + later)[1..] == done[1..] + later;
      BatchAppend(args, done[1..], later);
    }
  }

  /** A failing acknowledgement ends the batch's events: after the entries
      before it, the failing entry is sent and acknowledged, then come the
      error message and the close; the entries after it are never sent. */
  lemma BatchStopsAt(args: ReadArgs, acked: seq<Delivery>, failing: Delivery, dropped: seq<Delivery>)
    requires !AckFails(acked) && failing.ackError.Some?
    ensures BatchTrace(args, acked + [failing] + dropped) ==
      BatchTrace(args, acked) +
      [Sent(DataOf(failing)), Ack(args.stream, args.group, failing.id),
       Sent(ErrorMessage(AckFailure(failing.ackError.value))), Closed]
  {
    assert acked + [failing] + dropped == acked + ([failing] + dropped);
    BatchAppend(args, acked, [failing] + dropped);
    assert ([failing] + dropped)[0] == failing;
  }

  /** The inner loop over one batch: send, acknowledge, and stop at the
      first failing acknowledgement (which ends the whole loop). */
  method SendBatch(args: ReadArgs, batch: seq<Delivery>) returns (events: seq<Event>, closed: bool)
    ensures events == BatchTrace(args, batch)
    ensures closed == AckFails(batch)
  {
    events := [];
    var j := 0;
    while j < |batch|
      invariant 0 <= j <= |batch|
      invariant forall k :: 0 <= k < j ==> batch[k].ackError.None?
      invariant events == BatchTrace(args, batch[..j])
    {
      assert !AckFails(batch[..j]);
      var entry := batch[j];
      if entry.ackError.Some? {
        assert batch == batch[..j] + [entry] + batch[j + 1..];
        BatchStopsAt(args, batch[..j], entry, batch[j + 1..]);
        events := events + [Sent(DataOf(entry)), Ack(args.stream, args.group, entry.id)];
        events := events + [Sent(ErrorMessage(AckFailure(entry.ackError.value))), Closed];
        return events, true;
      }
      assert batch[..j + 1] == batch[..j] + [entry];
      BatchAppend(args, batch[..j], [entry]);
      assert [entry][1..] == [];
      events := events + [Sent(DataOf(entry)), Ack(args.stream, args.group, entry.id)];
      j := j + 1;
    }
    assert batch[..j] == batch;
    return events, false;
  }

  /** The outer loop's step at read i, stated on the trace so far. */
  lemma LoopStep(args: ReadArgs, script: seq<ReadOutcome>, i: nat, trace: seq<Event>)
    requires i < |script|
    requires LoopTrace(args, script) == trace + LoopTrace(args, script[i..])
    ensures script[i].ReadError? ==>
      LoopTrace(args, script) == trace + [Read(args), Sent(ErrorMessage(ReadFailure(script[i].cause))), Closed]
    ensures script[i].ReadOk? ==>
      LoopTrace(args, script) == trace + ([Read(args)] + BatchTrace(args, Batch(script[i]))) +
        (if AckFails(Batch(script[i])) then [] else LoopTrace(args, script[i + 1..]))
  {
    LoopUnfold(args, script, i);
  }

  /** The loop as the source writes it: read, run the batch, and return on
      the first error. */
  method Consume(args: ReadArgs, script: seq<ReadOutcome>) returns (trace: seq<Event>)
    requires WellFormedReads(script, args.count)
    ensures trace == LoopTrace(args, script)
  {
    trace := [];
    var i := 0;
    while i < |script|
      invariant 0 <= i <= |script|
      invariant LoopTrace(args, script) == trace + LoopTrace(args, script[i..])
    {
      LoopStep(args, script, i, trace);
      var outcome := script[i];
      if outcome.ReadError? {
        trace := trace + [Read(args), Sent(ErrorMessage(ReadFailure(outcome.cause))), Closed];
        return;
      }
      assert SingleStream(outcome, args.count);
      var events, closed := SendBatch(args, outcome.streams[0].deliveries);
      trace := trace + ([Read(args)] + events);
      if closed {
        assert trace + [] == trace;
        return;
      }
      i := i + 1;
    }
    assert script[i..] == [] && trace + [] == trace;
  }
}

/** What the consume loop promises, proved about LoopTrace: the emit/ack
    protocol at every position of the trace, the shape of the channel's
    messages, and what a read or acknowledgement failure does to the rest. */
module ConsumeLoopProperties {
  import opened Common
  import opened ConsumeLoop

  /** The messages sent on the output channel, in order. */
  function Channel(t: seq<Event>): seq<Message>
  {
    if t == [] then [] else (if t[0].Sent? then [t[0].msg] else []) + Channel(t[1..])
  }

  /** The entries the script makes available, batch after batch, up to the
      first read error. */
  function Entries(script: seq<ReadOutcome>): seq<Delivery>
  {
    if script == [] || script[0].ReadError? then []
    else Batch(script[0]) + Entries(script[1..])
  }

  function DataOfAll(ds: seq<Delivery>): (ms: seq<Message>)
    ensures |ms| == |ds| && forall i :: 0 <= i < |ds| ==> ms[i] == DataOf(ds[i])
  {
    if ds == [] then [] else [DataOf(ds[0])] + DataOfAll(ds[1..])
  }

  /** The emit/ack protocol at position k of a trace: a sent entry is
      acknowledged by the very next event; an acknowledgement immediately
      follows the sending of the entry it names; an error message is the
      last message, followed only by the close; nothing follows the close. */
  predicate ProtocolAt(t: seq<Event>, stream: string, group: string, k: nat)
    requires k < |t|
  {
    && (t[k].Sent? && t[k].msg.error.None? ==>
          k + 1 < |t| && t[k + 1] == Ack(stream, group, t[k].msg.id))
    && (t[k].Ack? ==>
          0 < k && t[k - 1].Sent? && t[k - 1].msg.error.None? &&
          t[k] == Ack(stream, group, t[k - 1].msg.id))
    && (t[k].Sent? && t[k].msg.error.Some? ==> k + 2 == |t| && t[k + 1] == Closed)
    && (t[k].Closed? ==> k + 1 == |t|)
  }

  /** The events the loop itself produces: no group listing, creation or exit. */
  predicate LoopEvent(e: Event)
  {
    e.Read? || e.Sent? || e.Ack? || e.Closed?
  }

  /** A message at position k of a channel holds an error exactly when the
      channel ends in failure and k is the last position. */
  predicate TerminalShape(c: seq<Message>, failed: bool)
  {
    && (forall k :: 0 <= k < |c| ==> WellShaped(c[k]))
    && (forall k :: 0 <= k < |c| ==> (c[k].error.Some? <==> failed && k == |c| - 1))
    && (failed ==> c != [])
  }

  lemma {:induction false} ChannelAppend(a: seq<Event>, b: seq<Event>)
    ensures Channel(a + b) == Channel(a) + Channel(b)
  {
    if a != [] {
      assert (a + b)[0] == a[0] && (a + b)[1..] == a[1..] + b;
      ChannelAppend(a[1..], b);
      var first: seq<Message> := if a[0].Sent? then [a[0].msg] else [];
      assert Channel(a) == first + Channel(a[1..]);
      assert Channel(a + b) == first + Channel(a[1..] + b);
      assert first + (Channel(a[1..]) + Channel(b)) == (first + Channel(a[1..])) + Channel(b);
    } else {
      assert a + b == b;
    }
  }

  lemma ProtocolShift(a: seq<Event>, b: seq<Event>, stream: string, group: string, k: nat)
    requires k < |b| && ProtocolAt(b, stream, group, k)
    ensures ProtocolAt(a + b, stream, group, |a| + k)
  {
    var t := a + b;
    assert t[|a| + k] == b[k];
    if k + 1 < |b| { assert t[|a| + k + 1] == b[k + 1]; }
    if 0 < k { assert t[|a| + k - 1] == b[k - 1]; }
  }

  lemma ProtocolPrefix(a: seq<Event>, b: seq<Event>, stream: string, group: string, k: nat)
    requires k < |a| && ProtocolAt(a, stream, group, k)
    requires b != [] ==> !a[k].Closed? && !(a[k].Sent? && a[k].msg.error.Some?)
    ensures ProtocolAt(a + b, stream, group, k)
  {
    var t := a + b;
    assert t[k] == a[k];
    if k + 1 < |a| { assert t[k + 1] == a[k + 1]; }
    if 0 < k { assert t[k - 1] == a[k - 1]; }
  }

  /** The protocol holds at every position of a batch's events; an error
      message or a close appears in them only when an acknowledgement fails. */
  lemma {:induction false} BatchProtocol(args: ReadArgs, ds: seq<Delivery>, k: nat)
    requires k < |BatchTrace(args, ds)|
    ensures ProtocolAt(BatchTrace(args, ds), args.stream, args.group, k)
    ensures LoopEvent(BatchTrace(args, ds)[k]) && !BatchTrace(args, ds)[k].Read?
    ensures (BatchTrace(args, ds)[k].Closed? ||
             (BatchTrace(args, ds)[k].Sent? && BatchTrace(args, ds)[k].msg.error.Some?))
            ==> AckFails(ds)
  {
    var t := BatchTrace(args, ds);
    var head := [Sent(DataOf(ds[0])), Ack(args.stream, args.group, ds[0].id)];
    BatchUnfold(args, ds);
    if ds[0].ackError.Some? {
      assert t == head + [Sent(ErrorMessage(AckFailure(ds[0].ackError.value))), Closed];
    } else {
      var rest := BatchTrace(args, ds[1..]);
      assert t == head + rest;
      if k >= 2 {
        BatchProtocol(args, ds[1..], k - 2);
        ProtocolShift(head, rest, args.stream, args.group, k - 2);
        assert t[k] == rest[k - 2];
      } else if k == 1 {
        assert t[1] == Ack(args.stream, args.group, ds[0].id);
      } else {
        if rest != [] {
          BatchProtocol(args, ds[1..], 0);
        }
        assert t[1] == Ack(args.stream, args.group, ds[0].id);
      }
    }
  }

  /** The protocol holds at every position of the loop's trace, the trace
      starts with a read, and it holds only the loop's own events. */
  lemma {:induction false} LoopProtocol(args: ReadArgs, script: seq<ReadOutcome>, k: nat)
    requires k < |LoopTrace(args, script)|
    ensures ProtocolAt(LoopTrace(args, script), args.stream, args.group, k)
    ensures LoopEvent(LoopTrace(args, script)[k])
    ensures LoopTrace(args, script)[0] == Read(args)
  {
    var t := LoopTrace(args, script);
    LoopUnfold(args, script, 0);
    assert script[0..] == script;
    if script[0].ReadOk? {
      var batch := Batch(script[0]);
      var b := BatchTrace(args, batch);
      var rest := if AckFails(batch) then [] else LoopTrace(args, script[1..]);
      assert t == [Read(args)] + (b + rest);
      if 0 < k <= |b| {
        BatchProtocol(args, batch, k - 1);
        ProtocolPrefix(b, rest, args.stream, args.group, k - 1);
        ProtocolShift([Read(args)], b + rest, args.stream, args.group, k - 1);
        assert t[k] == b[k - 1];
      } else if k > |b| {
        LoopProtocol(args, script[1..], k - 1 - |b|);
        ProtocolShift([Read(args)] + b, rest, args.stream, args.group, k - 1 - |b|);
        assert t == ([Read(args)] + b) + rest;
        assert t[k] == rest[k - 1 - |b|];
      }
    }
  }

  lemma ChannelPair(a: Event, b: Event)
    ensures Channel([a, b]) ==
      (if a.Sent? then [a.msg] else []) + (if b.Sent? then [b.msg] else [])
  {
    var pa: seq<Message> := if a.Sent? then [a.msg] else [];
    var pb: seq<Message> := if b.Sent? then [b.msg] else [];
    assert [b][1..] == [];
    assert Channel([b]) == pb + Channel([]);
    assert [a, b][0] == a && [a, b][1..] == [b];
    assert Channel([a, b]) == pa + Channel([b]);
    assert pb + [] == pb;
  }

  lemma TerminalPrepend(ms: seq<Message>, c: seq<Message>, failed: bool)
    requires forall k :: 0 <= k < |ms| ==> ms[k].error.None?
    requires TerminalShape(c, failed)
    ensures TerminalShape(ms + c, failed)
  {
    var r := ms + c;
    forall k | 0 <= k < |r|
      ensures WellShaped(r[k]) && (r[k].error.Some? <==> failed && k == |r| - 1)
    {
      if k < |ms| {
        assert r[k] == ms[k];
      } else {
        assert r[k] == c[k - |ms|];
      }
    }
  }

  lemma DataOfAllAppend(a: seq<Delivery>, b: seq<Delivery>)
    ensures DataOfAll(a + b) == DataOfAll(a) + DataOfAll(b)
  {
    var l, r := DataOfAll(a + b), DataOfAll(a) + DataOfAll(b);
    assert |l| == |r|;
    forall k | 0 <= k < |l| ensures l[k] == r[k] {
      if k < |a| { assert (a + b)[k] == a[k]; } else { assert (a + b)[k] == b[k - |a|]; }
    }
  }

  /** The channel messages of one batch: its entries in order, then, if an
      acknowledgement fails, exactly one error message at the end. */
  lemma {:induction false} BatchChannel(args: ReadArgs, ds: seq<Delivery>)
    ensures TerminalShape(Channel(BatchTrace(args, ds)), AckFails(ds))
    ensures !AckFails(ds) ==> Channel(BatchTrace(args, ds)) == DataOfAll(ds)
  {
    if ds != [] {
      var head := [Sent(DataOf(ds[0])), Ack(args.stream, args.group, ds[0].id)];
      BatchUnfold(args, ds);
      ChannelPair(head[0], head[1]);
      if ds[0].ackError.Some? {
        var tail := [Sent(ErrorMessage(AckFailure(ds[0].ackError.value))), Closed];
        ChannelAppend(head, tail);
        ChannelPair(tail[0], tail[1]);
      } else {
        ChannelAppend(head, BatchTrace(args, ds[1..]));
        BatchChannel(args, ds[1..]);
        TerminalPrepend([DataOf(ds[0])], Channel(BatchTrace(args, ds[1..])), AckFails(ds));
      }
    } else {
      assert !AckFails(ds);
    }
  }

  /** The channel of the loop: every entry the script makes available, in
      order, as long as nothing fails; messages are entries or errors, and an
      error message appears only as the last message, exactly when a read or
      an acknowledgement fails. */
  lemma {:induction false} LoopChannel(args: ReadArgs, script: seq<ReadOutcome>)
    ensures TerminalShape(Channel(LoopTrace(args, script)), Fails(script))
    ensures !Fails(script) ==>
      Channel(LoopTrace(args, script)) == DataOfAll(Entries(script))
  {
    if script != [] {
      var t := LoopTrace(args, script);
      LoopUnfold(args, script, 0);
      assert script[0..] == script;
      if script[0].ReadError? {
        var tail := [Sent(ErrorMessage(ReadFailure(script[0].cause))), Closed];
        ChannelAppend([Read(args)], tail);
        ChannelPair(tail[0], tail[1]);
        assert Channel([Read(args)]) == [] by { assert [Read(args)][1..] == []; }
        assert Channel(t) == [ErrorMessage(ReadFailure(script[0].cause))];
        assert Fails(script);
      } else {
        var batch := Batch(script[0]);
        var b := BatchTrace(args, batch);
        var rest := if AckFails(batch) then [] else LoopTrace(args, script[1..]);
        assert t == [Read(args)] + (b + rest);
        ChannelAppend([Read(args)], b + rest);
        ChannelAppend(b, rest);
        assert Channel([Read(args)]) == [] by { assert [Read(args)][1..] == []; }
        assert Channel(t) == Channel(b) + Channel(rest);
        BatchChannel(args, batch);
        if AckFails(batch) {
          assert Channel(t) == Channel(b);
          assert Fails(script);
        } else {
          assert FirstFailure(script) == 1 + FirstFailure(script[1..]);
          LoopChannel(args, script[1..]);
          TerminalPrepend(Channel(b), Channel(rest), Fails(script));
          DataOfAllAppend(batch, Entries(script[1..]));
        }
      }
    } else {
      assert Channel([]) == [];
    }
  }

  /** When nothing in `done` fails, the loop's trace over `done + later` is
      that of `done` followed by that of `later`. */
  lemma {:induction false} LoopAppend(args: ReadArgs, done: seq<ReadOutcome>, later: seq<ReadOutcome>)
    requires !Fails(done)
    ensures LoopTrace(args, done + later) == LoopTrace(args, done) + LoopTrace(args, later)
  {
    if done == [] {
      assert done + later == later;
    } else {
      assert (done + later)[0] == done[0] && (done + later)[1..] == done[1..] + later;
      LoopAppend(args, done[1..], later);
    }
  }

  /** A read error is final: after the events of the earlier reads come the
      failing read, one error message and the close, whatever the script
      holds afterwards (no retry, and a timeout is no exception). */
  lemma ReadErrorIsFinal(args: ReadArgs, done: seq<ReadOutcome>, cause: string, later: seq<ReadOutcome>)
    requires !Fails(done)
    ensures LoopTrace(args, done + [ReadError(cause)] + later) ==
      LoopTrace(args, done) + [Read(args), Sent(ErrorMessage(ReadFailure(cause))), Closed]
    ensures Channel(LoopTrace(args, done + [ReadError(cause)] + later)) ==
      DataOfAll(Entries(done)) + [ErrorMessage(ReadFailure(cause))]
  {
    var tail := [Read(args), Sent(ErrorMessage(ReadFailure(cause))), Closed];
    assert done + [ReadError(cause)] + later == done + ([ReadError(cause)] + later);
    LoopAppend(args, done, [ReadError(cause)] + later);
    assert LoopTrace(args, [ReadError(cause)] + later) == tail;
    ChannelAppend(LoopTrace(args, done), tail);
    ChannelAppend([Read(args)], tail[1..]);
    ChannelPair(tail[1], tail[2]);
    LoopChannel(args, done);
  }

  /** Within a batch, a failing acknowledgement ends the batch's events: the
      entries before it and the failing entry are sent and acknowledged, then
      come the error message and the close, and the entries after it are
      never sent. */
  lemma AckFailureEndsBatch(args: ReadArgs, acked: seq<Delivery>, failing: Delivery, dropped: seq<Delivery>)
    requires !AckFails(acked) && failing.ackError.Some?
    ensures AckFails(acked + [failing] + dropped)
    ensures BatchTrace(args, acked + [failing] + dropped) ==
      BatchTrace(args, acked) +
      [Sent(DataOf(failing)), Ack(args.stream, args.group, failing.id),
       Sent(ErrorMessage(AckFailure(failing.ackError.value))), Closed]
    ensures Channel(BatchTrace(args, acked + [failing] + dropped)) ==
      DataOfAll(acked) + [DataOf(failing), ErrorMessage(AckFailure(failing.ackError.value))]
  {
    var batch := acked + [failing] + dropped;
    var last := [Sent(DataOf(failing)), Ack(args.stream, args.group, failing.id),
                 Sent(ErrorMessage(AckFailure(failing.ackError.value))), Closed];
    assert batch[|acked|] == failing;
    BatchStopsAt(args, acked, failing, dropped);
    ChannelAppend(BatchTrace(args, acked), last);
    BatchChannel(args, acked);
    ChannelAppend(last[..2], last[2..]);
    ChannelPair(last[0], last[1]);
    ChannelPair(last[2], last[3]);
    assert last[..2] + last[2..] == last;
  }

  /** The loop's trace when a read after `done` returns a batch: the trace of
      `done`, the read, and the batch's events, whatever the script holds
      afterwards once the batch holds a failing acknowledgement. */
  lemma FailingBatchSplit(args: ReadArgs, done: seq<ReadOutcome>, stream: string,
                          batch: seq<Delivery>, later: seq<ReadOutcome>)
    requires !Fails(done) && AckFails(batch)
    ensures LoopTrace(args, done + [ReadOk([StreamBatch(stream, batch)])] + later) ==
      LoopTrace(args, done) + ([Read(args)] + BatchTrace(args, batch))
  {
    var read := ReadOk([StreamBatch(stream, batch)]);
    assert Batch(read) == batch;
    assert done + [read] + later == done + ([read] + later);
    LoopAppend(args, done, [read] + later);
    assert ([read] + later)[0] == read;
  }

  /** A failing acknowledgement is final: the entry whose acknowledgement
      failed was sent and acknowledged, the error message and the close
      follow, and neither the batch's later entries nor any later read are
      ever reached. */
  lemma AckErrorIsFinal(args: ReadArgs, done: seq<ReadOutcome>, stream: string,
                        acked: seq<Delivery>, failing: Delivery, dropped: seq<Delivery>,
                        later: seq<ReadOutcome>)
    requires !Fails(done) && !AckFails(acked) && failing.ackError.Some?
    ensures LoopTrace(args, done + [ReadOk([StreamBatch(stream, acked + [failing] + dropped)])] + later) ==
      LoopTrace(args, done) + [Read(args)] + BatchTrace(args, acked) +
      [Sent(DataOf(failing)), Ack(args.stream, args.group, failing.id),
       Sent(ErrorMessage(AckFailure(failing.ackError.value))), Closed]
  {
    AckFailureEndsBatch(args, acked, failing, dropped);
    FailingBatchSplit(args, done, stream, acked + [failing] + dropped, later);
  }

  /** The channel when an acknowledgement fails: every entry of the earlier
      reads, the entries of the batch up to and including the failing one,
      then the error message. */
  lemma AckErrorChannel(args: ReadArgs, done: seq<ReadOutcome>, stream: string,
                        acked: seq<Delivery>, failing: Delivery, dropped: seq<Delivery>,
                        later: seq<ReadOutcome>)
    requires !Fails(done) && !AckFails(acked) && failing.ackError.Some?
    ensures Channel(LoopTrace(args, done + [ReadOk([StreamBatch(stream, acked + [failing] + dropped)])] + later)) ==
      DataOfAll(Entries(done) + acked + [failing]) + [ErrorMessage(AckFailure(failing.ackError.value))]
  {
    var batch := acked + [failing] + dropped;
    AckFailureEndsBatch(args, acked, failing, dropped);
    FailingBatchSplit(args, done, stream, batch, later);
    var b := BatchTrace(args, batch);
    var pre := LoopTrace(args, done);
    var err := ErrorMessage(AckFailure(failing.ackError.value));
    var entries := DataOfAll(Entries(done));
    calc {
      Channel(pre + ([Read(args)] + b));
      { ChannelAppend(pre, [Read(args)] + b); ChannelAppend([Read(args)], b);
        assert Channel([Read(args)]) == [] by { assert [Read(args)][1..] == []; }
        assert [] + Channel(b) == Channel(b); }
      Channel(pre) + Channel(b);
      { LoopChannel(args, done); }
      entries + (DataOfAll(acked) + [DataOf(failing), err]);
      { assert entries + (DataOfAll(acked) + [DataOf(failing), err]) ==
          (entries + DataOfAll(acked) + [DataOf(failing)]) + [err]; }
      (entries + DataOfAll(acked) + [DataOf(failing)]) + [err];
      { DataOfAllAppend(Entries(done), acked);
        DataOfAllAppend(Entries(done) + acked, [failing]);
        assert DataOfAll([failing]) == [DataOf(failing)]; }
      DataOfAll(Entries(done) + acked + [failing]) + [err];
    }
  }
}
