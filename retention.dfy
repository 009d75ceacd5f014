/** Retention (RetainStreams and trimLast in libs/streamer/redis.go): resolve
    the "*" wildcard through stream discovery, compute the threshold from the
    clock and the retention, and trim each topic in turn by walking its
    newest entries, newest first.

    The transport is a set of replies: the XREVRANGE reply of the i-th trim
    of a cycle, where each returned entry carries the reply its XDEL gets,
    and the SCAN replies discovery sees. */
module Retention {
  import opened Common
  import opened Decimal
  import opened Discovery
  import Streamer

  /** XREVRANGE topic + - COUNT 100: the newest hundred entries, newest first. */
  const RangeCount: nat := 100
  const NewestId: string := "+"
  const OldestId: string := "-"
  /** The topic list entry that asks for every stream of the keyspace. */
  const MatchAll: string := "*"

  /** A stored entry, with the reply its XDEL would get (None: deleted). */
  datatype StoredEntry = StoredEntry(id: string, values: map<string, Field>, deleteError: Option<string>)

  /** The XREVRANGE reply: entries newest first, or an error. */
  datatype RangeReply = RangeOk(newestFirst: seq<StoredEntry>) | RangeError(cause: string)

  /** The transport calls retention makes. */
  datatype TrimEvent =
    | RevRange(topic: string, start: string, end: string, count: nat)
    | Del(topic: string, id: string)

  /** The XDEL calls of a walk, and the error that ended it, if any. */
  datatype WalkResult = WalkResult(deleted: seq<string>, error: Option<Failure>)

  /** The transport calls of a trim (or a cycle) and its error, if any. */
  datatype Trimmed = Trimmed(events: seq<TrimEvent>, error: Option<Failure>)

  /** The entry's timestamp: the `timestamp` field, when present, held as
      text, and a decimal int64. */
  function TimestampOf(values: map<string, Field>): Option<int>
  {
    if TimestampKey in values && values[TimestampKey].Str? then ParseInt64(values[TimestampKey].text)
    else None
  }

  predicate Expired(threshold: int, e: StoredEntry)
  {
    TimestampOf(e.values).Some? && TimestampOf(e.values).value < threshold
  }

  predicate Fresh(threshold: int, e: StoredEntry)
  {
    TimestampOf(e.values).Some? && TimestampOf(e.values).value >= threshold
  }

  function Joined(ids: seq<string>, r: WalkResult): WalkResult
  {
    WalkResult(ids + r.deleted, r.error)
  }

  /** The walk of trimLast over the entries, newest first: skip an entry
      without a usable timestamp, delete an expired one (returning at once
      if the delete fails), and stop at the first fresh one. */
  function Walk(threshold: int, entries: seq<StoredEntry>): WalkResult
  {
    if entries == [] then WalkResult([], None)
    else
      var e := entries[0];
      match TimestampOf(e.values)
      case None => Walk(threshold, entries[1..])
      case Some(ts) =>
        if ts >= threshold then WalkResult([], None)
        else if e.deleteError.Some? then WalkResult([e.id], Some(DeleteFailure(e.deleteError.value)))
        else Joined([e.id], Walk(threshold, entries[1..]))
  }

  function DelEvents(topic: string, ids: seq<string>): (evs: seq<TrimEvent>)
    ensures |evs| == |ids| && forall k :: 0 <= k < |ids| ==> evs[k] == Del(topic, ids[k])
  {
    seq(|ids|, k requires 0 <= k < |ids| => Del(topic, ids[k]))
  }

  /** What trimLast does with one XREVRANGE reply. */
  function TrimOutcome(topic: string, threshold: int, reply: RangeReply): Trimmed
  {
    var read := [RevRange(topic, NewestId, OldestId, RangeCount)];
    match reply
    case RangeError(cause) => Trimmed(read, Some(ReadFailure(cause)))
    case RangeOk(entries) =>
      var w := Walk(threshold, entries);
      Trimmed(read + DelEvents(topic, w.deleted), w.error)
  }

  /** The walk's step at entry i, stated on the ids deleted so far. */
  lemma WalkStep(threshold: int, entries: seq<StoredEntry>, i: nat, deleted: seq<string>)
    requires i < |entries|
    requires Walk(threshold, entries) == Joined(deleted, Walk(threshold, entries[i..]))
    ensures TimestampOf(entries[i].values).None? ==>
      Walk(threshold, entries) == Joined(deleted, Walk(threshold, entries[i + 1..]))
    ensures Fresh(threshold, entries[i]) ==> Walk(threshold, entries) == WalkResult(deleted, None)
    ensures Expired(threshold, entries[i]) && entries[i].deleteError.Some? ==>
      Walk(threshold, entries) ==
        WalkResult(deleted + [entries[i].id], Some(DeleteFailure(entries[i].deleteError.value)))
    ensures Expired(threshold, entries[i]) && entries[i].deleteError.None? ==>
      Walk(threshold, entries) == Joined(deleted + [entries[i].id], Walk(threshold, entries[i + 1..]))
  {
    var rest := entries[i..];
    assert rest[0] == entries[i] && rest[1..] == entries[i + 1..];
    assert deleted + [] == deleted;
    if Expired(threshold, entries[i]) && entries[i].deleteError.None? {
      var tail := Walk(threshold, entries[i + 1..]);
      assert deleted + ([entries[i].id] + tail.deleted) == deleted + [entries[i].id] + tail.deleted;
    }
  }

  lemma DelEventsSnoc(topic: string, ids: seq<string>, id: string)
    ensures DelEvents(topic, ids + [id]) == DelEvents(topic, ids) + [Del(topic, id)]
  {
  }

  /** trimLast as the source writes it: one XREVRANGE, then the walk with its
      `continue` on an unusable timestamp and `break` on a fresh one. */
  method TrimLast(topic: string, threshold: int, reply: RangeReply) returns (events: seq<TrimEvent>, err: Option<Failure>)
    ensures Trimmed(events, err) == TrimOutcome(topic, threshold, reply)
  {
    events := [RevRange(topic, NewestId, OldestId, RangeCount)];
    if reply.RangeError? {
      return events, Some(ReadFailure(reply.cause));
    }
    var msgs := reply.newestFirst;
    ghost var deleted: seq<string> := [];
    assert msgs[0..] == msgs;
    var i := 0;
    while i < |msgs|
      invariant 0 <= i <= |msgs|
      invariant events == [RevRange(topic, NewestId, OldestId, RangeCount)] + DelEvents(topic, deleted)
      invariant Walk(threshold, msgs) == Joined(deleted, Walk(threshold, msgs[i..]))
    {
      WalkStep(threshold, msgs, i, deleted);
      var msg := msgs[i];
      if !(TimestampKey in msg.values && msg.values[TimestampKey].Str?) {
        i := i + 1;
        continue;
      }
      var ts := ParseInt64(msg.values[TimestampKey].text);
      if ts.None? {
        i := i + 1;
        continue;
      }
      if ts.value < threshold {
        DelEventsSnoc(topic, deleted, msg.id);
        events := events + [Del(topic, msg.id)];
        deleted := deleted + [msg.id];
        if msg.deleteError.Some? {
          return events, Some(DeleteFailure(msg.deleteError.value));
        }
      } else {
        assert Walk(threshold, msgs) == WalkResult(deleted, None);
        break;
      }
      i := i + 1;
    }
    if i == |msgs| {
      assert msgs[i..] == [] && deleted + [] == deleted;
    }
    err := None;
  }

  /** The position of the first entry with a usable timestamp at or past the
      threshold, or the number of entries when there is none. */
  function Boundary(threshold: int, entries: seq<StoredEntry>): (n: nat)
    ensures n <= |entries|
    ensures forall k :: 0 <= k < n ==> !Fresh(threshold, entries[k])
    ensures n < |entries| ==> Fresh(threshold, entries[n])
  {
    if entries == [] || Fresh(threshold, entries[0]) then 0 else 1 + Boundary(threshold, entries[1..])
  }

  /** The ids of the expired entries, in order: what an unguarded delete of
      everything older than the threshold would remove. */
  function ExpiredIds(threshold: int, entries: seq<StoredEntry>): (ids: seq<string>)
    ensures |ids| <= |entries|
  {
    if entries == [] then []
    else (if Expired(threshold, entries[0]) then [entries[0].id] else []) + ExpiredIds(threshold, entries[1..])
  }

  /** Each id ExpiredIds lists is that of an expired entry: the position of
      that entry. */
  lemma {:induction false} ExpiredIdSource(threshold: int, entries: seq<StoredEntry>, k: nat) returns (i: nat)
    requires k < |ExpiredIds(threshold, entries)|
    ensures i < |entries| && entries[i].id == ExpiredIds(threshold, entries)[k] && Expired(threshold, entries[i])
  {
    var head: seq<string> := if Expired(threshold, entries[0]) then [entries[0].id] else [];
    var rest := ExpiredIds(threshold, entries[1..]);
    assert ExpiredIds(threshold, entries) == head + rest;
    if k < |head| {
      i := 0;
    } else {
      var j := ExpiredIdSource(threshold, entries[1..], k - |head|);
      assert entries[1..][j] == entries[j + 1];
      i := j + 1;
    }
  }

  /** The expired ids in front of the first fresh entry. */
  function Candidates(threshold: int, entries: seq<StoredEntry>): seq<string>
  {
    ExpiredIds(threshold, entries[..Boundary(threshold, entries)])
  }

  lemma CandidatesUnfold(threshold: int, entries: seq<StoredEntry>)
    requires entries != []
    ensures Fresh(threshold, entries[0]) ==> Candidates(threshold, entries) == []
    ensures !Fresh(threshold, entries[0]) ==>
      Candidates(threshold, entries) ==
        (if Expired(threshold, entries[0]) then [entries[0].id] else []) + Candidates(threshold, entries[1..])
  {
    if !Fresh(threshold, entries[0]) {
      var n := Boundary(threshold, entries);
      var pre := entries[..n];
      assert pre[0] == entries[0];
      assert pre[1..] == entries[1..][..n - 1];
    }
  }

  /** What the walk deletes: the expired entries in front of the first fresh
      one, in order, all of them when no delete fails, and otherwise those up
      to and including the one whose delete failed (earlier deletions
      stand). */
  lemma {:induction false} WalkMeaning(threshold: int, entries: seq<StoredEntry>)
    ensures Walk(threshold, entries).deleted <= Candidates(threshold, entries)
    ensures Walk(threshold, entries).error.None? ==>
      Walk(threshold, entries).deleted == Candidates(threshold, entries)
    ensures Walk(threshold, entries).error.Some? ==>
      Walk(threshold, entries).deleted != [] && Walk(threshold, entries).error.value.DeleteFailure?
  {
    if entries != [] {
      CandidatesUnfold(threshold, entries);
      if !Fresh(threshold, entries[0]) {
        WalkMeaning(threshold, entries[1..]);
      }
    } else {
      assert entries[..0] == [];
    }
  }

  /** The walk deletes only expired entries in front of the first fresh one:
      an entry with a timestamp at or past the threshold is never deleted,
      nor is any entry behind it. */
  lemma DeletesOnlyExpired(threshold: int, entries: seq<StoredEntry>, k: nat)
    requires k < |Walk(threshold, entries).deleted|
    ensures exists i ::
      && 0 <= i < Boundary(threshold, entries)
      && entries[i].id == Walk(threshold, entries).deleted[k]
      && Expired(threshold, entries[i])
  {
    var n := Boundary(threshold, entries);
    var pre := entries[..n];
    WalkMeaning(threshold, entries);
    var id := Walk(threshold, entries).deleted[k];
    assert id == ExpiredIds(threshold, pre)[k];
    var i := ExpiredIdSource(threshold, pre, k);
    assert entries[i] == pre[i];
  }

  /** The entry at position f is expired, in front of the first fresh one,
      and its XDEL fails. */
  predicate DeleteFailsAt(threshold: int, entries: seq<StoredEntry>, f: nat)
  {
    f < Boundary(threshold, entries) && Expired(threshold, entries[f]) && entries[f].deleteError.Some?
  }

  /** The walk fails exactly when the XDEL of an expired entry in front of the
      first fresh one fails. */
  lemma {:induction false} WalkFailsIff(threshold: int, entries: seq<StoredEntry>)
    ensures Walk(threshold, entries).error.Some? <==>
      exists f :: 0 <= f < |entries| && DeleteFailsAt(threshold, entries, f)
  {
    if entries != [] && !Fresh(threshold, entries[0]) {
      var rest := entries[1..];
      WalkFailsIff(threshold, rest);
      assert forall f :: 0 < f < |entries| ==> entries[f] == rest[f - 1];
      var failsHere := Expired(threshold, entries[0]) && entries[0].deleteError.Some?;
      if Walk(threshold, entries).error.Some? {
        if !failsHere {
          var g :| 0 <= g < |rest| && DeleteFailsAt(threshold, rest, g);
          assert DeleteFailsAt(threshold, entries, g + 1);
        } else {
          assert DeleteFailsAt(threshold, entries, 0);
        }
      }
      if exists f :: 0 <= f < |entries| && DeleteFailsAt(threshold, entries, f) {
        var f :| 0 <= f < |entries| && DeleteFailsAt(threshold, entries, f);
        if !failsHere {
          assert DeleteFailsAt(threshold, rest, f - 1);
        }
      }
    }
  }

  /** At the first failing delete the walk returns at once: its XDEL calls
      are the expired entries up to and including that one, and the error is
      that delete's. */
  lemma {:induction false} WalkStopsAtFailure(threshold: int, entries: seq<StoredEntry>, f: nat)
    requires f < |entries| && DeleteFailsAt(threshold, entries, f)
    requires forall i :: 0 <= i < f ==> !DeleteFailsAt(threshold, entries, i)
    ensures Walk(threshold, entries) ==
      WalkResult(ExpiredIds(threshold, entries[..f + 1]), Some(DeleteFailure(entries[f].deleteError.value)))
  {
    var rest := entries[1..];
    assert entries[..f + 1][1..] == rest[..f];
    if f == 0 {
      assert rest[..0] == [];
    } else {
      assert !Fresh(threshold, entries[0]) && !DeleteFailsAt(threshold, entries, 0);
      assert rest[f - 1] == entries[f];
      forall i | 0 <= i < f - 1
        ensures !DeleteFailsAt(threshold, rest, i)
      {
        assert rest[i] == entries[i + 1] && !DeleteFailsAt(threshold, entries, i + 1);
      }
      WalkStopsAtFailure(threshold, rest, f - 1);
    }
  }

  /** A fresh newest entry ends the walk at once: nothing is deleted, even
      when expired entries sit behind it. */
  lemma FreshNewestDeletesNothing(threshold: int, entries: seq<StoredEntry>)
    requires entries != [] && Fresh(threshold, entries[0])
    ensures Walk(threshold, entries) == WalkResult([], None)
  {
  }

  /** An entry without a usable timestamp (missing, not text, or not a
      decimal int64) is skipped wherever it sits: it is not deleted and does
      not stop the walk. */
  lemma {:induction false} UnusableIsSkipped(threshold: int, before: seq<StoredEntry>, u: StoredEntry, after: seq<StoredEntry>)
    requires TimestampOf(u.values).None?
    ensures Walk(threshold, before + [u] + after) == Walk(threshold, before + after)
  {
    if before == [] {
      assert before + [u] + after == [u] + after && ([u] + after)[1..] == after;
      assert before + after == after;
    } else {
      assert (before + [u] + after)[0] == before[0] && (before + [u] + after)[1..] == before[1..] + [u] + after;
      assert (before + after)[0] == before[0] && (before + after)[1..] == before[1..] + after;
      UnusableIsSkipped(threshold, before[1..], u, after);
    }
  }

  function Ids(entries: seq<StoredEntry>): (ids: seq<string>)
    ensures |ids| == |entries| && forall k :: 0 <= k < |entries| ==> ids[k] == entries[k].id
  {
    if entries == [] then [] else [entries[0].id] + Ids(entries[1..])
  }

  /** Entries whose timestamps are all usable and do not increase from
      newest to oldest. */
  predicate TimeOrdered(entries: seq<StoredEntry>)
  {
    && (forall i :: 0 <= i < |entries| ==> TimestampOf(entries[i].values).Some?)
    && (forall i, j :: 0 <= i < j < |entries| ==>
          TimestampOf(entries[j].values).value <= TimestampOf(entries[i].values).value)
  }

  predicate NoDeleteFails(entries: seq<StoredEntry>)
  {
    forall i :: 0 <= i < |entries| ==> entries[i].deleteError.None?
  }

  lemma {:induction false} AllExpiredAllDeleted(threshold: int, entries: seq<StoredEntry>)
    requires NoDeleteFails(entries)
    requires forall i :: 0 <= i < |entries| ==> Expired(threshold, entries[i])
    ensures Walk(threshold, entries) == WalkResult(Ids(entries), None)
  {
    if entries != [] {
      AllExpiredAllDeleted(threshold, entries[1..]);
    }
  }

  /** When timestamps follow the stream's order, the walk is all or nothing:
      a fresh newest entry keeps every entry, an expired one deletes them all
      (given no delete fails). The older expired part of a stream whose
      newest entry is fresh is therefore never trimmed. */
  lemma MonotoneAllOrNothing(threshold: int, entries: seq<StoredEntry>)
    requires TimeOrdered(entries) && NoDeleteFails(entries)
    ensures Walk(threshold, entries).deleted == [] || Walk(threshold, entries).deleted == Ids(entries)
    ensures entries != [] && Fresh(threshold, entries[0]) ==> Walk(threshold, entries).deleted == []
    ensures entries != [] && Expired(threshold, entries[0]) ==> Walk(threshold, entries).deleted == Ids(entries)
  {
    if entries != [] && Expired(threshold, entries[0]) {
      forall i | 0 <= i < |entries| ensures Expired(threshold, entries[i]) {
        if i > 0 {
          assert TimestampOf(entries[i].values).value <= TimestampOf(entries[0].values).value;
        }
      }
      AllExpiredAllDeleted(threshold, entries);
    }
  }

  /** An XREVRANGE error deletes nothing and is reported wrapped. */
  lemma ReadErrorDeletesNothing(topic: string, threshold: int, cause: string)
    ensures TrimOutcome(topic, threshold, RangeError(cause)) ==
      Trimmed([RevRange(topic, NewestId, OldestId, RangeCount)], Some(ReadFailure(cause)))
  {
  }

  /** The threshold of a cycle: now minus the retention, in milliseconds,
      truncated toward zero. */
  function Threshold(nowNs: int, retentionNs: int): int
  {
    MillisOf(nowNs - retentionNs)
  }

  /** How the transport hands back the fields XADD appended: as text, an
      integer in its decimal form. */
  function AsStored(values: map<string, Field>): (r: map<string, Field>)
    ensures r.Keys == values.Keys
    ensures forall k :: k in values && values[k].Num? ==> r[k] == Str(FormatInt(values[k].n))
    ensures forall k :: k in values && values[k].Str? ==> r[k] == values[k]
  {
    map k | k in values :: if values[k].Num? then Str(FormatInt(values[k].n)) else values[k]
  }

  /** The timestamp Publish writes is the one the walk reads back. */
  lemma PublishedStampReadsBack(values: map<string, Field>, publishNs: int)
    requires IsInt64(publishNs)
    ensures TimestampOf(AsStored(Streamer.Stamped(values, publishNs))) == Some(MillisOf(publishNs))
  {
    ParseFormatRoundTrip(MillisOf(publishNs));
  }

  /** A message published no earlier than now minus the retention is fresh. */
  lemma WithinRetentionIsFresh(publishNs: int, nowNs: int, retentionNs: int)
    requires publishNs >= nowNs - retentionNs
    ensures MillisOf(publishNs) >= Threshold(nowNs, retentionNs)
  {
    MillisMonotone(nowNs - retentionNs, publishNs);
  }

  /** A message published (after the epoch) at least a millisecond before now
      minus the retention is expired. */
  lemma PastRetentionIsExpired(publishNs: int, nowNs: int, retentionNs: int)
    requires 0 <= publishNs && publishNs + NanosPerMilli <= nowNs - retentionNs
    ensures MillisOf(publishNs) < Threshold(nowNs, retentionNs)
  {
  }

  /** A stored entry that Publish stamped within the retention stops the walk:
      nothing at or behind it is deleted. */
  lemma RecentEntryStopsWalk(entries: seq<StoredEntry>, i: nat, values: map<string, Field>,
                             publishNs: int, nowNs: int, retentionNs: int)
    requires i < |entries| && IsInt64(publishNs) && publishNs >= nowNs - retentionNs
    requires entries[i].values == AsStored(Streamer.Stamped(values, publishNs))
    ensures Boundary(Threshold(nowNs, retentionNs), entries) <= i
  {
    PublishedStampReadsBack(values, publishNs);
    WithinRetentionIsFresh(publishNs, nowNs, retentionNs);
    assert Fresh(Threshold(nowNs, retentionNs), entries[i]);
  }

  /** A single `timestamp` field holding `ms` as text. */
  function StampedAt(ms: int): map<string, Field>
  {
    map[TimestampKey := Str(FormatInt(ms))]
  }

  /** The stamp of a published message reads back as the number written. */
  lemma StampedAtReadsBack(ms: int)
    requires IsInt64(ms)
    ensures TimestampOf(StampedAt(ms)) == Some(ms)
  {
    ParseFormatRoundTrip(ms);
  }

  const MinuteNs: int := 60_000_000_000
  const ScenarioNowNs: int := 60 * MinuteNs
  const ScenarioRetentionNs: int := 5 * MinuteNs

  /** An entry published `minutes` minutes before the scenario's now. */
  function MinutesAgo(id: string, minutes: nat): StoredEntry
  {
    StoredEntry(id, StampedAt(MillisOf(ScenarioNowNs - minutes * MinuteNs)), None)
  }

  /** Five entries published two, four, six, eight and ten minutes ago, newest first. */
  function ScenarioEntries(id2: string, id4: string, id6: string, id8: string, id10: string): seq<StoredEntry>
  {
    [MinutesAgo(id2, 2), MinutesAgo(id4, 4), MinutesAgo(id6, 6), MinutesAgo(id8, 8), MinutesAgo(id10, 10)]
  }

  /** With a five-minute retention the newest entry is fresh, so the walk
      deletes nothing at all. */
  lemma ScenarioDeletesNothing(id2: string, id4: string, id6: string, id8: string, id10: string)
    ensures Walk(Threshold(ScenarioNowNs, ScenarioRetentionNs), ScenarioEntries(id2, id4, id6, id8, id10))
            == WalkResult([], None)
  {
    assert Threshold(ScenarioNowNs, ScenarioRetentionNs) == 3_300_000;
    assert MillisOf(ScenarioNowNs - 2 * MinuteNs) == 3_480_000;
    StampedAtReadsBack(3_480_000);
  }

  /** Of the scenario's entries, exactly those older than five minutes are
      past the threshold. */
  lemma ScenarioAge(id: string, minutes: nat)
    requires minutes in {2, 4, 6, 8, 10}
    ensures Expired(Threshold(ScenarioNowNs, ScenarioRetentionNs), MinutesAgo(id, minutes)) <==> minutes > 5
  {
    assert Threshold(ScenarioNowNs, ScenarioRetentionNs) == 3_300_000;
    var ms := MillisOf(ScenarioNowNs - minutes * MinuteNs);
    if minutes == 2 {
      assert ms == 3_480_000;
    } else if minutes == 4 {
      assert ms == 3_360_000;
    } else if minutes == 6 {
      assert ms == 3_240_000;
    } else if minutes == 8 {
      assert ms == 3_120_000;
    } else {
      assert ms == 3_000_000;
    }
    StampedAtReadsBack(ms);
  }

  /** ... although the three oldest entries are past the retention. */
  lemma ScenarioExpired(id2: string, id4: string, id6: string, id8: string, id10: string)
    ensures ExpiredIds(Threshold(ScenarioNowNs, ScenarioRetentionNs), ScenarioEntries(id2, id4, id6, id8, id10))
            == [id6, id8, id10]
  {
    var threshold := Threshold(ScenarioNowNs, ScenarioRetentionNs);
    var es := ScenarioEntries(id2, id4, id6, id8, id10);
    ScenarioAge(id2, 2);
    ScenarioAge(id4, 4);
    ScenarioAge(id6, 6);
    ScenarioAge(id8, 8);
    ScenarioAge(id10, 10);
    assert ExpiredIds(threshold, es[4..]) == [id10] by {
      assert es[4..][1..] == [];
    }
    assert ExpiredIds(threshold, es[3..]) == [id8, id10] by {
      assert es[3..][1..] == es[4..];
    }
    assert ExpiredIds(threshold, es[2..]) == [id6, id8, id10] by {
      assert es[2..][1..] == es[3..];
    }
    assert ExpiredIds(threshold, es[1..]) == [id6, id8, id10] by {
      assert es[1..][1..] == es[2..];
    }
  }

  /** The wildcard check: a flag set by any "*" in the list (the loop does
      not stop at the first one). */
  method HasWildcard(topics: seq<string>) returns (all: bool)
    ensures all <==> exists i :: 0 <= i < |topics| && topics[i] == MatchAll
  {
    all := false;
    for i := 0 to |topics|
      invariant all <==> exists k :: 0 <= k < i && topics[k] == MatchAll
    {
      if topics[i] == MatchAll {
        all := true;
      }
    }
  }

  /** The topics a cycle trims: every stream of the keyspace when the list
      holds "*" (a discovery error is returned unwrapped), else the list as
      given. */
  function CycleTopics(topics: seq<string>, scan: seq<ScanReply>): Result<seq<string>, Failure>
  {
    if MatchAll in topics then Discover(scan) else Ok(topics)
  }

  /** The trims of a cycle from position `from` on: each topic in turn with
      the same threshold, stopping at the first error, which is wrapped with
      the topic's name. */
  function TrimAll(topics: seq<string>, threshold: int, ranges: nat -> RangeReply, from: nat): Trimmed
  {
    if topics == [] then Trimmed([], None)
    else
      var first := TrimOutcome(topics[0], threshold, ranges(from));
      if first.error.Some? then Trimmed(first.events, Some(TrimFailure(topics[0], first.error.value)))
      else
        var rest := TrimAll(topics[1..], threshold, ranges, from + 1);
        Trimmed(first.events + rest.events, rest.error)
  }

  /** One retention cycle: resolve the topics, then trim them all. */
  function Cycle(topics: seq<string>, nowNs: int, retentionNs: int, scan: seq<ScanReply>,
                 ranges: nat -> RangeReply): Trimmed
  {
    match CycleTopics(topics, scan)
    case Err(e) => Trimmed([], Some(e))
    case Ok(targets) => TrimAll(targets, Threshold(nowNs, retentionNs), ranges, 0)
  }

  lemma TrimAllStep(targets: seq<string>, threshold: int, ranges: nat -> RangeReply, k: nat, events: seq<TrimEvent>)
    requires k < |targets|
    requires TrimAll(targets, threshold, ranges, 0) ==
      Trimmed(events + TrimAll(targets[k..], threshold, ranges, k).events,
              TrimAll(targets[k..], threshold, ranges, k).error)
    ensures var first := TrimOutcome(targets[k], threshold, ranges(k));
      && (first.error.Some? ==>
            TrimAll(targets, threshold, ranges, 0) ==
              Trimmed(events + first.events, Some(TrimFailure(targets[k], first.error.value))))
      && (first.error.None? ==>
            TrimAll(targets, threshold, ranges, 0) ==
              Trimmed(events + first.events + TrimAll(targets[k + 1..], threshold, ranges, k + 1).events,
                      TrimAll(targets[k + 1..], threshold, ranges, k + 1).error))
  {
    var rest := targets[k..];
    assert rest[0] == targets[k] && rest[1..] == targets[k + 1..];
    var first := TrimOutcome(targets[k], threshold, ranges(k));
    if first.error.None? {
      var tail := TrimAll(targets[k + 1..], threshold, ranges, k + 1);
      assert events + (first.events + tail.events) == events + first.events + tail.events;
    }
  }

  /** RetainStreams, one cycle of its endless loop: the wildcard check, the
      discovery when it is asked for, then each topic's trim in order; the
      first trim error ends the cycle, wrapped with the topic's name. */
  method RetainStreams(topics: seq<string>, nowNs: int, retentionNs: int, scan: seq<ScanReply>,
                       ranges: nat -> RangeReply) returns (events: seq<TrimEvent>, err: Option<Failure>)
    requires MatchAll in topics ==> ScanEnds(scan)
    ensures Trimmed(events, err) == Cycle(topics, nowNs, retentionNs, scan, ranges)
  {
    var all := HasWildcard(topics);
    var targets := topics;
    if all {
      var found, _ := GetStreamTopics(scan);
      if found.Err? {
        return [], Some(found.error);
      }
      targets := found.value;
    }
    var threshold := Threshold(nowNs, retentionNs);
    events := [];
    assert targets[0..] == targets && [] + TrimAll(targets, threshold, ranges, 0).events ==
      TrimAll(targets, threshold, ranges, 0).events;
    var k := 0;
    while k < |targets|
      invariant 0 <= k <= |targets|
      invariant TrimAll(targets, threshold, ranges, 0) ==
        Trimmed(events + TrimAll(targets[k..], threshold, ranges, k).events,
                TrimAll(targets[k..], threshold, ranges, k).error)
    {
      TrimAllStep(targets, threshold, ranges, k, events);
      var trimmed, trimError := TrimLast(targets[k], threshold, ranges(k));
      events := events + trimmed;
      if trimError.Some? {
        return events, Some(TrimFailure(targets[k], trimError.value));
      }
      k := k + 1;
    }
    assert targets[k..] == [] && events + [] == events;
    err := None;
  }

  /** The topics of the XREVRANGE calls, in order: the topics trimmed. */
  function RangeTopics(events: seq<TrimEvent>): seq<string>
  {
    if events == [] then []
    else (if events[0].RevRange? then [events[0].topic] else []) + RangeTopics(events[1..])
  }

  lemma RangeTopicsAppend(a: seq<TrimEvent>, b: seq<TrimEvent>)
    ensures RangeTopics(a + b) == RangeTopics(a) + RangeTopics(b)
  {
    if a == [] {
      assert a + b == b;
    } else {
      assert (a + b)[0] == a[0] && (a + b)[1..] == a[1..] + b;
      RangeTopicsAppend(a[1..], b);
    }
  }

  lemma {:induction false} RangeTopicsOfDels(topic: string, ids: seq<string>)
    ensures RangeTopics(DelEvents(topic, ids)) == []
  {
    if ids != [] {
      RangeTopicsOfDels(topic, ids[1..]);
      assert DelEvents(topic, ids)[1..] == DelEvents(topic, ids[1..]);
    }
  }

  /** Each trim reads its own topic once. */
  lemma RangeTopicsOfTrim(topic: string, threshold: int, reply: RangeReply)
    ensures RangeTopics(TrimOutcome(topic, threshold, reply).events) == [topic]
  {
    var read := [RevRange(topic, NewestId, OldestId, RangeCount)];
    assert read[1..] == [];
    if reply.RangeOk? {
      var w := Walk(threshold, reply.newestFirst);
      RangeTopicsAppend(read, DelEvents(topic, w.deleted));
      RangeTopicsOfDels(topic, w.deleted);
    }
  }

  /** A trim of the cycle (from position `from`) fails at position k. */
  predicate TrimFailsAt(topics: seq<string>, threshold: int, ranges: nat -> RangeReply, from: nat, k: nat)
    requires k < |topics|
  {
    TrimOutcome(topics[k], threshold, ranges(from + k)).error.Some?
  }

  /** A cycle fails exactly when one of its topics' trims fails. */
  lemma {:induction false} TrimAllFailsIff(topics: seq<string>, threshold: int, ranges: nat -> RangeReply, from: nat)
    ensures TrimAll(topics, threshold, ranges, from).error.Some? <==>
      exists k :: 0 <= k < |topics| && TrimFailsAt(topics, threshold, ranges, from, k)
  {
    if topics != [] {
      var rest := topics[1..];
      TrimAllFailsIff(rest, threshold, ranges, from + 1);
      var failsHere := TrimFailsAt(topics, threshold, ranges, from, 0);
      if !failsHere && TrimAll(topics, threshold, ranges, from).error.Some? {
        var g :| 0 <= g < |rest| && TrimFailsAt(rest, threshold, ranges, from + 1, g);
        assert rest[g] == topics[g + 1] && from + 1 + g == from + (g + 1);
        assert TrimFailsAt(topics, threshold, ranges, from, g + 1);
      }
      if !failsHere && exists k :: 0 <= k < |topics| && TrimFailsAt(topics, threshold, ranges, from, k) {
        var k :| 0 <= k < |topics| && TrimFailsAt(topics, threshold, ranges, from, k);
        assert rest[k - 1] == topics[k] && from + 1 + (k - 1) == from + k;
        assert TrimFailsAt(rest, threshold, ranges, from + 1, k - 1);
      }
    }
  }

  /** Dropping the first topic shifts the positions of the later trims. */
  lemma ShiftNoFailure(topics: seq<string>, rest: seq<string>, threshold: int, ranges: nat -> RangeReply,
                       from: nat, next: nat, k: nat)
    requires 0 < k <= |topics| && rest == topics[1..] && next == from + 1
    requires forall j :: 0 <= j < k ==> !TrimFailsAt(topics, threshold, ranges, from, j)
    ensures forall j :: 0 <= j < k - 1 ==> !TrimFailsAt(rest, threshold, ranges, next, j)
  {
    forall j | 0 <= j < k - 1
      ensures !TrimFailsAt(rest, threshold, ranges, next, j)
    {
      assert rest[j] == topics[j + 1] && next + j == from + (j + 1);
      assert !TrimFailsAt(topics, threshold, ranges, from, j + 1);
    }
  }

  /** The first failing trim ends the cycle: the cycle's error wraps that
      trim's error with the topic's name. */
  lemma {:induction false} TrimAllStopsAtFailure(topics: seq<string>, threshold: int, ranges: nat -> RangeReply,
                                                 from: nat, k: nat)
    requires k < |topics| && TrimFailsAt(topics, threshold, ranges, from, k)
    requires forall j :: 0 <= j < k ==> !TrimFailsAt(topics, threshold, ranges, from, j)
    ensures TrimAll(topics, threshold, ranges, from).error ==
      Some(TrimFailure(topics[k], TrimOutcome(topics[k], threshold, ranges(from + k)).error.value))
  {
    if k > 0 {
      assert !TrimFailsAt(topics, threshold, ranges, from, 0);
      var rest, next := topics[1..], from + 1;
      ShiftNoFailure(topics, rest, threshold, ranges, from, next, k);
      assert rest[k - 1] == topics[k] && next + (k - 1) == from + k;
      TrimAllStopsAtFailure(rest, threshold, ranges, next, k - 1);
    }
  }

  /** ... and the topics it reads are those up to and including the one
      whose trim failed. */
  lemma {:induction false} TrimAllReadsUpToFailure(topics: seq<string>, threshold: int, ranges: nat -> RangeReply,
                                                   from: nat, k: nat)
    requires k < |topics| && TrimFailsAt(topics, threshold, ranges, from, k)
    requires forall j :: 0 <= j < k ==> !TrimFailsAt(topics, threshold, ranges, from, j)
    ensures RangeTopics(TrimAll(topics, threshold, ranges, from).events) == topics[..k + 1]
  {
    var first := TrimOutcome(topics[0], threshold, ranges(from));
    RangeTopicsOfTrim(topics[0], threshold, ranges(from));
    if k == 0 {
      assert topics[..1] == [topics[0]];
    } else {
      assert !TrimFailsAt(topics, threshold, ranges, from, 0);
      var rest, next := topics[1..], from + 1;
      ShiftNoFailure(topics, rest, threshold, ranges, from, next, k);
      assert rest[k - 1] == topics[k] && next + (k - 1) == from + k;
      TrimAllReadsUpToFailure(rest, threshold, ranges, next, k - 1);
      var tail := TrimAll(rest, threshold, ranges, next);
      assert TrimAll(topics, threshold, ranges, from).events == first.events + tail.events;
      RangeTopicsAppend(first.events, tail.events);
      assert [topics[0]] + rest[..k] == topics[..k + 1];
    }
  }

  /** Every transport call of a trim names its own topic. */
  lemma TrimOutcomeTopic(topic: string, threshold: int, reply: RangeReply)
    ensures forall i :: 0 <= i < |TrimOutcome(topic, threshold, reply).events| ==>
      TrimOutcome(topic, threshold, reply).events[i].topic == topic
  {
    var read: seq<TrimEvent> := [RevRange(topic, NewestId, OldestId, RangeCount)];
    if reply.RangeOk? {
      var dels := DelEvents(topic, Walk(threshold, reply.newestFirst).deleted);
      forall i: int | 0 <= i < |read + dels| ensures (read + dels)[i].topic == topic {
        if i > 0 { assert (read + dels)[i] == dels[i - 1]; }
      }
    }
  }

  /** The transport calls of the first n trims of the cycle (from position
      `from`), each trim on its own topic and range reply, one after another. */
  function TrimsUpTo(topics: seq<string>, threshold: int, ranges: nat -> RangeReply, from: nat, n: nat): seq<TrimEvent>
    requires n <= |topics|
  {
    if n == 0 then []
    else TrimsUpTo(topics, threshold, ranges, from, n - 1) +
         TrimOutcome(topics[n - 1], threshold, ranges(from + n - 1)).events
  }

  /** The calls of the first n trims name only the first n topics. */
  lemma {:induction false} TrimsUpToTopics(topics: seq<string>, threshold: int, ranges: nat -> RangeReply,
                                           from: nat, n: nat)
    requires n <= |topics|
    ensures forall i :: 0 <= i < |TrimsUpTo(topics, threshold, ranges, from, n)| ==>
      TrimsUpTo(topics, threshold, ranges, from, n)[i].topic in topics[..n]
  {
    if n > 0 {
      TrimsUpToTopics(topics, threshold, ranges, from, n - 1);
      var before: seq<TrimEvent> := TrimsUpTo(topics, threshold, ranges, from, n - 1);
      var last := TrimOutcome(topics[n - 1], threshold, ranges(from + n - 1)).events;
      TrimOutcomeTopic(topics[n - 1], threshold, ranges(from + n - 1));
      forall i: int | 0 <= i < |before + last| ensures (before + last)[i].topic in topics[..n] {
        if i < |before| {
          assert (before + last)[i] == before[i];
          assert before[i].topic in topics[..n - 1];
          assert topics[..n - 1] == topics[..n][..n - 1];
        } else {
          assert (before + last)[i] == last[i - |before|];
          assert topics[..n][n - 1] == topics[n - 1];
        }
      }
    }
  }

  /** Splitting off the first trim of the first n. */
  lemma {:induction false} TrimsUpToCons(topics: seq<string>, threshold: int, ranges: nat -> RangeReply,
                                         from: nat, n: nat)
    requires 0 < n <= |topics|
    ensures TrimsUpTo(topics, threshold, ranges, from, n) ==
      TrimOutcome(topics[0], threshold, ranges(from)).events + TrimsUpTo(topics[1..], threshold, ranges, from + 1, n - 1)
  {
    var first := TrimOutcome(topics[0], threshold, ranges(from)).events;
    if n == 1 {
      assert TrimsUpTo(topics, threshold, ranges, from, 1) == [] + first;
      assert first + [] == first;
    } else {
      TrimsUpToCons(topics, threshold, ranges, from, n - 1);
      var rest := topics[1..];
      assert rest[n - 2] == topics[n - 1] && from + 1 + (n - 1) - 1 == from + n - 1;
      var last := TrimOutcome(topics[n - 1], threshold, ranges(from + n - 1)).events;
      assert TrimsUpTo(rest, threshold, ranges, from + 1, n - 1) ==
        TrimsUpTo(rest, threshold, ranges, from + 1, n - 2) + last;
      assert first + TrimsUpTo(rest, threshold, ranges, from + 1, n - 2) + last ==
        first + (TrimsUpTo(rest, threshold, ranges, from + 1, n - 2) + last);
    }
  }

  /** A cycle without error makes the calls of every topic's trim, in order,
      and no others. */
  lemma {:induction false} TrimAllEventsWithoutFailure(topics: seq<string>, threshold: int, ranges: nat -> RangeReply,
                                                       from: nat)
    ensures TrimAll(topics, threshold, ranges, from).error.None? ==>
      TrimAll(topics, threshold, ranges, from).events == TrimsUpTo(topics, threshold, ranges, from, |topics|)
  {
    if topics != [] && TrimAll(topics, threshold, ranges, from).error.None? {
      var first := TrimOutcome(topics[0], threshold, ranges(from));
      var rest := topics[1..];
      var tail := TrimAll(rest, threshold, ranges, from + 1);
      assert TrimAll(topics, threshold, ranges, from) == Trimmed(first.events + tail.events, tail.error);
      TrimAllEventsWithoutFailure(rest, threshold, ranges, from + 1);
      TrimsUpToCons(topics, threshold, ranges, from, |topics|);
    }
  }

  /** The first failing trim ends the cycle: its calls are exactly those of
      the trims up to and including the failing one, so no call (read or
      delete) names a topic after it. */
  lemma {:induction false} TrimAllEventsUpToFailure(topics: seq<string>, threshold: int, ranges: nat -> RangeReply,
                                                    from: nat, k: nat)
    requires k < |topics| && TrimFailsAt(topics, threshold, ranges, from, k)
    requires forall j :: 0 <= j < k ==> !TrimFailsAt(topics, threshold, ranges, from, j)
    ensures TrimAll(topics, threshold, ranges, from).events == TrimsUpTo(topics, threshold, ranges, from, k + 1)
    ensures forall i :: 0 <= i < |TrimAll(topics, threshold, ranges, from).events| ==>
      TrimAll(topics, threshold, ranges, from).events[i].topic in topics[..k + 1]
  {
    var first := TrimOutcome(topics[0], threshold, ranges(from));
    TrimsUpToCons(topics, threshold, ranges, from, k + 1);
    if k == 0 {
      assert TrimAll(topics, threshold, ranges, from).events == first.events;
      assert first.events + [] == first.events;
    } else {
      assert !TrimFailsAt(topics, threshold, ranges, from, 0);
      var rest, next := topics[1..], from + 1;
      ShiftNoFailure(topics, rest, threshold, ranges, from, next, k);
      assert rest[k - 1] == topics[k] && next + (k - 1) == from + k;
      TrimAllEventsUpToFailure(rest, threshold, ranges, next, k - 1);
      var tail := TrimAll(rest, threshold, ranges, next);
      assert TrimAll(topics, threshold, ranges, from).events == first.events + tail.events;
    }
    TrimsUpToTopics(topics, threshold, ranges, from, k + 1);
  }

  /** A cycle trims its topics in order; without an error it trims them all,
      and the first error stops it at the topic that failed, leaving the
      topics after it untouched. */
  lemma {:induction false} TrimAllInOrder(topics: seq<string>, threshold: int, ranges: nat -> RangeReply, from: nat)
    ensures TrimAll(topics, threshold, ranges, from).error.None? ==>
      RangeTopics(TrimAll(topics, threshold, ranges, from).events) == topics
    ensures TrimAll(topics, threshold, ranges, from).error.Some? ==>
      var visited := RangeTopics(TrimAll(topics, threshold, ranges, from).events);
      && 0 < |visited| <= |topics|
      && visited == topics[..|visited|]
      && TrimAll(topics, threshold, ranges, from).error.value.TrimFailure?
      && TrimAll(topics, threshold, ranges, from).error.value.topic == visited[|visited| - 1]
  {
    if topics != [] {
      var c := TrimAll(topics, threshold, ranges, from);
      var first := TrimOutcome(topics[0], threshold, ranges(from));
      RangeTopicsOfTrim(topics[0], threshold, ranges(from));
      if first.error.Some? {
        assert c.events == first.events;
        assert topics[..1] == [topics[0]];
      } else {
        var rest := TrimAll(topics[1..], threshold, ranges, from + 1);
        assert c == Trimmed(first.events + rest.events, rest.error);
        TrimAllInOrder(topics[1..], threshold, ranges, from + 1);
        RangeTopicsAppend(first.events, rest.events);
        assert RangeTopics(c.events) == [topics[0]] + RangeTopics(rest.events);
        if rest.error.Some? {
          var n := |RangeTopics(rest.events)|;
          assert [topics[0]] + topics[1..][..n] == topics[..n + 1];
        } else {
          assert [topics[0]] + topics[1..] == topics;
        }
      }
    }
  }
}
