/** Stream discovery (GetStreamTopics in libs/streamer/redis.go): a
    cursor-driven SCAN over the whole keyspace, asking each scanned key for
    its type and keeping the keys whose type is "stream".

    The transport is a script of SCAN replies, one per call in order, where
    each scanned key carries the reply its TYPE query gets. */
module Discovery {
  import opened Common

  /** The TYPE reply of a stream key. */
  const StreamType: string := "stream"

  datatype TypeReply = TypeIs(name: string) | TypeError(cause: string)

  /** A scanned key with the reply its TYPE query gets. */
  datatype KeyProbe = KeyProbe(key: string, keyType: TypeReply)

  /** One SCAN reply: a page of keys with the next cursor, or an error. */
  datatype ScanReply = ScanPage(probes: seq<KeyProbe>, cursor: nat) | ScanError(cause: string)

  /** A reply after which the scan asks for nothing more. */
  predicate Terminal(r: ScanReply)
  {
    r.ScanError? || r.cursor == 0
  }

  /** The position of the first reply that ends the scan, or the script's
      length when none does. */
  function ScanEnd(scan: seq<ScanReply>): (n: nat)
    ensures n <= |scan|
    ensures forall k :: 0 <= k < n ==> !Terminal(scan[k])
    ensures n < |scan| ==> Terminal(scan[n])
  {
    if scan == [] || Terminal(scan[0]) then 0 else 1 + ScanEnd(scan[1..])
  }

  /** The transport ends the scan: some reply is an error or returns cursor 0. */
  predicate ScanEnds(scan: seq<ScanReply>)
  {
    ScanEnd(scan) < |scan|
  }

  /** `ks` in front of a successful result; an error passes through. */
  function Prefixed(ks: seq<string>, r: Result<seq<string>, Failure>): Result<seq<string>, Failure>
  {
    match r
    case Ok(rest) => Ok(ks + rest)
    case Err(e) => Err(e)
  }

  /** The stream keys of one page, in page order, or the first TYPE error. */
  function PageTopics(probes: seq<KeyProbe>): Result<seq<string>, Failure>
  {
    if probes == [] then Ok([])
    else
      match probes[0].keyType
      case TypeError(cause) => Err(TransportFailure(cause))
      case TypeIs(name) =>
        Prefixed(if name == StreamType then [probes[0].key] else [], PageTopics(probes[1..]))
  }

  /** What GetStreamTopics returns for a script of SCAN replies. */
  function Discover(scan: seq<ScanReply>): Result<seq<string>, Failure>
  {
    if scan == [] then Ok([])
    else
      match scan[0]
      case ScanError(cause) => Err(TransportFailure(cause))
      case ScanPage(probes, cursor) =>
        match PageTopics(probes)
        case Err(e) => Err(e)
        case Ok(ks) => if cursor == 0 then Ok(ks) else Prefixed(ks, Discover(scan[1..]))
  }

  lemma PrefixedEmpty(r: Result<seq<string>, Failure>)
    ensures Prefixed([], r) == r
  {
    if r.Ok? {
      assert [] + r.value == r.value;
    }
  }

  lemma PrefixedPrefixed(a: seq<string>, b: seq<string>, r: Result<seq<string>, Failure>)
    ensures Prefixed(a, Prefixed(b, r)) == Prefixed(a + b, r)
  {
    if r.Ok? {
      assert a + (b + r.value) == a + b + r.value;
    }
  }

  /** The inner loop's step at key j, stated on the keys kept so far. */
  lemma PageStep(probes: seq<KeyProbe>, j: nat, found: seq<string>)
    requires j < |probes|
    requires PageTopics(probes) == Prefixed(found, PageTopics(probes[j..]))
    ensures probes[j].keyType.TypeError? ==>
      PageTopics(probes) == Err(TransportFailure(probes[j].keyType.cause))
    ensures probes[j].keyType == TypeIs(StreamType) ==>
      PageTopics(probes) == Prefixed(found + [probes[j].key], PageTopics(probes[j + 1..]))
    ensures probes[j].keyType.TypeIs? && probes[j].keyType.name != StreamType ==>
      PageTopics(probes) == Prefixed(found, PageTopics(probes[j + 1..]))
  {
    assert probes[j..][0] == probes[j] && probes[j..][1..] == probes[j + 1..];
    if probes[j].keyType.TypeIs? {
      var kept := if probes[j].keyType.name == StreamType then [probes[j].key] else [];
      PrefixedPrefixed(found, kept, PageTopics(probes[j + 1..]));
      assert found + [] == found;
    }
  }

  /** The inner loop over one page: ask each key's type, keep the streams,
      and stop at the first TYPE error. */
  method ProbePage(probes: seq<KeyProbe>) returns (r: Result<seq<string>, Failure>)
    ensures r == PageTopics(probes)
  {
    var found: seq<string> := [];
    var j := 0;
    assert probes[0..] == probes;
    PrefixedEmpty(PageTopics(probes));
    while j < |probes|
      invariant 0 <= j <= |probes|
      invariant PageTopics(probes) == Prefixed(found, PageTopics(probes[j..]))
    {
      PageStep(probes, j, found);
      var probe := probes[j];
      if probe.keyType.TypeError? {
        return Err(TransportFailure(probe.keyType.cause));
      }
      if probe.keyType.name == StreamType {
        found := found + [probe.key];
      }
      j := j + 1;
    }
    assert probes[j..] == [] && found + [] == found;
    return Ok(found);
  }

  /** The outer loop's step at reply i, stated on the topics kept so far. */
  lemma ScanStep(scan: seq<ScanReply>, i: nat, topics: seq<string>)
    requires i < |scan|
    requires Discover(scan) == Prefixed(topics, Discover(scan[i..]))
    ensures scan[i].ScanError? ==> Discover(scan) == Err(TransportFailure(scan[i].cause))
    ensures scan[i].ScanPage? && PageTopics(scan[i].probes).Err? ==>
      Discover(scan) == PageTopics(scan[i].probes)
    ensures scan[i].ScanPage? && PageTopics(scan[i].probes).Ok? && scan[i].cursor == 0 ==>
      Discover(scan) == Ok(topics + PageTopics(scan[i].probes).value)
    ensures scan[i].ScanPage? && PageTopics(scan[i].probes).Ok? && scan[i].cursor != 0 ==>
      Discover(scan) == Prefixed(topics + PageTopics(scan[i].probes).value, Discover(scan[i + 1..]))
  {
    assert scan[i..][0] == scan[i] && scan[i..][1..] == scan[i + 1..];
    if scan[i].ScanPage? && PageTopics(scan[i].probes).Ok? && scan[i].cursor != 0 {
      PrefixedPrefixed(topics, PageTopics(scan[i].probes).value, Discover(scan[i + 1..]));
    }
  }

  /** A reply after which the scan asks for the next page: a page with a
      nonzero cursor whose TYPE queries all succeed. */
  predicate Continues(r: ScanReply)
  {
    r.ScanPage? && r.cursor != 0 && PageTopics(r.probes).Ok?
  }

  /** GetStreamTopics as the source writes it: SCAN from cursor 0, each later
      SCAN sent with the cursor the previous reply returned, until a reply
      returns cursor 0; the first SCAN or TYPE error ends it. `cursors` are
      the cursors the SCAN calls were sent with, in order. */
  method GetStreamTopics(scan: seq<ScanReply>) returns (r: Result<seq<string>, Failure>, cursors: seq<nat>)
    requires ScanEnds(scan)
    ensures r == Discover(scan)
    ensures 0 < |cursors| <= ScanEnd(scan) + 1 && cursors[0] == 0
    ensures forall j :: 0 <= j < |cursors| - 1 ==> Continues(scan[j]) && cursors[j + 1] == scan[j].cursor
    ensures !Continues(scan[|cursors| - 1])
    ensures r.Ok? ==> |cursors| == ScanEnd(scan) + 1
  {
    var topics: seq<string> := [];
    var i := 0;
    var cursor: nat := 0;
    cursors := [];
    assert scan[0..] == scan;
    PrefixedEmpty(Discover(scan));
    while true
      invariant i <= ScanEnd(scan) && |cursors| == i
      invariant cursor == if i == 0 then 0 else scan[i - 1].cursor
      invariant i > 0 ==> cursors[0] == 0
      invariant forall j :: 0 <= j < i ==> Continues(scan[j])
      invariant forall j :: 0 <= j < i - 1 ==> cursors[j + 1] == scan[j].cursor
      invariant Discover(scan) == Prefixed(topics, Discover(scan[i..]))
      decreases ScanEnd(scan) - i
    {
      ScanStep(scan, i, topics);
      cursors := cursors + [cursor];
      var reply := scan[i];
      if reply.ScanError? {
        return Err(TransportFailure(reply.cause)), cursors;
      }
      var keys := ProbePage(reply.probes);
      if keys.Err? {
        return Err(keys.error), cursors;
      }
      topics := topics + keys.value;
      if reply.cursor == 0 {
        break;
      }
      assert Continues(scan[i]);
      cursor := reply.cursor;
      i := i + 1;
    }
    return Ok(topics), cursors;
  }

  /** The keys of a flat list of probes whose type is "stream", in order. */
  function StreamKeys(probes: seq<KeyProbe>): (ks: seq<string>)
    ensures forall k :: k in ks <==> exists i :: 0 <= i < |probes| && probes[i].key == k &&
                                                 probes[i].keyType == TypeIs(StreamType)
  {
    if probes == [] then []
    else
      (if probes[0].keyType == TypeIs(StreamType) then [probes[0].key] else []) +
      StreamKeys(probes[1..])
  }

  /** Every key the scan hands out before it ends or fails, in order. */
  function Scanned(scan: seq<ScanReply>): seq<KeyProbe>
  {
    if scan == [] || scan[0].ScanError? then []
    else if scan[0].cursor == 0 then scan[0].probes
    else scan[0].probes + Scanned(scan[1..])
  }

  /** The scan runs into a SCAN error before it ends. */
  predicate ScanFails(scan: seq<ScanReply>)
  {
    ScanEnds(scan) && scan[ScanEnd(scan)].ScanError?
  }

  predicate TypeFails(probes: seq<KeyProbe>)
  {
    exists i :: 0 <= i < |probes| && probes[i].keyType.TypeError?
  }

  lemma StreamKeysAppend(a: seq<KeyProbe>, b: seq<KeyProbe>)
    ensures StreamKeys(a + b) == StreamKeys(a) + StreamKeys(b)
  {
    if a == [] {
      assert a + b == b;
    } else {
      assert (a + b)[0] == a[0] && (a + b)[1..] == a[1..] + b;
      StreamKeysAppend(a[1..], b);
    }
  }

  lemma {:induction false} PageTopicsMeaning(probes: seq<KeyProbe>)
    ensures PageTopics(probes).Ok? <==> !TypeFails(probes)
    ensures PageTopics(probes).Ok? ==> PageTopics(probes).value == StreamKeys(probes)
    ensures PageTopics(probes).Err? ==> PageTopics(probes).error.TransportFailure?
  {
    if probes != [] {
      PageTopicsMeaning(probes[1..]);
      if TypeFails(probes[1..]) {
        var i :| 0 <= i < |probes[1..]| && probes[1..][i].keyType.TypeError?;
        assert probes[i + 1] == probes[1..][i];
      }
      if TypeFails(probes) && probes[0].keyType.TypeIs? {
        var i :| 0 <= i < |probes| && probes[i].keyType.TypeError?;
        assert probes[1..][i - 1] == probes[i];
      }
    }
  }

  /** The scan succeeds exactly when no SCAN reply before its end is an error
      and no scanned key's TYPE query fails; it then returns exactly the
      scanned keys whose type is "stream", in scan order. */
  lemma {:induction false} DiscoverMeaning(scan: seq<ScanReply>)
    ensures Discover(scan).Ok? <==> !ScanFails(scan) && !TypeFails(Scanned(scan))
    ensures Discover(scan).Ok? ==> Discover(scan).value == StreamKeys(Scanned(scan))
    ensures Discover(scan).Err? ==> Discover(scan).error.TransportFailure?
  {
    if scan != [] && scan[0].ScanPage? {
      var probes := scan[0].probes;
      PageTopicsMeaning(probes);
      if scan[0].cursor != 0 {
        DiscoverMeaning(scan[1..]);
        StreamKeysAppend(probes, Scanned(scan[1..]));
        assert ScanEnd(scan) == 1 + ScanEnd(scan[1..]);
        assert ScanFails(scan) == ScanFails(scan[1..]);
        TypeFailsAppend(probes, Scanned(scan[1..]));
      }
    }
  }

  /** The cause of the first TYPE query that fails, if any. */
  function FirstTypeError(probes: seq<KeyProbe>): (r: Option<string>)
    ensures r.Some? <==> TypeFails(probes)
    ensures r.Some? ==> exists i :: 0 <= i < |probes| && probes[i].keyType == TypeError(r.value) &&
                                    forall j :: 0 <= j < i ==> probes[j].keyType.TypeIs?
  {
    if probes == [] then None
    else if probes[0].keyType.TypeError? then Some(probes[0].keyType.cause)
    else
      var r := FirstTypeError(probes[1..]);
      assert TypeFails(probes) <==> TypeFails(probes[1..]) by {
        if TypeFails(probes) {
          var i :| 0 <= i < |probes| && probes[i].keyType.TypeError?;
          assert probes[1..][i - 1] == probes[i];
        }
        if TypeFails(probes[1..]) {
          var i :| 0 <= i < |probes[1..]| && probes[1..][i].keyType.TypeError?;
          assert probes[i + 1] == probes[1..][i];
        }
      }
      if r.Some? then
        assert exists i :: 0 <= i < |probes| && probes[i].keyType == TypeError(r.value) &&
                           forall j :: 0 <= j < i ==> probes[j].keyType.TypeIs? by {
          var i :| 0 <= i < |probes[1..]| && probes[1..][i].keyType == TypeError(r.value) &&
                   forall j :: 0 <= j < i ==> probes[1..][j].keyType.TypeIs?;
          assert probes[i + 1] == probes[1..][i];
          forall j | 0 <= j < i + 1 ensures probes[j].keyType.TypeIs? {
            if j > 0 { assert probes[j] == probes[1..][j - 1]; }
          }
        }
        r
      else r
  }

  lemma {:induction false} FirstTypeErrorAppend(a: seq<KeyProbe>, b: seq<KeyProbe>)
    ensures FirstTypeError(a + b) == if FirstTypeError(a).Some? then FirstTypeError(a) else FirstTypeError(b)
  {
    if a == [] {
      assert a + b == b;
    } else {
      assert (a + b)[0] == a[0] && (a + b)[1..] == a[1..] + b;
      FirstTypeErrorAppend(a[1..], b);
    }
  }

  /** A page that fails returns the error of its first failing TYPE query. */
  lemma {:induction false} PageTopicsError(probes: seq<KeyProbe>)
    ensures PageTopics(probes).Err? <==> FirstTypeError(probes).Some?
    ensures PageTopics(probes).Err? ==>
      PageTopics(probes).error == TransportFailure(FirstTypeError(probes).value)
  {
    if probes != [] && probes[0].keyType.TypeIs? {
      PageTopicsError(probes[1..]);
    }
  }

  /** A discovery that fails returns the error of the first call that failed:
      the first failing TYPE query among the keys scanned, or else the SCAN
      error that ended the scan. */
  lemma {:induction false} DiscoverError(scan: seq<ScanReply>)
    requires ScanEnds(scan)
    ensures Discover(scan).Err? ==>
      if FirstTypeError(Scanned(scan)).Some? then
        Discover(scan).error == TransportFailure(FirstTypeError(Scanned(scan)).value)
      else
        scan[ScanEnd(scan)].ScanError? && Discover(scan).error == TransportFailure(scan[ScanEnd(scan)].cause)
  {
    if scan[0].ScanPage? {
      var probes := scan[0].probes;
      PageTopicsError(probes);
      if scan[0].cursor != 0 {
        var rest := scan[1..];
        assert ScanEnd(scan) == 1 + ScanEnd(rest);
        assert scan[ScanEnd(scan)] == rest[ScanEnd(rest)];
        FirstTypeErrorAppend(probes, Scanned(rest));
        if PageTopics(probes).Ok? {
          DiscoverError(rest);
        }
      }
    }
  }

  lemma TypeFailsAppend(a: seq<KeyProbe>, b: seq<KeyProbe>)
    ensures TypeFails(a + b) <==> TypeFails(a) || TypeFails(b)
  {
    if TypeFails(a + b) {
      var i :| 0 <= i < |a + b| && (a + b)[i].keyType.TypeError?;
      if i < |a| { assert a[i] == (a + b)[i]; } else { assert b[i - |a|] == (a + b)[i]; }
    }
    if TypeFails(a) {
      var i :| 0 <= i < |a| && a[i].keyType.TypeError?;
      assert (a + b)[i] == a[i];
    }
    if TypeFails(b) {
      var i :| 0 <= i < |b| && b[i].keyType.TypeError?;
      assert (a + b)[|a| + i] == b[i];
    }
  }

  /** A keyspace holding one stream key and one plain string key, scanned in
      one page: discovery returns the stream key alone. */
  lemma OneStreamOnePlainKey(streamKey: string, plainKey: string)
    ensures Discover([ScanPage([KeyProbe(streamKey, TypeIs("stream")), KeyProbe(plainKey, TypeIs("string"))], 0)])
      == Ok([streamKey])
  {
    var probes := [KeyProbe(streamKey, TypeIs("stream")), KeyProbe(plainKey, TypeIs("string"))];
    var rest := probes[1..];
    assert rest[0] == KeyProbe(plainKey, TypeIs("string")) && rest[1..] == [];
    assert "string" != StreamType by { assert "string"[3] != StreamType[3]; }
    assert PageTopics(rest) == Prefixed([], PageTopics([]));
    PrefixedEmpty(PageTopics([]));
    assert PageTopics(probes) == Prefixed([streamKey], PageTopics(rest));
    assert [streamKey] + [] == [streamKey];
    assert PageTopics(probes) == Ok([streamKey]);
    var scan := [ScanPage(probes, 0)];
    assert scan[0].probes == probes && scan[0].cursor == 0;
  }
}
