/** The subscription round trip over the wire: the client's announcement as
    bytes, cut anywhere, through the server's parser to the session's topics
    (client.cpp, codec.cpp, stream_parser.cpp, server.cpp). */
module AnnouncementWire {
  import opened Types
  import opened Serializer
  import opened Codec
  import opened StreamParser
  import opened WireProperties
  import opened KeyRegistry
  import opened Session
  import opened Client
  import opened EndToEnd
  import opened TopicSync
  import opened DanTopicServer

  type Pair = (string, Payload)

  /** Narrow names, and parameter values that the wire carries exactly. */
  ghost predicate PlainSubs(subs: seq<Subscription>) {
    forall i :: 0 <= i < |subs| ==> Narrow(subs[i].name) && forall key, v :: (key, v) in subs[i].params ==> Plain(v)
  }

  lemma PairIsPlain(subs: seq<Subscription>, m: nat)
    requires PlainSubs(subs) && m < |SyncPairs(subs, 0)|
    ensures Plain(SyncPairs(subs, 0)[m].1)
  {
    hide SyncPairs, TopicPairs, NamePath, ParamPath, Plain;
    var i := PairOrigin(subs, 0, m);
    TopicPairIs(subs[i], i, SyncPairs(subs, 0)[m]);
    if SyncPairs(subs, 0)[m] == (NamePath(i), Str(subs[i].name)) {
      NameIsPlain(subs[i].name);
    } else {
      var j :| 0 <= j < |subs[i].params| && SyncPairs(subs, 0)[m] == (ParamPath(i, subs[i].params[j].0), subs[i].params[j].1);
      assert (subs[i].params[j].0, subs[i].params[j].1) in subs[i].params;
    }
  }

  lemma NameIsPlain(name: string)
    requires Narrow(name)
    ensures Plain(Str(name))
  {
  }

  lemma PairExact(i: nat, pair: Pair)
    requires ValidPath(pair.0) && Plain(pair.1)
    ensures Exact(SyncKeyFrame(i, pair)) && Exact(SyncValueFrame(i, pair))
  {
    hide ValidPath, Serialize, Modelled, Canonical;
    ValidIsNarrow(pair.0);
    DetectedTypeIsExactIff(pair.1);
    DetectedIsNormal(pair.1);
  }

  lemma ControlExact()
    ensures Exact(CLIENT_RESET_FRAME) && Exact(CLIENT_SYNC_FRAME) && Exact(READY_FRAME)
  {
  }

  /** Each frame of an announcement survives the wire unchanged. */
  lemma AnnouncementExact(subs: seq<Subscription>)
    requires SubsOk(subs) && PlainSubs(subs)
    ensures AllExact(TopicSyncFrames(subs))
  {
    hide SyncPairs, Exact, ValidPath, Plain, SyncKeyFrame, SyncValueFrame;
    ControlExact();
    var pairs := SyncPairs(subs, 0);
    forall m | 0 <= m < |pairs| ensures Exact(SyncKeyFrame(m, pairs[m])) && Exact(SyncValueFrame(m, pairs[m])) {
      PairIsPlain(subs, m);
      PairExact(m, pairs[m]);
    }
  }

  /** In order: reset, one registration for each key under ids 1, 2, ..., its value
      under the same id and type, sync. */
  lemma AnnouncementShape(subs: seq<Subscription>, m: nat)
    requires m < |SyncPairs(subs, 0)| <= MAX_KEYS
    ensures
      var frames, n, pair := TopicSyncFrames(subs), |SyncPairs(subs, 0)|, SyncPairs(subs, 0)[m];
      && |frames| == 2 * n + 2 && frames[0].frameType == 0x0B && frames[2 * n + 1].frameType == 0x06
      && frames[1 + m] == Frame(0x02, m + 1, frames[1 + n + m].dataType, Str(pair.0))
      && frames[1 + n + m] == Frame(0x03, m + 1, DetectDataType(pair.1), pair.1)
  {
    hide SyncPairs, DetectDataType;
  }

  lemma FlattenSnoc(chunks: seq<seq<byte>>, i: nat)
    requires i < |chunks|
    ensures Flatten(chunks[..i + 1]) == Flatten(chunks[..i]) + chunks[i]
    decreases i
  {
    if i == 0 {
      assert chunks[..1] == [chunks[0]] && chunks[..0] == [];
      assert Flatten([chunks[0]]) == chunks[0] + Flatten([]);
    } else {
      FlattenSnoc(chunks[1..], i - 1);
      assert chunks[..i + 1][1..] == chunks[1..][..i] && chunks[..i][1..] == chunks[1..][..i - 1];
    }
  }

  /** The frames the parser reports for these chunks. */
  method ParseChunks(chunks: seq<seq<byte>>, max: nat) returns (frames: seq<Frame>, errors: bool)
    ensures
      var events := FeedChunks(FRESH, max, chunks).events;
      frames == FramesOut(events) && (errors <==> exists e :: e in events && e.ErrorEvent?)
  {
    hide Feed, Step;
    var parser := new DanStreamParser(max);
    assert Flatten(chunks[..0]) == [] && Feed(FRESH, max, []) == Fed(FRESH, []) by { NothingFed(max); }
    for i := 0 to |chunks|
      invariant parser.maxBufferSize == max
      invariant Fed(parser.Model(), parser.log) == Feed(FRESH, max, Flatten(chunks[..i]))
    {
      FlattenSnoc(chunks, i);
      FeedConcat(FRESH, max, Flatten(chunks[..i]), chunks[i]);
      parser.FeedBytes(chunks[i]);
    }
    assert chunks[..|chunks|] == chunks;
    ChunksAreInvisible(FRESH, max, chunks);
    frames := FramesOut(parser.log);
    errors := exists e :: e in parser.log && e.ErrorEvent?;
  }

  lemma NothingFed(max: nat)
    ensures Flatten([]) == [] && Feed(FRESH, max, []) == Fed(FRESH, [])
  {
  }

  /** The whole way: the bytes of the client's announcement, with heartbeats in
      between and cut anywhere, are parsed without an error and leave the session
      with exactly the client's topics. */
  method ReceiveAnnouncement(server: TopicConnection, chunks: seq<seq<byte>>, max: nat,
                             ghost items: seq<StreamItem>, ghost subs: seq<Subscription>)
    returns (errors: bool, r: Result<seq<TopicEvent>>, ghost gone: seq<string>, ghost added: seq<string>)
    requires server.session.Valid() && SubsOk(subs) && NoNameLike(subs) && PlainSubs(subs)
    requires FramesIn(items) == TopicSyncFrames(subs)
    requires Deliverable(items, max) && Flatten(chunks) == StreamBytes(items, max)
    modifies server`clientRegistry, server`clientValues, server.clientRegistry, server.session, server.session.queue
    ensures !errors && server.session.Valid() && r.Ok? && server.Topics() == Names(subs)
    ensures ListsOnce(gone, old(server.Topics()) - Names(subs)) && ListsOnce(added, Names(subs) - old(server.Topics()))
    ensures r.value == Unsubscriptions(gone) + Subscriptions(added)
    ensures Renumbered(old(server.Prefixes()), server.Prefixes(), subs)
  {
    hide SubsOk, NoNameLike, PlainSubs, TopicSyncFrames, FeedChunks, Deliverable, StreamBytes, Flatten, Renumbered, ListsOnce,
         SessionInv, SessionView, AllExact;
    ghost var before := server.session.Spaces();
    var frames;
    frames, errors := ParseChunks(chunks, max);
    AnnouncementExact(subs);
    StreamRoundTrip(max, items, chunks);
    ExpectedFrames(items);
    assert server.session.Spaces() == before;
    r, gone, added := server.HandleAnnouncement(frames, subs);
  }
}
