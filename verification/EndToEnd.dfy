/** The layers composed: state changes become frames, frames become bytes, the
    bytes arrive in any pieces, and the client ends up with the server's state. */
module EndToEnd {
  import opened Types
  import opened Serializer
  import opened Codec
  import opened StreamParser
  import opened WireProperties
  import opened KeyRegistry
  import opened Replica
  import opened FlatState
  import opened Session
  import opened Client
  import opened ReplicaRun

  // ---------- Frames that survive the wire unchanged ----------

  /** Values that read back exactly: everything the encoding models except floats
      and doubles that print with a negative exponent and no dot. */
  ghost predicate Plain(p: Payload) {
    Modelled(DetectDataType(p), p) && !IsFloat(p) && !p.Scientific?
  }

  ghost predicate Exact(f: Frame) {
    Encodable(f) && NormalFrame(f) == f
  }

  ghost predicate PlainSession(s: Session) {
    forall a, k :: a in s.spaces && k in s.spaces[a].flat.entries ==> Plain(s.spaces[a].flat.entries[k].value)
  }

  lemma ValidIsNarrow(path: string)
    requires ValidPath(path)
    ensures Narrow(path)
  {
    forall i | 0 <= i < |path| ensures path[i] < 256 as char {
      assert WordChar(path[i]) || path[i] == '.';
    }
  }

  lemma KeyFrameExact(id: u32, item: Item)
    requires ValidPath(item.path)
    ensures Exact(KeyFrame(id, item))
  {
    hide ValidPath;
    ValidIsNarrow(item.path);
  }

  lemma ValueFrameExact(id: u32, item: Item)
    requires item.dtype == DetectDataType(item.value) && Plain(item.value)
    ensures Exact(ValueFrame(id, item))
  {
    hide Serialize, Modelled;
    DetectedTypeIsExactIff(item.value);
    DetectedIsNormal(item.value);
  }

  /** Among the values the encoding models, exactly the plain ones survive the wire unchanged. */
  lemma ValueFrameExactIff(id: u32, item: Item)
    requires item.dtype == DetectDataType(item.value) && Modelled(item.dtype, item.value)
    ensures Encodable(ValueFrame(id, item)) && (Exact(ValueFrame(id, item)) <==> Plain(item.value))
  {
    hide Serialize, Modelled, Canonical, Truncated;
    DetectedTypeIsExactIff(item.value);
    if !Plain(item.value) { DetectedIsChanged(item.value); } else { DetectedIsNormal(item.value); }
  }

  lemma DetectedIsChanged(p: Payload)
    requires IsFloat(p) || p.Scientific?
    ensures Normal(DetectDataType(p), p) != p
  {
  }

  /** A session that sets 1e-10 sends a frame its client reads as zero. */
  lemma TinyValueIsLost(id: u32)
    ensures
      var f := ValueFrame(id, Item("x", TY_VAR_DOUBLE, Scientific(false, 1, -10)));
      Encodable(f) && ParseBody(Body(f)) == Ok(f.(payload := Decimal(false, 0, 0)))
  {
    hide ParseBody, Body;
    ParseBodyOf(ValueFrame(id, Item("x", TY_VAR_DOUBLE, Scientific(false, 1, -10))));
  }

  lemma DetectedIsNormal(p: Payload)
    requires !IsFloat(p) && !p.Scientific?
    ensures Normal(DetectDataType(p), p) == p
  {
  }

  lemma ControlFramesExact(id: u32)
    ensures Exact(SYNC) && Exact(RESET) && Exact(DeleteFrame(id))
  {
    hide Serialize, Modelled;
  }

  ghost predicate AllExact(frames: seq<Frame>) {
    forall i :: 0 <= i < |frames| ==> Exact(frames[i])
  }

  lemma ExactConcat(a: seq<Frame>, b: seq<Frame>)
    requires AllExact(a) && AllExact(b)
    ensures AllExact(a + b)
  {
    hide Exact;
  }

  // ---------- Every frame of every operation ----------

  lemma ViewIsPlain(s: Session, id: u32)
    requires SessionInv(s) && PlainSession(s) && id in SessionView(s)
    ensures SessionView(s)[id].dtype == DetectDataType(SessionView(s)[id].value) && Plain(SessionView(s)[id].value)
  {
    hide SessionView, IdsApart, Plain, DetectDataType;
    var a := ViewOwner(s, id);
    assert s.spaces[a].flat.byKeyId[id] in s.spaces[a].flat.entries;
  }

  lemma ResyncExact(s: Session, frames: seq<Frame>)
    requires SessionInv(s) && PlainSession(s) && GoodView(SessionView(s)) && Resyncs(frames, SessionView(s))
    ensures AllExact(frames)
  {
    hide SessionInv, PlainSession, GoodView, SessionView, Exact, OncePerId, Ids;
    var v := SessionView(s);
    var keys, values := ResyncParts(frames, v);
    forall i | 0 <= i < |keys| ensures Exact(keys[i]) {
      GoodPath(v, keys[i].keyId);
      KeyFrameExact(keys[i].keyId, v[keys[i].keyId]);
    }
    forall i | 0 <= i < |values| ensures Exact(values[i]) {
      ViewIsPlain(s, values[i].keyId);
      ValueFrameExact(values[i].keyId, v[values[i].keyId]);
    }
    ControlFramesExact(0);
  }

  lemma GoodPath(v: View, id: u32)
    requires GoodView(v) && id in v
    ensures ValidPath(v[id].path)
  {
    hide ValidPath;
  }

  lemma SetFramesExact(s: Session, scope: Scope, key: string, value: Payload)
    requires SessionInv(s) && scope in s.spaces && Plain(value) && CounterOpen(s)
    requires GoodView(SessionView(AfterSet(s, scope, key, value)))
    ensures AllExact(SetLeaf(s.spaces[scope].flat, s.spaces[scope].prefix, s.next, key, value).frames)
  {
    hide SessionInv, SessionView, GoodView, Exact, Plain, DetectDataType, AfterSet;
    var item := ItemSet(s, scope, key, value);
    var sp := s.spaces[scope];
    if key in sp.flat.entries { ControlFramesExact(sp.flat.entries[key].keyId); } else { ControlFramesExact(0); }
    if Allocates(sp.flat, key, value) {
      NewPathValid(s, scope, key, value);
      KeyFrameExact(s.next, item);
      ValueFrameExact(s.next, item);
    } else {
      ValueFrameExact(sp.flat.entries[key].keyId, item);
    }
  }

  lemma NewPathValid(s: Session, scope: Scope, key: string, value: Payload)
    requires SessionInv(s) && scope in s.spaces && CounterOpen(s) && Allocates(s.spaces[scope].flat, key, value)
    requires GoodView(SessionView(AfterSet(s, scope, key, value)))
    ensures ValidPath(ItemSet(s, scope, key, value).path)
  {
    hide SessionInv, SessionView, GoodView, DetectDataType, AfterSet, ClearKey, WithFlat, ValidPath, Allocates;
    if key !in s.spaces[scope].flat.entries {
      CreatedInv(s, scope, key, value);
    } else {
      var mid := WithFlat(s, scope, ClearKey(s.spaces[scope].flat, key));
      ClearedInv(s, scope, key);
      RetypeIsClearThenCreate(s, scope, key, value);
      SamePrefix(s, scope, ClearKey(s.spaces[scope].flat, key));
      CreatedInv(mid, scope, key, value);
    }
    GoodPath(SessionView(AfterSet(s, scope, key, value)), s.next);
  }

  lemma SamePrefix(s: Session, scope: Scope, flat: Flat)
    requires scope in s.spaces
    ensures WithFlat(s, scope, flat).next == s.next && scope in WithFlat(s, scope, flat).spaces
    ensures WithFlat(s, scope, flat).spaces[scope].prefix == s.spaces[scope].prefix
  {
  }

  lemma SetStaysPlain(s: Session, scope: Scope, key: string, value: Payload)
    requires scope in s.spaces && PlainSession(s) && Plain(value)
    ensures PlainSession(AfterSet(s, scope, key, value))
  {
    hide Plain, DetectDataType;
  }

  /** Operations that set only plain values. */
  ghost predicate PlainOp(op: Op) {
    op.Set? ==> Plain(op.value)
  }

  lemma OperationExact(op: Op, s: Session, frames: seq<Frame>, s': Session)
    requires SessionInv(s) && SessionInv(s') && PlainSession(s) && PlainOp(op) && CounterOpen(s)
    requires Does(op, s, frames, s') && GoodView(SessionView(s'))
    ensures PlainSession(s') && AllExact(frames)
  {
    hide SessionInv, SessionView, GoodView, Exact, Plain, AfterSet, SetLeaf, Resyncs;
    match op
    case Set(scope, key, value) =>
      SetStaysPlain(s, scope, key, value);
      SetFramesExact(s, scope, key, value);
    case Clear(scope, key) =>
      if key in s.spaces[scope].flat.entries { ControlFramesExact(s.spaces[scope].flat.entries[key].keyId); }
    case ClearAll(scope) =>
      if s.spaces[scope].flat.entries != map[] { ResyncExact(s', frames); }
    case CreateTopic(name, index) =>
    case RemoveTopic(name) =>
      if Some(name) in s.spaces { ResyncExact(s', frames); }
    case Announce => ControlFramesExact(0);
  }

  // ---------- Over whole runs ----------

  ghost predicate PlainNext(x: System, y: System) {
    Delivers(x, y) || exists op, frames :: Operates(x, y, op, frames) && PlainOp(op)
  }

  ghost predicate PlainRun(run: seq<System>) {
    IsRun(run) && forall i :: 0 <= i < |run| - 1 ==> PlainNext(run[i], run[i + 1])
  }

  lemma {:induction false} QueueExact(run: seq<System>, n: nat)
    requires PlainRun(run) && n < |run|
    ensures PlainSession(run[n].session) && AllExact(run[n].queue)
  {
    hide Initial, Next, PlainNext, PlainSession, AllExact, GoodView, SessionView, CounterOpen;
    if n == 0 {
      StartExact(run[0]);
    } else {
      QueueExact(run, n - 1);
      SessionInvInRun(run, n - 1);
      SessionInvInRun(run, n);
      assert PlainNext(run[n - 1], run[n - 1 + 1]);
      assert Bounded(run[n - 1]) && Bounded(run[n]);
      StepExact(run[n - 1], run[n]);
    }
  }

  lemma StartExact(x: System)
    requires Initial(x)
    ensures PlainSession(x.session) && AllExact(x.queue)
  {
  }

  lemma StepExact(x: System, y: System)
    requires PlainNext(x, y) && SessionInv(x.session) && SessionInv(y.session)
    requires CounterOpen(x.session) && GoodView(SessionView(y.session))
    requires PlainSession(x.session) && AllExact(x.queue)
    ensures PlainSession(y.session) && AllExact(y.queue)
  {
    hide SessionInv, PlainSession, Exact, Does, GoodView, SessionView, PlainOp, HandleFrame;
    if !Delivers(x, y) {
      var op, frames :| Operates(x, y, op, frames) && PlainOp(op);
      OperationExact(op, x.session, frames, y.session);
      ExactConcat(x.queue, frames);
    }
  }

  // ---------- Bytes ----------

  /** The frames among the items, in order. */
  function FramesIn(items: seq<StreamItem>): seq<Frame> {
    if items == [] then []
    else (if items[0].FrameItem? then [items[0].frame] else []) + FramesIn(items[1..])
  }

  /** The frames a receiver's event log shows, in order. */
  function FramesOut(events: seq<StreamParser.Event>): seq<Frame> {
    if events == [] then []
    else (if events[0].FrameEvent? then [events[0].frame] else []) + FramesOut(events[1..])
  }

  lemma {:induction false} ExpectedFrames(items: seq<StreamItem>)
    requires AllExact(FramesIn(items))
    ensures FramesOut(Expected(items)) == FramesIn(items)
    ensures forall e :: e in Expected(items) ==> !e.ErrorEvent?
  {
    hide Encodable, NormalFrame;
    if items != [] {
      var fs, rest := FramesIn(items), FramesIn(items[1..]);
      if items[0].FrameItem? {
        assert fs[0] == items[0].frame && Exact(fs[0]);
        forall i | 0 <= i < |rest| ensures Exact(rest[i]) { assert fs[i + 1] == rest[i]; }
      } else {
        assert fs == rest;
      }
      ExpectedFrames(items[1..]);
      assert Expected(items)[1..] == Expected(items[1..]);
    }
  }

  /** End to end: at every moment of every run over plain values, encode the
      frames in flight, let heartbeats in between and cut the bytes anywhere.
      The parser's log has no errors, its frames are exactly the frames in
      flight, and handling them gives the client the session's state. */
  lemma BytesToAgreement(run: seq<System>, n: nat, max: nat, items: seq<StreamItem>, chunks: seq<seq<byte>>)
    requires PlainRun(run) && n < |run| && FramesIn(items) == run[n].queue
    requires Deliverable(items, max) && Flatten(chunks) == StreamBytes(items, max)
    ensures
      var fed := FeedChunks(FRESH, max, chunks);
      var drained := HandleAll(run[n].client, FramesOut(fed.events));
      && fed.parser.state == Idle && (forall e :: e in fed.events ==> !e.ErrorEvent?)
      && FramesOut(fed.events) == run[n].queue
      && Agrees(drained.client.replica, SessionView(run[n].session))
  {
    hide PlainNext, IsRun, PlainSession, AllExact, Deliverable, StreamBytes, FeedChunks, SessionView, Agrees, HandleAll;
    QueueExact(run, n);
    StreamRoundTrip(max, items, chunks);
    ExpectedFrames(items);
    ReplicaAgreement(run, n);
  }
}
