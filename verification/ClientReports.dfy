/** What the client tells its listeners, and when it is Ready (client.cpp). */
module ClientReports {
  import opened Types
  import opened KeyRegistry
  import opened TopicPath
  import opened ArrayShift
  import opened Replica
  import opened Client

  // ---------- Listeners hear what get reads ----------

  function TopicReport(c: Client, i: nat, key: string, value: Payload): seq<Event> {
    if i in c.routes && c.routes[i] in c.handles then [TopicReceive(c.routes[i], key, value)] else []
  }

  /** The route of a registered topic key is its index and user key, cached or not. */
  lemma TopicRoute(r: Replica, id: u32, i: nat, key: string)
    requires Tidy(r) && i < 0x8000_0000 && id in r.reg.byId && r.reg.byId[id].path == Prefix(i) + key
    ensures TopicOf(r.cache, id, r.reg.byId[id].path) == Some(TopicInfo(i, key))
  {
    ParsePrint(i, key);
    hide ParseTopic;
  }

  /** A value of key `key` of topic i is reported to the handle routed for i,
      under that key, to nobody else, and is what the handle's get then reads. */
  lemma TopicValueReported(c: Client, f: Frame, i: nat, key: string)
    requires f.frameType == SERVER_VALUE && f.keyId in c.replica.reg.byId
    requires Inverse(c.replica.reg) && Tidy(c.replica)
    requires i < 0x8000_0000 && c.replica.reg.byId[f.keyId].path == Prefix(i) + key
    ensures
      var h := HandleFrame(c, f);
      && h.events == TopicReport(c, i, key, f.payload) + (if c.state == Synchronizing then [BecameReady] else [])
      && TopicGet(h.client.replica, i, key) == f.payload
  {
    hide ParseTopic, NatToString, TopicSyncFrames, Routes, Renumber, TopicOf;
    TopicRoute(c.replica, f.keyId, i, key);
    HandlerAppliesFrame(c, f);
  }

  /** A value of any other key is reported to the flat listeners under its path, and get reads it. */
  lemma FlatValueReported(c: Client, f: Frame)
    requires f.frameType == SERVER_VALUE && f.keyId in c.replica.reg.byId
    requires Inverse(c.replica.reg) && Tidy(c.replica) && ParseTopic(c.replica.reg.byId[f.keyId].path).None?
    ensures
      var h, path := HandleFrame(c, f), c.replica.reg.byId[f.keyId].path;
      && h.events == [Receive(path, f.payload)] + (if c.state == Synchronizing then [BecameReady] else [])
      && Get(h.client.replica, path) == f.payload
  {
    hide ParseTopic, NatToString, TopicSyncFrames, Routes, Renumber;
    HandlerAppliesFrame(c, f);
  }

  /** A deleted topic key is reported as Null, and reads as Null. */
  lemma TopicDeleteReported(c: Client, f: Frame, i: nat, key: string)
    requires f.frameType == SERVER_KEY_DELETE && f.keyId in c.replica.reg.byId
    requires Inverse(c.replica.reg) && Tidy(c.replica)
    requires i < 0x8000_0000 && c.replica.reg.byId[f.keyId].path == Prefix(i) + key
    ensures
      var h := HandleFrame(c, f);
      h.events == TopicReport(c, i, key, Null) && TopicGet(h.client.replica, i, key) == Null
  {
    hide ParseTopic, NatToString, TopicOf;
    TopicRoute(c.replica, f.keyId, i, key);
    HandlerAppliesFrame(c, f);
  }

  /** Any other deleted key is reported as Null to the flat listeners, and reads as Null. */
  lemma FlatDeleteReported(c: Client, f: Frame)
    requires f.frameType == SERVER_KEY_DELETE && f.keyId in c.replica.reg.byId
    requires Inverse(c.replica.reg) && Tidy(c.replica)
    requires ValidPath(c.replica.reg.byId[f.keyId].path) && ParseTopic(c.replica.reg.byId[f.keyId].path).None?
    ensures
      var h, path := HandleFrame(c, f), c.replica.reg.byId[f.keyId].path;
      h.events == [Receive(path, Null)] && Get(h.client.replica, path) == Null && h.sent == []
  {
    hide ParseTopic, NatToString;
    HandlerAppliesFrame(c, f);
  }

  /** A value that came before its registration is reported as soon as that
      goes through, and read from then on. */
  lemma PendingValueReported(c: Client, f: Frame, i: nat, key: string)
    requires f.frameType == SERVER_KEY_REGISTRATION && f.payload == Str(Prefix(i) + key) && i < 0x8000_0000
    requires Inverse(c.replica.reg) && RegisterOne(c.replica.reg, f.keyId, Prefix(i) + key, f.dataType).Ok?
    requires f.keyId in c.replica.pending && f.keyId !in c.replica.cache
    ensures
      var h, value := HandleFrame(c, f), c.replica.pending[f.keyId].payload;
      && h.events == TopicReport(c, i, key, value) && TopicGet(h.client.replica, i, key) == value
      && h.client.replica.pending == c.replica.pending - {f.keyId}
  {
    ParsePrint(i, key);
    hide ParseTopic, NatToString, ValidPath;
    HandlerAppliesFrame(c, f);
  }

  // ---------- Shifts report the length get reads ----------

  /** The length after a shift: shorter after a left one, the same after a right one. */
  function LengthAfter(f: Frame, length: nat): int {
    if f.frameType == ARRAY_SHIFT_LEFT then length - Clamp(RawShift(f.payload), length) else length
  }

  lemma ShiftedLength(r: Replica, f: Frame, prefix: string, ids: seq<u32>, a: seq<Payload>)
    requires f.frameType == ARRAY_SHIFT_LEFT || f.frameType == ARRAY_SHIFT_RIGHT
    requires ArrayKeys(r.reg, f.keyId, prefix, ids) && Shows(r.store, f.keyId, ids, a)
    requires f.frameType == ARRAY_SHIFT_RIGHT ==> |a| + Clamp(RawShift(f.payload), |a|) <= |ids|
    ensures Apply(r, f).reg == r.reg
    ensures 0 <= LengthAfter(f, |a|) <= |a| && Get(Apply(r, f), prefix + ".length") == I32(LengthAfter(f, |a|))
  {
    hide ShiftLeft, ShiftRight, CellPath, ParseTopic;
    ShiftedStore(r, f, prefix, ids, a);
    LengthEntry(r.reg, f.keyId, prefix, ids);
  }

  lemma LengthEntry(reg: Registry, id: u32, prefix: string, ids: seq<u32>)
    requires ArrayKeys(reg, id, prefix, ids)
    ensures GetByPath(reg, prefix + ".length").Some? && GetByPath(reg, prefix + ".length").value.keyId == id
  {
    hide CellPath;
  }

  lemma ShiftedStore(r: Replica, f: Frame, prefix: string, ids: seq<u32>, a: seq<Payload>)
    requires f.frameType == ARRAY_SHIFT_LEFT || f.frameType == ARRAY_SHIFT_RIGHT
    requires ArrayKeys(r.reg, f.keyId, prefix, ids) && Shows(r.store, f.keyId, ids, a)
    requires f.frameType == ARRAY_SHIFT_RIGHT ==> |a| + Clamp(RawShift(f.payload), |a|) <= |ids|
    ensures 0 <= LengthAfter(f, |a|) <= |a|
    ensures f.keyId in Apply(r, f).store && Apply(r, f).store[f.keyId] == I32(LengthAfter(f, |a|))
  {
    hide ShiftLeft, ShiftRight, Inverse, CellPath, ParseTopic;
    if f.frameType == ARRAY_SHIFT_LEFT {
      ShiftLeftIsSlice(r.reg, r.store, f.keyId, prefix, ids, a, f.payload);
    } else {
      ShiftRightElsewhere(r.reg, r.store, f.keyId, prefix, ids, a, f.payload, f.keyId);
    }
  }

  /** A shift of a flat array reports its length key once, with the length get then reads. */
  lemma FlatShiftReported(c: Client, f: Frame, prefix: string, ids: seq<u32>, a: seq<Payload>)
    requires f.frameType == ARRAY_SHIFT_LEFT || f.frameType == ARRAY_SHIFT_RIGHT
    requires ArrayKeys(c.replica.reg, f.keyId, prefix, ids) && Shows(c.replica.store, f.keyId, ids, a)
    requires f.frameType == ARRAY_SHIFT_RIGHT ==> |a| + Clamp(RawShift(f.payload), |a|) <= |ids|
    requires Tidy(c.replica) && ParseTopic(prefix + ".length").None?
    ensures
      var h := HandleFrame(c, f);
      && h.events == [Receive(prefix + ".length", Get(h.client.replica, prefix + ".length"))]
      && Get(h.client.replica, prefix + ".length") == I32(LengthAfter(f, |a|))
  {
    hide ParseTopic, Apply, Inverse, Get, Cells;
    HandlerAppliesFrame(c, f);
    ShiftedLength(c.replica, f, prefix, ids, a);
  }

  /** A shift of a topic's array reports it to that topic's handle. */
  lemma TopicShiftReported(c: Client, f: Frame, i: nat, key: string, ids: seq<u32>, a: seq<Payload>)
    requires f.frameType == ARRAY_SHIFT_LEFT || f.frameType == ARRAY_SHIFT_RIGHT
    requires i < 0x8000_0000 && ArrayKeys(c.replica.reg, f.keyId, Prefix(i) + key, ids) && Shows(c.replica.store, f.keyId, ids, a)
    requires f.frameType == ARRAY_SHIFT_RIGHT ==> |a| + Clamp(RawShift(f.payload), |a|) <= |ids|
    requires Tidy(c.replica)
    ensures
      var h := HandleFrame(c, f);
      && h.events == TopicReport(c, i, key + ".length", TopicGet(h.client.replica, i, key + ".length"))
      && TopicGet(h.client.replica, i, key + ".length") == I32(LengthAfter(f, |a|))
  {
    hide ParseTopic, Apply, Inverse, Get, Cells, Prefix, TopicOf;
    HandlerAppliesFrame(c, f);
    ShiftedLength(c.replica, f, Prefix(i) + key, ids, a);
    assert Prefix(i) + key + ".length" == Prefix(i) + (key + ".length");
    TopicRoute(c.replica, f.keyId, i, key + ".length");
    assert ArrayPrefix(key + ".length") == key;
  }

  // ---------- Ready ----------

  function ReadyEvents(events: seq<Event>): nat {
    if events == [] then 0 else (if events[0] == BecameReady then 1 else 0) + ReadyEvents(events[1..])
  }

  lemma {:induction false} ReadyEventsConcat(a: seq<Event>, b: seq<Event>)
    ensures ReadyEvents(a + b) == ReadyEvents(a) + ReadyEvents(b)
    decreases a
  {
    if a == [] {
      assert a + b == b;
    } else {
      ReadyEventsConcat(a[1..], b);
      assert (a + b)[1..] == a[1..] + b;
    }
  }

  /** The announcement of the client's subscriptions, if it has any. */
  function Subscribes(c: Client): seq<Frame> {
    if c.subs == [] then [] else TopicSyncFrames(c.subs)
  }

  /** What a stretch of handling does to a client that is not Ready yet, or Ready
      already: it ends in this state, tells its listeners this many times that it is
      Ready, and sends exactly these frames. Its topics are renumbered when it
      becomes Ready, and only then. */
  ghost predicate Announces(c: Client, h: Handled, state: ClientState, events: nat, sent: seq<Frame>) {
    && h.client.state == state && ReadyEvents(h.events) == events && h.sent == sent && h.client.subs == c.subs
    && (events == 0 || c.subs == [] ==> h.client.routes == c.routes && h.client.handles == c.handles)
    && (events == 1 && c.subs != [] ==>
          h.client.routes == Routes(c.subs) && h.client.handles == Renumber(c.handles, c.subs))
  }

  lemma {:induction false} HandleConcat(c: Client, a: seq<Frame>, b: seq<Frame>)
    ensures
      var first := HandleAll(c, a);
      var rest := HandleAll(first.client, b);
      HandleAll(c, a + b) == Handled(rest.client, first.sent + rest.sent, first.events + rest.events)
    decreases a
  {
    hide HandleFrame, HandleAll;
    if a == [] {
      NothingHandled(c);
      assert a + b == b;
      var rest := HandleAll(c, b);
      assert [] + rest.sent == rest.sent && [] + rest.events == rest.events;
    } else {
      var one := HandleFrame(c, a[0]);
      HandleConcat(one.client, a[1..], b);
      assert (a + b)[0] == a[0] && (a + b)[1..] == a[1..] + b;
      HandleStep(c, a);
      HandleStep(c, a + b);
      var tail := HandleAll(one.client, a[1..]);
      var rest := HandleAll(tail.client, b);
      assert (one.sent + tail.sent) + rest.sent == one.sent + (tail.sent + rest.sent);
      assert (one.events + tail.events) + rest.events == one.events + (tail.events + rest.events);
    }
  }

  lemma NothingHandled(c: Client)
    ensures HandleAll(c, []) == Handled(c, [], [])
  {
  }

  lemma HandleStep(c: Client, frames: seq<Frame>)
    requires frames != []
    ensures
      var one := HandleFrame(c, frames[0]);
      var rest := HandleAll(one.client, frames[1..]);
      HandleAll(c, frames) == Handled(rest.client, one.sent + rest.sent, one.events + rest.events)
  {
    hide HandleFrame;
  }

  /** Announcements add up. */
  lemma AnnounceConcat(c: Client, a: seq<Frame>, b: seq<Frame>, mid: ClientState, state: ClientState,
                       e1: nat, s1: seq<Frame>, e2: nat, s2: seq<Frame>)
    requires Announces(c, HandleAll(c, a), mid, e1, s1) && e1 + e2 <= 1
    requires Announces(HandleAll(c, a).client, HandleAll(HandleAll(c, a).client, b), state, e2, s2)
    ensures Announces(c, HandleAll(c, a + b), state, e1 + e2, s1 + s2)
    ensures HandleAll(c, a + b).client == HandleAll(HandleAll(c, a).client, b).client
  {
    hide HandleAll, ReadyEvents, Routes, Renumber;
    HandleConcat(c, a, b);
    ReadyEventsConcat(HandleAll(c, a).events, HandleAll(HandleAll(c, a).client, b).events);
  }

  lemma OneHandled(c: Client, f: Frame)
    ensures HandleAll(c, [f]) == HandleFrame(c, f)
  {
    hide HandleFrame;
    assert [f][1..] == [];
    var h := HandleFrame(c, f);
    assert h.sent + [] == h.sent && h.events + [] == h.events;
  }

  /** The first data frame of a session ends the identification. */
  function Begun(state: ClientState, frames: seq<Frame>): ClientState {
    if state == Identifying && frames != [] then Synchronizing else state
  }

  lemma RegistrationAnnounces(c: Client, f: Frame)
    requires f.frameType == SERVER_KEY_REGISTRATION && Accepts(c.replica, f) && c.replica.pending == map[]
    ensures Announces(c, HandleFrame(c, f), Begun(c.state, [f]), 0, [])
  {
    hide ValidPath;
  }

  /** Handling key frames is silent, and all it does to the state is end the identification. */
  lemma {:induction false} KeysAnnounce(c: Client, keys: seq<Frame>)
    requires forall i :: 0 <= i < |keys| ==> keys[i].frameType == SERVER_KEY_REGISTRATION
    requires AcceptsAll(c.replica, keys) && c.replica.pending == map[]
    ensures Announces(c, HandleAll(c, keys), Begun(c.state, keys), 0, [])
    decreases keys
  {
    hide Announces, HandleFrame, HandleAll, Accepts, Apply;
    if keys == [] {
      NothingAnnounced(c);
    } else {
      RegistrationAnnounces(c, keys[0]);
      OneHandled(c, keys[0]);
      HandlerAppliesFrame(c, keys[0]);
      NothingPending(c.replica, keys[0]);
      var next := HandleFrame(c, keys[0]).client;
      AnnouncedState(c, HandleFrame(c, keys[0]), Begun(c.state, [keys[0]]), 0, []);
      KeysAnnounce(next, keys[1..]);
      AnnounceConcat(c, [keys[0]], keys[1..], Begun(c.state, keys), Begun(c.state, keys), 0, [], 0, []);
      var none: seq<Frame> := [];
      assert [keys[0]] + keys[1..] == keys && none + none == none;
    }
  }

  lemma AnnouncedState(c: Client, h: Handled, state: ClientState, e: nat, s: seq<Frame>)
    requires Announces(c, h, state, e, s)
    ensures h.client.state == state && h.client.subs == c.subs
  {
  }

  lemma NothingAnnounced(c: Client)
    ensures Announces(c, HandleAll(c, []), c.state, 0, [])
  {
  }

  lemma NothingPending(r: Replica, f: Frame)
    requires f.frameType == SERVER_KEY_REGISTRATION && r.pending == map[]
    ensures Apply(r, f).pending == map[]
  {
  }

  /** A value makes a synchronizing client Ready, once, and then it subscribes; a Ready one just takes it. */
  lemma ValueAnnounces(c: Client, f: Frame)
    requires f.frameType == SERVER_VALUE && f.keyId in c.replica.reg.byId && (c.state == Synchronizing || c.state == Ready)
    ensures c.state == Synchronizing ==> Announces(c, HandleFrame(c, f), Ready, 1, Subscribes(c))
    ensures c.state == Ready ==> Announces(c, HandleFrame(c, f), Ready, 0, [])
  {
    hide TopicOf, TopicSyncFrames, Routes, Renumber, Route, Apply;
    var path := c.replica.reg.byId[f.keyId].path;
    var events := Route(c.routes, c.handles, TopicOf(c.replica.cache, f.keyId, path), path, f.payload);
    RoutesOnly(c.routes, c.handles, TopicOf(c.replica.cache, f.keyId, path), path, f.payload);
    ReadyEventsConcat(events, [BecameReady]);
    assert ReadyEvents([BecameReady]) == 1;
  }

  lemma RoutesOnly(routes: map<int, string>, handles: map<string, int>, info: Option<TopicInfo>, path: string, value: Payload)
    ensures ReadyEvents(Route(routes, handles, info, path, value)) == 0
  {
  }

  lemma {:induction false} ValuesWhenReady(c: Client, values: seq<Frame>)
    requires forall i :: 0 <= i < |values| ==> values[i].frameType == SERVER_VALUE
    requires AcceptsAll(c.replica, values) && c.state == Ready
    ensures Announces(c, HandleAll(c, values), Ready, 0, [])
    decreases values
  {
    hide Announces, HandleFrame, HandleAll, Apply;
    if values == [] {
      NothingAnnounced(c);
    } else {
      ValueAnnounces(c, values[0]);
      OneHandled(c, values[0]);
      HandlerAppliesFrame(c, values[0]);
      AnnouncedState(c, HandleFrame(c, values[0]), Ready, 0, []);
      ValuesWhenReady(HandleFrame(c, values[0]).client, values[1..]);
      AnnounceConcat(c, [values[0]], values[1..], Ready, Ready, 0, [], 0, []);
      var none: seq<Frame> := [];
      assert [values[0]] + values[1..] == values && none + none == none;
    }
  }

  lemma ValuesAnnounce(c: Client, values: seq<Frame>)
    requires forall i :: 0 <= i < |values| ==> values[i].frameType == SERVER_VALUE
    requires AcceptsAll(c.replica, values) && c.state == Synchronizing && values != []
    ensures Announces(c, HandleAll(c, values), Ready, 1, Subscribes(c))
  {
    hide Announces, HandleFrame, HandleAll, Apply, Subscribes;
    ValueAnnounces(c, values[0]);
    OneHandled(c, values[0]);
    HandlerAppliesFrame(c, values[0]);
    AnnouncedState(c, HandleFrame(c, values[0]), Ready, 1, Subscribes(c));
    ValuesWhenReady(HandleFrame(c, values[0]).client, values[1..]);
    AnnounceConcat(c, [values[0]], values[1..], Ready, Ready, 1, Subscribes(c), 0, []);
    assert [values[0]] + values[1..] == values && Subscribes(c) + [] == Subscribes(c);
  }

  /** ServerSync is answered with ClientReady; with nothing registered it also ends the synchronisation. */
  lemma SyncAnnounces(c: Client)
    requires c.state == Synchronizing || c.state == Identifying
    ensures |c.replica.reg.byId| == 0 ==> Announces(c, HandleAll(c, [SYNC]), Ready, 1, [READY_FRAME] + Subscribes(c))
    ensures |c.replica.reg.byId| > 0 ==> Announces(c, HandleAll(c, [SYNC]), Synchronizing, 0, [READY_FRAME])
    ensures HandleAll(c, [SYNC]).client.replica == c.replica
  {
    hide HandleAll, TopicSyncFrames, Routes, Renumber;
    OneHandled(c, SYNC);
    assert [READY_FRAME] + [] == [READY_FRAME];
  }

  /** Every key is registered, the sync and the values come. */
  lemma EndsReady(c: Client, v: View, values: seq<Frame>)
    requires c.state == Synchronizing || (c.state == Identifying && v == map[])
    requires RegistryIs(c.replica.reg, v) && c.replica.store == map[] && c.replica.pending == map[]
    requires ValueFramesOf(values, v)
    ensures Announces(c, HandleAll(c, [SYNC] + values), Ready, 1, [READY_FRAME] + Subscribes(c))
  {
    hide Announces, HandleAll, AcceptsAll, RegistryIs, OncePerId, Ids, Subscribes;
    SyncAnnounces(c);
    RegistrySize(c.replica.reg, v);
    var c' := HandleAll(c, [SYNC]).client;
    ValuesOnRegistered(c.replica, v, values);
    SomeValues(values, v);
    if |v| == 0 {
      AnnouncedState(c, HandleAll(c, [SYNC]), Ready, 1, [READY_FRAME] + Subscribes(c));
      ValuesWhenReady(c', values);
      AnnounceConcat(c, [SYNC], values, Ready, Ready, 1, [READY_FRAME] + Subscribes(c), 0, []);
      assert [READY_FRAME] + Subscribes(c) + [] == [READY_FRAME] + Subscribes(c);
    } else {
      AnnouncedState(c, HandleAll(c, [SYNC]), Synchronizing, 0, [READY_FRAME]);
      ValuesAnnounce(c', values);
      SameSubscriptions(c, c');
      AnnounceConcat(c, [SYNC], values, Synchronizing, Ready, 0, [READY_FRAME], 1, Subscribes(c));
    }
  }

  lemma SameSubscriptions(c: Client, c': Client)
    requires c'.subs == c.subs
    ensures Subscribes(c') == Subscribes(c)
  {
  }

  lemma RegistrySize(reg: Registry, v: View)
    requires RegistryIs(reg, v)
    ensures |reg.byId| == |v|
  {
    assert |reg.byId| == |reg.byId.Keys| == |v.Keys| == |v|;
  }

  lemma SomeValues(values: seq<Frame>, v: View)
    requires ValueFramesOf(values, v)
    ensures |v| == 0 <==> values == []
    ensures |v| == 0 ==> v == map[]
  {
    if values == [] {
      IdsEmpty();
      assert v.Keys == {};
      assert |v| == |v.Keys|;
    } else {
      assert values[0].keyId in v.Keys;
      assert |v| == |v.Keys|;
    }
  }

  lemma SomeKeys(keys: seq<Frame>, v: View)
    requires KeyFramesOf(keys, v)
    ensures keys == [] ==> v == map[]
  {
    if keys == [] {
      IdsEmpty();
      assert v.Keys == {};
    }
  }

  /** The handshake ends: a client with nothing yet, identifying or synchronizing,
      that gets the keys of a view, the sync and the values ends Ready with that
      view; it says so once, and sends one ClientReady and then its subscriptions. */
  lemma HandshakeEndsReady(c: Client, v: View, keys: seq<Frame>, values: seq<Frame>)
    requires c.replica == BLANK && (c.state == Identifying || c.state == Synchronizing)
    requires GoodView(v) && KeyFramesOf(keys, v) && ValueFramesOf(values, v)
    ensures Announces(c, HandleAll(c, keys + [SYNC] + values), Ready, 1, [READY_FRAME] + Subscribes(c))
    ensures Agrees(HandleAll(c, keys + [SYNC] + values).client.replica, v)
  {
    hide Announces, HandleAll, GoodView, AcceptsAll, Ids, OncePerId, RegistryIs, StoreIs, Subscribes, ApplyAll;
    KeysFromBlank(v, keys);
    KeysAnnounce(c, keys);
    var c1 := HandleAll(c, keys).client;
    HandlerAppliesAll(c, keys);
    AnnouncedState(c, HandleAll(c, keys), Begun(c.state, keys), 0, []);
    SomeKeys(keys, v);
    EndsReady(c1, v, values);
    SameSubscriptions(c, c1);
    AnnounceConcat(c, keys, [SYNC] + values, Begun(c.state, keys), Ready, 0, [], 1, [READY_FRAME] + Subscribes(c));
    assert keys + [SYNC] + values == keys + ([SYNC] + values) && [] + ([READY_FRAME] + Subscribes(c)) == [READY_FRAME] + Subscribes(c);
    HandshakeApplied(c, v, keys, values);
  }

  lemma HandshakeApplied(c: Client, v: View, keys: seq<Frame>, values: seq<Frame>)
    requires c.replica == BLANK && GoodView(v) && KeyFramesOf(keys, v) && ValueFramesOf(values, v)
    ensures Agrees(HandleAll(c, keys + [SYNC] + values).client.replica, v)
  {
    hide *;
    HandlerAppliesAll(c, keys + [SYNC] + values);
    KeysFromBlank(v, keys);
    ApplyConcat(BLANK, keys + [SYNC], values);
    ApplyConcat(BLANK, keys, [SYNC]);
    OneFrame(ApplyAll(BLANK, keys), SYNC);
    SyncApplied(ApplyAll(BLANK, keys));
    ValuesOnRegistered(ApplyAll(BLANK, keys), v, values);
  }

  lemma SyncApplied(r: Replica)
    ensures Apply(r, SYNC) == r
  {
  }

  /** The same after AuthOk, from any state at all. */
  lemma AuthorizedHandshakeEndsReady(c: Client, ok: Frame, v: View, keys: seq<Frame>, values: seq<Frame>)
    requires c.replica == BLANK && ok.frameType == AUTH_OK
    requires GoodView(v) && KeyFramesOf(keys, v) && ValueFramesOf(values, v)
    ensures Announces(c, HandleAll(c, [ok] + (keys + [SYNC] + values)), Ready, 1, [READY_FRAME] + Subscribes(c))
    ensures Agrees(HandleAll(c, [ok] + (keys + [SYNC] + values)).client.replica, v)
  {
    hide Announces, HandleAll, GoodView, KeyFramesOf, ValueFramesOf, Agrees, Subscribes;
    AuthOkAnnounces(c, ok);
    var c1 := HandleAll(c, [ok]).client;
    HandshakeEndsReady(c1, v, keys, values);
    SameSubscriptions(c, c1);
    AnnounceConcat(c, [ok], keys + [SYNC] + values, Synchronizing, Ready, 0, [], 1, [READY_FRAME] + Subscribes(c));
    assert [] + ([READY_FRAME] + Subscribes(c)) == [READY_FRAME] + Subscribes(c);
  }

  lemma AuthOkAnnounces(c: Client, ok: Frame)
    requires ok.frameType == AUTH_OK
    ensures Announces(c, HandleAll(c, [ok]), Synchronizing, 0, []) && HandleAll(c, [ok]).client == c.(state := Synchronizing)
  {
    OneHandled(c, ok);
  }

  lemma ResetAnnounces(c: Client)
    ensures Announces(c, HandleAll(c, [RESET]), Synchronizing, 0, [])
    ensures HandleAll(c, [RESET]).client == c.(state := Synchronizing, replica := BLANK)
  {
    OneHandled(c, RESET);
  }

  /** A resync always brings the client back to Ready: from any state at all it
      ends Ready, says so once, and sends one ClientReady and then its subscriptions. */
  lemma ResyncEndsReady(c: Client, v: View, frames: seq<Frame>, keys: seq<Frame>, values: seq<Frame>)
    requires GoodView(v) && IsResync(frames, keys, values, v)
    ensures Announces(c, HandleAll(c, frames), Ready, 1, [READY_FRAME] + Subscribes(c))
  {
    hide Announces, HandleAll, GoodView, KeyFramesOf, ValueFramesOf, Agrees, Subscribes;
    ResetAnnounces(c);
    var c1 := HandleAll(c, [RESET]).client;
    HandshakeEndsReady(c1, v, keys, values);
    SameSubscriptions(c, c1);
    AnnounceConcat(c, [RESET], keys + [SYNC] + values, Synchronizing, Ready, 0, [], 1, [READY_FRAME] + Subscribes(c));
    assert frames == [RESET] + (keys + [SYNC] + values);
    assert [] + ([READY_FRAME] + Subscribes(c)) == [READY_FRAME] + Subscribes(c);
  }

  /** A client of an empty session needs only the ServerSync. */
  lemma EmptySessionIsReady(c: Client)
    requires c.replica == BLANK && (c.state == Identifying || c.state == Synchronizing)
    ensures Announces(c, HandleAll(c, [SYNC]), Ready, 1, [READY_FRAME] + Subscribes(c))
  {
    SyncAnnounces(c);
  }

  /** From then on the frames of a session's changes leave it Ready and silent. */
  lemma ReadyStaysReady(c: Client, f: Frame)
    requires c.state == Ready && Accepts(c.replica, f) && f.frameType != SERVER_RESET && c.replica.pending == map[]
    requires f.frameType == SERVER_SYNC ==> |c.replica.reg.byId| > 0
    ensures Announces(c, HandleFrame(c, f), Ready, 0, [])
  {
    hide Routes, Renumber, Apply, TopicOf, ValidPath;
    if f.frameType == SERVER_VALUE {
      ValueAnnounces(c, f);
    } else if f.frameType == SERVER_KEY_REGISTRATION {
      RegistrationAnnounces(c, f);
    } else if f.frameType == SERVER_KEY_DELETE && f.keyId in c.replica.reg.byId {
      var path := c.replica.reg.byId[f.keyId].path;
      RoutesOnly(c.routes, c.handles, TopicOf(c.replica.cache, f.keyId, path), path, Null);
    }
  }

  /** Frames about the connection: a rejection disconnects, with its reason, a remote
      error and a flush are reported, and none of them touches keys or subscriptions. */
  lemma ConnectionFrames(c: Client, f: Frame)
    requires f.frameType in {AUTH_FAIL, ERROR_FRAME, SERVER_FLUSH_END, SERVER_READY}
    ensures
      var h := HandleFrame(c, f);
      && h.sent == [] && h.client.(state := c.state) == c
      && (h.client.state != c.state ==> f.frameType == AUTH_FAIL)
      && (f.frameType == AUTH_FAIL ==> h.client.state == Disconnected && h.events == [Rejected(f.payload)])
      && (f.frameType == ERROR_FRAME ==> h.events == [RemoteError(f.payload)])
      && (f.frameType == SERVER_FLUSH_END ==> h.events == [Update])
      && (f.frameType == SERVER_READY ==> h.events == [])
  {
  }

  /** A registration without a path, and a shift or delete of an unknown id: nothing is
      sent or reported, and what the client knows and waits for stays as it was. */
  lemma MeaninglessFrames(c: Client, f: Frame)
    requires || (f.frameType == SERVER_KEY_REGISTRATION && !f.payload.Str?)
             || (f.frameType in {ARRAY_SHIFT_LEFT, ARRAY_SHIFT_RIGHT, SERVER_KEY_DELETE} && f.keyId !in c.replica.reg.byId)
    ensures
      var h := HandleFrame(c, f);
      && h.sent == [] && h.events == [] && h.client.(state := c.state, replica := c.replica) == c
      && h.client.replica.reg == c.replica.reg && h.client.replica.pending == c.replica.pending
      && (f.frameType != SERVER_KEY_DELETE ==> h.client.replica == c.replica)
      && (f.frameType == SERVER_KEY_DELETE ==> h.client.replica.store == c.replica.store - {f.keyId})
  {
  }

  /** A refused registration is reported with its error, and changes no key. */
  lemma RefusedRegistration(c: Client, f: Frame)
    requires f.frameType == SERVER_KEY_REGISTRATION && f.payload.Str?
    requires RegisterOne(c.replica.reg, f.keyId, f.payload.text, f.dataType).Err?
    ensures
      var h := HandleFrame(c, f);
      && h.sent == [] && h.client.replica == c.replica
      && h.events == [FrameError(RegisterOne(c.replica.reg, f.keyId, f.payload.text, f.dataType).error)]
  {
    hide ValidPath;
  }

  // ---------- Subscriptions ----------

  ghost predicate DistinctNames(subs: seq<Subscription>) {
    forall i, j :: 0 <= i < j < |subs| ==> subs[i].name != subs[j].name
  }

  /** The routes are the indices announced: under topic i's name path goes the name
      its values are routed to, and its handle has index i. */
  lemma {:induction false} RoutesFollowAnnouncement(subs: seq<Subscription>, handles: map<string, int>, i: nat)
    requires DistinctNames(subs) && i < |subs|
    ensures i in Routes(subs) && (NamePath(i), Str(Routes(subs)[i])) in SyncPairs(subs, 0)
    ensures subs[i].name in Renumber(handles, subs) && Renumber(handles, subs)[subs[i].name] == i
    decreases subs
  {
    hide NamePath;
    PairAt(subs, 0, i);
    RenumberAt(subs, handles, i);
  }

  lemma {:induction false} PairAt(subs: seq<Subscription>, from: nat, i: nat)
    requires i < |subs|
    ensures (NamePath(from + i), Str(subs[i].name)) in SyncPairs(subs, from)
    decreases subs
  {
    hide NamePath;
    if i == 0 {
      assert TopicPairs(subs[0], from)[0] == (NamePath(from), Str(subs[0].name));
    } else {
      PairAt(subs[1..], from + 1, i - 1);
      assert from + 1 + (i - 1) == from + i && subs[1..][i - 1] == subs[i];
    }
  }

  lemma {:induction false} RenumberAt(subs: seq<Subscription>, handles: map<string, int>, i: nat)
    requires DistinctNames(subs) && i < |subs|
    ensures subs[i].name in Renumber(handles, subs) && Renumber(handles, subs)[subs[i].name] == i
    decreases subs
  {
    if i < |subs| - 1 {
      RenumberAt(subs[..|subs| - 1], handles, i);
    }
  }

  /** After a handshake with subscriptions, a value the server sends under the
      prefix of topic i reaches the handle of the i-th subscription, and no other. */
  lemma SubscribedTopicHeard(c: Client, sent: seq<Frame>, h: Handled, f: Frame, i: nat, key: string)
    requires Announces(c, h, Ready, 1, sent) && i < |c.subs| < 0x8000_0000 && DistinctNames(c.subs)
    requires f.frameType == SERVER_VALUE && f.keyId in h.client.replica.reg.byId
    requires Inverse(h.client.replica.reg) && Tidy(h.client.replica)
    requires h.client.replica.reg.byId[f.keyId].path == Prefix(i) + key
    ensures HandleFrame(h.client, f).events == [TopicReceive(c.subs[i].name, key, f.payload)]
  {
    hide ParseTopic, NatToString, SyncPairs, Routes, Renumber;
    RoutesFollowAnnouncement(c.subs, c.handles, i);
    RouteName(c.subs, i);
    TopicValueReported(h.client, f, i, key);
  }

  lemma RouteName(subs: seq<Subscription>, i: nat)
    requires i < |subs|
    ensures i in Routes(subs) && Routes(subs)[i] == subs[i].name
  {
  }
}
