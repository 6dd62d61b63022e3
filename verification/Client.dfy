/** The client's frame handler (client.cpp) and its scoped topic view (topic_client_handle.cpp). */
module Client {
  import opened Types
  import opened KeyRegistry
  import opened TopicPath
  import opened ArrayShift
  import opened Replica

  // ---------- State ----------

  datatype ClientState = Disconnected | Connecting | Identifying | Authorizing | Synchronizing | Ready | Reconnecting

  /** One entry of subscriptions_, in the map's order; names are distinct. */
  datatype Subscription = Subscription(name: string, params: seq<(string, Payload)>)

  /** handles gives each topic handle's wire index, routes is indexToTopic_. */
  datatype Client = Client(
    state: ClientState,
    replica: Replica,
    subs: seq<Subscription>,
    handles: map<string, int>,
    routes: map<int, string>)

  datatype Event =
    | BecameReady
    | Receive(path: string, value: Payload)
    | TopicReceive(topic: string, key: string, value: Payload)
    | Update
    | Rejected(reason: Payload)
    | RemoteError(message: Payload)
    | FrameError(error: Error)

  datatype Handled = Handled(client: Client, sent: seq<Frame>, events: seq<Event>)

  const READY_FRAME: Frame := Frame(CLIENT_READY, 0, TY_NULL, Null)

  function RequestFrame(id: u32): Frame { Frame(CLIENT_KEY_REQUEST, id, TY_NULL, Null) }

  // ---------- Topic sync ----------

  function NamePath(idx: nat): string { "topic." + NatToString(idx) + ".name" }

  function ParamPath(idx: nat, key: string): string { "topic." + NatToString(idx) + ".param." + key }

  /** The key/value pairs sendTopicSync announces for one topic. */
  function TopicPairs(sub: Subscription, idx: nat): seq<(string, Payload)> {
    [(NamePath(idx), Str(sub.name))] + ParamPairs(sub.params, idx)
  }

  function ParamPairs(params: seq<(string, Payload)>, idx: nat): seq<(string, Payload)> {
    if params == [] then [] else [(ParamPath(idx, params[0].0), params[0].1)] + ParamPairs(params[1..], idx)
  }

  function SyncPairs(subs: seq<Subscription>, idx: nat): seq<(string, Payload)>
    decreases subs
  {
    if subs == [] then [] else TopicPairs(subs[0], idx) + SyncPairs(subs[1..], idx + 1)
  }

  /** A uint32_t key id counter that started at 1. */
  function KeyIdAt(i: nat): u32 { (i + 1) % TWO_32 }

  function SyncKeyFrame(i: nat, pair: (string, Payload)): Frame {
    Frame(CLIENT_KEY_REGISTRATION, KeyIdAt(i), DetectDataType(pair.1), Str(pair.0))
  }

  function SyncValueFrame(i: nat, pair: (string, Payload)): Frame {
    Frame(CLIENT_VALUE, KeyIdAt(i), DetectDataType(pair.1), pair.1)
  }

  function SyncKeyFrames(pairs: seq<(string, Payload)>): (fs: seq<Frame>)
    ensures |fs| == |pairs|
    ensures forall i :: 0 <= i < |pairs| ==> fs[i] == SyncKeyFrame(i, pairs[i])
  {
    if pairs == [] then [] else SyncKeyFrames(pairs[..|pairs| - 1]) + [SyncKeyFrame(|pairs| - 1, pairs[|pairs| - 1])]
  }

  function SyncValueFrames(pairs: seq<(string, Payload)>): (fs: seq<Frame>)
    ensures |fs| == |pairs|
    ensures forall i :: 0 <= i < |pairs| ==> fs[i] == SyncValueFrame(i, pairs[i])
  {
    if pairs == [] then [] else SyncValueFrames(pairs[..|pairs| - 1]) + [SyncValueFrame(|pairs| - 1, pairs[|pairs| - 1])]
  }

  const CLIENT_RESET_FRAME: Frame := Frame(CLIENT_RESET, 0, TY_NULL, Null)
  const CLIENT_SYNC_FRAME: Frame := Frame(CLIENT_SYNC, 0, TY_NULL, Null)

  /** The frames of sendTopicSync. */
  function TopicSyncFrames(subs: seq<Subscription>): seq<Frame> {
    var pairs := SyncPairs(subs, 0);
    [CLIENT_RESET_FRAME] + SyncKeyFrames(pairs) + SyncValueFrames(pairs) + [CLIENT_SYNC_FRAME]
  }

  /** Renumbered routes: topic i of the map's order gets index i. */
  function Routes(subs: seq<Subscription>): map<int, string> {
    map i | 0 <= i < |subs| :: subs[i].name
  }

  function Renumber(handles: map<string, int>, subs: seq<Subscription>): map<string, int> {
    if subs == [] then handles else Renumber(handles, subs[..|subs| - 1])[subs[|subs| - 1].name := |subs| - 1]
  }

  // ---------- handleFrame ----------

  /** Who hears about a value: the handle of a routed topic, or the flat listeners. */
  function Route(routes: map<int, string>, handles: map<string, int>, info: Option<TopicInfo>,
                 path: string, value: Payload): seq<Event> {
    match info
    case None => [Receive(path, value)]
    case Some(t) =>
      if t.topicIdx in routes && routes[t.topicIdx] in handles
      then [TopicReceive(routes[t.topicIdx], t.userKey, value)] else []
  }

  /** Becoming Ready also sends the pending subscriptions. */
  function BecomeReady(c: Client): Handled {
    if c.subs == [] then Handled(c.(state := Ready), [], [BecameReady])
    else Handled(c.(state := Ready, routes := Routes(c.subs), handles := Renumber(c.handles, c.subs)),
                 TopicSyncFrames(c.subs), [BecameReady])
  }

  function Identified(state: ClientState): ClientState {
    if state == Identifying then Synchronizing else state
  }

  function OnRegistration(c: Client, f: Frame): Handled {
    var c' := c.(state := Identified(c.state), replica := Apply(c.replica, f));
    if !f.payload.Str? then Handled(c', [], [])
    else
      match RegisterOne(c.replica.reg, f.keyId, f.payload.text, f.dataType)
      case Err(e) => Handled(c', [], [FrameError(e)])
      case Ok(_) =>
        if f.keyId in c.replica.pending then
          Handled(c', [], Route(c.routes, c.handles, TopicOf(c.replica.cache, f.keyId, f.payload.text), f.payload.text,
                                c.replica.pending[f.keyId].payload))
        else Handled(c', [], [])
  }

  function OnSync(c: Client): Handled {
    var sent := if Identified(c.state) != Ready then [READY_FRAME] else [];
    if |c.replica.reg.byId| == 0 then
      var h := BecomeReady(c);
      h.(sent := sent + h.sent)
    else Handled(c.(state := Identified(c.state)), sent, [])
  }

  function OnValue(c: Client, f: Frame): Handled {
    var c' := c.(replica := Apply(c.replica, f));
    if f.keyId !in c.replica.reg.byId then Handled(c', [RequestFrame(f.keyId)], [])
    else
      var path := c.replica.reg.byId[f.keyId].path;
      var events := Route(c.routes, c.handles, TopicOf(c.replica.cache, f.keyId, path), path, f.payload);
      if c.state == Synchronizing then
        var h := BecomeReady(c');
        h.(events := events + h.events)
      else Handled(c', [], events)
  }

  /** The length a shift reports: reduced by a left shift, kept by a right one. */
  function ReportedLength(r: Replica, f: Frame): i32 {
    var length := CurrentLength(r.store, f.keyId);
    if f.frameType == ARRAY_SHIFT_LEFT then length - Clamp(RawShift(f.payload), length) else length
  }

  function OnShift(c: Client, f: Frame): Handled {
    var c' := c.(replica := Apply(c.replica, f));
    if f.keyId !in c.replica.reg.byId then Handled(c', [], [])
    else
      var path := c.replica.reg.byId[f.keyId].path;
      var info := TopicOf(c.replica.cache, f.keyId, path);
      var lengthKey := if info.Some? then Some(info.value.(userKey := ArrayPrefix(info.value.userKey) + ".length")) else None;
      Handled(c', [], Route(c.routes, c.handles, lengthKey, ArrayPrefix(path) + ".length", I32(ReportedLength(c.replica, f))))
  }

  function OnDelete(c: Client, f: Frame): Handled {
    var c' := c.(replica := Apply(c.replica, f));
    if f.keyId !in c.replica.reg.byId || c.replica.reg.byId[f.keyId].path == "" then Handled(c', [], [])
    else
      var path := c.replica.reg.byId[f.keyId].path;
      Handled(c', [], Route(c.routes, c.handles, TopicOf(c.replica.cache, f.keyId, path), path, Null))
  }

  function HandleFrame(c: Client, f: Frame): Handled {
    if f.frameType == AUTH_OK then Handled(c.(state := Synchronizing), [], [])
    else if f.frameType == AUTH_FAIL then Handled(c.(state := Disconnected), [], [Rejected(f.payload)])
    else if f.frameType == SERVER_KEY_REGISTRATION then OnRegistration(c, f)
    else if f.frameType == SERVER_SYNC then OnSync(c)
    else if f.frameType == SERVER_VALUE then OnValue(c, f)
    else if f.frameType == ARRAY_SHIFT_LEFT || f.frameType == ARRAY_SHIFT_RIGHT then OnShift(c, f)
    else if f.frameType == SERVER_FLUSH_END then Handled(c, [], [Update])
    else if f.frameType == SERVER_KEY_DELETE then OnDelete(c, f)
    else if f.frameType == SERVER_RESET then Handled(c.(state := Synchronizing, replica := BLANK), [], [])
    else if f.frameType == ERROR_FRAME then Handled(c, [], [RemoteError(f.payload)])
    else Handled(c, [], [])
  }

  function HandleAll(c: Client, frames: seq<Frame>): Handled
    decreases frames
  {
    if frames == [] then Handled(c, [], [])
    else
      var first := HandleFrame(c, frames[0]);
      var rest := HandleAll(first.client, frames[1..]);
      Handled(rest.client, first.sent + rest.sent, first.events + rest.events)
  }

  // ---------- Lookups ----------

  /** client.get */
  function Get(r: Replica, key: string): Payload {
    match GetByPath(r.reg, key)
    case None => Null
    case Some(e) => if e.keyId in r.store then r.store[e.keyId] else Null
  }

  /** TopicClientHandle::get */
  function TopicGet(r: Replica, index: nat, key: string): Payload {
    Get(r, Prefix(index) + key)
  }

  /** TopicClientHandle::keys, as a set */
  ghost function TopicKeys(r: Replica, index: nat): set<string> {
    set p | p in r.reg.pathToId && StartsWith(p, Prefix(index)) :: p[|Prefix(index)|..]
  }

  // ---------- Lemmas ----------

  /** The handler changes the replica exactly as Apply says, whatever else it does. */
  lemma HandlerAppliesFrame(c: Client, f: Frame)
    ensures HandleFrame(c, f).client.replica == Apply(c.replica, f)
  {
    hide ApplyRegistration, ApplyValue, ApplyDelete, ApplyShift, Route, RegisterOne, TopicOf;
  }

  lemma {:induction false} HandlerAppliesAll(c: Client, frames: seq<Frame>)
    ensures HandleAll(c, frames).client.replica == ApplyAll(c.replica, frames)
    decreases frames
  {
    hide Apply, HandleFrame;
    if frames != [] {
      HandlerAppliesFrame(c, frames[0]);
      HandlerAppliesAll(HandleFrame(c, frames[0]).client, frames[1..]);
    }
  }

  ghost predicate NoRequests(sent: seq<Frame>) {
    forall i :: 0 <= i < |sent| ==> sent[i].frameType != CLIENT_KEY_REQUEST
  }

  ghost predicate NoErrors(events: seq<Event>) {
    forall i :: 0 <= i < |events| ==> !events[i].FrameError?
  }

  lemma SyncSendsNoRequest(subs: seq<Subscription>)
    ensures NoRequests(TopicSyncFrames(subs))
  {
  }

  lemma ReadyIsQuiet(c: Client)
    ensures NoRequests(BecomeReady(c).sent) && NoErrors(BecomeReady(c).events)
  {
    hide TopicSyncFrames, Routes, Renumber;
    SyncSendsNoRequest(c.subs);
  }

  /** Accepted frames raise no error and make the client ask for nothing. */
  lemma AcceptedIsQuiet(c: Client, f: Frame)
    requires Accepts(c.replica, f)
    ensures NoRequests(HandleFrame(c, f).sent) && NoErrors(HandleFrame(c, f).events)
  {
    hide Apply, BecomeReady, ValidPath, TopicOf;
    ReadyIsQuiet(c);
    ReadyIsQuiet(c.(replica := Apply(c.replica, f)));
  }

  lemma {:induction false} AcceptedRunIsQuiet(c: Client, frames: seq<Frame>)
    requires AcceptsAll(c.replica, frames)
    ensures NoRequests(HandleAll(c, frames).sent) && NoErrors(HandleAll(c, frames).events)
    decreases frames
  {
    hide HandleFrame, Apply, Accepts;
    if frames != [] {
      AcceptedIsQuiet(c, frames[0]);
      HandlerAppliesFrame(c, frames[0]);
      AcceptedRunIsQuiet(HandleFrame(c, frames[0]).client, frames[1..]);
    }
  }

  /** A client that agrees with a view answers get with the view's values and Null elsewhere. */
  lemma GetReadsView(r: Replica, v: View, id: u32)
    requires Agrees(r, v) && id in v
    ensures Get(r, v[id].path) == v[id].value
  {
  }

  lemma GetMissesOthers(r: Replica, v: View, key: string)
    requires Agrees(r, v) && forall id :: id in v ==> v[id].path != key
    ensures Get(r, key) == Null
  {
  }

  /** Between its registration and its first value a key reads as Null. */
  lemma GetBeforeValue(r: Replica, id: u32)
    requires Inverse(r.reg) && id in r.reg.byId && id !in r.store
    ensures Get(r, r.reg.byId[id].path) == Null
  {
  }

  /** What a topic handle lists are exactly the view's keys printed for its index. */
  lemma TopicKeysReadView(r: Replica, v: View, index: nat, key: string)
    requires Agrees(r, v)
    ensures key in TopicKeys(r, index) <==> exists id :: id in v && v[id].path == Prefix(index) + key
  {
    hide NatToString;
    var path := Prefix(index) + key;
    if key in TopicKeys(r, index) {
      var p :| p in r.reg.pathToId && StartsWith(p, Prefix(index)) && p[|Prefix(index)|..] == key;
      assert p == Prefix(index) + key;
      assert v[r.reg.pathToId[p]].path == path;
    }
    if id :| id in v && v[id].path == path {
      assert path in r.reg.pathToId && StartsWith(path, Prefix(index)) && path[|Prefix(index)|..] == key;
    }
  }
}
