/** Topic-mode replication as a state machine: the session works, its frames
    wait in a FIFO queue, the client handles them one at a time. */
module ReplicaRun {
  import opened Types
  import opened TopicPath
  import opened Replica
  import opened FlatState
  import opened Session
  import opened Client
  import KeyRegistry

  /** sent and events collect what the client has sent back and reported so far. */
  datatype System = System(session: Session, queue: seq<Frame>, client: Client, sent: seq<Frame>, events: seq<Event>)

  ghost predicate Initial(x: System) {
    x.session == BOUND && x.queue == [] && x.client.replica == BLANK && x.sent == [] && x.events == []
  }

  ghost predicate Operates(x: System, y: System, op: Op, frames: seq<Frame>) {
    && Does(op, x.session, frames, y.session)
    && y == x.(session := y.session, queue := x.queue + frames)
  }

  ghost predicate Delivers(x: System, y: System) {
    && x.queue != []
    && var h := HandleFrame(x.client, x.queue[0]);
       y == System(x.session, x.queue[1..], h.client, x.sent + h.sent, x.events + h.events)
  }

  ghost predicate Next(x: System, y: System) {
    Delivers(x, y) || exists op, frames :: Operates(x, y, op, frames)
  }

  /** What the callers of the server must see to: publishable keys, and fewer than 2^32 - 1 ids so far. */
  ghost predicate Bounded(x: System) {
    GoodView(SessionView(x.session)) && CounterOpen(x.session)
  }

  ghost predicate IsRun(run: seq<System>) {
    && run != [] && Initial(run[0])
    && (forall i :: 0 <= i < |run| - 1 ==> Next(run[i], run[i + 1]))
    && (forall i :: 0 <= i < |run| ==> Bounded(run[i]))
  }

  // ---------- The invariant of every run ----------

  ghost predicate RunInv(x: System) {
    && SessionInv(x.session)
    && AcceptsAll(x.client.replica, x.queue)
    && InStep(ApplyAll(x.client.replica, x.queue), x.session)
    && KeyRegistry.Inverse(x.client.replica.reg) && Tidy(x.client.replica)
    && NoRequests(x.sent) && NoErrors(x.events)
  }

  lemma InitialInv(x: System)
    requires Initial(x)
    ensures RunInv(x)
  {
    hide SessionInv, SessionView;
    BoundIsEmpty();
    NoFramesNoChange(BLANK);
  }

  lemma OperationKeepsInv(x: System, y: System, op: Op, frames: seq<Frame>)
    requires RunInv(x) && Operates(x, y, op, frames) && CounterOpen(x.session) && GoodView(SessionView(y.session))
    ensures RunInv(y)
  {
    hide Does, SessionInv, InStep, GoodView, SessionView, KeyRegistry.Inverse, Tidy, NoRequests, NoErrors, AcceptsAll, ApplyAll;
    OperationStep(ApplyAll(x.client.replica, x.queue), op, x.session, frames, y.session);
    ApplyConcat(x.client.replica, x.queue, frames);
  }

  lemma DeliveryKeepsInv(x: System, y: System)
    requires RunInv(x) && Delivers(x, y)
    ensures RunInv(y)
  {
    hide SessionInv, InStep, KeyRegistry.Inverse, Tidy, HandleFrame, Apply, Accepts;
    HandlerAppliesFrame(x.client, x.queue[0]);
    AcceptedIsQuiet(x.client, x.queue[0]);
    AcceptedKeepsOrder(x.client.replica, x.queue[0]);
  }

  lemma StepKeepsInv(x: System, y: System)
    requires RunInv(x) && Next(x, y) && CounterOpen(x.session) && GoodView(SessionView(y.session))
    ensures RunInv(y)
  {
    hide RunInv, Operates, Delivers, GoodView, SessionView;
    if Delivers(x, y) {
      DeliveryKeepsInv(x, y);
    } else {
      var op, frames :| Operates(x, y, op, frames);
      OperationKeepsInv(x, y, op, frames);
    }
  }

  lemma {:induction false} RunKeepsInv(run: seq<System>, n: nat)
    requires IsRun(run) && n < |run|
    ensures RunInv(run[n])
  {
    hide RunInv, Next, Initial, GoodView, SessionView, CounterOpen;
    if n == 0 {
      InitialInv(run[0]);
    } else {
      RunKeepsInv(run, n - 1);
      assert Next(run[n - 1], run[n]) by { assert Next(run[n - 1], run[n - 1 + 1]); }
      assert Bounded(run[n - 1]) && Bounded(run[n]);
      StepKeepsInv(run[n - 1], run[n]);
    }
  }

  // ---------- Theorems over every run ----------

  /** Replica agreement: at every moment of every run, letting the client handle
      the frames in flight gives it exactly the session's keys, paths, types and
      values, with nothing pending and no further request or error. */
  lemma ReplicaAgreement(run: seq<System>, n: nat)
    requires IsRun(run) && n < |run|
    ensures
      var drained := HandleAll(run[n].client, run[n].queue);
      && Agrees(drained.client.replica, SessionView(run[n].session)) && drained.client.replica.pending == map[]
      && NoRequests(drained.sent) && NoErrors(drained.events)
  {
    hide IsRun, SessionInv, SessionView, Agrees, HandleAll, AcceptsAll, ApplyAll, KeyRegistry.Inverse, Tidy;
    RunKeepsInv(run, n);
    HandlerAppliesAll(run[n].client, run[n].queue);
    AcceptedRunIsQuiet(run[n].client, run[n].queue);
  }

  /** Registration precedes value: at every moment the client's registry maps are
      mutual inverses within the limit, nothing is pending, no key was ever
      requested, no frame ever failed, and every cached route is fresh. */
  lemma RegistrationPrecedesValue(run: seq<System>, n: nat)
    requires IsRun(run) && n < |run|
    ensures
      var r := run[n].client.replica;
      && KeyRegistry.Inverse(r.reg) && r.pending == map[]
      && (forall id :: id in r.cache ==> id in r.reg.byId && r.cache[id] == ParseTopic(r.reg.byId[id].path))
      && NoRequests(run[n].sent) && NoErrors(run[n].events)
  {
    hide IsRun, SessionInv, InStep, AcceptsAll, ApplyAll, KeyRegistry.Inverse, ParseTopic, NoRequests, NoErrors;
    RunKeepsInv(run, n);
  }

  lemma SessionInvInRun(run: seq<System>, n: nat)
    requires IsRun(run) && n < |run|
    ensures SessionInv(run[n].session)
  {
    hide IsRun, SessionInv, InStep, AcceptsAll, ApplyAll, KeyRegistry.Inverse, Tidy;
    RunKeepsInv(run, n);
  }

  // ---------- Ids, whatever is published ----------

  /** A session before its first binding. */
  const UNBOUND: Session := Session(map[], 1)

  ghost predicate SessionStep(s: Session, s': Session) {
    s' == Rebound(s) || exists op, frames :: Does(op, s, frames, s')
  }

  ghost predicate IsSessionRun(run: seq<Session>) {
    && run != [] && run[0] == UNBOUND
    && forall i :: 0 <= i < |run| - 1 ==> CounterOpen(run[i]) && SessionStep(run[i], run[i + 1])
  }

  /** Id discipline: in every run of bindings, again and again, and operations on
      any keys and indices, each store's two maps are mutual inverses, live ids are
      distinct across stores, and below the counter. */
  lemma {:induction false} IdDiscipline(run: seq<Session>, n: nat)
    requires IsSessionRun(run) && n < |run|
    ensures SessionInv(run[n])
  {
    hide SessionInv, Does, Rebound, CounterOpen;
    if n == 0 {
      UnboundInv();
    } else {
      IdDiscipline(run, n - 1);
      assert SessionStep(run[n - 1], run[n - 1 + 1]) && CounterOpen(run[n - 1]);
      if run[n] == Rebound(run[n - 1]) {
        ReboundInv(run[n - 1]);
      } else {
        var op, frames :| Does(op, run[n - 1], frames, run[n]);
        OperationKeepsIds(op, run[n - 1], frames, run[n]);
      }
    }
  }

  lemma UnboundInv()
    ensures SessionInv(UNBOUND)
  {
  }

  // ---------- Reads ----------

  /** With no frame in flight the client reads, flat or through a topic handle,
      exactly what the server last set. */
  lemma QuietReads(run: seq<System>, n: nat, scope: Scope, key: string)
    requires IsRun(run) && n < |run| && run[n].queue == [] && scope in run[n].session.spaces
    requires key in run[n].session.spaces[scope].flat.entries
    ensures
      var sp := run[n].session.spaces[scope];
      Get(run[n].client.replica, sp.prefix + key) == sp.flat.entries[key].value
  {
    hide IsRun, SessionInv, SessionView, Agrees, KeyRegistry.Inverse, Tidy, SpaceView;
    RunKeepsInv(run, n);
    var s, r := run[n].session, run[n].client.replica;
    NoFramesNoChange(r);
    PublishedEntry(s, scope, key);
    GetReadsView(r, SessionView(s), s.spaces[scope].flat.entries[key].keyId);
  }

  /** Cached routing agrees with the handles' prefix lookup: a cached id registered
      under topic i's printed path routes to topic i and to the key after the prefix. */
  lemma CachedRouteIsHandleRoute(run: seq<System>, n: nat, id: u32, i: nat)
    requires IsRun(run) && n < |run| && id in run[n].client.replica.cache && i < 0x8000_0000
    ensures id in run[n].client.replica.reg.byId
    ensures
      var path := run[n].client.replica.reg.byId[id].path;
      StartsWith(path, Prefix(i)) ==> run[n].client.replica.cache[id] == Some(TopicInfo(i, path[|Prefix(i)|..]))
  {
    hide IsRun, KeyRegistry.Inverse, ParseTopic, Prefix;
    RegistrationPrecedesValue(run, n);
    LookupAgreesWithParse(run[n].client.replica.reg.byId[id].path, i);
  }

  lemma PublishedEntry(s: Session, scope: Scope, key: string)
    requires SessionInv(s) && scope in s.spaces && key in s.spaces[scope].flat.entries
    ensures
      var e := s.spaces[scope].flat.entries[key];
      && e.keyId in SessionView(s)
      && SessionView(s)[e.keyId] == Item(s.spaces[scope].prefix + key, e.dtype, e.value)
  {
    hide SessionView, IdsApart;
    ViewHas(s, scope, s.spaces[scope].flat.entries[key].keyId);
  }

  // ---------- What makes a view publishable ----------

  /** The stores are the flat one and topics printed with pairwise distinct indices. */
  ghost predicate Indexed(s: Session, index: map<string, nat>) {
    && (None in s.spaces ==> s.spaces[None].prefix == "")
    && (forall n :: Some(n) in s.spaces ==>
          n in index && index[n] < 0x8000_0000 && s.spaces[Some(n)].prefix == Prefix(index[n]))
    && (forall m, n :: Some(m) in s.spaces && Some(n) in s.spaces && index[m] == index[n] ==> m == n)
  }

  /** No flat key looks like a key of a live topic. */
  ghost predicate FlatKeysApart(s: Session, index: map<string, nat>)
    requires Indexed(s, index)
  {
    forall k, n :: None in s.spaces && k in s.spaces[None].flat.entries && Some(n) in s.spaces
      ==> !StartsWith(k, Prefix(index[n]))
  }

  ghost predicate KeysValid(s: Session) {
    forall a, k :: a in s.spaces && k in s.spaces[a].flat.entries ==> KeyRegistry.ValidPath(s.spaces[a].prefix + k)
  }

  /** Valid keys, at most MAX_KEYS of them, distinct topic indices and flat keys
      outside the topic namespace are enough: such a view is good. */
  lemma PublishableIsGood(s: Session, index: map<string, nat>)
    requires SessionInv(s) && Indexed(s, index) && FlatKeysApart(s, index) && KeysValid(s)
    requires |SessionView(s)| <= KeyRegistry.MAX_KEYS
    ensures GoodView(SessionView(s))
  {
    hide SessionView, SessionInv, KeyRegistry.ValidPath, Indexed, FlatKeysApart, KeysValid;
    var v := SessionView(s);
    forall id | id in v ensures KeyRegistry.ValidPath(v[id].path) {
      var a, k := Published(s, id);
      ValidKey(s, a, k);
    }
    forall i, j | i in v && j in v && v[i].path == v[j].path ensures i == j {
      var a, k := Published(s, i);
      var b, l := Published(s, j);
      PathsApart(s, index, a, k, b, l);
    }
  }

  lemma ValidKey(s: Session, a: Scope, k: string)
    requires KeysValid(s) && a in s.spaces && k in s.spaces[a].flat.entries
    ensures KeyRegistry.ValidPath(s.spaces[a].prefix + k)
  {
    hide KeyRegistry.ValidPath;
  }

  /** Every published id is the entry of some key of some store. */
  lemma Published(s: Session, id: u32) returns (a: Scope, k: string)
    requires SessionInv(s) && id in SessionView(s)
    ensures a in s.spaces && k in s.spaces[a].flat.entries && s.spaces[a].flat.entries[k].keyId == id
    ensures SessionView(s)[id].path == s.spaces[a].prefix + k
  {
    hide SessionView, IdsApart;
    a := ViewOwner(s, id);
    k := s.spaces[a].flat.byKeyId[id];
  }

  lemma PathsApart(s: Session, index: map<string, nat>, a: Scope, k: string, b: Scope, l: string)
    requires Indexed(s, index) && FlatKeysApart(s, index)
    requires a in s.spaces && k in s.spaces[a].flat.entries && b in s.spaces && l in s.spaces[b].flat.entries
    requires s.spaces[a].prefix + k == s.spaces[b].prefix + l
    ensures a == b && k == l
  {
    hide Prefix, StartsWith;
    assert "" + k == k && "" + l == l;
    if a.Some? && b.Some? {
      PrefixInjective(index[a.value], k, index[b.value], l);
    } else if b.Some? {
      PrintedStarts(index[b.value], l);
    } else if a.Some? {
      PrintedStarts(index[a.value], k);
    }
  }

  lemma PrintedStarts(i: nat, key: string)
    ensures StartsWith(Prefix(i) + key, Prefix(i))
  {
  }

  // ---------- The conditions are exact ----------

  /** A client in agreement, told of a new key, agrees with the grown view if and
      only if that view is good: an invalid path, a path already in use or one
      key too many leaves it out of step. */
  lemma NewKeyAgreesIff(r: Replica, v: View, id: u32, item: Item)
    requires Agrees(r, v) && GoodView(v) && r.pending == map[] && id !in v
    ensures Agrees(ApplyAll(r, [KeyFrame(id, item), SYNC, ValueFrame(id, item)]), v[id := item]) <==> GoodView(v[id := item])
  {
    hide Agrees, GoodView, ApplyAll;
    if GoodView(v[id := item]) {
      NewKey(r, v, id, item);
    } else if item.path in r.reg.pathToId && KeyRegistry.ValidPath(item.path) {
      TakenPath(r, v, id, item);
    } else {
      RefusedKey(r, v, id, item);
    }
  }

  lemma TakenPath(r: Replica, v: View, id: u32, item: Item)
    requires Agrees(r, v) && r.pending == map[] && id !in v && item.path in r.reg.pathToId && KeyRegistry.ValidPath(item.path)
    ensures !Agrees(ApplyAll(r, [KeyFrame(id, item), SYNC, ValueFrame(id, item)]), v[id := item])
  {
    hide KeyRegistry.ValidPath, ParseTopic, ApplyAll;
    ThreeFrames(r, KeyFrame(id, item), SYNC, ValueFrame(id, item));
    var other := r.reg.pathToId[item.path];
    var after := Apply(Apply(Apply(r, KeyFrame(id, item)), SYNC), ValueFrame(id, item));
    assert after.reg.pathToId[item.path] == id && v[id := item][other].path == item.path;
  }

  lemma RefusedKey(r: Replica, v: View, id: u32, item: Item)
    requires Agrees(r, v) && GoodView(v) && r.pending == map[] && id !in v && !GoodView(v[id := item])
    requires item.path !in r.reg.pathToId || !KeyRegistry.ValidPath(item.path)
    ensures !Agrees(ApplyAll(r, [KeyFrame(id, item), SYNC, ValueFrame(id, item)]), v[id := item])
  {
    hide ApplyAll, GoodView, Apply, KeyRegistry.RegisterOne;
    Refusal(r, v, id, item);
    RefusedStaysUnknown(r, id, item);
    assert id in v[id := item];
  }

  lemma RefusedStaysUnknown(r: Replica, id: u32, item: Item)
    requires KeyRegistry.RegisterOne(r.reg, id, item.path, item.dtype).Err? && id !in r.reg.byId
    ensures id !in ApplyAll(r, [KeyFrame(id, item), SYNC, ValueFrame(id, item)]).reg.byId
  {
    hide ApplyAll, KeyRegistry.RegisterOne;
    ThreeFrames(r, KeyFrame(id, item), SYNC, ValueFrame(id, item));
  }

  lemma Refusal(r: Replica, v: View, id: u32, item: Item)
    requires Agrees(r, v) && GoodView(v) && id !in v && !GoodView(v[id := item])
    requires item.path !in r.reg.pathToId || !KeyRegistry.ValidPath(item.path)
    ensures KeyRegistry.RegisterOne(r.reg, id, item.path, item.dtype).Err?
  {
    hide KeyRegistry.ValidPath, GoodView;
    if KeyRegistry.ValidPath(item.path) && |v| < KeyRegistry.MAX_KEYS {
      forall i | i in v ensures v[i].path != item.path {
        assert v[i].path in r.reg.pathToId;
      }
      GoodGrows(v, id, item);
    }
    assert |r.reg.byId| == |r.reg.byId.Keys| == |v.Keys|;
  }

  lemma GoodGrows(v: View, id: u32, item: Item)
    requires GoodView(v) && id !in v && KeyRegistry.ValidPath(item.path) && |v| < KeyRegistry.MAX_KEYS
    requires forall i :: i in v ==> v[i].path != item.path
    ensures GoodView(v[id := item])
  {
    hide KeyRegistry.ValidPath;
    var v' := v[id := item];
    assert v'.Keys == v.Keys + {id};
    assert forall i :: i in v' ==> v'[i] == if i == id then item else v[i];
  }
}
