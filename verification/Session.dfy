/** One topic-mode session (session.cpp, topic_handle.cpp): a flat store and one
    store per topic over a single id counter and a single frame queue. */
module Session {
  import opened Types
  import opened TopicPath
  import opened Replica
  import opened FlatState
  import KeyRegistry

  // ---------- State ----------

  /** Where a key lives: None is the session's own store, Some(name) a topic's. */
  type Scope = Option<string>

  datatype Space = Space(prefix: string, flat: Flat)

  datatype Session = Session(spaces: map<Scope, Space>, next: u32)

  /** A freshly bound session: an empty flat store, ids from 1. */
  const BOUND: Session := Session(map[None := Space("", EMPTY_FLAT)], 1)

  // ---------- Operations ----------

  datatype Op =
    | Set(scope: Scope, key: string, value: Payload)
    | Clear(scope: Scope, key: string)
    | ClearAll(scope: Scope)
    | CreateTopic(name: string, index: nat)
    | RemoveTopic(name: string)
    | Announce

  function WithFlat(s: Session, scope: Scope, flat: Flat): Session
    requires scope in s.spaces
  {
    s.(spaces := s.spaces[scope := s.spaces[scope].(flat := flat)])
  }

  function AfterSet(s: Session, scope: Scope, key: string, value: Payload): Session
    requires scope in s.spaces
  {
    var change := SetLeaf(s.spaces[scope].flat, s.spaces[scope].prefix, s.next, key, value);
    WithFlat(s, scope, change.flat).(next := change.next)
  }

  ghost predicate Resyncs(frames: seq<Frame>, v: View) {
    exists keys, values :: IsResync(frames, keys, values, v)
  }

  /** One operation, the frames it enqueues and the state after it. Setting on
      a scope that does not exist and creating a topic twice cannot happen:
      set throws unless the session is bound, and a subscription is only
      created when its name has no handle. */
  ghost predicate Does(op: Op, s: Session, frames: seq<Frame>, s': Session) {
    match op
    case Set(scope, key, value) =>
      && scope in s.spaces && s' == AfterSet(s, scope, key, value)
      && frames == SetLeaf(s.spaces[scope].flat, s.spaces[scope].prefix, s.next, key, value).frames
    case Clear(scope, key) =>
      && scope in s.spaces && s' == WithFlat(s, scope, ClearKey(s.spaces[scope].flat, key))
      && frames == (if key in s.spaces[scope].flat.entries then [DeleteFrame(s.spaces[scope].flat.entries[key].keyId)] else [])
    case ClearAll(scope) =>
      scope in s.spaces &&
      if s.spaces[scope].flat.entries == map[] then s' == s && frames == []
      else s' == WithFlat(s, scope, EMPTY_FLAT) && Resyncs(frames, SessionView(s'))
    case CreateTopic(name, index) =>
      && Some(name) !in s.spaces && frames == []
      && s' == s.(spaces := s.spaces[Some(name) := Space(Prefix(index), EMPTY_FLAT)])
    case RemoveTopic(name) =>
      if Some(name) !in s.spaces then s' == s && frames == []
      else s' == s.(spaces := s.spaces - {Some(name)}) && Resyncs(frames, SessionView(s'))
    case Announce => s' == s && frames == [SYNC]
  }

  // ---------- Invariant and view ----------

  /** No id is live in two stores. */
  ghost predicate IdsApart(s: Session) {
    forall a, b, id ::
      (a in s.spaces && b in s.spaces && id in s.spaces[a].flat.byKeyId && id in s.spaces[b].flat.byKeyId) ==> a == b
  }

  /** Id discipline: each store's maps are inverse, ids are live in one store only, and below the counter. */
  ghost predicate SessionInv(s: Session) {
    && (forall a :: a in s.spaces ==> FlatInv(s.spaces[a].flat))
    && IdsApart(s)
    && (forall a, id :: a in s.spaces && id in s.spaces[a].flat.byKeyId ==> id < s.next)
  }

  ghost function SpaceView(sp: Space): View { FlatView(sp.flat, sp.prefix) }

  /** Everything the session publishes, over all its stores. */
  ghost function SessionView(s: Session): View {
    if IdsApart(s) then
      map a, id | a in s.spaces && id in SpaceView(s.spaces[a]) :: id := SpaceView(s.spaces[a])[id]
    else map[]
  }

  ghost function Without(s: Session, scope: Scope): Session {
    s.(spaces := s.spaces - {scope})
  }

  lemma ViewHas(s: Session, a: Scope, id: u32)
    requires SessionInv(s) && a in s.spaces && id in SpaceView(s.spaces[a])
    ensures id in SessionView(s) && SessionView(s)[id] == SpaceView(s.spaces[a])[id]
  {
    hide FlatInv, ItemOf;
  }

  lemma ViewOwner(s: Session, id: u32) returns (a: Scope)
    requires SessionInv(s) && id in SessionView(s)
    ensures a in s.spaces && id in SpaceView(s.spaces[a]) && SessionView(s)[id] == SpaceView(s.spaces[a])[id]
  {
    hide FlatInv, ItemOf, SpaceView;
    a :| a in s.spaces && id in SpaceView(s.spaces[a]);
    ViewHas(s, a, id);
  }

  lemma WithoutInv(s: Session, scope: Scope)
    requires SessionInv(s)
    ensures SessionInv(Without(s, scope))
  {
    hide FlatInv;
  }

  /** The view splits into one store's view and the others', over disjoint ids. */
  lemma ViewSplits(s: Session, scope: Scope)
    requires SessionInv(s) && scope in s.spaces
    ensures SessionInv(Without(s, scope))
    ensures SessionView(s) == SessionView(Without(s, scope)) + SpaceView(s.spaces[scope])
    ensures SessionView(Without(s, scope)).Keys !! SpaceView(s.spaces[scope]).Keys
  {
    hide SessionView, SessionInv, SpaceView;
    var rest := Without(s, scope);
    WithoutInv(s, scope);
    var v, w, f := SessionView(s), SessionView(rest), SpaceView(s.spaces[scope]);
    forall id | id in w ensures id in v && v[id] == w[id] && id !in f {
      var a := ViewOwner(rest, id);
      ViewHas(s, a, id);
      if id in f { OneOwner(s, a, scope, id); }
    }
    forall id | id in f ensures id in v && v[id] == f[id] {
      ViewHas(s, scope, id);
    }
    forall id | id in v ensures id in w || id in f {
      var a := ViewOwner(s, id);
      if a != scope { ViewHas(rest, a, id); }
    }
  }

  lemma OneOwner(s: Session, a: Scope, b: Scope, id: u32)
    requires SessionInv(s) && a in s.spaces && b in s.spaces
    requires id in SpaceView(s.spaces[a]) && id in SpaceView(s.spaces[b])
    ensures a == b
  {
    hide FlatInv, ItemOf;
  }

  /** Replacing one store by another with ids of its own or fresh ones keeps the invariant. */
  lemma ReplaceInv(s: Session, scope: Scope, flat: Flat, next: u32)
    requires SessionInv(s) && scope in s.spaces && FlatInv(flat) && next >= s.next
    requires forall id :: id in flat.byKeyId ==> id in s.spaces[scope].flat.byKeyId || s.next <= id < next
    ensures SessionInv(WithFlat(s, scope, flat).(next := next))
  {
    hide FlatInv;
    var s' := WithFlat(s, scope, flat).(next := next);
    forall a, b, id | a in s'.spaces && b in s'.spaces && id in s'.spaces[a].flat.byKeyId && id in s'.spaces[b].flat.byKeyId
      ensures a == b
    {
      if a == scope { assert b == scope || b in s.spaces; }
    }
  }

  lemma ReplaceView(s: Session, scope: Scope, flat: Flat, next: u32)
    requires SessionInv(s) && scope in s.spaces && SessionInv(WithFlat(s, scope, flat).(next := next))
    ensures SessionView(WithFlat(s, scope, flat).(next := next))
         == SessionView(Without(s, scope)) + FlatView(flat, s.spaces[scope].prefix)
  {
    hide SessionView, SessionInv;
    var s' := WithFlat(s, scope, flat).(next := next);
    ViewSplits(s', scope);
    assert Without(s', scope).spaces == Without(s, scope).spaces;
    ViewIgnoresCounter(Without(s', scope), Without(s, scope));
  }

  lemma ViewIgnoresCounter(s: Session, t: Session)
    requires s.spaces == t.spaces
    ensures SessionView(s) == SessionView(t)
  {
    hide SpaceView;
  }

  /** A change of one store's view is the same change of the session's view. */
  lemma LiftUpdate(s: Session, scope: Scope, flat: Flat, next: u32, id: u32, item: Item)
    requires SessionInv(s) && scope in s.spaces && SessionInv(WithFlat(s, scope, flat).(next := next))
    requires FlatView(flat, s.spaces[scope].prefix) == SpaceView(s.spaces[scope])[id := item]
    ensures SessionView(WithFlat(s, scope, flat).(next := next)) == SessionView(s)[id := item]
  {
    hide *;
    ViewSplits(s, scope);
    ReplaceView(s, scope, flat, next);
    var others: View := SessionView(Without(s, scope));
    var own: View := SpaceView(s.spaces[scope]);
    var both: View := others + own;
    assert others + own[id := item] == both[id := item];
  }

  lemma LiftRemove(s: Session, scope: Scope, flat: Flat, next: u32, id: u32)
    requires SessionInv(s) && scope in s.spaces && SessionInv(WithFlat(s, scope, flat).(next := next))
    requires id in SpaceView(s.spaces[scope])
    requires FlatView(flat, s.spaces[scope].prefix) == SpaceView(s.spaces[scope]) - {id}
    ensures id in SessionView(s) && SessionView(WithFlat(s, scope, flat).(next := next)) == SessionView(s) - {id}
  {
    hide *;
    ViewSplits(s, scope);
    ReplaceView(s, scope, flat, next);
    var others: View := SessionView(Without(s, scope));
    var own: View := SpaceView(s.spaces[scope]);
    var both: View := others + own;
    assert others + (own - {id}) == both - {id};
  }

  // ---------- Each operation on invariant and view ----------

  /** The counter has not wrapped and is not about to. */
  predicate CounterOpen(s: Session) { s.next < TWO_32 - 1 }

  lemma CounterFresh(s: Session, scope: Scope)
    requires SessionInv(s) && scope in s.spaces
    ensures s.next !in s.spaces[scope].flat.byKeyId && s.next !in SessionView(s)
  {
    hide FlatInv, ItemOf;
  }

  /** The item a set publishes, and under which id. */
  ghost function ItemSet(s: Session, scope: Scope, key: string, value: Payload): Item
    requires scope in s.spaces
  {
    Item(s.spaces[scope].prefix + key, DetectDataType(value), value)
  }

  lemma SpaceInv(s: Session, scope: Scope)
    requires SessionInv(s) && scope in s.spaces
    ensures FlatInv(s.spaces[scope].flat)
    ensures SpaceView(s.spaces[scope]) == FlatView(s.spaces[scope].flat, s.spaces[scope].prefix)
  {
    hide FlatInv, FlatView;
  }

  lemma ClearedInv(s: Session, scope: Scope, key: string)
    requires SessionInv(s) && scope in s.spaces && key in s.spaces[scope].flat.entries
    ensures
      var s' := WithFlat(s, scope, ClearKey(s.spaces[scope].flat, key));
      var id := s.spaces[scope].flat.entries[key].keyId;
      SessionInv(s') && id in SessionView(s) && SessionView(s') == SessionView(s) - {id}
  {
    var flat, prefix := s.spaces[scope].flat, s.spaces[scope].prefix;
    hide SessionView, FlatInv, FlatView, SessionInv, SpaceView;
    SpaceInv(s, scope);
    ClearKeyView(flat, prefix, key);
    ReplaceInv(s, scope, ClearKey(flat, key), s.next);
    LiftRemove(s, scope, ClearKey(flat, key), s.next, flat.entries[key].keyId);
  }

  lemma ClearsNothing(s: Session, scope: Scope, key: string)
    requires scope in s.spaces && key !in s.spaces[scope].flat.entries
    ensures WithFlat(s, scope, ClearKey(s.spaces[scope].flat, key)) == s
  {
    assert s.spaces[scope := s.spaces[scope]] == s.spaces;
  }

  lemma CreatedIs(s: Session, scope: Scope, key: string, value: Payload)
    requires scope in s.spaces && key !in s.spaces[scope].flat.entries && CounterOpen(s)
    ensures
      var flat' := NewEntry(s.spaces[scope].flat, s.spaces[scope].prefix, s.next, key, value).flat;
      && AfterSet(s, scope, key, value) == WithFlat(s, scope, flat').(next := s.next + 1)
      && (forall id :: id in flat'.byKeyId ==> id in s.spaces[scope].flat.byKeyId || id == s.next)
  {
    hide DetectDataType;
  }

  lemma CreatedInv(s: Session, scope: Scope, key: string, value: Payload)
    requires SessionInv(s) && scope in s.spaces && key !in s.spaces[scope].flat.entries && CounterOpen(s)
    ensures SessionInv(AfterSet(s, scope, key, value))
    ensures s.next !in SessionView(s)
    ensures SessionView(AfterSet(s, scope, key, value)) == SessionView(s)[s.next := ItemSet(s, scope, key, value)]
  {
    hide SessionView, FlatInv, FlatView, SessionInv, DetectDataType, SpaceView, AfterSet, NewEntry, WithFlat;
    var flat, prefix := s.spaces[scope].flat, s.spaces[scope].prefix;
    SpaceInv(s, scope);
    CounterFresh(s, scope);
    NewEntryView(flat, prefix, s.next, key, value);
    CreatedIs(s, scope, key, value);
    var flat' := NewEntry(flat, prefix, s.next, key, value).flat;
    ReplaceInv(s, scope, flat', s.next + 1);
    LiftUpdate(s, scope, flat', s.next + 1, s.next, ItemSet(s, scope, key, value));
  }

  lemma UpdatedInv(s: Session, scope: Scope, key: string, value: Payload)
    requires SessionInv(s) && scope in s.spaces && !Allocates(s.spaces[scope].flat, key, value)
    ensures SessionInv(AfterSet(s, scope, key, value))
    ensures
      var id := s.spaces[scope].flat.entries[key].keyId;
      var item := ItemSet(s, scope, key, value);
      && id in SessionView(s) && SessionView(s)[id].path == item.path && SessionView(s)[id].dtype == item.dtype
      && SessionView(AfterSet(s, scope, key, value)) == SessionView(s)[id := item]
  {
    var flat, prefix := s.spaces[scope].flat, s.spaces[scope].prefix;
    hide SessionView, FlatInv, FlatView, SessionInv, DetectDataType, SpaceView;
    SpaceInv(s, scope);
    UpdateView(flat, prefix, s.next, key, value);
    var flat', id := SetLeaf(flat, prefix, s.next, key, value).flat, flat.entries[key].keyId;
    ReplaceInv(s, scope, flat', s.next);
    LiftUpdate(s, scope, flat', s.next, id, ItemSet(s, scope, key, value));
    ViewHas(s, scope, id);
  }

  lemma EmptiedInv(s: Session, scope: Scope)
    requires SessionInv(s) && scope in s.spaces
    ensures SessionInv(WithFlat(s, scope, EMPTY_FLAT))
  {
    hide FlatInv;
    assert FlatInv(EMPTY_FLAT) by { EmptyInv(); }
    ReplaceInv(s, scope, EMPTY_FLAT, s.next);
  }

  lemma EmptyInv()
    ensures FlatInv(EMPTY_FLAT)
    ensures forall p :: FlatView(EMPTY_FLAT, p) == map[]
  {
  }

  lemma TopicCreatedInv(s: Session, name: string, index: nat)
    requires SessionInv(s) && Some(name) !in s.spaces
    ensures
      var s' := s.(spaces := s.spaces[Some(name) := Space(Prefix(index), EMPTY_FLAT)]);
      SessionInv(s') && SessionView(s') == SessionView(s)
  {
    hide FlatInv, FlatView, Prefix, SessionView;
    EmptyInv();
    var s' := s.(spaces := s.spaces[Some(name) := Space(Prefix(index), EMPTY_FLAT)]);
    assert SessionInv(s');
    ViewSplits(s', Some(name));
    assert Without(s', Some(name)) == s by {
      assert s.spaces[Some(name) := Space(Prefix(index), EMPTY_FLAT)] - {Some(name)} == s.spaces;
    }
    assert SessionView(s) + map[] == SessionView(s);
  }

  // ---------- What a client that drains the frames sees ----------

  /** A client in step with the session: same view, nothing pending. */
  ghost predicate InStep(r: Replica, s: Session) {
    Agrees(r, SessionView(s)) && r.pending == map[]
  }

  lemma CreatedStep(r: Replica, s: Session, scope: Scope, key: string, value: Payload)
    requires SessionInv(s) && scope in s.spaces && key !in s.spaces[scope].flat.entries && CounterOpen(s)
    requires InStep(r, s) && GoodView(SessionView(AfterSet(s, scope, key, value)))
    ensures
      var frames := NewEntry(s.spaces[scope].flat, s.spaces[scope].prefix, s.next, key, value).frames;
      AcceptsAll(r, frames) && InStep(ApplyAll(r, frames), AfterSet(s, scope, key, value))
  {
    hide SessionView, Agrees, GoodView, SessionInv, DetectDataType, ApplyAll, AcceptsAll, AfterSet;
    CreatedInv(s, scope, key, value);
    NewKey(r, SessionView(s), s.next, ItemSet(s, scope, key, value));
  }

  /** One operation keeps the invariant, and a client in step before it is in
      step after draining its frames, every one of them in order. */
  lemma SetStep(r: Replica, s: Session, scope: Scope, key: string, value: Payload)
    requires SessionInv(s) && scope in s.spaces && CounterOpen(s)
    requires InStep(r, s) && GoodView(SessionView(AfterSet(s, scope, key, value)))
    ensures
      var frames := SetLeaf(s.spaces[scope].flat, s.spaces[scope].prefix, s.next, key, value).frames;
      && SessionInv(AfterSet(s, scope, key, value))
      && AcceptsAll(r, frames) && InStep(ApplyAll(r, frames), AfterSet(s, scope, key, value))
  {
    hide SessionView, GoodView, SessionInv, DetectDataType, ApplyAll, AcceptsAll, Agrees, NewEntry, ClearKey, WithFlat;
    var flat, prefix := s.spaces[scope].flat, s.spaces[scope].prefix;
    if !Allocates(flat, key, value) {
      UpdatedInv(s, scope, key, value);
      NewValue(r, SessionView(s), flat.entries[key].keyId, ItemSet(s, scope, key, value));
    } else if key !in flat.entries {
      CreatedInv(s, scope, key, value);
      CreatedStep(r, s, scope, key, value);
    } else {
      RetypedStep(r, s, scope, key, value);
    }
  }

  lemma RetypedStep(r: Replica, s: Session, scope: Scope, key: string, value: Payload)
    requires SessionInv(s) && scope in s.spaces && CounterOpen(s)
    requires key in s.spaces[scope].flat.entries && Allocates(s.spaces[scope].flat, key, value)
    requires InStep(r, s) && GoodView(SessionView(AfterSet(s, scope, key, value)))
    ensures
      var frames := SetLeaf(s.spaces[scope].flat, s.spaces[scope].prefix, s.next, key, value).frames;
      && SessionInv(AfterSet(s, scope, key, value))
      && AcceptsAll(r, frames) && InStep(ApplyAll(r, frames), AfterSet(s, scope, key, value))
  {
    hide SessionView, GoodView, SessionInv, DetectDataType, ApplyAll, AcceptsAll, Agrees, NewEntry;
    var flat, id := s.spaces[scope].flat, s.spaces[scope].flat.entries[key].keyId;
    var mid := WithFlat(s, scope, ClearKey(flat, key));
    ClearedInv(s, scope, key);
    DeleteKey(r, SessionView(s), id);
    var r1 := ApplyAll(r, [DeleteFrame(id)]);
    assert InStep(r1, mid);
    RetypeIsClearThenCreate(s, scope, key, value);
    CreatedInv(mid, scope, key, value);
    CreatedStep(r1, mid, scope, key, value);
    var frames := NewEntry(ClearKey(flat, key), s.spaces[scope].prefix, s.next, key, value).frames;
    ApplyConcat(r, [DeleteFrame(id)], frames);
  }

  /** A change of type is a delete followed by the creation of a new key. */
  lemma RetypeIsClearThenCreate(s: Session, scope: Scope, key: string, value: Payload)
    requires scope in s.spaces && key in s.spaces[scope].flat.entries && Allocates(s.spaces[scope].flat, key, value)
    ensures
      var mid := WithFlat(s, scope, ClearKey(s.spaces[scope].flat, key));
      && key !in mid.spaces[scope].flat.entries && CounterOpen(mid) == CounterOpen(s)
      && AfterSet(mid, scope, key, value) == AfterSet(s, scope, key, value)
  {
    hide NewEntry, DetectDataType;
    var mid := WithFlat(s, scope, ClearKey(s.spaces[scope].flat, key));
    var flat' := NewEntry(ClearKey(s.spaces[scope].flat, key), s.spaces[scope].prefix, s.next, key, value).flat;
    assert s.spaces[scope := s.spaces[scope].(flat := flat')] == mid.spaces[scope := mid.spaces[scope].(flat := flat')];
  }

  lemma ResyncStep(r: Replica, s: Session, frames: seq<Frame>)
    requires GoodView(SessionView(s)) && Resyncs(frames, SessionView(s))
    ensures AcceptsAll(r, frames) && InStep(ApplyAll(r, frames), s)
  {
    hide *;
    var keys, values := ResyncParts(frames, SessionView(s));
    ResyncRepairs(r, SessionView(s), frames, keys, values);
    InStepFrom(ApplyAll(r, frames), s);
  }

  lemma InStepFrom(r: Replica, s: Session)
    requires Agrees(r, SessionView(s)) && r.pending == map[]
    ensures InStep(r, s)
  {
  }

  lemma ResyncParts(frames: seq<Frame>, v: View) returns (keys: seq<Frame>, values: seq<Frame>)
    requires Resyncs(frames, v)
    ensures IsResync(frames, keys, values, v)
  {
    hide IsResync;
    keys, values :| IsResync(frames, keys, values, v);
  }

  lemma NoFramesNoChange(r: Replica)
    ensures AcceptsAll(r, []) && ApplyAll(r, []) == r
  {
  }

  lemma SyncChangesNothing(r: Replica)
    ensures AcceptsAll(r, [SYNC]) && ApplyAll(r, [SYNC]) == r
  {
    hide ApplyRegistration, ApplyValue, ApplyShift, ApplyDelete, AcceptsAll, ApplyAll;
    OneFrame(r, SYNC);
  }

  lemma ClearStep(r: Replica, s: Session, scope: Scope, key: string)
    requires SessionInv(s) && scope in s.spaces && InStep(r, s)
    ensures
      var flat := s.spaces[scope].flat;
      var s' := WithFlat(s, scope, ClearKey(flat, key));
      var frames := if key in flat.entries then [DeleteFrame(flat.entries[key].keyId)] else [];
      SessionInv(s') && AcceptsAll(r, frames) && InStep(ApplyAll(r, frames), s')
  {
    hide SessionView, SessionInv, Agrees, ApplyAll, AcceptsAll, WithFlat, ClearKey;
    NoFramesNoChange(r);
    if key !in s.spaces[scope].flat.entries {
      ClearsNothing(s, scope, key);
    } else {
      ClearedInv(s, scope, key);
      DeleteKey(r, SessionView(s), s.spaces[scope].flat.entries[key].keyId);
    }
  }

  lemma OperationStep(r: Replica, op: Op, s: Session, frames: seq<Frame>, s': Session)
    requires SessionInv(s) && Does(op, s, frames, s') && CounterOpen(s)
    requires InStep(r, s) && GoodView(SessionView(s'))
    ensures SessionInv(s') && AcceptsAll(r, frames) && InStep(ApplyAll(r, frames), s')
  {
    hide SessionView, SessionInv, InStep, GoodView, AcceptsAll, ApplyAll, Resyncs, SetLeaf, ClearKey, AfterSet, Prefix;
    NoFramesNoChange(r);
    match op
    case Set(scope, key, value) => SetStep(r, s, scope, key, value);
    case Clear(scope, key) => ClearStep(r, s, scope, key);
    case ClearAll(scope) =>
      EmptiedInv(s, scope);
      if s' != s || frames != [] { ResyncStep(r, s', frames); }
    case CreateTopic(name, index) =>
      TopicCreatedInv(s, name, index);
      StillInStep(r, s, s');
    case RemoveTopic(name) =>
      WithoutInv(s, Some(name));
      if s' != s || frames != [] { ResyncStep(r, s', frames); }
    case Announce => SyncChangesNothing(r);
  }

  lemma StillInStep(r: Replica, s: Session, s': Session)
    requires InStep(r, s) && SessionView(s') == SessionView(s)
    ensures InStep(r, s')
  {
  }

  // ---------- Binding again ----------

  /** _bindSessionTX replaces the flat store by an empty one and sends nothing. */
  function Rebound(s: Session): Session {
    s.(spaces := s.spaces[None := Space("", EMPTY_FLAT)])
  }

  lemma ReboundInv(s: Session)
    requires SessionInv(s)
    ensures SessionInv(Rebound(s)) && SessionView(Rebound(s)) == SessionView(Without(s, None))
  {
    hide FlatInv, FlatView, SessionView;
    EmptyInv();
    assert SessionInv(Rebound(s));
    ViewSplits(Rebound(s), None);
    assert Without(Rebound(s), None).spaces == Without(s, None).spaces;
    assert SessionView(Without(s, None)) + map[] == SessionView(Without(s, None));
  }

  /** Binding again keeps the id discipline, and keeps a client in step if and
      only if there was nothing in the flat store to lose. */
  lemma RebindInStepIff(r: Replica, s: Session)
    requires SessionInv(s) && InStep(r, s)
    ensures SessionInv(Rebound(s))
    ensures InStep(r, Rebound(s)) <==> (None in s.spaces ==> s.spaces[None].flat.entries == map[])
  {
    hide FlatInv, SessionView, Agrees, SessionInv;
    ReboundInv(s);
    if None in s.spaces {
      ViewSplits(s, None);
      FlatStoreSize(s);
      var rest, own := SessionView(Without(s, None)), SpaceView(s.spaces[None]);
      if own == map[] {
        assert rest + own == rest;
      } else {
        var id :| id in own;
        assert id in SessionView(s) && id !in rest;
        if InStep(r, Rebound(s)) { AgreesOnce(r, SessionView(s), rest); }
      }
    } else {
      assert s.spaces - {None} == s.spaces;
    }
  }

  lemma FlatStoreSize(s: Session)
    requires SessionInv(s) && None in s.spaces
    ensures SpaceView(s.spaces[None]) == map[] <==> s.spaces[None].flat.entries == map[]
  {
    var flat := s.spaces[None].flat;
    KeysOfView(flat, s.spaces[None].prefix);
    if key :| key in flat.entries {
      assert flat.entries[key].keyId in flat.byKeyId;
    }
    assert flat.byKeyId == map[] <==> flat.byKeyId.Keys == {};
  }

  lemma AgreesOnce(r: Replica, a: View, b: View)
    requires Agrees(r, a) && Agrees(r, b)
    ensures a.Keys == b.Keys
  {
  }

  // ---------- Every operation, published or not ----------

  lemma SetKeepsInv(s: Session, scope: Scope, key: string, value: Payload)
    requires SessionInv(s) && scope in s.spaces && CounterOpen(s)
    ensures SessionInv(AfterSet(s, scope, key, value))
  {
    hide SessionInv, AfterSet, ClearKey, WithFlat, DetectDataType;
    if !Allocates(s.spaces[scope].flat, key, value) {
      UpdatedInv(s, scope, key, value);
    } else if key !in s.spaces[scope].flat.entries {
      CreatedInv(s, scope, key, value);
    } else {
      RetypeKeepsInv(s, scope, key, value);
    }
  }

  lemma RetypeKeepsInv(s: Session, scope: Scope, key: string, value: Payload)
    requires SessionInv(s) && scope in s.spaces && CounterOpen(s)
    requires key in s.spaces[scope].flat.entries && Allocates(s.spaces[scope].flat, key, value)
    ensures SessionInv(AfterSet(s, scope, key, value))
  {
    hide SessionInv, AfterSet, ClearKey, DetectDataType, Allocates, SessionView;
    ClearedInv(s, scope, key);
    RetypeIsClearThenCreate(s, scope, key, value);
    CreatedInv(WithFlat(s, scope, ClearKey(s.spaces[scope].flat, key)), scope, key, value);
  }

  lemma ClearKeepsInv(s: Session, scope: Scope, key: string)
    requires SessionInv(s) && scope in s.spaces
    ensures SessionInv(WithFlat(s, scope, ClearKey(s.spaces[scope].flat, key)))
  {
    hide SessionInv, ClearKey, WithFlat;
    if key in s.spaces[scope].flat.entries {
      ClearedInv(s, scope, key);
    } else {
      ClearsNothing(s, scope, key);
    }
  }

  /** Whatever is published, an operation keeps the id discipline. */
  lemma OperationKeepsIds(op: Op, s: Session, frames: seq<Frame>, s': Session)
    requires SessionInv(s) && Does(op, s, frames, s') && CounterOpen(s)
    ensures SessionInv(s')
  {
    hide SessionInv, SessionView, Resyncs, ClearKey, SetLeaf, AfterSet;
    match op
    case Set(scope, key, value) => SetKeepsInv(s, scope, key, value);
    case Clear(scope, key) => ClearKeepsInv(s, scope, key);
    case ClearAll(scope) => EmptiedInv(s, scope);
    case CreateTopic(name, index) => TopicCreatedInv(s, name, index);
    case RemoveTopic(name) => WithoutInv(s, Some(name));
    case Announce =>
  }

  lemma ClearsSomething(s: Session, scope: Scope, key: string)
    requires scope in s.spaces && key in s.spaces[scope].flat.entries
    ensures WithFlat(s, scope, ClearKey(s.spaces[scope].flat, key)) != s
  {
    assert key !in WithFlat(s, scope, ClearKey(s.spaces[scope].flat, key)).spaces[scope].flat.entries;
  }

  /** No change, no frames: but for a set of the value a key has already, and the
      ServerSync of an activation, an operation that leaves the session as it is
      sends nothing. */
  lemma NoChangeNoFrames(op: Op, s: Session, frames: seq<Frame>)
    requires SessionInv(s) && Does(op, s, frames, s) && !op.Set? && !op.Announce?
    ensures frames == []
  {
    hide SessionView, FlatView, Resyncs;
    match op
    case Clear(scope, key) =>
      if key in s.spaces[scope].flat.entries { ClearsSomething(s, scope, key); }
    case ClearAll(scope) =>
    case CreateTopic(name, index) =>
    case RemoveTopic(name) =>
  }

  /** Binding a new session leaves nothing published, and its first key gets id 1. */
  lemma FirstKeyIsOne(key: string, value: Payload)
    ensures SessionView(BOUND) == map[] && BOUND == Rebound(Session(map[], 1))
    ensures SessionView(AfterSet(BOUND, None, key, value)) == map[1 := Item(key, DetectDataType(value), value)]
  {
    hide SessionView, SpaceView, FlatInv, FlatView, SetLeaf, DetectDataType;
    BoundIsEmpty();
    var s' := AfterSet(BOUND, None, key, value);
    FirstEntry(key, value);
    ViewSplits(s', None);
    assert Without(s', None).spaces == map[];
    NoSpaces(Without(s', None));
    assert "" + key == key;
  }

  lemma BoundIsEmpty()
    ensures SessionInv(BOUND) && SessionView(BOUND) == map[]
  {
    hide FlatView, FlatInv;
    EmptyInv();
  }

  lemma NoSpaces(s: Session)
    requires s.spaces == map[]
    ensures SessionView(s) == map[]
  {
  }

  lemma FirstEntry(key: string, value: Payload)
    ensures
      var s' := AfterSet(BOUND, None, key, value);
      SessionInv(s') && None in s'.spaces && SpaceView(s'.spaces[None]) == map[1 := Item("" + key, DetectDataType(value), value)]
  {
    hide DetectDataType;
  }
}
