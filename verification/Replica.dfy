/** The part of the client that mirrors the server: registry, store, pending
    values and topic cache, and what each server frame does to it (client.cpp). */
module Replica {
  import opened Types
  import opened KeyRegistry
  import opened TopicPath
  import opened ArrayShift

  type Cache = map<u32, Option<TopicInfo>>

  datatype Replica = Replica(reg: Registry, store: Store, pending: map<u32, Frame>, cache: Cache)

  const BLANK: Replica := Replica(EMPTY, map[], map[], map[])

  // ---------- What one frame does ----------

  /** getTopicInfo: the cached answer if there is one, else parse and remember. */
  function TopicOf(cache: Cache, keyId: u32, path: string): Option<TopicInfo> {
    if keyId in cache then cache[keyId] else ParseTopic(path)
  }

  function Remember(cache: Cache, keyId: u32, path: string): Cache {
    if keyId in cache then cache else cache[keyId := ParseTopic(path)]
  }

  /** A registration that throws changes nothing here; one that succeeds also applies a pending value. */
  function ApplyRegistration(r: Replica, keyId: u32, path: string, dtype: DataType): Replica {
    match RegisterOne(r.reg, keyId, path, dtype)
    case Err(_) => r
    case Ok(reg) =>
      if keyId in r.pending then
        Replica(reg, r.store[keyId := r.pending[keyId].payload], r.pending - {keyId}, Remember(r.cache, keyId, path))
      else r.(reg := reg)
  }

  /** A value for an unknown id is kept pending (and requested); a known one is stored. */
  function ApplyValue(r: Replica, f: Frame): Replica {
    if f.keyId !in r.reg.byId then r.(pending := r.pending[f.keyId := f])
    else r.(store := r.store[f.keyId := f.payload],
            cache := Remember(r.cache, f.keyId, r.reg.byId[f.keyId].path))
  }

  function ApplyDelete(r: Replica, keyId: u32): Replica {
    r.(reg := Remove(r.reg, keyId), store := r.store - {keyId}, cache := r.cache - {keyId})
  }

  function ApplyShift(r: Replica, f: Frame): Replica {
    if f.keyId !in r.reg.byId then r
    else r.(cache := Remember(r.cache, f.keyId, r.reg.byId[f.keyId].path),
            store := if f.frameType == ARRAY_SHIFT_LEFT then ShiftLeft(r.reg, r.store, f.keyId, f.payload)
                     else ShiftRight(r.reg, r.store, f.keyId, f.payload))
  }

  function Apply(r: Replica, f: Frame): Replica {
    if f.frameType == SERVER_KEY_REGISTRATION then
      (if f.payload.Str? then ApplyRegistration(r, f.keyId, f.payload.text, f.dataType) else r)
    else if f.frameType == SERVER_VALUE then ApplyValue(r, f)
    else if f.frameType == ARRAY_SHIFT_LEFT || f.frameType == ARRAY_SHIFT_RIGHT then ApplyShift(r, f)
    else if f.frameType == SERVER_KEY_DELETE then ApplyDelete(r, f.keyId)
    else if f.frameType == SERVER_RESET then BLANK
    else r
  }

  function ApplyAll(r: Replica, frames: seq<Frame>): Replica
    decreases frames
  {
    if frames == [] then r else ApplyAll(Apply(r, frames[0]), frames[1..])
  }

  // ---------- Frames the state layer sends ----------

  datatype Item = Item(path: string, dtype: DataType, value: Payload)

  /** Server state as the client should see it: live ids with wire path, type and value. */
  type View = map<u32, Item>

  function KeyFrame(id: u32, item: Item): Frame {
    Frame(SERVER_KEY_REGISTRATION, id, item.dtype, Str(item.path))
  }

  function ValueFrame(id: u32, item: Item): Frame {
    Frame(SERVER_VALUE, id, item.dtype, item.value)
  }

  function DeleteFrame(id: u32): Frame { Frame(SERVER_KEY_DELETE, id, TY_NULL, Null) }

  const SYNC: Frame := Frame(SERVER_SYNC, 0, TY_NULL, Null)
  const RESET: Frame := Frame(SERVER_RESET, 0, TY_NULL, Null)

  // ---------- The frame discipline ----------

  /** Frames that keep a replica in order: registrations of new, valid pairs
      below the limit, values of registered ids, and the control frames. */
  ghost predicate Accepts(r: Replica, f: Frame) {
    if f.frameType == SERVER_KEY_REGISTRATION then
      && f.payload.Str? && ValidPath(f.payload.text)
      && f.keyId !in r.reg.byId && f.payload.text !in r.reg.pathToId && |r.reg.byId| < MAX_KEYS
    else if f.frameType == SERVER_VALUE then f.keyId in r.reg.byId
    else f.frameType in {SERVER_SYNC, SERVER_RESET, SERVER_KEY_DELETE}
  }

  ghost predicate AcceptsAll(r: Replica, frames: seq<Frame>)
    decreases frames
  {
    frames != [] ==> Accepts(r, frames[0]) && AcceptsAll(Apply(r, frames[0]), frames[1..])
  }

  /** Nothing pending, and every cached route is what parsing the registered path gives now. */
  ghost predicate Tidy(r: Replica) {
    && r.pending == map[]
    && (forall id :: id in r.cache ==> id in r.reg.byId && r.cache[id] == ParseTopic(r.reg.byId[id].path))
  }

  lemma {:induction false} ApplyConcat(r: Replica, a: seq<Frame>, b: seq<Frame>)
    ensures ApplyAll(r, a + b) == ApplyAll(ApplyAll(r, a), b)
    ensures AcceptsAll(r, a + b) <==> AcceptsAll(r, a) && AcceptsAll(ApplyAll(r, a), b)
    decreases a
  {
    hide Apply, Accepts;
    if a == [] {
      assert a + b == b;
    } else {
      ApplyConcat(Apply(r, a[0]), a[1..], b);
      assert (a + b)[0] == a[0] && (a + b)[1..] == a[1..] + b;
    }
  }

  lemma RegistrationKeepsOrder(r: Replica, keyId: u32, path: string, dtype: DataType)
    requires Inverse(r.reg) && Tidy(r) && ValidPath(path)
    requires keyId !in r.reg.byId && path !in r.reg.pathToId && |r.reg.byId| < MAX_KEYS
    ensures Inverse(ApplyRegistration(r, keyId, path, dtype).reg) && Tidy(ApplyRegistration(r, keyId, path, dtype))
  {
    hide ValidPath, ParseTopic, Inverse;
    RegisterKeepsInverseIff(r.reg, keyId, path, dtype);
  }

  lemma ValueKeepsOrder(r: Replica, f: Frame)
    requires Tidy(r) && f.keyId in r.reg.byId
    ensures ApplyValue(r, f).reg == r.reg && Tidy(ApplyValue(r, f))
  {
    hide ParseTopic;
  }

  lemma DeleteKeepsOrder(r: Replica, keyId: u32)
    requires Inverse(r.reg) && Tidy(r)
    ensures Inverse(ApplyDelete(r, keyId).reg) && Tidy(ApplyDelete(r, keyId))
  {
    hide ParseTopic, Inverse;
    RemoveKeepsInverse(r.reg, keyId);
  }

  /** One accepted frame keeps the registry maps inverse, nothing pending and the cache fresh. */
  lemma AcceptedKeepsOrder(r: Replica, f: Frame)
    requires Accepts(r, f) && Inverse(r.reg) && Tidy(r)
    ensures Inverse(Apply(r, f).reg) && Tidy(Apply(r, f))
  {
    hide ValidPath, ApplyShift, ApplyRegistration, ApplyValue, ApplyDelete;
    if f.frameType == SERVER_KEY_REGISTRATION {
      RegistrationKeepsOrder(r, f.keyId, f.payload.text, f.dataType);
    } else if f.frameType == SERVER_VALUE {
      ValueKeepsOrder(r, f);
    } else if f.frameType == SERVER_KEY_DELETE {
      DeleteKeepsOrder(r, f.keyId);
    }
  }

  lemma {:induction false} AcceptedRunKeepsOrder(r: Replica, frames: seq<Frame>)
    requires AcceptsAll(r, frames) && Inverse(r.reg) && Tidy(r)
    ensures Inverse(ApplyAll(r, frames).reg) && Tidy(ApplyAll(r, frames))
    decreases frames
  {
    hide Apply, Accepts, Inverse, Tidy;
    if frames != [] {
      AcceptedKeepsOrder(r, frames[0]);
      AcceptedRunKeepsOrder(Apply(r, frames[0]), frames[1..]);
    }
  }

  // ---------- Agreement with a view ----------

  /** The registry holds exactly these ids, paths and types. */
  ghost predicate RegistryIs(reg: Registry, v: View) {
    && reg.byId.Keys == v.Keys
    && (forall id :: id in v ==> reg.byId[id] == KeyEntry(v[id].path, v[id].dtype, id))
    && (forall id :: id in v ==> v[id].path in reg.pathToId && reg.pathToId[v[id].path] == id)
    && (forall p :: p in reg.pathToId ==> reg.pathToId[p] in v && v[reg.pathToId[p]].path == p)
  }

  /** The store holds exactly these ids and values. */
  ghost predicate StoreIs(store: Store, v: View) {
    && store.Keys == v.Keys
    && (forall id :: id in v ==> store[id] == v[id].value)
  }

  ghost predicate Agrees(r: Replica, v: View) {
    RegistryIs(r.reg, v) && StoreIs(r.store, v)
  }

  /** Views a client can hold: valid distinct paths, at most MAX_KEYS of them. */
  ghost predicate GoodView(v: View) {
    && (forall id :: id in v ==> ValidPath(v[id].path))
    && (forall i, j :: i in v && j in v && v[i].path == v[j].path ==> i == j)
    && |v| <= MAX_KEYS
  }

  // ---------- Frame by frame ----------

  lemma FreshPath(reg: Registry, v: View, id: u32, item: Item)
    requires RegistryIs(reg, v) && id !in v && GoodView(v[id := item])
    ensures id !in reg.byId && item.path !in reg.pathToId && |reg.byId| < MAX_KEYS && ValidPath(item.path)
  {
    hide ValidPath;
    var v' := v[id := item];
    assert v'[id] == item;
    assert forall other :: other in v ==> other in v' && v'[other] == v[other];
    assert v'.Keys == v.Keys + {id};
    assert |reg.byId| == |reg.byId.Keys|;
  }

  lemma RegistryGrows(reg: Registry, v: View, id: u32, item: Item)
    requires RegistryIs(reg, v) && id !in v && item.path !in reg.pathToId
    ensures RegistryIs(Registry(reg.byId[id := KeyEntry(item.path, item.dtype, id)], reg.pathToId[item.path := id]), v[id := item])
  {
    var v' := v[id := item];
    forall i | i in v && i != id ensures v'[i].path != item.path {
      assert v[i].path in reg.pathToId;
    }
  }

  lemma RegistersOne(r: Replica, v: View, id: u32, item: Item)
    requires RegistryIs(r.reg, v) && id !in v && GoodView(v[id := item]) && r.pending == map[]
    ensures Accepts(r, KeyFrame(id, item))
    ensures
      var r' := Apply(r, KeyFrame(id, item));
      RegistryIs(r'.reg, v[id := item]) && r'.store == r.store && r'.pending == map[]
  {
    hide ValidPath, RegistryIs, GoodView;
    FreshPath(r.reg, v, id, item);
    RegistryGrows(r.reg, v, id, item);
  }

  lemma StoresOne(r: Replica, v: View, stored: View, id: u32, item: Item)
    requires RegistryIs(r.reg, v) && id in v && StoreIs(r.store, stored)
    ensures Accepts(r, ValueFrame(id, item))
    ensures
      var r' := Apply(r, ValueFrame(id, item));
      r'.reg == r.reg && StoreIs(r'.store, stored[id := item]) && r'.pending == r.pending
  {
    hide ValidPath, ParseTopic;
  }

  lemma DeletesOne(r: Replica, v: View, id: u32)
    requires Agrees(r, v) && id in v
    ensures Accepts(r, DeleteFrame(id))
    ensures
      var r' := Apply(r, DeleteFrame(id));
      Agrees(r', v - {id}) && r'.pending == r.pending
  {
    hide ValidPath;
  }

  // ---------- The three incremental updates ----------

  /** A new key: registration, sync, value. */
  lemma NewKey(r: Replica, v: View, id: u32, item: Item)
    requires Agrees(r, v) && r.pending == map[] && id !in v && GoodView(v[id := item])
    ensures
      var frames := [KeyFrame(id, item), SYNC, ValueFrame(id, item)];
      AcceptsAll(r, frames) && Agrees(ApplyAll(r, frames), v[id := item]) && ApplyAll(r, frames).pending == map[]
  {
    hide RegistryIs, StoreIs, GoodView, ApplyRegistration, ApplyValue, ApplyAll, AcceptsAll;
    var r1 := Apply(r, KeyFrame(id, item));
    RegistersOne(r, v, id, item);
    StoresOne(r1, v[id := item], v, id, item);
    assert v[id := item] == v[id := item][id := item];
    ThreeFrames(r, KeyFrame(id, item), SYNC, ValueFrame(id, item));
  }

  lemma ThreeFrames(r: Replica, a: Frame, b: Frame, c: Frame)
    ensures ApplyAll(r, [a, b, c]) == Apply(Apply(Apply(r, a), b), c)
    ensures AcceptsAll(r, [a, b, c]) <==> Accepts(r, a) && Accepts(Apply(r, a), b) && Accepts(Apply(Apply(r, a), b), c)
  {
    hide *;
    assert [a, b, c] == [a] + ([b] + [c]);
    ApplyConcat(r, [a], [b] + [c]);
    ApplyConcat(Apply(r, a), [b], [c]);
    OneFrame(r, a);
    OneFrame(Apply(r, a), b);
    OneFrame(Apply(Apply(r, a), b), c);
  }

  lemma OneFrame(r: Replica, a: Frame)
    ensures ApplyAll(r, [a]) == Apply(r, a)
    ensures AcceptsAll(r, [a]) <==> Accepts(r, a)
  {
    hide Apply, Accepts;
    assert [a][1..] == [];
  }

  /** A new value for a live key. */
  lemma NewValue(r: Replica, v: View, id: u32, item: Item)
    requires Agrees(r, v) && id in v && item.path == v[id].path && item.dtype == v[id].dtype
    ensures AcceptsAll(r, [ValueFrame(id, item)])
    ensures Agrees(ApplyAll(r, [ValueFrame(id, item)]), v[id := item])
    ensures ApplyAll(r, [ValueFrame(id, item)]).pending == r.pending
  {
    hide Apply, Accepts;
    StoresOne(r, v, v, id, item);
    OneFrame(r, ValueFrame(id, item));
    assert v[id := item].Keys == v.Keys;
  }

  /** A deleted key. */
  lemma DeleteKey(r: Replica, v: View, id: u32)
    requires Agrees(r, v) && id in v
    ensures AcceptsAll(r, [DeleteFrame(id)])
    ensures Agrees(ApplyAll(r, [DeleteFrame(id)]), v - {id})
    ensures ApplyAll(r, [DeleteFrame(id)]).pending == r.pending
  {
    hide *;
    DeletesOne(r, v, id);
    OneFrame(r, DeleteFrame(id));
  }

  // ---------- Resync ----------

  /** frames are the key frames of v, each id once, in any order. */
  ghost predicate KeyFramesOf(frames: seq<Frame>, v: View) {
    && (forall i :: 0 <= i < |frames| ==> frames[i].keyId in v && frames[i] == KeyFrame(frames[i].keyId, v[frames[i].keyId]))
    && OncePerId(frames) && Ids(frames) == v.Keys
  }

  /** frames are the value frames of v, each id once, in any order. */
  ghost predicate ValueFramesOf(frames: seq<Frame>, v: View) {
    && (forall i :: 0 <= i < |frames| ==> frames[i].keyId in v && frames[i] == ValueFrame(frames[i].keyId, v[frames[i].keyId]))
    && OncePerId(frames) && Ids(frames) == v.Keys
  }

  ghost predicate OncePerId(frames: seq<Frame>) {
    forall i, j :: 0 <= i < j < |frames| ==> frames[i].keyId != frames[j].keyId
  }

  ghost function Ids(frames: seq<Frame>): set<u32> {
    set i | 0 <= i < |frames| :: frames[i].keyId
  }

  ghost function Restrict(v: View, ids: set<u32>): View {
    map id | id in v && id in ids :: v[id]
  }

  lemma RestrictGrows(v: View, ids: set<u32>, id: u32)
    requires GoodView(v) && id in v
    ensures Restrict(v, ids + {id}) == Restrict(v, ids)[id := v[id]]
    ensures GoodView(Restrict(v, ids + {id}))
  {
    hide ValidPath;
    var w := Restrict(v, ids + {id});
    assert w.Keys <= v.Keys;
    SubsetSize(w.Keys, v.Keys);
  }

  lemma SubsetSize<T>(a: set<T>, b: set<T>)
    requires a <= b
    ensures |a| <= |b|
  {
    assert b == a + (b - a);
  }

  lemma IdsHeadTail(frames: seq<Frame>)
    requires frames != [] && OncePerId(frames)
    ensures Ids(frames) == {frames[0].keyId} + Ids(frames[1..])
    ensures frames[0].keyId !in Ids(frames[1..]) && OncePerId(frames[1..])
  {
    forall id | id in Ids(frames) ensures id in {frames[0].keyId} + Ids(frames[1..]) {
      var i :| 0 <= i < |frames| && frames[i].keyId == id;
      if i > 0 { assert frames[1..][i - 1].keyId == id; }
    }
    forall id | id in Ids(frames[1..]) ensures id in Ids(frames) && id != frames[0].keyId {
      var i :| 0 <= i < |frames[1..]| && frames[1..][i].keyId == id;
      assert frames[i + 1].keyId == id;
    }
  }

  /** Key frames of part of a view, on top of the part already registered. */
  lemma {:induction false} DrainKeys(r: Replica, v: View, done: set<u32>, frames: seq<Frame>)
    requires GoodView(v) && RegistryIs(r.reg, Restrict(v, done)) && r.pending == map[]
    requires forall i :: 0 <= i < |frames| ==> frames[i].keyId in v && frames[i] == KeyFrame(frames[i].keyId, v[frames[i].keyId])
    requires OncePerId(frames) && Ids(frames) !! done
    ensures AcceptsAll(r, frames)
    ensures
      var r' := ApplyAll(r, frames);
      RegistryIs(r'.reg, Restrict(v, done + Ids(frames))) && r'.store == r.store && r'.pending == map[]
    decreases frames
  {
    hide RegistryIs, GoodView, Apply, Accepts, OncePerId, Ids;
    if frames == [] {
      assert Ids(frames) == {} by { IdsEmpty(); }
      assert done + {} == done;
    } else {
      var id := frames[0].keyId;
      IdsHeadTail(frames);
      RestrictGrows(v, done, id);
      assert id !in Restrict(v, done);
      RegistersOne(r, Restrict(v, done), id, v[id]);
      DrainKeys(Apply(r, frames[0]), v, done + {id}, frames[1..]);
      assert done + {id} + Ids(frames[1..]) == done + Ids(frames);
    }
  }

  lemma IdsEmpty()
    ensures Ids([]) == {}
  {
  }

  lemma {:induction false} DrainValues(r: Replica, v: View, done: set<u32>, frames: seq<Frame>)
    requires RegistryIs(r.reg, v) && StoreIs(r.store, Restrict(v, done)) && r.pending == map[]
    requires forall i :: 0 <= i < |frames| ==> frames[i].keyId in v && frames[i] == ValueFrame(frames[i].keyId, v[frames[i].keyId])
    requires OncePerId(frames)
    ensures AcceptsAll(r, frames)
    ensures
      var r' := ApplyAll(r, frames);
      r'.reg == r.reg && StoreIs(r'.store, Restrict(v, done + Ids(frames))) && r'.pending == map[]
    decreases frames
  {
    hide RegistryIs, StoreIs, Apply, Accepts, OncePerId, Ids;
    if frames == [] {
      IdsEmpty();
      assert done + {} == done;
    } else {
      var id := frames[0].keyId;
      IdsHeadTail(frames);
      assert Restrict(v, done + {id}) == Restrict(v, done)[id := v[id]];
      StoresOne(r, v, Restrict(v, done), id, v[id]);
      DrainValues(Apply(r, frames[0]), v, done + {id}, frames[1..]);
      assert done + {id} + Ids(frames[1..]) == done + Ids(frames);
    }
  }

  /** What triggerSessionResync sends, whatever order the maps are iterated in. */
  ghost predicate IsResync(frames: seq<Frame>, keys: seq<Frame>, values: seq<Frame>, v: View) {
    frames == [RESET] + keys + [SYNC] + values && KeyFramesOf(keys, v) && ValueFramesOf(values, v)
  }

  lemma RestrictAll(v: View, ids: set<u32>)
    requires ids == v.Keys
    ensures Restrict(v, {} + ids) == v && Restrict(v, {}) == map[]
  {
  }

  /** Key frames on a cleared client register the whole view. */
  lemma KeysFromBlank(v: View, keys: seq<Frame>)
    requires GoodView(v) && KeyFramesOf(keys, v)
    ensures AcceptsAll(BLANK, keys)
    ensures
      var r := ApplyAll(BLANK, keys);
      RegistryIs(r.reg, v) && r.store == map[] && r.pending == map[]
  {
    hide ValidPath, Apply, Accepts, Ids, OncePerId;
    RestrictAll(v, Ids(keys));
    DrainKeys(BLANK, v, {}, keys);
  }

  /** Value frames on a client that has registered the view store it whole. */
  lemma ValuesOnRegistered(r: Replica, v: View, values: seq<Frame>)
    requires RegistryIs(r.reg, v) && r.store == map[] && r.pending == map[] && ValueFramesOf(values, v)
    ensures AcceptsAll(r, values) && Agrees(ApplyAll(r, values), v) && ApplyAll(r, values).pending == map[]
  {
    hide RegistryIs, Apply, Accepts, Ids, OncePerId;
    RestrictAll(v, Ids(values));
    DrainValues(r, v, {}, values);
  }

  /** Resync repairs anything: on a client in any state at all, a resync leaves
      exactly the server's view, and every frame of it is in order. */
  lemma ResyncRepairs(r: Replica, v: View, frames: seq<Frame>, keys: seq<Frame>, values: seq<Frame>)
    requires GoodView(v) && IsResync(frames, keys, values, v)
    ensures AcceptsAll(r, frames) && Agrees(ApplyAll(r, frames), v) && ApplyAll(r, frames).pending == map[]
  {
    hide GoodView, Agrees, RegistryIs, KeyFramesOf, ValueFramesOf, AcceptsAll, ApplyAll, ApplyRegistration, ApplyValue,
         ApplyDelete, ApplyShift;
    KeysFromBlank(v, keys);
    var registered := ApplyAll(BLANK, keys);
    ValuesOnRegistered(registered, v, values);
    ApplyConcat(r, [RESET] + keys + [SYNC], values);
    ApplyConcat(r, [RESET] + keys, [SYNC]);
    ApplyConcat(r, [RESET], keys);
    OneFrame(r, RESET);
    OneFrame(registered, SYNC);
  }

  /** A delete does not forget a pending value: when the id is registered again the old value is stored. */
  lemma PendingSurvivesDelete(r: Replica, id: u32, item: Item)
    requires id in r.pending && Accepts(ApplyDelete(r, id), KeyFrame(id, item))
    ensures
      var r' := ApplyAll(r, [DeleteFrame(id), KeyFrame(id, item)]);
      id in r'.store && r'.store[id] == r.pending[id].payload
  {
    hide ValidPath, ParseTopic, ApplyAll, AcceptsAll;
    assert [DeleteFrame(id), KeyFrame(id, item)] == [DeleteFrame(id)] + [KeyFrame(id, item)];
    ApplyConcat(r, [DeleteFrame(id)], [KeyFrame(id, item)]);
    OneFrame(r, DeleteFrame(id));
    OneFrame(Apply(r, DeleteFrame(id)), KeyFrame(id, item));
  }
}
