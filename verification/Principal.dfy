/** Broadcast and principal modes: one store per principal, its frames fanned
    out to the sessions that follow it (principal_tx.cpp, server.cpp, session.cpp). */
module Principal {
  import opened Types
  import opened KeyRegistry
  import opened Replica
  import opened FlatState

  // ---------- State ----------

  /** cache is cachedKeyFrames_ when keyFramesCached_ is set. */
  datatype Ptx = Ptx(flat: Flat, next: u32, cache: Option<seq<Frame>>)

  /** One connected session: ready says Ready, otherwise it is Synchronizing.
      queue holds the frames on their way to its client. */
  datatype Conn = Conn(principal: string, ready: bool, queue: seq<Frame>, replica: Replica)

  datatype World = World(ptx: map<string, Ptx>, conns: map<nat, Conn>)

  const NEW_PTX: Ptx := Ptx(EMPTY_FLAT, 1, None)

  ghost function ViewOf(p: Ptx): View { FlatView(p.flat, "") }

  /** principals_.principal(name): a principal exists from the first time it is named. */
  function PtxOf(w: World, name: string): Ptx {
    if name in w.ptx then w.ptx[name] else NEW_PTX
  }

  // ---------- Steps ----------

  /** bindPrincipalTX: value frames go to the Ready sessions of this principal. */
  function ToReady(conns: map<nat, Conn>, name: string, frames: seq<Frame>): map<nat, Conn> {
    map c | c in conns ::
      if conns[c].principal == name && conns[c].ready then conns[c].(queue := conns[c].queue + frames) else conns[c]
  }

  /** ... and resync frames to every connected session of it. */
  function ToAll(conns: map<nat, Conn>, name: string, frames: seq<Frame>): map<nat, Conn> {
    map c | c in conns ::
      if conns[c].principal == name then conns[c].(queue := conns[c].queue + frames) else conns[c]
  }

  function SetPtx(p: Ptx, key: string, value: Payload): Ptx {
    var change := SetLeaf(p.flat, "", p.next, key, value);
    p.(flat := change.flat, next := change.next)
  }

  function ClearPtxOne(p: Ptx, key: string): Ptx { p.(flat := ClearKey(p.flat, key)) }

  function ClearFrames(flat: Flat, key: string): seq<Frame> {
    if key in flat.entries then [DeleteFrame(flat.entries[key].keyId)] else []
  }

  function ClearAllFrames(flat: Flat): seq<Frame> {
    if flat.entries == map[] then [] else [RESET, SYNC]
  }

  /** clear(): an emptied store drops the cache and rebuilds it at once, as the
      lone ServerSync; ids restart at 1 either way. */
  function ClearPtx(p: Ptx): Ptx {
    if p.flat.entries == map[] then p.(next := 1) else Ptx(EMPTY_FLAT, 1, Some([SYNC]))
  }

  /** _buildKeyFrames: the cached frames, or fresh ones in any order with a ServerSync. */
  ghost predicate Builds(p: Ptx, frames: seq<Frame>) {
    if p.cache.Some? then frames == p.cache.value
    else exists keys :: KeyFramesOf(keys, ViewOf(p)) && frames == keys + [SYNC]
  }

  datatype Step =
    | Set(name: string, key: string, value: Payload)
    | Clear(name: string, key: string)
    | ClearAll(name: string)
    | Join(conn: nat, name: string)
    | ClientReady(conn: nat)
    | Deliver(conn: nat)
    | Leave(conn: nat)

  ghost predicate Does(step: Step, w: World, w': World) {
    match step
    case Set(name, key, value) =>
      var p := PtxOf(w, name);
      && w'.ptx == w.ptx[name := SetPtx(p, key, value)]
      && w'.conns == ToReady(w.conns, name, SetLeaf(p.flat, "", p.next, key, value).frames)
    case Clear(name, key) =>
      var p := PtxOf(w, name);
      && w'.ptx == w.ptx[name := ClearPtxOne(p, key)]
      && w'.conns == ToReady(w.conns, name, ClearFrames(p.flat, key))
    case ClearAll(name) =>
      var p := PtxOf(w, name);
      && w'.ptx == w.ptx[name := ClearPtx(p)]
      && w'.conns == ToAll(w.conns, name, ClearAllFrames(p.flat))
    case Join(c, name) =>
      && c !in w.conns
      && exists frames :: Builds(PtxOf(w, name), frames)
           && w'.ptx == w.ptx[name := PtxOf(w, name).(cache := Some(frames))]
           && w'.conns == w.conns[c := Conn(name, false, frames, BLANK)]
    case ClientReady(c) =>
      && c in w.conns && w'.ptx == w.ptx
      && if w.conns[c].ready then w' == w
         else w.conns[c].principal in w.ptx && exists values ::
           ValueFramesOf(values, ViewOf(w.ptx[w.conns[c].principal]))
           && w'.conns == w.conns[c := w.conns[c].(ready := true, queue := w.conns[c].queue + values)]
    case Deliver(c) =>
      && c in w.conns && w.conns[c].queue != [] && w'.ptx == w.ptx
      && w'.conns == w.conns[c := w.conns[c].(queue := w.conns[c].queue[1..], replica := Apply(w.conns[c].replica, w.conns[c].queue[0]))]
    case Leave(c) => w'.ptx == w.ptx && w'.conns == w.conns - {c}
  }

  // ---------- What the callers must see to ----------

  /** The frames announce these ids, paths and types. */
  ghost predicate AnnouncesKeys(frames: seq<Frame>, v: View) {
    exists keys, was :: frames == keys + [SYNC] && KeyFramesOf(keys, was) && SameKeys(was, v)
  }

  ghost predicate SameKeys(a: View, b: View) {
    a.Keys == b.Keys && forall id :: id in a ==> a[id].path == b[id].path && a[id].dtype == b[id].dtype
  }

  /** The key-frame cache, if set, announces exactly the live keys. */
  ghost predicate Fresh(p: Ptx) {
    p.cache.Some? ==> AnnouncesKeys(p.cache.value, ViewOf(p))
  }

  /** No session of this principal is between _startSync and ClientReady. */
  ghost predicate Quiet(w: World, name: string) {
    forall c :: c in w.conns && w.conns[c].principal == name ==> w.conns[c].ready
  }

  /** The step makes or removes a key without telling the sessions in a handshake. */
  predicate ChangesKeys(step: Step, w: World) {
    match step
    case Set(name, key, value) => Allocates(PtxOf(w, name).flat, key, value)
    case Clear(name, key) => key in PtxOf(w, name).flat.entries
    case _ => false
  }

  /** Changes of the keys wait for handshakes to finish, handshakes find the cache
      fresh, and id counters do not wrap. */
  ghost predicate Disciplined(step: Step, w: World) {
    && (ChangesKeys(step, w) ==> Quiet(w, step.name))
    && (step.Set? ==> PtxOf(w, step.name).next < TWO_32 - 1)
    && (step.Join? ==> Fresh(PtxOf(w, step.name)))
  }

  ghost predicate GoodWorld(w: World) {
    forall n :: n in w.ptx ==> GoodView(ViewOf(w.ptx[n]))
  }

  // ---------- Invariant ----------

  ghost predicate PtxInv(p: Ptx) {
    FlatInv(p.flat) && forall id :: id in p.flat.byKeyId ==> id < p.next
  }

  /** A Ready session's client, drained, holds its principal's state; one in the
      handshake, drained, has registered its keys. */
  ghost predicate ConnInv(c: Conn, v: View) {
    && AcceptsAll(c.replica, c.queue)
    && var drained := ApplyAll(c.replica, c.queue);
       && drained.pending == map[]
       && (c.ready ==> Agrees(drained, v))
       && (!c.ready ==> RegistryIs(drained.reg, v) && drained.store == map[])
  }

  ghost predicate WorldInv(w: World) {
    && (forall n :: n in w.ptx ==> PtxInv(w.ptx[n]))
    && (forall c :: c in w.conns ==> w.conns[c].principal in w.ptx
                                      && ConnInv(w.conns[c], ViewOf(w.ptx[w.conns[c].principal])))
  }

  // ---------- One principal ----------

  lemma FreshId(p: Ptx)
    requires PtxInv(p)
    ensures p.next !in p.flat.byKeyId && p.next !in ViewOf(p)
  {
    hide FlatInv, ItemOf;
  }

  ghost function SetItem(key: string, value: Payload): Item {
    Item("" + key, DetectDataType(value), value)
  }

  lemma CreatePtx(r: Replica, p: Ptx, key: string, value: Payload)
    requires PtxInv(p) && p.next < TWO_32 - 1 && key !in p.flat.entries
    requires GoodView(ViewOf(SetPtx(p, key, value))) && Agrees(r, ViewOf(p)) && r.pending == map[]
    ensures
      var frames := NewEntry(p.flat, "", p.next, key, value).frames;
      && PtxInv(SetPtx(p, key, value)) && AcceptsAll(r, frames)
      && Agrees(ApplyAll(r, frames), ViewOf(SetPtx(p, key, value))) && ApplyAll(r, frames).pending == map[]
  {
    hide FlatInv, FlatView, Agrees, GoodView, ApplyAll, AcceptsAll, DetectDataType;
    FreshId(p);
    NewEntryView(p.flat, "", p.next, key, value);
    NewKey(r, ViewOf(p), p.next, SetItem(key, value));
  }

  lemma UpdatePtx(r: Replica, p: Ptx, key: string, value: Payload)
    requires PtxInv(p) && !Allocates(p.flat, key, value) && Agrees(r, ViewOf(p)) && r.pending == map[]
    ensures
      var frames := SetLeaf(p.flat, "", p.next, key, value).frames;
      && PtxInv(SetPtx(p, key, value)) && AcceptsAll(r, frames)
      && Agrees(ApplyAll(r, frames), ViewOf(SetPtx(p, key, value))) && ApplyAll(r, frames).pending == map[]
  {
    hide FlatInv, FlatView, Agrees, GoodView, ApplyAll, AcceptsAll, DetectDataType;
    UpdateView(p.flat, "", p.next, key, value);
    NewValue(r, ViewOf(p), p.flat.entries[key].keyId, SetItem(key, value));
  }

  lemma ClearPtxKey(r: Replica, p: Ptx, key: string)
    requires PtxInv(p) && Agrees(r, ViewOf(p)) && r.pending == map[]
    ensures
      var frames, p' := ClearFrames(p.flat, key), ClearPtxOne(p, key);
      && PtxInv(p') && AcceptsAll(r, frames)
      && Agrees(ApplyAll(r, frames), ViewOf(p')) && ApplyAll(r, frames).pending == map[]
  {
    hide FlatInv, FlatView, Agrees, AcceptsAll, ApplyAll;
    if key in p.flat.entries {
      ClearKeyView(p.flat, "", key);
      DeleteKey(r, ViewOf(p), p.flat.entries[key].keyId);
    } else {
      NothingToDo(r);
    }
  }

  lemma NothingToDo(r: Replica)
    ensures AcceptsAll(r, []) && ApplyAll(r, []) == r
  {
  }

  lemma RetypePtx(r: Replica, p: Ptx, key: string, value: Payload)
    requires PtxInv(p) && p.next < TWO_32 - 1 && key in p.flat.entries && Allocates(p.flat, key, value)
    requires GoodView(ViewOf(SetPtx(p, key, value))) && Agrees(r, ViewOf(p)) && r.pending == map[]
    ensures
      var frames := SetLeaf(p.flat, "", p.next, key, value).frames;
      && PtxInv(SetPtx(p, key, value)) && AcceptsAll(r, frames)
      && Agrees(ApplyAll(r, frames), ViewOf(SetPtx(p, key, value))) && ApplyAll(r, frames).pending == map[]
  {
    hide PtxInv, ViewOf, Agrees, GoodView, ApplyAll, AcceptsAll, DetectDataType, NewEntry;
    var mid := ClearPtxOne(p, key);
    var delete := [DeleteFrame(p.flat.entries[key].keyId)];
    ClearPtxKey(r, p, key);
    var r1 := ApplyAll(r, delete);
    CreatePtx(r1, mid, key, value);
    ApplyConcat(r, delete, NewEntry(mid.flat, "", p.next, key, value).frames);
  }

  lemma SetPtxStep(r: Replica, p: Ptx, key: string, value: Payload)
    requires PtxInv(p) && p.next < TWO_32 - 1
    requires GoodView(ViewOf(SetPtx(p, key, value))) && Agrees(r, ViewOf(p)) && r.pending == map[]
    ensures
      var frames := SetLeaf(p.flat, "", p.next, key, value).frames;
      && AcceptsAll(r, frames)
      && Agrees(ApplyAll(r, frames), ViewOf(SetPtx(p, key, value))) && ApplyAll(r, frames).pending == map[]
  {
    hide PtxInv, ViewOf, Agrees, GoodView, ApplyAll, AcceptsAll, DetectDataType, NewEntry, ClearKey;
    if !Allocates(p.flat, key, value) {
      UpdatePtx(r, p, key, value);
    } else if key !in p.flat.entries {
      CreatePtx(r, p, key, value);
    } else {
      RetypePtx(r, p, key, value);
    }
  }

  lemma SetPtxInv(p: Ptx, key: string, value: Payload)
    requires PtxInv(p) && p.next < TWO_32 - 1
    ensures PtxInv(SetPtx(p, key, value))
  {
    hide FlatInv, FlatView, DetectDataType;
    FreshId(p);
    if !Allocates(p.flat, key, value) {
      UpdateView(p.flat, "", p.next, key, value);
    } else if key !in p.flat.entries {
      NewEntryInverse(p.flat, "", p.next, key, value);
    } else {
      ClearKeyView(p.flat, "", key);
      NewEntryInverse(ClearKey(p.flat, key), "", p.next, key, value);
    }
  }

  /** A whole-store clear: reset, then the sync of an empty registry. */
  lemma ClearedStep(r: Replica)
    ensures AcceptsAll(r, [RESET, SYNC]) && ApplyAll(r, [RESET, SYNC]) == BLANK && Agrees(BLANK, map[])
  {
    hide ApplyRegistration, ApplyValue, ApplyShift, ApplyDelete, ApplyAll, AcceptsAll;
    assert [RESET, SYNC] == [RESET] + [SYNC];
    ApplyConcat(r, [RESET], [SYNC]);
    OneFrame(r, RESET);
    OneFrame(BLANK, SYNC);
  }

  lemma EmptyView(p: Ptx)
    requires FlatInv(p.flat) && p.flat.entries == map[]
    ensures ViewOf(p) == map[] && PtxInv(p.(next := 1))
  {
    KeysOfView(p.flat, "");
    assert p.flat.byKeyId.Keys == {};
  }

  // ---------- Fan-out ----------

  lemma MoreFrames(c: Conn, v: View, frames: seq<Frame>, v': View)
    requires ConnInv(c, v) && c.ready
    requires
      var drained := ApplyAll(c.replica, c.queue);
      AcceptsAll(drained, frames) && Agrees(ApplyAll(drained, frames), v') && ApplyAll(drained, frames).pending == map[]
    ensures ConnInv(c.(queue := c.queue + frames), v')
  {
    hide Agrees, AcceptsAll, ApplyAll, RegistryIs;
    ApplyConcat(c.replica, c.queue, frames);
  }

  lemma SetConn(c: Conn, p: Ptx, key: string, value: Payload)
    requires ConnInv(c, ViewOf(p)) && c.ready && PtxInv(p) && p.next < TWO_32 - 1 && GoodView(ViewOf(SetPtx(p, key, value)))
    ensures ConnInv(c.(queue := c.queue + SetLeaf(p.flat, "", p.next, key, value).frames), ViewOf(SetPtx(p, key, value)))
  {
    hide PtxInv, GoodView, ViewOf, Agrees, AcceptsAll, ApplyAll, SetPtx, SetLeaf;
    SetPtxStep(ApplyAll(c.replica, c.queue), p, key, value);
    MoreFrames(c, ViewOf(p), SetLeaf(p.flat, "", p.next, key, value).frames, ViewOf(SetPtx(p, key, value)));
  }

  lemma ClearConn(c: Conn, p: Ptx, key: string)
    requires ConnInv(c, ViewOf(p)) && c.ready && PtxInv(p)
    ensures ConnInv(c.(queue := c.queue + ClearFrames(p.flat, key)), ViewOf(ClearPtxOne(p, key)))
  {
    hide PtxInv, ViewOf, Agrees, AcceptsAll, ApplyAll, ClearKey, ClearFrames;
    ClearPtxKey(ApplyAll(c.replica, c.queue), p, key);
    MoreFrames(c, ViewOf(p), ClearFrames(p.flat, key), ViewOf(ClearPtxOne(p, key)));
  }

  /** A session in the handshake only has the keys: it does not notice new values. */
  lemma HandshakeConn(c: Conn, v: View, v': View)
    requires ConnInv(c, v) && !c.ready && SameKeys(v, v')
    ensures ConnInv(c, v')
  {
    hide AcceptsAll, ApplyAll, RegistryIs, SameKeys;
    SameKeysRegistry(ApplyAll(c.replica, c.queue).reg, v, v');
  }

  /** ... and is reset like the others by a whole-store clear. */
  lemma ResetConn(c: Conn, v: View)
    requires ConnInv(c, v)
    ensures ConnInv(c.(queue := c.queue + [RESET, SYNC]), map[])
  {
    hide AcceptsAll, ApplyAll, RegistryIs, StoreIs, Agrees;
    ClearedStep(ApplyAll(c.replica, c.queue));
    ApplyConcat(c.replica, c.queue, [RESET, SYNC]);
    BlankAgrees();
  }

  lemma BlankAgrees()
    ensures RegistryIs(BLANK.reg, map[]) && BLANK.store == map[] && BLANK.pending == map[]
  {
  }

  lemma ClearAllConn(c: Conn, p: Ptx)
    requires ConnInv(c, ViewOf(p)) && PtxInv(p)
    ensures ConnInv(c.(queue := c.queue + ClearAllFrames(p.flat)), ViewOf(ClearPtx(p)))
  {
    hide Agrees, AcceptsAll, ApplyAll, FlatInv, FlatView;
    if p.flat.entries == map[] {
      assert c.queue + [] == c.queue;
    } else {
      EmptyFlatView();
      ResetConn(c, ViewOf(p));
    }
  }

  lemma EmptyFlatView()
    ensures FlatView(EMPTY_FLAT, "") == map[] && FlatInv(EMPTY_FLAT)
  {
  }

  lemma ClearPtxInv(p: Ptx)
    requires PtxInv(p)
    ensures PtxInv(ClearPtx(p))
  {
    hide FlatInv, FlatView;
    EmptyFlatView();
    if p.flat.entries == map[] { EmptyView(p); }
  }

  // ---------- Handshake ----------

  lemma KeysDrained(keys: seq<Frame>, was: View)
    requires KeyFramesOf(keys, was) && GoodView(was)
    ensures AcceptsAll(BLANK, keys + [SYNC])
    ensures
      var r := ApplyAll(BLANK, keys + [SYNC]);
      RegistryIs(r.reg, was) && r.store == map[] && r.pending == map[]
  {
    hide *;
    KeysFromBlank(was, keys);
    ApplyConcat(BLANK, keys, [SYNC]);
    OneFrame(ApplyAll(BLANK, keys), SYNC);
    SyncIsQuiet(ApplyAll(BLANK, keys));
  }

  lemma SyncIsQuiet(r: Replica)
    ensures Accepts(r, SYNC) && Apply(r, SYNC) == r
  {
  }

  lemma SameKeysGood(a: View, b: View)
    requires SameKeys(a, b) && GoodView(b)
    ensures GoodView(a)
  {
    hide ValidPath;
    assert |a| == |a.Keys| == |b.Keys| == |b|;
  }

  lemma SameKeysRegistry(reg: Registry, a: View, b: View)
    requires SameKeys(a, b) && RegistryIs(reg, a)
    ensures RegistryIs(reg, b)
  {
  }

  lemma JoinConn(p: Ptx, name: string, frames: seq<Frame>)
    requires PtxInv(p) && GoodView(ViewOf(p)) && Fresh(p) && Builds(p, frames)
    ensures ConnInv(Conn(name, false, frames, BLANK), ViewOf(p))
  {
    hide PtxInv, GoodView, ViewOf, KeyFramesOf, AcceptsAll, ApplyAll, RegistryIs, SameKeys;
    BuiltAnnounce(p, frames);
    var keys, was :| frames == keys + [SYNC] && KeyFramesOf(keys, was) && SameKeys(was, ViewOf(p));
    SameKeysGood(was, ViewOf(p));
    KeysDrained(keys, was);
    SameKeysRegistry(ApplyAll(BLANK, frames).reg, was, ViewOf(p));
  }

  lemma BuiltAnnounce(p: Ptx, frames: seq<Frame>)
    requires Fresh(p) && Builds(p, frames)
    ensures AnnouncesKeys(frames, ViewOf(p))
  {
    hide KeyFramesOf, ViewOf, SameKeys;
    SameKeysItself(ViewOf(p));
  }

  lemma SameKeysItself(v: View)
    ensures SameKeys(v, v)
  {
  }

  lemma ReadyConn(c: Conn, v: View, values: seq<Frame>)
    requires ConnInv(c, v) && !c.ready && ValueFramesOf(values, v)
    ensures ConnInv(c.(ready := true, queue := c.queue + values), v)
  {
    hide ValueFramesOf, AcceptsAll, ApplyAll, RegistryIs, Agrees;
    ValuesOnRegistered(ApplyAll(c.replica, c.queue), v, values);
    ApplyConcat(c.replica, c.queue, values);
  }

  lemma DeliverConn(c: Conn, v: View)
    requires ConnInv(c, v) && c.queue != []
    ensures ConnInv(c.(queue := c.queue[1..], replica := Apply(c.replica, c.queue[0])), v)
  {
    hide Apply, RegistryIs, Agrees, Accepts;
  }

  // ---------- Every step ----------

  /** A step on one principal needs to be checked on its own sessions only. */
  lemma OthersUntouched(w: World, w': World, name: string)
    requires WorldInv(w) && w'.ptx.Keys == w.ptx.Keys + {name}
    requires forall n :: n in w.ptx && n != name ==> w'.ptx[n] == w.ptx[n]
    requires w'.conns.Keys == w.conns.Keys
    requires forall c :: c in w.conns && w.conns[c].principal != name ==> w'.conns[c] == w.conns[c]
    requires PtxInv(w'.ptx[name])
    requires forall c :: c in w.conns && w.conns[c].principal == name ==>
      w'.conns[c].principal == name && ConnInv(w'.conns[c], ViewOf(w'.ptx[name]))
    ensures WorldInv(w')
  {
    hide PtxInv, ConnInv, ViewOf;
  }

  lemma PtxOfInv(w: World, name: string)
    requires WorldInv(w)
    ensures PtxInv(PtxOf(w, name))
  {
    hide ConnInv, ViewOf, PtxInv;
    NewPtxInv();
  }

  lemma InPlaceKeys(p: Ptx, key: string, value: Payload)
    requires PtxInv(p) && !Allocates(p.flat, key, value)
    ensures SameKeys(ViewOf(p), ViewOf(SetPtx(p, key, value)))
  {
    hide FlatInv, FlatView, DetectDataType;
    UpdateView(p.flat, "", p.next, key, value);
  }

  lemma SetWorld(w: World, w': World, name: string, key: string, value: Payload)
    requires WorldInv(w) && Does(Set(name, key, value), w, w') && Disciplined(Set(name, key, value), w) && GoodWorld(w')
    ensures WorldInv(w')
  {
    hide PtxInv, ConnInv, ViewOf, GoodView, SetPtx, SetLeaf;
    var p := PtxOf(w, name);
    PtxOfInv(w, name);
    SetPtxInv(p, key, value);
    assert w'.ptx[name] == SetPtx(p, key, value);
    forall c | c in w.conns && w.conns[c].principal == name
      ensures ConnInv(w'.conns[c], ViewOf(w'.ptx[name]))
    {
      if w.conns[c].ready {
        SetConn(w.conns[c], p, key, value);
      } else {
        InPlaceKeys(p, key, value);
        HandshakeConn(w.conns[c], ViewOf(p), ViewOf(SetPtx(p, key, value)));
      }
    }
    OthersUntouched(w, w', name);
  }

  lemma ClearWorld(w: World, w': World, name: string, key: string)
    requires WorldInv(w) && Does(Clear(name, key), w, w') && Disciplined(Clear(name, key), w)
    ensures WorldInv(w')
  {
    hide ConnInv, ViewOf, PtxInv, ClearPtxOne, ClearFrames;
    var p := PtxOf(w, name);
    PtxOfInv(w, name);
    assert w'.ptx[name] == ClearPtxOne(p, key);
    ClearKeyInv(p, key);
    forall c | c in w.conns && w.conns[c].principal == name
      ensures ConnInv(w'.conns[c], ViewOf(w'.ptx[name]))
    {
      if w.conns[c].ready {
        ClearConn(w.conns[c], p, key);
      } else {
        NothingCleared(p, key);
      }
    }
    OthersUntouched(w, w', name);
  }

  lemma NothingCleared(p: Ptx, key: string)
    ensures key !in p.flat.entries ==> ClearPtxOne(p, key) == p
  {
  }

  lemma ClearKeyInv(p: Ptx, key: string)
    requires PtxInv(p)
    ensures PtxInv(ClearPtxOne(p, key))
  {
    hide FlatInv, FlatView;
    if key in p.flat.entries { ClearKeyView(p.flat, "", key); }
  }

  lemma ClearAllWorld(w: World, w': World, name: string)
    requires WorldInv(w) && Does(ClearAll(name), w, w') && Disciplined(ClearAll(name), w)
    ensures WorldInv(w')
  {
    hide ConnInv, ViewOf, PtxInv, ClearPtx, ClearAllFrames;
    var p := PtxOf(w, name);
    PtxOfInv(w, name);
    assert w'.ptx[name] == ClearPtx(p);
    ClearPtxInv(p);
    forall c | c in w.conns && w.conns[c].principal == name
      ensures ConnInv(w'.conns[c], ViewOf(w'.ptx[name]))
    {
      ClearAllConn(w.conns[c], p);
    }
    OthersUntouched(w, w', name);
  }

  lemma NewPtxInv()
    ensures PtxInv(NEW_PTX) && ViewOf(NEW_PTX) == map[] && Fresh(NEW_PTX) && GoodView(map[])
  {
  }

  lemma CacheIsNoState(p: Ptx, cache: Option<seq<Frame>>)
    ensures ViewOf(p.(cache := cache)) == ViewOf(p) && (PtxInv(p.(cache := cache)) <==> PtxInv(p))
  {
  }

  lemma JoinWorld(w: World, w': World, c: nat, name: string)
    requires WorldInv(w) && GoodWorld(w) && Does(Join(c, name), w, w') && Disciplined(Join(c, name), w)
    ensures WorldInv(w')
  {
    hide ConnInv, ViewOf, PtxInv, GoodView, Fresh, Builds;
    NewPtxInv();
    PtxOfInv(w, name);
    var p := PtxOf(w, name);
    var frames :| Builds(p, frames) && w'.ptx == w.ptx[name := p.(cache := Some(frames))]
      && w'.conns == w.conns[c := Conn(name, false, frames, BLANK)];
    CacheIsNoState(p, Some(frames));
    JoinConn(p, name, frames);
  }

  lemma ReadyWorld(w: World, w': World, c: nat)
    requires WorldInv(w) && Does(ClientReady(c), w, w')
    ensures WorldInv(w')
  {
    hide ConnInv, ViewOf, PtxInv, ValueFramesOf;
    if !w.conns[c].ready {
      var v := ViewOf(w.ptx[w.conns[c].principal]);
      var values :| ValueFramesOf(values, v) && w'.conns == w.conns[c := w.conns[c].(ready := true, queue := w.conns[c].queue + values)];
      ReadyConn(w.conns[c], v, values);
    }
  }

  lemma DeliverWorld(w: World, w': World, c: nat)
    requires WorldInv(w) && Does(Deliver(c), w, w')
    ensures WorldInv(w')
  {
    hide ConnInv, ViewOf, PtxInv, Apply;
    DeliverConn(w.conns[c], ViewOf(w.ptx[w.conns[c].principal]));
  }

  lemma StepKeepsWorld(step: Step, w: World, w': World)
    requires WorldInv(w) && Does(step, w, w') && Disciplined(step, w) && GoodWorld(w) && GoodWorld(w')
    ensures WorldInv(w')
  {
    hide WorldInv, Does, Disciplined, GoodWorld;
    match step
    case Set(name, key, value) => SetWorld(w, w', name, key, value);
    case Clear(name, key) => ClearWorld(w, w', name, key);
    case ClearAll(name) => ClearAllWorld(w, w', name);
    case Join(c, name) => JoinWorld(w, w', c, name);
    case ClientReady(c) => ReadyWorld(w, w', c);
    case Deliver(c) => DeliverWorld(w, w', c);
    case Leave(c) => LeaveWorld(w, w', c);
  }

  lemma LeaveWorld(w: World, w': World, c: nat)
    requires WorldInv(w) && Does(Leave(c), w, w')
    ensures WorldInv(w')
  {
    hide ConnInv, ViewOf, PtxInv;
  }

  ghost predicate IsRun(run: seq<World>, steps: seq<Step>) {
    && |run| == |steps| + 1 && run[0] == World(map[], map[])
    && (forall i :: 0 <= i < |steps| ==> Does(steps[i], run[i], run[i + 1]) && Disciplined(steps[i], run[i]))
    && (forall i :: 0 <= i < |run| ==> GoodWorld(run[i]))
  }

  lemma {:induction false} RunKeepsWorld(run: seq<World>, steps: seq<Step>, n: nat)
    requires IsRun(run, steps) && n < |run|
    ensures WorldInv(run[n])
  {
    hide WorldInv, Does, Disciplined, GoodWorld;
    if n == 0 {
      assert WorldInv(World(map[], map[])) by { EmptyWorld(); }
    } else {
      RunKeepsWorld(run, steps, n - 1);
      assert Does(steps[n - 1], run[n - 1], run[n - 1 + 1]);
      StepKeepsWorld(steps[n - 1], run[n - 1], run[n]);
    }
  }

  lemma EmptyWorld()
    ensures WorldInv(World(map[], map[]))
  {
  }

  /** Agreement with isolation: in every disciplined run, at every moment, the
      client of every Ready session, once it has handled the frames in flight,
      holds exactly the state of its own principal, whatever was done to it and
      to all the others, full clears with their reused ids included. */
  lemma PrincipalAgreement(run: seq<World>, steps: seq<Step>, n: nat, c: nat)
    requires IsRun(run, steps) && n < |run| && c in run[n].conns && run[n].conns[c].ready
    ensures run[n].conns[c].principal in run[n].ptx
    ensures
      var conn := run[n].conns[c];
      var drained := ApplyAll(conn.replica, conn.queue);
      && Agrees(drained, ViewOf(run[n].ptx[conn.principal])) && drained.pending == map[]
      && AcceptsAll(conn.replica, conn.queue)
  {
    hide IsRun, PtxInv, ViewOf, Agrees, AcceptsAll, ApplyAll, RegistryIs;
    RunKeepsWorld(run, steps, n);
  }

  // ---------- What GoodWorld asks of a caller ----------

  /** As many ids as keys. */
  lemma {:induction false} AsManyIds(flat: Flat)
    requires FlatInv(flat)
    ensures |flat.byKeyId| == |flat.entries|
    decreases flat.entries.Keys
  {
    hide DetectDataType;
    if flat.entries == map[] {
      assert flat.byKeyId.Keys == {};
    } else {
      var key :| key in flat.entries;
      var less := ClearKey(flat, key);
      ClearKeyView(flat, "", key);
      AsManyIds(less);
      assert less.entries.Keys == flat.entries.Keys - {key};
      assert less.byKeyId.Keys == flat.byKeyId.Keys - {flat.entries[key].keyId};
    }
  }

  /** A principal's state can be published if and only if its keys are valid
      paths and no more than a registry holds: they are distinct anyway. */
  lemma GoodStoreIff(p: Ptx)
    requires FlatInv(p.flat)
    ensures GoodView(ViewOf(p)) <==> (forall k :: k in p.flat.entries ==> ValidPath(k)) && |p.flat.entries| <= MAX_KEYS
  {
    hide ValidPath, DetectDataType;
    var v := ViewOf(p);
    KeysOfView(p.flat, "");
    AsManyIds(p.flat);
    assert |v| == |v.Keys| == |p.flat.byKeyId.Keys| == |p.flat.byKeyId|;
    forall id | id in v ensures v[id].path == p.flat.byKeyId[id] {
      assert "" + p.flat.byKeyId[id] == p.flat.byKeyId[id];
    }
    if GoodView(v) {
      forall k | k in p.flat.entries ensures ValidPath(k) {
        assert v[p.flat.entries[k].keyId].path == k;
      }
    }
  }

  // ---------- A full clear ----------

  /** Ids restart at 1: the first key set after a full clear has id 1 again,
      whether there was something to clear or not, and the sessions of an emptied
      principal are reset first. */
  lemma ClearRestartsIds(p: Ptx, key: string, value: Payload)
    requires FlatInv(p.flat)
    ensures ClearPtx(p).flat == EMPTY_FLAT
    ensures ViewOf(SetPtx(ClearPtx(p), key, value)) == map[1 := SetItem(key, value)]
    ensures ClearAllFrames(p.flat) == if p.flat == EMPTY_FLAT then [] else [RESET, SYNC]
  {
    hide DetectDataType;
    if p.flat.entries == map[] {
      EmptyView(p);
      KeysOfView(p.flat, "");
      assert p.flat.byKeyId == map[];
    }
    NewEntryView(EMPTY_FLAT, "", 1, key, value);
    EmptyFlatView();
  }

  // ---------- Exactly when a handshake agrees ----------

  lemma {:induction false} ValuesKeepRegistry(r: Replica, frames: seq<Frame>)
    requires forall i :: 0 <= i < |frames| ==> frames[i].frameType == SERVER_VALUE
    ensures ApplyAll(r, frames).reg == r.reg
    decreases frames
  {
    if frames != [] {
      ValuesKeepRegistry(Apply(r, frames[0]), frames[1..]);
    }
  }

  lemma RegistryIsOneView(reg: Registry, a: View, b: View)
    requires RegistryIs(reg, a) && RegistryIs(reg, b)
    ensures SameKeys(a, b)
  {
    forall id | id in a ensures a[id].path == b[id].path && a[id].dtype == b[id].dtype {
      assert reg.byId[id] == KeyEntry(a[id].path, a[id].dtype, id) == KeyEntry(b[id].path, b[id].dtype, id);
    }
  }

  /** A fresh client that is sent the keys of one view and then the values of
      another ends with the second if and only if the two have the same ids,
      paths and types. */
  lemma {:induction false} HandshakeAgreesIff(keys: seq<Frame>, was: View, values: seq<Frame>, v: View)
    requires KeyFramesOf(keys, was) && GoodView(was) && ValueFramesOf(values, v)
    ensures Agrees(ApplyAll(BLANK, keys + [SYNC] + values), v) <==> SameKeys(was, v)
  {
    hide KeyFramesOf, GoodView, RegistryIs, StoreIs, SameKeys, ApplyAll, AcceptsAll, Ids, OncePerId;
    KeysDrained(keys, was);
    var r := ApplyAll(BLANK, keys + [SYNC]);
    ApplyConcat(BLANK, keys + [SYNC], values);
    ValuesKeepRegistry(r, values);
    if SameKeys(was, v) {
      SameKeysRegistry(r.reg, was, v);
      ValuesOnRegistered(r, v, values);
    }
    if Agrees(ApplyAll(BLANK, keys + [SYNC] + values), v) {
      RegistryIsOneView(r.reg, was, v);
    }
  }

  /** Key frames determine ids, paths and types. */
  lemma KeysOfOneView(keys: seq<Frame>, a: View, b: View)
    requires KeyFramesOf(keys, a) && KeyFramesOf(keys, b)
    ensures SameKeys(a, b)
  {
    forall id | id in a ensures id in b && a[id].path == b[id].path && a[id].dtype == b[id].dtype {
      assert id in Ids(keys);
      var i :| 0 <= i < |keys| && keys[i].keyId == id;
      assert keys[i] == KeyFrame(id, a[id]) == KeyFrame(id, b[id]);
    }
  }

  lemma AnnouncedOnce(frames: seq<Frame>, a: View, b: View)
    requires AnnouncesKeys(frames, a)
    ensures AnnouncesKeys(frames, b) <==> SameKeys(a, b)
  {
    hide KeyFramesOf;
    var keys, was :| frames == keys + [SYNC] && KeyFramesOf(keys, was) && SameKeys(was, a);
    if SameKeys(a, b) {
      assert SameKeys(was, b);
    }
    if AnnouncesKeys(frames, b) {
      var keys', was' :| frames == keys' + [SYNC] && KeyFramesOf(keys', was') && SameKeys(was', b);
      assert keys == frames[..|frames| - 1] == keys';
      KeysOfOneView(keys, was, was');
    }
  }

  /** set does not drop the key-frame cache: it stays fresh if and only if no id is allocated. */
  lemma SetStaysFreshIff(p: Ptx, key: string, value: Payload)
    requires PtxInv(p) && p.next < TWO_32 - 1 && p.cache.Some? && Fresh(p)
    ensures Fresh(SetPtx(p, key, value)) <==> !Allocates(p.flat, key, value)
  {
    hide AnnouncesKeys, SetPtx, PtxInv, ViewOf;
    assert SetPtx(p, key, value).cache == p.cache by { SetKeepsCache(p, key, value); }
    AnnouncedOnce(p.cache.value, ViewOf(p), ViewOf(SetPtx(p, key, value)));
    SetKeepsKeysIff(p, key, value);
  }

  lemma SetKeepsCache(p: Ptx, key: string, value: Payload)
    ensures SetPtx(p, key, value).cache == p.cache
  {
  }

  lemma SetKeepsKeysIff(p: Ptx, key: string, value: Payload)
    requires PtxInv(p) && p.next < TWO_32 - 1
    ensures SameKeys(ViewOf(p), ViewOf(SetPtx(p, key, value))) <==> !Allocates(p.flat, key, value)
  {
    hide FlatInv, FlatView, DetectDataType;
    FreshId(p);
    if !Allocates(p.flat, key, value) {
      UpdateView(p.flat, "", p.next, key, value);
    } else {
      if key in p.flat.entries { ClearKeyView(p.flat, "", key); }
      NewEntryView(ClearKey(p.flat, key), "", p.next, key, value);
    }
  }

  /** Neither does clear(key): the cache stays fresh if and only if there was nothing to clear. */
  lemma ClearStaysFreshIff(p: Ptx, key: string)
    requires PtxInv(p) && p.cache.Some? && Fresh(p)
    ensures Fresh(ClearPtxOne(p, key)) <==> key !in p.flat.entries
  {
    hide AnnouncesKeys, PtxInv, FlatView;
    AnnouncedOnce(p.cache.value, ViewOf(p), ViewOf(ClearPtxOne(p, key)));
    if key in p.flat.entries { ClearsLiveKey(p, key); } else { SameKeysItself(ViewOf(p)); }
  }

  lemma ClearsLiveKey(p: Ptx, key: string)
    requires PtxInv(p) && key in p.flat.entries
    ensures !SameKeys(ViewOf(p), ViewOf(ClearPtxOne(p, key)))
  {
    hide FlatInv, FlatView;
    ClearKeyView(p.flat, "", key);
  }

  /** A whole-store clear that has something to clear makes any cache fresh. */
  lemma ClearAllFreshens(p: Ptx)
    requires p.flat.entries != map[]
    ensures Fresh(ClearPtx(p))
  {
    EmptyFlatView();
    assert KeyFramesOf([], map[]);
    assert [SYNC] == [] + [SYNC];
    assert SameKeys(map[], ViewOf(ClearPtx(p)));
  }

  /** ... but it leaves a cache behind: after a full clear that emptied something and
      the first set, every session that joins is sent the lone ServerSync. */
  lemma ClearLeavesCache(p: Ptx, key: string, value: Payload, frames: seq<Frame>)
    requires p.flat.entries != map[]
    ensures
      var p' := SetPtx(ClearPtx(p), key, value);
      !Fresh(p') && (Builds(p', frames) <==> frames == [SYNC])
  {
    hide AnnouncesKeys, SetPtx, PtxInv, ViewOf, DetectDataType;
    ClearAllFreshens(p);
    ClearedInv(p);
    SetStaysFreshIff(ClearPtx(p), key, value);
    SetKeepsCache(ClearPtx(p), key, value);
  }

  lemma ClearedInv(p: Ptx)
    requires p.flat.entries != map[]
    ensures PtxInv(ClearPtx(p))
  {
  }

  /** What that costs: once some session has made the cache, a key is set, and
      then another session joins and completes its handshake with nothing else
      happening. Its client agrees if and only if the set allocated no id. */
  lemma LateJoinerAgreesIff(p: Ptx, key: string, value: Payload, frames: seq<Frame>, values: seq<Frame>)
    requires PtxInv(p) && p.next < TWO_32 - 1 && p.cache.Some? && Fresh(p) && GoodView(ViewOf(p))
    requires Builds(SetPtx(p, key, value), frames) && ValueFramesOf(values, ViewOf(SetPtx(p, key, value)))
    ensures Agrees(ApplyAll(BLANK, frames + values), ViewOf(SetPtx(p, key, value))) <==> !Allocates(p.flat, key, value)
  {
    hide KeyFramesOf, ValueFramesOf, GoodView, SameKeys, ApplyAll, AcceptsAll, PtxInv, ViewOf, SetPtx, Agrees;
    SetKeepsCache(p, key, value);
    var keys, was :| frames == keys + [SYNC] && KeyFramesOf(keys, was) && SameKeys(was, ViewOf(p));
    SameKeysGood(was, ViewOf(p));
    HandshakeAgreesIff(keys, was, values, ViewOf(SetPtx(p, key, value)));
    SetKeepsKeysIff(p, key, value);
    SameKeysChain(was, ViewOf(p), ViewOf(SetPtx(p, key, value)));
  }

  lemma SameKeysChain(a: View, b: View, c: View)
    requires SameKeys(a, b)
    ensures SameKeys(a, c) <==> SameKeys(b, c)
  {
  }
}
