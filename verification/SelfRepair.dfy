/** A value whose id the client does not know: it asks for the key, and the
    session answers from its stores (client.cpp, session.cpp). */
module SelfRepair {
  import opened Types
  import opened KeyRegistry
  import opened TopicPath
  import opened Replica
  import opened FlatState
  import opened Session
  import opened Client

  /** handleKeyRequest in topic mode: the live key's frames, or nothing. */
  ghost function Reply(s: Session, id: u32): seq<Frame> {
    if id in SessionView(s) then
      [KeyFrame(id, SessionView(s)[id]), SYNC, ValueFrame(id, SessionView(s)[id])]
    else []
  }

  /** The session's answers to the frames a client sends: a key request gets a reply
      for the id it carries, the other frames get none here. */
  ghost function Answers(s: Session, sent: seq<Frame>): seq<Frame> {
    if sent == [] then []
    else (if sent[0].frameType == CLIENT_KEY_REQUEST then Reply(s, sent[0].keyId) else []) + Answers(s, sent[1..])
  }

  lemma OneAnswer(s: Session, f: Frame)
    requires f.frameType == CLIENT_KEY_REQUEST
    ensures Answers(s, [f]) == Reply(s, f.keyId)
  {
    hide Reply;
    assert [f][1..] == [] && Reply(s, f.keyId) + [] == Reply(s, f.keyId);
  }

  /** The client's side: an unknown id is requested and its value kept pending. */
  lemma UnknownIsRequested(c: Client, f: Frame)
    requires f.frameType == SERVER_VALUE && f.keyId !in c.replica.reg.byId
    ensures
      var h := HandleFrame(c, f);
      && h.sent == [Frame(CLIENT_KEY_REQUEST, f.keyId, TY_NULL, Null)] && h.events == []
      && h.client == c.(replica := c.replica.(pending := c.replica.pending[f.keyId := f]))
  {
    hide Route, TopicOf, BecomeReady;
  }

  lemma RegisteredFrame(r: Replica, id: u32, item: Item)
    requires RegisterOne(r.reg, id, item.path, item.dtype).Ok?
    ensures
      var r1 := Apply(r, KeyFrame(id, item));
      && r1.reg == RegisterOne(r.reg, id, item.path, item.dtype).value && id in r1.reg.byId
      && r1.store[id := item.value] == r.store[id := item.value] && r1.pending == r.pending - {id}
  {
    hide ValidPath, Remember;
    assert id !in r.pending ==> r.pending - {id} == r.pending;
  }

  lemma StoredFrame(r: Replica, id: u32, item: Item)
    requires id in r.reg.byId
    ensures
      var r1 := Apply(r, ValueFrame(id, item));
      r1.reg == r.reg && r1.store == r.store[id := item.value] && r1.pending == r.pending
  {
    hide Remember;
  }

  /** Registry, store and pending after a reply, when the registration goes through. */
  lemma ReplyRegisters(r: Replica, id: u32, item: Item)
    requires RegisterOne(r.reg, id, item.path, item.dtype).Ok?
    ensures
      var r' := ApplyAll(r, [KeyFrame(id, item), SYNC, ValueFrame(id, item)]);
      && r'.reg == RegisterOne(r.reg, id, item.path, item.dtype).value
      && r'.store == r.store[id := item.value] && r'.pending == r.pending - {id}
  {
    hide RegisterOne, ApplyAll, ApplyRegistration, ApplyValue, ApplyShift, ApplyDelete;
    ThreeFrames(r, KeyFrame(id, item), SYNC, ValueFrame(id, item));
    RegisteredFrame(r, id, item);
    var r1 := Apply(r, KeyFrame(id, item));
    assert Apply(r1, SYNC) == r1;
    StoredFrame(r1, id, item);
  }

  lemma ReplyRefused(r: Replica, id: u32, item: Item)
    requires RegisterOne(r.reg, id, item.path, item.dtype).Err? && id !in r.reg.byId
    ensures
      var r' := ApplyAll(r, [KeyFrame(id, item), SYNC, ValueFrame(id, item)]);
      r'.reg == r.reg && r'.store == r.store && id in r'.pending
  {
    hide RegisterOne, ApplyAll;
    ThreeFrames(r, KeyFrame(id, item), SYNC, ValueFrame(id, item));
  }

  /** The client after it has met the value, asked, and handled the session's reply. */
  ghost function AfterRepair(c: Client, s: Session, f: Frame): Replica {
    HandleAll(HandleFrame(c, f).client, Answers(s, HandleFrame(c, f).sent)).client.replica
  }

  /** Registered under its path, with the server's value, and no longer pending. */
  ghost predicate Repaired(before: Replica, after: Replica, id: u32, item: Item) {
    && id in after.reg.byId && after.reg.byId[id] == KeyEntry(item.path, item.dtype, id)
    && item.path in after.reg.pathToId && after.reg.pathToId[item.path] == id
    && after.store == before.store[id := item.value]
    && after.pending == before.pending - {id}
  }

  predicate HasRoom(r: Replica, path: string) {
    path in r.reg.pathToId || |r.reg.byId| < MAX_KEYS
  }

  lemma RepairOnReplica(r: Replica, f: Frame, id: u32, item: Item)
    requires ValidPath(item.path) && id !in r.reg.byId
    ensures
      var after := ApplyAll(r.(pending := r.pending[id := f]), [KeyFrame(id, item), SYNC, ValueFrame(id, item)]);
      && (HasRoom(r, item.path) ==> Repaired(r, after, id, item))
      && (!HasRoom(r, item.path) ==> id !in after.reg.byId)
  {
    hide ValidPath, ApplyAll;
    var asked := r.(pending := r.pending[id := f]);
    assert asked.pending - {id} == r.pending - {id};
    if HasRoom(r, item.path) {
      ReplyRegisters(asked, id, item);
    } else {
      ReplyRefused(asked, id, item);
    }
  }

  /** Self-repair: whatever the client holds, when a value for a live but
      unregistered id arrives, its request and the session's reply register the
      key, store the session's current value and clear the pending entry; this
      happens if and only if the client has room for the key. */
  lemma RepairsLiveKey(c: Client, s: Session, f: Frame)
    requires f.frameType == SERVER_VALUE && f.keyId !in c.replica.reg.byId
    requires SessionInv(s) && GoodView(SessionView(s)) && f.keyId in SessionView(s)
    ensures HandleFrame(c, f).sent == [Frame(CLIENT_KEY_REQUEST, f.keyId, TY_NULL, Null)]
    ensures Repaired(c.replica, AfterRepair(c, s, f), f.keyId, SessionView(s)[f.keyId])
       <==> HasRoom(c.replica, SessionView(s)[f.keyId].path)
  {
    hide SessionView, SessionInv, ValidPath, ApplyAll, HandleAll, HandleFrame, HasRoom;
    var id, item := f.keyId, SessionView(s)[f.keyId];
    UnknownIsRequested(c, f);
    OneAnswer(s, HandleFrame(c, f).sent[0]);
    HandlerAppliesAll(HandleFrame(c, f).client, Reply(s, id));
    RepairOnReplica(c.replica, f, id, item);
  }

  /** A client that lacks exactly this key is back in full agreement afterwards. */
  lemma RepairRestoresAgreement(c: Client, s: Session, f: Frame)
    requires f.frameType == SERVER_VALUE && f.keyId in SessionView(s)
    requires SessionInv(s) && GoodView(SessionView(s))
    requires Agrees(c.replica, SessionView(s) - {f.keyId}) && c.replica.pending == map[]
    ensures Agrees(AfterRepair(c, s, f), SessionView(s)) && AfterRepair(c, s, f).pending == map[]
  {
    hide SessionInv, Agrees, GoodView, ApplyAll, HandleAll, HandleFrame, SessionView;
    var v, id := SessionView(s), f.keyId;
    assert (v - {id})[id := v[id]] == v;
    NotRegistered(c.replica, v - {id}, id);
    UnknownIsRequested(c, f);
    OneAnswer(s, HandleFrame(c, f).sent[0]);
    HandlerAppliesAll(HandleFrame(c, f).client, Reply(s, id));
    RestoresReplica(c.replica, v - {id}, f, id, v[id]);
  }

  lemma RestoresReplica(r: Replica, w: View, f: Frame, id: u32, item: Item)
    requires Agrees(r, w) && r.pending == map[] && id !in w && GoodView(w[id := item])
    ensures
      var after := ApplyAll(r.(pending := r.pending[id := f]), [KeyFrame(id, item), SYNC, ValueFrame(id, item)]);
      Agrees(after, w[id := item]) && after.pending == map[]
  {
    hide Agrees, GoodView, ApplyAll, RegisterOne;
    var asked := r.(pending := r.pending[id := f]);
    NewKey(r, w, id, item);
    RoomForNew(r, w, id, item);
    ReplyRegisters(r, id, item);
    ReplyRegisters(asked, id, item);
    var frames := [KeyFrame(id, item), SYNC, ValueFrame(id, item)];
    AgreesIgnoresRest(ApplyAll(r, frames), ApplyAll(asked, frames), w[id := item]);
    assert map[id := f] - {id} == map[];
    assert r.pending[id := f] == map[id := f];
  }

  lemma NotRegistered(r: Replica, v: View, id: u32)
    requires Agrees(r, v) && id !in v
    ensures id !in r.reg.byId
  {
  }

  lemma RoomForNew(r: Replica, v: View, id: u32, item: Item)
    requires Agrees(r, v) && id !in v && GoodView(v[id := item])
    ensures RegisterOne(r.reg, id, item.path, item.dtype).Ok?
  {
    hide ValidPath, GoodView, RegistryIs;
    FreshPath(r.reg, v, id, item);
  }

  lemma AgreesIgnoresRest(r: Replica, r': Replica, v: View)
    requires Agrees(r, v) && r'.reg == r.reg && r'.store == r.store
    ensures Agrees(r', v)
  {
  }

  /** A request for an id that is not live is answered with nothing. */
  lemma DeadKeyIsSilent(s: Session, id: u32)
    requires SessionInv(s) && forall a :: a in s.spaces ==> id !in s.spaces[a].flat.byKeyId
    ensures Reply(s, id) == []
  {
    hide SessionView, SessionInv;
    if id in SessionView(s) {
      var a := ViewOwner(s, id);
    }
  }
}
