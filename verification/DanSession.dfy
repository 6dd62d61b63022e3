/** DanWebSocketSession in topic mode as the source has it: one FlatState per
    scope, a shared id counter and a shared queue (session.cpp, topic_handle.cpp). */
module DanSession {
  import opened Types
  import opened TopicPath
  import opened Replica
  import opened FlatState
  import opened Session
  import opened SelfRepair

  class DanWebSocketSession {
    const ids: KeyIdSource
    const queue: FrameQueue
    // flatState_ under None and topicHandles_ under their names; a handle is the
    // FlatState of its payload, whose prefix holds the wire index.
    var stores: map<Scope, DanFlatState>
    var topicIndex: nat

    ghost function Stores(): set<DanFlatState>
      reads this
    {
      set a | a in stores :: stores[a]
    }

    /** Every store uses this session's counter and queue, and no two scopes share a store. */
    ghost predicate Wired()
      reads this, Stores()
    {
      && (forall a :: a in stores ==> stores[a].ids == ids && stores[a].out == queue)
      && (forall a, b :: a in stores && b in stores && stores[a] == stores[b] ==> a == b)
    }

    ghost function Spaces(): map<Scope, Space>
      reads this, Stores()
    {
      map a | a in stores :: Space(stores[a].wirePrefix, stores[a].Model())
    }

    ghost function Model(): Session
      reads this, ids, Stores()
    {
      Session(Spaces(), ids.next)
    }

    ghost predicate Valid()
      reads this, ids, Stores()
    {
      Wired() && SessionInv(Model())
    }

    constructor ()
      ensures Valid() && Model() == Session(map[], 1) && queue.frames == [] && topicIndex == 0 && stores == map[]
      ensures fresh(ids) && fresh(queue)
    {
      ids := new KeyIdSource();
      queue := new FrameQueue();
      stores := map[];
      topicIndex := 0;
    }

    /** _bindSessionTX: a new, empty flat store; the counter and the topics stay. */
    method Bind()
      requires Valid()
      modifies this`stores
      ensures Valid() && Model() == Rebound(old(Model()))
    {
      hide SessionInv, SessionView, Spaces, Wired, Stores;
      ReboundInv(Model());
      AddStore(None, "");
    }

    // ---------- One store ----------

    /** session.set throws unless the session is bound. */
    method SetFlat(key: string, value: Payload) returns (r: Result<()>, ghost frames: seq<Frame>)
      requires Valid() && CounterOpen(Model())
      modifies ids, queue, Stores()
      ensures None !in old(stores) ==> r == Err(InvalidMode) && frames == [] && Model() == old(Model())
      ensures None in old(stores) ==> r == Ok(()) && Does(Op.Set(None, key, value), old(Model()), frames, Model())
      ensures Valid() && queue.frames == old(queue.frames) + frames
    {
      hide SessionInv, Does, Spaces;
      if None !in stores {
        r := Err(InvalidMode);
        frames := [];
      } else {
        frames := SetValue(None, key, value);
        r := Ok(());
      }
    }

    /** set on the session's own store or on a topic's payload. */
    method SetValue(scope: Scope, key: string, value: Payload) returns (ghost frames: seq<Frame>)
      requires Valid() && scope in stores && CounterOpen(Model())
      modifies ids, queue, Stores()
      ensures Valid() && Does(Op.Set(scope, key, value), old(Model()), frames, Model())
      ensures queue.frames == old(queue.frames) + frames
    {
      hide SessionInv, SetLeaf, DetectDataType;
      var f := stores[scope];
      ghost var before := Model();
      frames := SetLeaf(f.Model(), f.wirePrefix, ids.next, key, value).frames;
      f.Set(key, value);
      assert Spaces() == before.spaces[scope := Space(f.wirePrefix, f.Model())];
      SetKeepsInv(before, scope, key, value);
    }

    method ClearValue(scope: Scope, key: string) returns (ghost frames: seq<Frame>)
      requires Valid() && scope in stores
      modifies queue, Stores()
      ensures Valid() && Does(Op.Clear(scope, key), old(Model()), frames, Model())
      ensures queue.frames == old(queue.frames) + frames
    {
      hide SessionInv, ClearKey;
      var f := stores[scope];
      ghost var before := Model();
      frames := if key in f.entries then [DeleteFrame(f.entries[key].keyId)] else [];
      f.ClearOne(key);
      assert Spaces() == before.spaces[scope := Space(f.wirePrefix, f.Model())];
      ClearKeepsInv(before, scope, key);
    }

    /** Whole-store clear: an emptied store triggers a resync of the whole session. */
    method ClearStore(scope: Scope) returns (ghost frames: seq<Frame>)
      requires Valid() && scope in stores
      modifies queue, Stores()
      ensures Valid() && Does(Op.ClearAll(scope), old(Model()), frames, Model())
      ensures queue.frames == old(queue.frames) + frames
    {
      hide SessionInv, Resyncs, SessionView;
      assert stores[scope].Model() == Model().spaces[scope].flat;
      var f := stores[scope];
      ghost var before := Model();
      frames := [];
      var resync := f.Clear();
      assert Spaces() == before.spaces[scope := Space(f.wirePrefix, f.Model())];
      if resync {
        EmptiedInv(before, scope);
        frames := TriggerSessionResync();
      } else {
        assert before.spaces[scope := before.spaces[scope]] == before.spaces;
      }
    }

    // ---------- Topics ----------

    /** The client's index, or the next free one; the counter stays above both. */
    method TakeIndex(wireIndex: int) returns (index: nat)
      modifies this`topicIndex
      ensures index == if wireIndex >= 0 then wireIndex else old(topicIndex)
      ensures topicIndex == if index >= old(topicIndex) then index + 1 else old(topicIndex)
    {
      index := topicIndex;
      if wireIndex >= 0 {
        index := wireIndex;
      } else {
        topicIndex := topicIndex + 1;
      }
      if index >= topicIndex {
        topicIndex := index + 1;
      }
    }

    /** _createTopicHandle, after TakeIndex: a new payload, bound to this session. */
    method CreateTopicHandle(name: string, index: nat) returns (ghost frames: seq<Frame>)
      requires Valid() && Some(name) !in stores
      modifies this`stores
      ensures Valid() && Does(Op.CreateTopic(name, index), old(Model()), frames, Model()) && frames == []
      ensures Some(name) in stores && stores == old(stores)[Some(name) := stores[Some(name)]]
      ensures stores[Some(name)].wirePrefix == Prefix(index)
    {
      hide SessionInv, SessionView, Prefix, Spaces, Wired, Stores;
      HasSpace(Some(name));
      ghost var before := Model();
      AddStore(Some(name), Prefix(index));
      frames := [];
      TopicCreatedInv(before, name, index);
    }

    lemma HasSpace(scope: Scope)
      ensures scope in Spaces() <==> scope in stores
    {
    }

    /** A new empty store under this scope, wired to this session. */
    method AddStore(scope: Scope, prefix: string)
      requires Wired()
      modifies this`stores
      ensures Wired() && scope in stores && stores == old(stores)[scope := stores[scope]]
      ensures stores[scope].wirePrefix == prefix
      ensures Spaces() == old(Spaces())[scope := Space(prefix, EMPTY_FLAT)]
    {
      ghost var before := Spaces();
      var f := new DanFlatState(ids, queue, prefix);
      assert f !in Stores();
      assert forall a :: a in stores ==> stores[a] != f;
      stores := stores[scope := f];
      assert Spaces() == before[scope := Space(prefix, EMPTY_FLAT)];
    }

    /** _removeTopicHandle: a resync tells the client what is left. */
    method RemoveTopicHandle(name: string) returns (ghost frames: seq<Frame>)
      requires Valid()
      modifies this`stores, queue
      ensures Valid() && Does(Op.RemoveTopic(name), old(Model()), frames, Model())
      ensures queue.frames == old(queue.frames) + frames
      ensures stores == old(stores) - {Some(name)}
    {
      hide SessionInv, SessionView, Resyncs;
      frames := [];
      if Some(name) in stores {
        ghost var before := Model();
        stores := stores - {Some(name)};
        assert Spaces() == before.spaces - {Some(name)};
        WithoutInv(before, Some(name));
        frames := TriggerSessionResync();
      }
    }

    // ---------- Resync ----------

    /** ServerReset, all key frames, ServerSync, all value frames. */
    method TriggerSessionResync() returns (ghost frames: seq<Frame>)
      requires Valid()
      modifies queue
      ensures Valid() && Model() == old(Model())
      ensures Resyncs(frames, SessionView(Model())) && queue.frames == old(queue.frames) + frames
    {
      hide SessionView, SessionInv, KeyFramesOf, ValueFramesOf;
      ghost var s := Model();
      var keys := AllKeyFrames();
      var values := AllValueFrames();
      queue.Enqueue(RESET);
      queue.EnqueueAll(keys);
      queue.Enqueue(SYNC);
      queue.EnqueueAll(values);
      frames := [RESET] + keys + [SYNC] + values;
      assert Spaces() == s.spaces;
      assert IsResync(frames, keys, values, SessionView(s));
    }

    /** Key frames of every store. The order of the stores is left open; the
        source takes the flat one first. */
    method AllKeyFrames() returns (frames: seq<Frame>)
      requires Valid()
      ensures Valid() && Model() == old(Model()) && KeyFramesOf(frames, SessionView(Model()))
    {
      hide SessionView, KeyFramesOf, SpaceView, SessionInv, FlatView, FlatInv;
      frames := [];
      var rest := stores.Keys;
      ghost var s := Model();
      NoneYet(s);
      while rest != {}
        invariant rest <= stores.Keys && Model() == s
        invariant KeyFramesOf(frames, SessionView(Only(s, stores.Keys - rest)))
      {
        var a :| a in rest;
        SpaceInv(s, a);
        var more := stores[a].BuildKeyFrames();
        OneMoreKeys(s, stores.Keys - rest, a, frames, more);
        assert stores.Keys - (rest - {a}) == stores.Keys - rest + {a};
        frames := frames + more;
        rest := rest - {a};
      }
      AllDone(s, stores.Keys - rest);
    }

    method AllValueFrames() returns (frames: seq<Frame>)
      requires Valid()
      ensures Valid() && Model() == old(Model()) && ValueFramesOf(frames, SessionView(Model()))
    {
      hide SessionView, ValueFramesOf, SpaceView, SessionInv, FlatView, FlatInv;
      frames := [];
      var rest := stores.Keys;
      ghost var s := Model();
      NoneYet(s);
      while rest != {}
        invariant rest <= stores.Keys && Model() == s
        invariant ValueFramesOf(frames, SessionView(Only(s, stores.Keys - rest)))
      {
        var a :| a in rest;
        SpaceInv(s, a);
        var more := stores[a].BuildValueFrames();
        OneMoreValues(s, stores.Keys - rest, a, frames, more);
        assert stores.Keys - (rest - {a}) == stores.Keys - rest + {a};
        frames := frames + more;
        rest := rest - {a};
      }
      AllDone(s, stores.Keys - rest);
    }

    // ---------- Key requests ----------

    /** handleKeyRequest: look the id up in every store. */
    method HandleKeyRequest(keyId: u32)
      requires Valid()
      modifies queue
      ensures Valid() && Model() == old(Model())
      ensures queue.frames == old(queue.frames) + Reply(Model(), keyId)
    {
      hide SessionView, SessionInv;
      ghost var s := Model();
      var found := FindLive(keyId);
      if found.Some? {
        queue.Enqueue(Frame(SERVER_KEY_REGISTRATION, keyId, found.value.dtype, Str(found.value.path)));
        queue.Enqueue(SYNC);
        queue.Enqueue(Frame(SERVER_VALUE, keyId, found.value.dtype, found.value.value));
      }
      assert Spaces() == s.spaces;
    }

    method FindLive(keyId: u32) returns (found: Option<Item>)
      requires Valid()
      ensures Valid() && Model() == old(Model())
      ensures found == if keyId in SessionView(Model()) then Some(SessionView(Model())[keyId]) else None
    {
      hide SessionView, SessionInv, FlatInv, ItemOf, FlatView, SpaceView;
      found := None;
      var rest := stores.Keys;
      ghost var s := Model();
      while rest != {}
        invariant rest <= stores.Keys && found == None && Model() == s
        invariant forall a :: a in stores && a !in rest ==> keyId !in SpaceView(s.spaces[a])
      {
        var a :| a in rest;
        SpaceInv(s, a);
        found := stores[a].FindByKeyId(keyId);
        if found.Some? {
          LiveItem(s.spaces[a], keyId);
          ViewHas(s, a, keyId);
          assert Spaces() == s.spaces;
          return;
        }
        rest := rest - {a};
      }
      NowhereLive(s, keyId);
    }
  }

  // ---------- Lemmas on values ----------

  lemma LiveItem(sp: Space, id: u32)
    requires id in FlatView(sp.flat, sp.prefix)
    ensures id in SpaceView(sp) && id in sp.flat.byKeyId && sp.flat.byKeyId[id] in sp.flat.entries
    ensures SpaceView(sp)[id] == ItemOf(sp.flat, sp.prefix, id)
  {
  }

  lemma NowhereLive(s: Session, id: u32)
    requires SessionInv(s) && forall a :: a in s.spaces ==> id !in SpaceView(s.spaces[a])
    ensures id !in SessionView(s)
  {
    hide SessionView, SessionInv, SpaceView;
    if id in SessionView(s) {
      var a := ViewOwner(s, id);
    }
  }

  /** The part of a session with only these scopes. */
  ghost function Only(s: Session, scopes: set<Scope>): Session {
    s.(spaces := map a | a in s.spaces && a in scopes :: s.spaces[a])
  }

  lemma OnlyInv(s: Session, scopes: set<Scope>)
    requires SessionInv(s)
    ensures SessionInv(Only(s, scopes))
  {
    hide FlatInv;
  }

  lemma NoneYet(s: Session)
    ensures KeyFramesOf([], SessionView(Only(s, {}))) && ValueFramesOf([], SessionView(Only(s, {})))
    ensures SessionView(Only(s, {})) == map[]
  {
  }

  lemma AllDone(s: Session, scopes: set<Scope>)
    requires scopes == s.spaces.Keys
    ensures Only(s, scopes) == s
  {
    assert Only(s, scopes).spaces == s.spaces;
  }

  lemma OneMore(s: Session, scopes: set<Scope>, a: Scope)
    requires SessionInv(s) && a in s.spaces && a !in scopes
    ensures SessionView(Only(s, scopes + {a})) == SessionView(Only(s, scopes)) + SpaceView(s.spaces[a])
    ensures SessionView(Only(s, scopes)).Keys !! SpaceView(s.spaces[a]).Keys
  {
    hide SessionInv, SessionView, SpaceView;
    OnlyInv(s, scopes + {a});
    ViewSplits(Only(s, scopes + {a}), a);
    assert Without(Only(s, scopes + {a}), a).spaces == Only(s, scopes).spaces;
    ViewIgnoresCounter(Without(Only(s, scopes + {a}), a), Only(s, scopes));
  }

  lemma OneMoreKeys(s: Session, scopes: set<Scope>, a: Scope, frames: seq<Frame>, more: seq<Frame>)
    requires SessionInv(s) && a in s.spaces && a !in scopes
    requires KeyFramesOf(frames, SessionView(Only(s, scopes))) && KeyFramesOf(more, FlatView(s.spaces[a].flat, s.spaces[a].prefix))
    ensures KeyFramesOf(frames + more, SessionView(Only(s, scopes + {a})))
    ensures frames == [] ==> KeyFramesOf(more, SessionView(Only(s, scopes + {a})))
  {
    hide SessionInv, SessionView, KeyFramesOf, FlatView;
    OneMore(s, scopes, a);
    KeyFramesConcat(frames, SessionView(Only(s, scopes)), more, SpaceView(s.spaces[a]));
    assert frames == [] ==> frames + more == more;
  }

  lemma OneMoreValues(s: Session, scopes: set<Scope>, a: Scope, frames: seq<Frame>, more: seq<Frame>)
    requires SessionInv(s) && a in s.spaces && a !in scopes
    requires ValueFramesOf(frames, SessionView(Only(s, scopes))) && ValueFramesOf(more, FlatView(s.spaces[a].flat, s.spaces[a].prefix))
    ensures ValueFramesOf(frames + more, SessionView(Only(s, scopes + {a})))
    ensures frames == [] ==> ValueFramesOf(more, SessionView(Only(s, scopes + {a})))
  {
    hide SessionInv, SessionView, ValueFramesOf, FlatView;
    OneMore(s, scopes, a);
    ValueFramesConcat(frames, SessionView(Only(s, scopes)), more, SpaceView(s.spaces[a]));
    assert frames == [] ==> frames + more == more;
  }

  lemma IdsConcat(a: seq<Frame>, b: seq<Frame>)
    requires OncePerId(a) && OncePerId(b) && Ids(a) !! Ids(b)
    ensures OncePerId(a + b) && Ids(a + b) == Ids(a) + Ids(b)
  {
    var all := a + b;
    forall i | 0 <= i < |a| ensures all[i].keyId in Ids(a) {
    }
    forall i | |a| <= i < |all| ensures all[i].keyId in Ids(b) {
      assert b[i - |a|].keyId in Ids(b);
    }
    forall id | id in Ids(a) ensures id in Ids(all) {
      var i :| 0 <= i < |a| && a[i].keyId == id;
      assert all[i].keyId == id;
    }
    forall id | id in Ids(b) ensures id in Ids(all) {
      var i :| 0 <= i < |b| && b[i].keyId == id;
      assert all[|a| + i].keyId == id;
    }
  }

  lemma KeyFramesConcat(a: seq<Frame>, va: View, b: seq<Frame>, vb: View)
    requires KeyFramesOf(a, va) && KeyFramesOf(b, vb) && va.Keys !! vb.Keys
    ensures KeyFramesOf(a + b, va + vb)
  {
    hide OncePerId, Ids;
    IdsConcat(a, b);
  }

  lemma ValueFramesConcat(a: seq<Frame>, va: View, b: seq<Frame>, vb: View)
    requires ValueFramesOf(a, va) && ValueFramesOf(b, vb) && va.Keys !! vb.Keys
    ensures ValueFramesOf(a + b, va + vb)
  {
    hide OncePerId, Ids;
    IdsConcat(a, b);
  }
}
