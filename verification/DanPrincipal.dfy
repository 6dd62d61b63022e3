/** PrincipalTX with its key-frame cache, and the server that fans its frames
    out over the principal index, as the source updates them in place
    (principal_tx.cpp, server.cpp). */
module DanPrincipal {
  import opened Types
  import opened Replica
  import opened FlatState
  import opened PrincipalIndex
  import opened Principal

  class PrincipalTX {
    const ids: KeyIdSource
    // Where the onValue callback puts each frame.
    const out: FrameQueue
    const flatState: DanFlatState
    var cachedKeyFrames: seq<Frame>
    var keyFramesCached: bool

    ghost function Parts(): set<object> { {this, ids, out, flatState} }

    ghost predicate Wired() { flatState.ids == ids && flatState.out == out && flatState.wirePrefix == "" }

    ghost function Model(): Ptx
      reads this, ids, flatState
    {
      Ptx(flatState.Model(), ids.next, if keyFramesCached then Some(cachedKeyFrames) else None)
    }

    constructor ()
      ensures Wired() && Model() == NEW_PTX && out.frames == [] && fresh(Parts())
    {
      var counter := new KeyIdSource();
      var queue := new FrameQueue();
      ids := counter;
      out := queue;
      flatState := new DanFlatState(counter, queue, "");
      cachedKeyFrames, keyFramesCached := [], false;
    }

    method Set(key: string, value: Payload)
      requires Wired()
      modifies ids, out, flatState
      ensures Model() == SetPtx(old(Model()), key, value)
      ensures out.frames == old(out.frames) + SetLeaf(old(Model()).flat, "", old(Model()).next, key, value).frames
    {
      hide SetLeaf;
      flatState.Set(key, value);
    }

    method ClearOne(key: string)
      requires Wired()
      modifies out, flatState
      ensures Model() == ClearPtxOne(old(Model()), key)
      ensures out.frames == old(out.frames) + ClearFrames(old(Model()).flat, key)
    {
      hide ClearKey;
      flatState.ClearOne(key);
    }

    /** _buildKeyFrames: cached after the first call, always with the ServerSync. */
    method BuildKeyFrames() returns (frames: seq<Frame>)
      requires Wired() && FlatInv(Model().flat)
      modifies this
      ensures Builds(old(Model()), frames) && Model() == old(Model()).(cache := Some(frames))
    {
      hide FlatInv, FlatView, KeyFramesOf;
      if keyFramesCached {
        return cachedKeyFrames;
      }
      var keys := flatState.BuildKeyFrames();
      assert KeyFramesOf(keys, ViewOf(Model()));
      cachedKeyFrames := keys + [SYNC];
      keyFramesCached := true;
      return cachedKeyFrames;
    }

    /** clear(): resync is what the onResync callback sends to each connected
        session, empty when it does not fire. */
    method Clear() returns (resync: seq<Frame>)
      requires Wired() && FlatInv(Model().flat)
      modifies this, ids, flatState
      ensures Model() == ClearPtx(old(Model())) && resync == ClearAllFrames(old(Model()).flat)
    {
      hide FlatInv, FlatView, KeyFramesOf;
      resync := [];
      var fired := flatState.Clear();
      if fired {
        EmptyFlatView();
        keyFramesCached := false;
        cachedKeyFrames := [];
        ghost var emptied := Model();
        var keys := BuildKeyFrames();
        OnlySync(emptied, keys);
        resync := [RESET] + keys;
      }
      ids.next := 1;
    }
  }

  lemma FirstId(frames: seq<Frame>)
    requires frames != []
    ensures frames[0].keyId in Ids(frames)
  {
  }

  lemma NoKeys(keys: seq<Frame>)
    requires KeyFramesOf(keys, map[])
    ensures keys == []
  {
    assert Ids(keys) == {};
    if keys != [] { FirstId(keys); }
  }

  /** An empty store with no cache builds the lone ServerSync. */
  lemma OnlySync(p: Ptx, frames: seq<Frame>)
    requires p.flat == EMPTY_FLAT && p.cache.None? && Builds(p, frames)
    ensures frames == [SYNC]
  {
    EmptyFlatView();
    var keys :| KeyFramesOf(keys, ViewOf(p)) && frames == keys + [SYNC];
    assert ViewOf(p) == map[];
    NoKeys(keys);
  }

  /** The index holds each session under its principal, and nothing else. */
  ghost predicate IndexIs(index: Index, conns: map<nat, Conn>) {
    && (forall c :: c in conns ==> conns[c].principal in index && c in index[conns[c].principal])
    && (forall n, c :: n in index && c in index[n] ==> c in conns && conns[c].principal == n)
  }

  lemma IndexKept(index: Index, was: map<nat, Conn>, now: map<nat, Conn>)
    requires IndexIs(index, was) && now.Keys == was.Keys
    requires forall c :: c in was ==> now[c].principal == was[c].principal
    ensures IndexIs(index, now)
  {
  }

  /** The sessions in rest are still to be served, the others are as they should be. */
  ghost predicate Partly(now: map<nat, Conn>, was: map<nat, Conn>, target: map<nat, Conn>, rest: set<nat>) {
    && now.Keys == was.Keys == target.Keys
    && forall c :: c in was ==> now[c] == (if c in rest then was[c] else target[c])
  }

  lemma PartlyStart(index: Index, was: map<nat, Conn>, target: map<nat, Conn>, name: string)
    requires IndexIs(index, was) && target.Keys == was.Keys
    requires forall c :: c in was && was[c].principal != name ==> target[c] == was[c]
    ensures Partly(was, was, target, Members(index, name)) && Members(index, name) <= was.Keys
    ensures forall c :: c in Members(index, name) ==> was[c].principal == name
  {
  }

  lemma PartlyStep(now: map<nat, Conn>, was: map<nat, Conn>, target: map<nat, Conn>, rest: set<nat>, c: nat)
    requires Partly(now, was, target, rest) && c in rest && c in was
    ensures now[c] == was[c] && Partly(now[c := target[c]], was, target, rest - {c})
  {
  }

  lemma PartlyDone(now: map<nat, Conn>, was: map<nat, Conn>, target: map<nat, Conn>)
    requires Partly(now, was, target, {})
    ensures now == target
  {
  }

  /** The server's sessions and its index of them by principal. */
  class SessionTable {
    const principalIndex: DanPrincipalIndex
    var conns: map<nat, Conn>

    ghost predicate Indexed()
      reads this, principalIndex
    {
      IndexIs(principalIndex.entries, conns)
    }

    constructor ()
      ensures Indexed() && conns == map[] && fresh(principalIndex)
    {
      principalIndex := new DanPrincipalIndex();
      conns := map[];
    }

    method Push(c: nat, frames: seq<Frame>)
      requires c in conns
      modifies this`conns
      ensures conns == old(conns)[c := Queued(old(conns)[c], frames)] && (old(Indexed()) ==> Indexed())
    {
      hide IndexIs;
      ghost var was := conns;
      NothingQueued(was, c);
      for i := 0 to |frames|
        invariant conns == was[c := Queued(was[c], frames[..i])]
      {
        conns := conns[c := conns[c].(queue := conns[c].queue + [frames[i]])];
        assert was[c].queue + frames[..i] + [frames[i]] == was[c].queue + frames[..i + 1];
        assert frames[..i + 1] == frames[..i] + [frames[i]];
      }
      assert frames[..|frames|] == frames;
      if IndexIs(principalIndex.entries, was) { IndexKept(principalIndex.entries, was, conns); }
    }

    method MarkReady(c: nat)
      requires Indexed() && c in conns
      modifies this`conns
      ensures Indexed() && conns == old(conns)[c := old(conns)[c].(ready := true)]
    {
      hide IndexIs;
      conns := conns[c := conns[c].(ready := true)];
      IndexKept(principalIndex.entries, old(conns), conns);
    }

    /** The onValue callback for one frame: every Ready session of the principal gets it. */
    method SendValue(name: string, f: Frame)
      requires Indexed()
      modifies this`conns
      ensures Indexed() && conns == ToReady(old(conns), name, [f])
    {
      hide IndexIs, Partly;
      ghost var was, target := conns, ToReady(conns, name, [f]);
      PartlyStart(principalIndex.entries, was, target, name);
      var rest := Members(principalIndex.entries, name);
      while rest != {}
        invariant rest <= was.Keys && conns.Keys == was.Keys && Partly(conns, was, target, rest)
        invariant forall c :: c in rest ==> was[c].principal == name
      {
        var c :| c in rest;
        PartlyStep(conns, was, target, rest, c);
        if conns[c].ready {
          conns := conns[c := conns[c].(queue := conns[c].queue + [f])];
        } else {
          assert conns == conns[c := target[c]];
        }
        rest := rest - {c};
      }
      PartlyDone(conns, was, target);
      IndexKept(principalIndex.entries, was, conns);
    }

    method SendValues(name: string, frames: seq<Frame>)
      requires Indexed()
      modifies this`conns
      ensures Indexed() && conns == ToReady(old(conns), name, frames)
    {
      hide ToReady;
      ghost var was := conns;
      ToReadyNone(conns, name);
      for i := 0 to |frames|
        invariant Indexed() && conns == ToReady(was, name, frames[..i])
      {
        ToReadySnoc(was, name, frames[..i], frames[i]);
        assert frames[..i + 1] == frames[..i] + [frames[i]];
        SendValue(name, frames[i]);
      }
      assert frames[..|frames|] == frames;
    }

    /** The onResync callback: every connected session of the principal gets the frames. */
    method SendResync(name: string, frames: seq<Frame>)
      requires Indexed()
      modifies this`conns
      ensures Indexed() && conns == ToAll(old(conns), name, frames)
    {
      hide IndexIs, Partly;
      ghost var was, target := conns, ToAll(conns, name, frames);
      PartlyStart(principalIndex.entries, was, target, name);
      var rest := Members(principalIndex.entries, name);
      while rest != {}
        invariant rest <= was.Keys && conns.Keys == was.Keys && Partly(conns, was, target, rest)
        invariant forall c :: c in rest ==> was[c].principal == name
      {
        var c :| c in rest;
        PartlyStep(conns, was, target, rest, c);
        Push(c, frames);
        rest := rest - {c};
      }
      PartlyDone(conns, was, target);
      IndexKept(principalIndex.entries, was, conns);
    }

    /** indexAddSession, for a session new to the server. */
    method Add(c: nat, conn: Conn)
      requires Indexed() && c !in conns
      modifies this, principalIndex
      ensures Indexed() && conns == old(conns)[c := conn]
    {
      principalIndex.AddSession(conn.principal, c);
      conns := conns[c := conn];
    }

    /** handleSessionDisconnect and indexRemoveSession. */
    method Remove(c: nat)
      requires Indexed()
      modifies this, principalIndex
      ensures Indexed() && conns == old(conns) - {c}
    {
      if c !in conns {
        assert conns == conns - {c};
        return;
      }
      principalIndex.RemoveSession(conns[c].principal, c);
      conns := conns - {c};
    }
  }

  function Queued(c: Conn, frames: seq<Frame>): Conn { c.(queue := c.queue + frames) }

  lemma NothingQueued(conns: map<nat, Conn>, c: nat)
    requires c in conns
    ensures conns[c := Queued(conns[c], [])] == conns
  {
    assert conns[c].queue + [] == conns[c].queue;
  }

  lemma ToReadyNone(conns: map<nat, Conn>, name: string)
    ensures ToReady(conns, name, []) == conns
  {
    assert forall c :: c in conns ==> conns[c].queue + [] == conns[c].queue;
  }

  lemma ToReadySnoc(conns: map<nat, Conn>, name: string, frames: seq<Frame>, f: Frame)
    ensures ToReady(ToReady(conns, name, frames), name, [f]) == ToReady(conns, name, frames + [f])
  {
    assert forall c :: c in conns ==> (conns[c].queue + frames) + [f] == conns[c].queue + (frames + [f]);
  }

  /** A principal as bindPrincipalTX leaves it: its frames go to the sessions the
      index has under its name. rest stands for the other principals; no method
      can touch them. */
  class BoundPrincipal {
    const name: string
    const tx: PrincipalTX
    const sessions: SessionTable

    ghost predicate Valid()
      reads tx, tx.ids, tx.flatState, sessions, sessions.principalIndex
    {
      tx.Wired() && sessions.Indexed() && PtxInv(tx.Model())
    }

    ghost function State(rest: map<string, Ptx>): World
      reads tx, tx.ids, tx.flatState, sessions
    {
      World(rest[name := tx.Model()], sessions.conns)
    }

    constructor (name: string, sessions: SessionTable)
      requires sessions.Indexed()
      ensures Valid() && this.name == name && this.sessions == sessions && tx.Model() == NEW_PTX
    {
      this.name, this.sessions := name, sessions;
      tx := new PrincipalTX();
      new;
      NewPtxInv();
    }

    method Set(key: string, value: Payload, ghost rest: map<string, Ptx>)
      requires Valid() && tx.Model().next < TWO_32 - 1
      modifies tx.ids, tx.out, tx.flatState, sessions
      ensures Valid() && Does(Step.Set(name, key, value), old(State(rest)), State(rest))
    {
      hide PtxInv, IndexIs, SetLeaf, SetPtx, ToReady, PrincipalTX.Model;
      var sent := |tx.out.frames|;
      ghost var p := tx.Model();
      SetPtxInv(p, key, value);
      tx.Set(key, value);
      assert tx.Model() == SetPtx(p, key, value);
      sessions.SendValues(name, tx.out.frames[sent..]);
      assert rest[name := p][name := tx.Model()] == rest[name := tx.Model()];
    }

    method Clear(key: string, ghost rest: map<string, Ptx>)
      requires Valid()
      modifies tx.out, tx.flatState, sessions
      ensures Valid() && Does(Step.Clear(name, key), old(State(rest)), State(rest))
    {
      hide PtxInv, IndexIs, ClearPtxOne, ClearFrames, ToReady, PrincipalTX.Model;
      var sent := |tx.out.frames|;
      ghost var p := tx.Model();
      ClearKeyInv(p, key);
      tx.ClearOne(key);
      assert tx.Model() == ClearPtxOne(p, key);
      sessions.SendValues(name, tx.out.frames[sent..]);
      assert rest[name := p][name := tx.Model()] == rest[name := tx.Model()];
    }

    method ClearAll(ghost rest: map<string, Ptx>)
      requires Valid()
      modifies tx, tx.ids, tx.flatState, sessions
      ensures Valid() && Does(Step.ClearAll(name), old(State(rest)), State(rest))
    {
      hide FlatInv, IndexIs, ClearPtx, ClearAllFrames, ToAll, PrincipalTX.Model;
      ghost var p := tx.Model();
      ClearPtxInv(p);
      var resync := tx.Clear();
      sessions.SendResync(name, resync);
      assert rest[name := p][name := tx.Model()] == rest[name := tx.Model()];
    }

    /** activateSession and _startSync for a session new to the server. */
    method Join(c: nat, ghost rest: map<string, Ptx>)
      requires Valid() && c !in sessions.conns
      modifies tx, sessions, sessions.principalIndex
      ensures Valid() && Does(Step.Join(c, name), old(State(rest)), State(rest))
    {
      hide FlatInv, IndexIs, Builds, PrincipalTX.Model;
      ghost var p := tx.Model();
      var frames := tx.BuildKeyFrames();
      CacheIsNoState(p, Some(frames));
      sessions.Add(c, Conn(name, false, frames, BLANK));
      assert rest[name := p][name := tx.Model()] == rest[name := tx.Model()];
    }

    /** ClientReady: the values, once, and the session is Ready. */
    method HandleReady(c: nat, ghost rest: map<string, Ptx>)
      requires Valid() && c in sessions.conns && sessions.conns[c].principal == name
      modifies sessions
      ensures Valid() && Does(Step.ClientReady(c), old(State(rest)), State(rest))
    {
      hide FlatInv, IndexIs, ValueFramesOf, FlatView;
      if sessions.conns[c].ready {
        return;
      }
      var values := tx.flatState.BuildValueFrames();
      assert ValueFramesOf(values, ViewOf(tx.Model()));
      sessions.Push(c, values);
      sessions.MarkReady(c);
    }

    method Leave(c: nat, ghost rest: map<string, Ptx>)
      requires Valid()
      modifies sessions, sessions.principalIndex
      ensures Valid() && Does(Step.Leave(c), old(State(rest)), State(rest))
    {
      hide PtxInv, IndexIs, PrincipalTX.Model;
      sessions.Remove(c);
    }
  }
}
