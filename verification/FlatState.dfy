/** The server's key-value store and the frames its changes send (flat_state.cpp). */
module FlatState {
  import opened Types
  import opened Replica

  // ---------- Specification ----------

  datatype Entry = Entry(keyId: u32, dtype: DataType, value: Payload)

  datatype Flat = Flat(entries: map<string, Entry>, byKeyId: map<u32, string>)

  const EMPTY_FLAT: Flat := Flat(map[], map[])

  datatype Changed = Changed(flat: Flat, next: u32, frames: seq<Frame>)

  /** The next id of a uint32_t counter. */
  function Successor(id: u32): u32 { if id == TWO_32 - 1 then 0 else id + 1 }

  function NewEntry(flat: Flat, prefix: string, next: u32, key: string, value: Payload): Changed {
    var dtype := DetectDataType(value);
    var item := Item(prefix + key, dtype, value);
    Changed(Flat(flat.entries[key := Entry(next, dtype, value)], flat.byKeyId[next := key]), Successor(next),
            [KeyFrame(next, item), SYNC, ValueFrame(next, item)])
  }

  function ClearKey(flat: Flat, key: string): Flat {
    if key !in flat.entries then flat
    else Flat(flat.entries - {key}, flat.byKeyId - {flat.entries[key].keyId})
  }

  /** setLeaf: update in place, or delete and re-register under a new id when the type changes, or create. */
  function SetLeaf(flat: Flat, prefix: string, next: u32, key: string, value: Payload): Changed {
    if key !in flat.entries then NewEntry(flat, prefix, next, key, value)
    else
      var e := flat.entries[key];
      if e.dtype != DetectDataType(value) then
        var made := NewEntry(ClearKey(flat, key), prefix, next, key, value);
        made.(frames := [DeleteFrame(e.keyId)] + made.frames)
      else
        Changed(flat.(entries := flat.entries[key := e.(value := value)]), next,
                [ValueFrame(e.keyId, Item(prefix + key, e.dtype, value))])
  }

  /** The two maps are mutual inverses and every type is the detected one. */
  ghost predicate FlatInv(flat: Flat) {
    && (forall k :: k in flat.entries ==> flat.entries[k].keyId in flat.byKeyId && flat.byKeyId[flat.entries[k].keyId] == k)
    && (forall id :: id in flat.byKeyId ==> flat.byKeyId[id] in flat.entries && flat.entries[flat.byKeyId[id]].keyId == id)
    && (forall k :: k in flat.entries ==> flat.entries[k].dtype == DetectDataType(flat.entries[k].value))
  }

  function ItemOf(flat: Flat, prefix: string, id: u32): Item
    requires id in flat.byKeyId && flat.byKeyId[id] in flat.entries
  {
    var e := flat.entries[flat.byKeyId[id]];
    Item(prefix + flat.byKeyId[id], e.dtype, e.value)
  }

  /** What a client should hold for this store. */
  function FlatView(flat: Flat, prefix: string): View {
    map id | id in flat.byKeyId && flat.byKeyId[id] in flat.entries :: ItemOf(flat, prefix, id)
  }

  /** Setting a key allocates an id unless the key is there with the same type. */
  predicate Allocates(flat: Flat, key: string, value: Payload) {
    key !in flat.entries || flat.entries[key].dtype != DetectDataType(value)
  }

  // ---------- Lemmas ----------

  lemma NewEntryInverse(flat: Flat, prefix: string, next: u32, key: string, value: Payload)
    requires FlatInv(flat) && key !in flat.entries && next !in flat.byKeyId
    ensures FlatInv(NewEntry(flat, prefix, next, key, value).flat)
  {
    hide DetectDataType;
  }

  lemma NewEntryView(flat: Flat, prefix: string, next: u32, key: string, value: Payload)
    requires FlatInv(flat) && key !in flat.entries && next !in flat.byKeyId
    ensures FlatInv(NewEntry(flat, prefix, next, key, value).flat)
    ensures FlatView(NewEntry(flat, prefix, next, key, value).flat, prefix)
         == FlatView(flat, prefix)[next := Item(prefix + key, DetectDataType(value), value)]
    ensures next !in FlatView(flat, prefix)
  {
    hide DetectDataType, FlatInv;
    NewEntryInverse(flat, prefix, next, key, value);
    var flat' := NewEntry(flat, prefix, next, key, value).flat;
    KeysOfView(flat, prefix);
    KeysOfView(flat', prefix);
    var v, v' := FlatView(flat, prefix), FlatView(flat', prefix);
    forall id | id in v ensures v'[id] == v[id] {
      assert flat.byKeyId[id] != key;
    }
  }

  lemma KeysOfView(flat: Flat, prefix: string)
    requires FlatInv(flat)
    ensures FlatView(flat, prefix).Keys == flat.byKeyId.Keys
  {
  }

  lemma ClearKeyView(flat: Flat, prefix: string, key: string)
    requires FlatInv(flat) && key in flat.entries
    ensures FlatInv(ClearKey(flat, key)) && key !in ClearKey(flat, key).entries
    ensures FlatView(ClearKey(flat, key), prefix) == FlatView(flat, prefix) - {flat.entries[key].keyId}
    ensures flat.entries[key].keyId in FlatView(flat, prefix)
  {
    hide DetectDataType;
    var flat' := ClearKey(flat, key);
    var v, v' := FlatView(flat, prefix), FlatView(flat', prefix);
    assert v.Keys == flat.byKeyId.Keys;
    assert v'.Keys == flat'.byKeyId.Keys == v.Keys - {flat.entries[key].keyId};
  }

  lemma UpdateView(flat: Flat, prefix: string, next: u32, key: string, value: Payload)
    requires FlatInv(flat) && !Allocates(flat, key, value)
    ensures
      var id := flat.entries[key].keyId;
      var flat' := SetLeaf(flat, prefix, next, key, value).flat;
      && FlatInv(flat') && flat'.byKeyId == flat.byKeyId && id in FlatView(flat, prefix)
      && FlatView(flat', prefix) == FlatView(flat, prefix)[id := Item(prefix + key, DetectDataType(value), value)]
      && FlatView(flat, prefix)[id].path == prefix + key && FlatView(flat, prefix)[id].dtype == DetectDataType(value)
  {
    hide DetectDataType;
    var flat' := SetLeaf(flat, prefix, next, key, value).flat;
    var v, v' := FlatView(flat, prefix), FlatView(flat', prefix);
    assert v.Keys == flat.byKeyId.Keys == v'.Keys;
  }

  /** Set keeps the maps inverse if and only if the id it allocates is not one
      that stays live. The counter alone does not ensure this: it wraps. */
  lemma SetKeepsInverseIff(flat: Flat, prefix: string, next: u32, key: string, value: Payload)
    requires FlatInv(flat)
    ensures FlatInv(SetLeaf(flat, prefix, next, key, value).flat)
       <==> (Allocates(flat, key, value) ==> next !in ClearKey(flat, key).byKeyId)
  {
    if !Allocates(flat, key, value) {
      UpdateView(flat, prefix, next, key, value);
    } else {
      if key in flat.entries { ClearKeyView(flat, prefix, key); }
      var cleared := ClearKey(flat, key);
      if next in cleared.byKeyId {
        LiveIdBreaks(cleared, prefix, next, key, value);
      } else {
        NewEntryView(cleared, prefix, next, key, value);
      }
    }
  }

  lemma LiveIdBreaks(flat: Flat, prefix: string, next: u32, key: string, value: Payload)
    requires FlatInv(flat) && key !in flat.entries && next in flat.byKeyId
    ensures !FlatInv(NewEntry(flat, prefix, next, key, value).flat)
  {
    var lost := flat.byKeyId[next];
    var flat' := NewEntry(flat, prefix, next, key, value).flat;
    assert lost in flat'.entries && flat'.entries[lost].keyId == next && flat'.byKeyId[next] == key != lost;
  }

  /** A store that sets key a, and then n times sets and clears key b. */
  function Cycled(n: nat): (Flat, u32) {
    if n == 0 then
      var made := SetLeaf(EMPTY_FLAT, "", 1, "a", Null);
      (made.flat, made.next)
    else
      var (flat, next) := Cycled(n - 1);
      var made := SetLeaf(flat, "", next, "b", Null);
      (ClearKey(made.flat, "b"), made.next)
  }

  /** Each turn takes one id and leaves the store as it was, so the counter gets anywhere. */
  lemma {:induction false} CycledCounter(n: nat)
    requires n <= TWO_32 - 3
    ensures Cycled(n) == (NewEntry(EMPTY_FLAT, "", 1, "a", Null).flat, n + 2)
  {
    if n > 0 {
      CycledCounter(n - 1);
      var start := NewEntry(EMPTY_FLAT, "", 1, "a", Null).flat;
      assert ClearKey(SetLeaf(start, "", n + 1, "b", Null).flat, "b") == start;
    }
  }

  /** After 2^32 allocations the counter is back at a live id: the key d below takes over id 1. */
  lemma CounterWraps(n: nat)
    requires n == TWO_32 - 3
    ensures
      var (start, next) := Cycled(n);
      var b := SetLeaf(start, "", next, "b", Null);
      var c := SetLeaf(b.flat, "", b.next, "c", Null);
      var d := SetLeaf(c.flat, "", c.next, "d", Null);
      && FlatInv(c.flat) && c.next == 1
      && !FlatInv(d.flat) && "a" in d.flat.entries && "d" in d.flat.entries
      && d.flat.entries["a"].keyId == d.flat.entries["d"].keyId
  {
    CycledCounter(n);
    NewEntryView(EMPTY_FLAT, "", 1, "a", Null);
    var start := NewEntry(EMPTY_FLAT, "", 1, "a", Null).flat;
    NewEntryView(start, "", 0xFFFF_FFFF, "b", Null);
    var b := NewEntry(start, "", 0xFFFF_FFFF, "b", Null);
    NewEntryView(b.flat, "", 0, "c", Null);
    var c := NewEntry(b.flat, "", 0, "c", Null);
    LiveIdBreaks(c.flat, "", 1, "d", Null);
  }

  // ---------- The classes ----------

  /** The callbacks of a FlatState, as the objects they reach: the id counter
      of the owner and the queue frames are enqueued on. */
  class KeyIdSource {
    var next: u32

    constructor ()
      ensures next == 1
    {
      next := 1;
    }

    method Allocate() returns (id: u32)
      modifies this
      ensures id == old(next) && next == Successor(old(next))
    {
      id := next;
      next := if next == TWO_32 - 1 then 0 else next + 1;
    }
  }

  class FrameQueue {
    var frames: seq<Frame>

    constructor ()
      ensures frames == []
    {
      frames := [];
    }

    method Enqueue(f: Frame)
      modifies this
      ensures frames == old(frames) + [f]
    {
      frames := frames + [f];
    }

    method EnqueueAll(fs: seq<Frame>)
      modifies this
      ensures frames == old(frames) + fs
    {
      for i := 0 to |fs|
        invariant frames == old(frames) + fs[..i]
      {
        Enqueue(fs[i]);
      }
    }
  }

  class DanFlatState {
    var entries: map<string, Entry>
    var byKeyId: map<u32, string>
    const ids: KeyIdSource
    const out: FrameQueue
    const wirePrefix: string

    ghost function Model(): Flat
      reads this
    {
      Flat(entries, byKeyId)
    }

    constructor (ids: KeyIdSource, out: FrameQueue, wirePrefix: string)
      ensures Model() == EMPTY_FLAT
      ensures this.ids == ids && this.out == out && this.wirePrefix == wirePrefix
    {
      entries, byKeyId := map[], map[];
      this.ids, this.out, this.wirePrefix := ids, out, wirePrefix;
    }

    method Set(key: string, value: Payload)
      modifies this, ids, out
      ensures
        var change := SetLeaf(old(Model()), wirePrefix, old(ids.next), key, value);
        Model() == change.flat && ids.next == change.next && out.frames == old(out.frames) + change.frames
    {
      var newType := DetectDataType(value);
      if key in entries {
        var e := entries[key];
        if e.dtype != newType {
          out.Enqueue(Frame(SERVER_KEY_DELETE, e.keyId, TY_NULL, Null));
          byKeyId := byKeyId - {e.keyId};
          entries := entries - {key};
          Create(key, newType, value);
          return;
        }
        entries := entries[key := e.(value := value)];
        out.Enqueue(Frame(SERVER_VALUE, e.keyId, e.dtype, value));
        return;
      }
      Create(key, newType, value);
    }

    /** The tail both allocating branches of setLeaf share. */
    method Create(key: string, dtype: DataType, value: Payload)
      requires dtype == DetectDataType(value)
      modifies this, ids, out
      ensures
        var change := NewEntry(old(Model()), wirePrefix, old(ids.next), key, value);
        Model() == change.flat && ids.next == change.next && out.frames == old(out.frames) + change.frames
    {
      var keyId := ids.Allocate();
      entries := entries[key := Entry(keyId, dtype, value)];
      byKeyId := byKeyId[keyId := key];
      out.Enqueue(Frame(SERVER_KEY_REGISTRATION, keyId, dtype, Str(wirePrefix + key)));
      out.Enqueue(Frame(SERVER_SYNC, 0, TY_NULL, Null));
      out.Enqueue(Frame(SERVER_VALUE, keyId, dtype, value));
    }

    /** Whole-store clear; `resync` says that the onResync callback fires. */
    method Clear() returns (resync: bool)
      modifies this
      ensures resync == (old(entries) != map[])
      ensures Model() == if resync then EMPTY_FLAT else old(Model())
    {
      if entries == map[] {
        return false;
      }
      entries := map[];
      byKeyId := map[];
      return true;
    }

    method ClearOne(key: string)
      modifies this, out
      ensures Model() == ClearKey(old(Model()), key)
      ensures out.frames == old(out.frames) + if key in old(entries) then [DeleteFrame(old(entries)[key].keyId)] else []
    {
      if key !in entries {
        return;
      }
      out.Enqueue(Frame(SERVER_KEY_DELETE, entries[key].keyId, TY_NULL, Null));
      byKeyId := byKeyId - {entries[key].keyId};
      entries := entries - {key};
    }

    /** Key frames in the map's own iteration order: any order. */
    method BuildKeyFrames() returns (frames: seq<Frame>)
      requires FlatInv(Model())
      ensures KeyFramesOf(frames, FlatView(Model(), wirePrefix))
    {
      frames := [];
      var rest := entries.Keys;
      ghost var v := FlatView(Model(), wirePrefix);
      assert Building(frames, rest, Model());
      while rest != {}
        invariant rest <= entries.Keys && Building(frames, rest, Model())
        invariant forall i :: 0 <= i < |frames| ==> frames[i].keyId in v && frames[i] == KeyFrame(frames[i].keyId, v[frames[i].keyId])
      {
        var key :| key in rest;
        var entry := entries[key];
        BuildingStep(frames, rest, Model(), key, Frame(SERVER_KEY_REGISTRATION, entry.keyId, entry.dtype, Str(wirePrefix + key)));
        frames := frames + [Frame(SERVER_KEY_REGISTRATION, entry.keyId, entry.dtype, Str(wirePrefix + key))];
        rest := rest - {key};
      }
      BuildingDone(frames, Model(), wirePrefix);
    }

    method BuildValueFrames() returns (frames: seq<Frame>)
      requires FlatInv(Model())
      ensures ValueFramesOf(frames, FlatView(Model(), wirePrefix))
    {
      frames := [];
      var rest := entries.Keys;
      ghost var v := FlatView(Model(), wirePrefix);
      assert Building(frames, rest, Model());
      while rest != {}
        invariant rest <= entries.Keys && Building(frames, rest, Model())
        invariant forall i :: 0 <= i < |frames| ==> frames[i].keyId in v && frames[i] == ValueFrame(frames[i].keyId, v[frames[i].keyId])
      {
        var key :| key in rest;
        var entry := entries[key];
        BuildingStep(frames, rest, Model(), key, Frame(SERVER_VALUE, entry.keyId, entry.dtype, entry.value));
        frames := frames + [Frame(SERVER_VALUE, entry.keyId, entry.dtype, entry.value)];
        rest := rest - {key};
      }
      BuildingDone(frames, Model(), wirePrefix);
    }

    /** What handleKeyRequest looks up: getByKeyId, with the path the store's
        frames carry. getPathByKeyId itself gives the bare key; only the flat
        store, whose prefix is empty, is asked for it. */
    method FindByKeyId(keyId: u32) returns (r: Option<Item>)
      requires FlatInv(Model())
      ensures r == if keyId in FlatView(Model(), wirePrefix) then Some(ItemOf(Model(), wirePrefix, keyId)) else None
    {
      if keyId !in byKeyId {
        return None;
      }
      var key := byKeyId[keyId];
      if key !in entries {
        return None;
      }
      return Some(Item(wirePrefix + key, entries[key].dtype, entries[key].value));
    }
  }

  // ---------- The frame-building loops ----------

  /** One frame per entry already visited: those not in rest. */
  ghost predicate Building(frames: seq<Frame>, rest: set<string>, flat: Flat) {
    && OncePerId(frames)
    && (forall id :: id in Ids(frames) <==> id in flat.byKeyId && flat.byKeyId[id] !in rest)
  }

  lemma BuildingStep(frames: seq<Frame>, rest: set<string>, flat: Flat, key: string, f: Frame)
    requires FlatInv(flat) && Building(frames, rest, flat)
    requires key in rest && key in flat.entries && f.keyId == flat.entries[key].keyId
    ensures Building(frames + [f], rest - {key}, flat)
  {
    IdsSnoc(frames, f);
    assert f.keyId !in Ids(frames);
    forall i | 0 <= i < |frames| ensures frames[i].keyId != f.keyId {
      assert frames[i].keyId in Ids(frames);
    }
  }

  lemma IdsSnoc(frames: seq<Frame>, f: Frame)
    ensures Ids(frames + [f]) == Ids(frames) + {f.keyId}
  {
    var all := frames + [f];
    assert all[|frames|].keyId in Ids(all);
    forall id | id in Ids(frames) ensures id in Ids(all) {
      var i :| 0 <= i < |frames| && frames[i].keyId == id;
      assert all[i].keyId == id;
    }
  }

  lemma BuildingDone(frames: seq<Frame>, flat: Flat, prefix: string)
    requires FlatInv(flat) && Building(frames, {}, flat)
    ensures OncePerId(frames) && Ids(frames) == FlatView(flat, prefix).Keys
  {
    assert FlatView(flat, prefix).Keys == flat.byKeyId.Keys;
  }
}
