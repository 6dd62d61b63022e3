/** DanWebSocketClient's frame handler as the source has it: fields updated in
    place, proved against the value-level handler of module Client. */
module DanClient {
  import opened Types
  import opened KeyRegistry
  import opened TopicPath
  import opened ArrayShift
  import opened Replica
  import opened Client

  class DanWebSocketClient {
    var state: ClientState
    const registry: DanKeyRegistry
    var store: Store
    var pendingValues: map<u32, Frame>
    var topicKeyCache: Cache
    var subscriptions: seq<Subscription>
    var topicHandles: map<string, int>
    var indexToTopic: map<int, string>
    // Frames handed to the transport, and callbacks fired, in order.
    var sent: seq<Frame>
    var log: seq<Event>

    ghost function Mirror(): Replica
      reads this, registry
    {
      Replica(registry.Model(), store, pendingValues, topicKeyCache)
    }

    ghost function Model(): Client
      reads this, registry
    {
      Client(state, Mirror(), subscriptions, topicHandles, indexToTopic)
    }

    constructor ()
      ensures Model() == Client(Disconnected, BLANK, [], map[], map[]) && sent == [] && log == []
      ensures fresh(registry)
    {
      state := Disconnected;
      registry := new DanKeyRegistry();
      store, pendingValues, topicKeyCache := map[], map[], map[];
      subscriptions, topicHandles, indexToTopic := [], map[], map[];
      sent, log := [], [];
    }

    method GetTopicInfo(keyId: u32, path: string) returns (info: Option<TopicInfo>)
      modifies this`topicKeyCache
      ensures info == TopicOf(old(topicKeyCache), keyId, path)
      ensures topicKeyCache == Remember(old(topicKeyCache), keyId, path)
    {
      if keyId in topicKeyCache {
        return topicKeyCache[keyId];
      }
      info := ParseTopic(path);
      topicKeyCache := topicKeyCache[keyId := info];
    }

    /** The notification block shared by every data frame. */
    method Notify(info: Option<TopicInfo>, path: string, value: Payload)
      modifies this`log
      ensures log == old(log) + Route(indexToTopic, topicHandles, info, path, value)
    {
      if info.Some? {
        if info.value.topicIdx in indexToTopic {
          var name := indexToTopic[info.value.topicIdx];
          if name in topicHandles {
            log := log + [TopicReceive(name, info.value.userKey, value)];
          }
        }
      } else {
        log := log + [Receive(path, value)];
      }
    }

    /** sendTopicSync on an open socket: renumber every topic, then announce all of them. */
    method SendTopicSync()
      modifies this`indexToTopic, this`topicHandles, this`sent
      ensures indexToTopic == Routes(subscriptions)
      ensures topicHandles == Renumber(old(topicHandles), subscriptions)
      ensures sent == old(sent) + TopicSyncFrames(subscriptions)
    {
      hide Routes, Renumber, SyncPairs, TopicPairs, SyncKeyFrames, SyncValueFrames;
      SyncStart(subscriptions, topicHandles);
      indexToTopic := map[];
      var entries: seq<(string, Payload)> := [];
      var idx := 0;
      while idx < |subscriptions|
        invariant 0 <= idx <= |subscriptions|
        invariant indexToTopic == Routes(subscriptions[..idx])
        invariant topicHandles == Renumber(old(topicHandles), subscriptions[..idx])
        invariant entries == SyncPairs(subscriptions[..idx], 0) && sent == old(sent)
      {
        var sub := subscriptions[idx];
        SyncStep(subscriptions, idx, old(topicHandles));
        indexToTopic := indexToTopic[idx := sub.name];
        topicHandles := topicHandles[sub.name := idx];
        var pairs := TopicEntries(sub, idx);
        entries := entries + pairs;
        idx := idx + 1;
      }
      assert subscriptions[..idx] == subscriptions;
      SendEntries(entries);
    }

    /** The pairs of one topic: its name, then its parameters in the map's order. */
    static method TopicEntries(sub: Subscription, idx: nat) returns (entries: seq<(string, Payload)>)
      ensures entries == TopicPairs(sub, idx)
    {
      entries := [(NamePath(idx), Str(sub.name))];
      for p := 0 to |sub.params|
        invariant entries == [(NamePath(idx), Str(sub.name))] + ParamPairs(sub.params[..p], idx)
      {
        ParamStep(sub.params, p, idx);
        entries := entries + [(ParamPath(idx, sub.params[p].0), sub.params[p].1)];
      }
      assert sub.params[..|sub.params|] == sub.params;
    }

    method SendEntries(entries: seq<(string, Payload)>)
      modifies this`sent
      ensures sent == old(sent) + [CLIENT_RESET_FRAME] + SyncKeyFrames(entries) + SyncValueFrames(entries) + [CLIENT_SYNC_FRAME]
    {
      sent := sent + [CLIENT_RESET_FRAME];
      ghost var opening := sent;
      for i := 0 to |entries|
        invariant sent == opening + SyncKeyFrames(entries[..i])
      {
        assert entries[..i + 1][..i] == entries[..i];
        var dt := DetectDataType(entries[i].1);
        sent := sent + [Frame(CLIENT_KEY_REGISTRATION, KeyIdAt(i), dt, Str(entries[i].0))];
      }
      assert entries[..|entries|] == entries;
      ghost var announced := sent;
      for i := 0 to |entries|
        invariant sent == announced + SyncValueFrames(entries[..i])
      {
        assert entries[..i + 1][..i] == entries[..i];
        sent := sent + [Frame(CLIENT_VALUE, KeyIdAt(i), DetectDataType(entries[i].1), entries[i].1)];
      }
      sent := sent + [CLIENT_SYNC_FRAME];
    }

    method EnterReady()
      modifies this
      ensures Model() == BecomeReady(old(Model())).client
      ensures sent == old(sent) + BecomeReady(old(Model())).sent
      ensures log == old(log) + BecomeReady(old(Model())).events
    {
      hide TopicSyncFrames, Routes, Renumber;
      state := Ready;
      log := log + [BecameReady];
      if subscriptions != [] {
        SendTopicSync();
      }
    }

    method HandleRegistration(f: Frame)
      requires f.frameType == SERVER_KEY_REGISTRATION
      modifies this, registry
      ensures Model() == OnRegistration(old(Model()), f).client
      ensures sent == old(sent) + OnRegistration(old(Model()), f).sent
      ensures log == old(log) + OnRegistration(old(Model()), f).events
    {
      hide RegisterOne, Route, TopicOf, Remember;
      if state == Identifying {
        state := Synchronizing;
      }
      if !f.payload.Str? {
        return;
      }
      var keyPath := f.payload.text;
      var registered := registry.Register(f.keyId, keyPath, f.dataType);
      if registered.Err? {
        log := log + [FrameError(registered.error)];
        return;
      }
      if f.keyId in pendingValues {
        ApplyPending(f.keyId, keyPath);
      }
    }

    /** A value that arrived before its registration is stored and announced now. */
    method ApplyPending(keyId: u32, keyPath: string)
      requires keyId in pendingValues
      modifies this`store, this`pendingValues, this`topicKeyCache, this`log
      ensures store == old(store)[keyId := old(pendingValues)[keyId].payload]
      ensures pendingValues == old(pendingValues) - {keyId}
      ensures topicKeyCache == Remember(old(topicKeyCache), keyId, keyPath)
      ensures log == old(log) + Route(indexToTopic, topicHandles, TopicOf(old(topicKeyCache), keyId, keyPath),
                                      keyPath, old(pendingValues)[keyId].payload)
    {
      hide *;
      var value := pendingValues[keyId].payload;
      store := store[keyId := value];
      var info := GetTopicInfo(keyId, keyPath);
      Notify(info, keyPath, value);
      pendingValues := pendingValues - {keyId};
    }

    method HandleSync()
      modifies this
      ensures Model() == OnSync(old(Model())).client
      ensures sent == old(sent) + OnSync(old(Model())).sent
      ensures log == old(log) + OnSync(old(Model())).events
    {
      hide BecomeReady;
      if state == Identifying {
        state := Synchronizing;
      }
      if state != Ready {
        sent := sent + [READY_FRAME];
      }
      ghost var mid := Model();
      if |registry.byId| == 0 {
        assert BecomeReady(mid) == BecomeReady(old(Model())) by { ReadyForgetsState(mid, old(Model())); }
        EnterReady();
      }
    }

    method HandleValue(f: Frame)
      requires f.frameType == SERVER_VALUE
      modifies this
      ensures Model() == OnValue(old(Model()), f).client
      ensures sent == old(sent) + OnValue(old(Model()), f).sent
      ensures log == old(log) + OnValue(old(Model()), f).events
    {
      hide BecomeReady, Route, TopicOf, Remember;
      if f.keyId !in registry.byId {
        sent := sent + [RequestFrame(f.keyId)];
        pendingValues := pendingValues[f.keyId := f];
        return;
      }
      store := store[f.keyId := f.payload];
      var path := registry.byId[f.keyId].path;
      var info := GetTopicInfo(f.keyId, path);
      Notify(info, path, f.payload);
      if state == Synchronizing {
        EnterReady();
      }
    }

    /** One guarded copy of a shift loop. */
    method Copy(prefix: string, from: nat, to: nat)
      modifies this`store
      ensures store == CopyCell(registry.Model(), old(store), prefix, from, to)
    {
      var src := registry.FindByPath(prefix + "." + NatToString(from));
      var dst := registry.FindByPath(prefix + "." + NatToString(to));
      if src.Some? && dst.Some? {
        if src.value.keyId in store {
          store := store[dst.value.keyId := store[src.value.keyId]];
        }
      }
    }

    method HandleShiftLeft(f: Frame)
      requires f.frameType == ARRAY_SHIFT_LEFT
      modifies this`store, this`topicKeyCache, this`log
      ensures Model() == OnShift(old(Model()), f).client
      ensures log == old(log) + OnShift(old(Model()), f).events
    {
      hide CopyCell, ParseTopic, Route, TopicOf, Remember;
      if f.keyId !in registry.byId {
        return;
      }
      var lengthPath := registry.byId[f.keyId].path;
      var info := GetTopicInfo(f.keyId, lengthPath);
      var prefix := ArrayPrefix(lengthPath);
      var currentLength := CurrentLength(store, f.keyId);
      var shiftCount := Clamp(RawShift(f.payload), currentLength);
      var newLength := currentLength - shiftCount;
      var i := 0;
      while i < newLength
        invariant 0 <= i && (newLength >= 0 ==> i <= newLength) && (newLength < 0 ==> i == 0)
        invariant store == CopyLeft(registry.Model(), old(store), prefix, shiftCount, i)
        modifies this`store
      {
        Copy(prefix, i + shiftCount, i);
        i := i + 1;
      }
      store := store[f.keyId := I32(newLength)];
      NotifyLength(info, prefix, newLength);
    }

    method HandleShiftRight(f: Frame)
      requires f.frameType == ARRAY_SHIFT_RIGHT
      modifies this`store, this`topicKeyCache, this`log
      ensures Model() == OnShift(old(Model()), f).client
      ensures log == old(log) + OnShift(old(Model()), f).events
    {
      hide CopyCell, ParseTopic, Route, TopicOf, Remember;
      if f.keyId !in registry.byId {
        return;
      }
      var lengthPath := registry.byId[f.keyId].path;
      var info := GetTopicInfo(f.keyId, lengthPath);
      var prefix := ArrayPrefix(lengthPath);
      var currentLength := CurrentLength(store, f.keyId);
      var shiftCount := Clamp(RawShift(f.payload), currentLength);
      var i := currentLength - 1;
      while i >= 0
        invariant currentLength > 0 ==> -1 <= i < currentLength
        invariant currentLength > 0 ==> store == CopyRight(registry.Model(), old(store), prefix, shiftCount, i + 1, currentLength)
        invariant currentLength <= 0 ==> i < 0 && store == old(store)
        modifies this`store
        decreases i
      {
        Copy(prefix, i, i + shiftCount);
        i := i - 1;
      }
      NotifyLength(info, prefix, currentLength);
    }

    method NotifyLength(info: Option<TopicInfo>, prefix: string, length: i32)
      modifies this`log
      ensures log == old(log) + Route(indexToTopic, topicHandles,
        if info.Some? then Some(info.value.(userKey := ArrayPrefix(info.value.userKey) + ".length")) else None,
        prefix + ".length", I32(length))
    {
      hide Route;
      if info.Some? {
        Notify(Some(info.value.(userKey := ArrayPrefix(info.value.userKey) + ".length")), prefix + ".length", I32(length));
      } else {
        Notify(None, prefix + ".length", I32(length));
      }
    }

    method HandleDelete(f: Frame)
      requires f.frameType == SERVER_KEY_DELETE
      modifies this, registry
      ensures Model() == OnDelete(old(Model()), f).client
      ensures sent == old(sent) && log == old(log) + OnDelete(old(Model()), f).events
    {
      hide Route, TopicOf, ParseTopic;
      var deletedPath := "";
      var info := None;
      if f.keyId in registry.byId {
        deletedPath := registry.byId[f.keyId].path;
        info := GetTopicInfo(f.keyId, deletedPath);
      }
      var removed := registry.RemoveByKeyId(f.keyId);
      store := store - {f.keyId};
      topicKeyCache := topicKeyCache - {f.keyId};
      if deletedPath != "" {
        Notify(info, deletedPath, Null);
      }
    }

    /** handleFrame. */
    method HandleOne(f: Frame)
      modifies this, registry
      ensures Model() == HandleFrame(old(Model()), f).client
      ensures sent == old(sent) + HandleFrame(old(Model()), f).sent
      ensures log == old(log) + HandleFrame(old(Model()), f).events
    {
      hide OnRegistration, OnSync, OnValue, OnShift, OnDelete;
      if f.frameType == AUTH_OK {
        state := Synchronizing;
      } else if f.frameType == AUTH_FAIL {
        log := log + [Rejected(f.payload)];
        state := Disconnected;
      } else if f.frameType == SERVER_KEY_REGISTRATION {
        HandleRegistration(f);
      } else if f.frameType == SERVER_SYNC {
        HandleSync();
      } else if f.frameType == SERVER_VALUE {
        HandleValue(f);
      } else if f.frameType == ARRAY_SHIFT_LEFT {
        ShiftSendsNothing(Model(), f);
        HandleShiftLeft(f);
      } else if f.frameType == ARRAY_SHIFT_RIGHT {
        ShiftSendsNothing(Model(), f);
        HandleShiftRight(f);
      } else if f.frameType == SERVER_FLUSH_END {
        log := log + [Update];
      } else if f.frameType == SERVER_KEY_DELETE {
        DeleteSendsNothing(Model(), f);
        HandleDelete(f);
      } else if f.frameType == SERVER_RESET {
        registry.Clear();
        store, pendingValues, topicKeyCache := map[], map[], map[];
        state := Synchronizing;
      } else if f.frameType == ERROR_FRAME {
        log := log + [RemoteError(f.payload)];
      }
    }

    method GetValue(key: string) returns (value: Payload)
      ensures value == Get(Mirror(), key)
    {
      var entry := registry.FindByPath(key);
      if entry.None? {
        return Null;
      }
      if entry.value.keyId !in store {
        return Null;
      }
      return store[entry.value.keyId];
    }
  }

  // ---------- Loop steps ----------

  lemma ReadyForgetsState(a: Client, b: Client)
    requires a.(state := Ready) == b.(state := Ready)
    ensures BecomeReady(a) == BecomeReady(b)
  {
    hide TopicSyncFrames, Routes, Renumber;
  }

  lemma ShiftSendsNothing(c: Client, f: Frame)
    ensures OnShift(c, f).sent == []
  {
    hide Apply, Route, TopicOf, ReportedLength;
  }

  lemma DeleteSendsNothing(c: Client, f: Frame)
    ensures OnDelete(c, f).sent == []
  {
    hide Apply, Route, TopicOf;
  }

  lemma {:induction false} ParamStep(params: seq<(string, Payload)>, p: nat, idx: nat)
    requires p < |params|
    ensures ParamPairs(params[..p + 1], idx) == ParamPairs(params[..p], idx) + [(ParamPath(idx, params[p].0), params[p].1)]
    decreases params
  {
    if p > 0 {
      ParamStep(params[1..], p - 1, idx);
      assert params[..p + 1][1..] == params[1..][..p] && params[..p][1..] == params[1..][..p - 1];
    }
  }

  lemma SyncStart(subs: seq<Subscription>, handles: map<string, int>)
    ensures Routes(subs[..0]) == map[] && Renumber(handles, subs[..0]) == handles && SyncPairs(subs[..0], 0) == []
  {
  }

  lemma SyncStep(subs: seq<Subscription>, idx: nat, handles: map<string, int>)
    requires idx < |subs|
    ensures Routes(subs[..idx + 1]) == Routes(subs[..idx])[idx := subs[idx].name]
    ensures Renumber(handles, subs[..idx + 1]) == Renumber(handles, subs[..idx])[subs[idx].name := idx]
    ensures SyncPairs(subs[..idx + 1], 0) == SyncPairs(subs[..idx], 0) + TopicPairs(subs[idx], idx)
  {
    hide TopicPairs;
    assert subs[..idx + 1][..idx] == subs[..idx];
    PairsStep(subs, idx, 0);
  }

  lemma {:induction false} PairsStep(subs: seq<Subscription>, n: nat, from: nat)
    requires n < |subs|
    ensures SyncPairs(subs[..n + 1], from) == SyncPairs(subs[..n], from) + TopicPairs(subs[n], from + n)
    decreases subs
  {
    hide TopicPairs;
    if n > 0 {
      PairsStep(subs[1..], n - 1, from + 1);
      assert subs[..n + 1][1..] == subs[1..][..n] && subs[..n][1..] == subs[1..][..n - 1];
    } else {
      assert subs[..1][1..] == [] && SyncPairs(subs[..1], from) == TopicPairs(subs[0], from) + [];
    }
  }
}
