/** The server's handling of one client's topic frames, as the source has it:
    handleClientTopicFrame and processTopicSync (server.cpp). */
module DanTopicServer {
  import opened Types
  import opened KeyRegistry
  import opened TopicPath
  import opened FlatState
  import opened Session
  import opened SessionClass = DanSession
  import opened TopicSync
  import opened Client

  datatype TopicEvent = Subscribed(name: string) | Unsubscribed(name: string)

  function Subscriptions(names: seq<string>): (es: seq<TopicEvent>)
    ensures |es| == |names| && forall i :: 0 <= i < |names| ==> es[i] == TopicEvent.Subscribed(names[i])
  {
    seq(|names|, i requires 0 <= i < |names| => TopicEvent.Subscribed(names[i]))
  }

  function Unsubscriptions(names: seq<string>): (es: seq<TopicEvent>)
    ensures |es| == |names| && forall i :: 0 <= i < |names| ==> es[i] == TopicEvent.Unsubscribed(names[i])
  {
    seq(|names|, i requires 0 <= i < |names| => TopicEvent.Unsubscribed(names[i]))
  }

  /** names lists exactly the elements of s, each once. */
  ghost predicate ListsOnce(names: seq<string>, s: set<string>) {
    && (forall i, j :: 0 <= i < j < |names| ==> names[i] != names[j])
    && (forall n :: n in names <==> n in s)
  }

  ghost predicate Silent(k: ClientKeys, path: string) {
    forall n :: !Announces(k, path, n)
  }

  /** Some announcing path carries an index std::stoi throws on. */
  ghost predicate Unreadable(k: ClientKeys) {
    exists p, name :: p in k.reg.pathToId && Announces(k, p, name) && Stoi(IndexText(p)).None?
  }

  /** The index comes from a path that announces the name. */
  ghost predicate IndexedBy(k: ClientKeys, name: string, idx: int) {
    exists p :: p in k.reg.pathToId && Announces(k, p, name) && Stoi(IndexText(p)) == Some(idx)
  }

  /** newTopics and nameToIndex as processTopicSync fills them. */
  ghost predicate Reads(k: ClientKeys, topics: map<string, int>) {
    && topics.Keys == Announced(k)
    && forall name :: name in topics ==> IndexedBy(k, name, topics[name])
  }

  class TopicConnection {
    const session: DanWebSocketSession
    var clientRegistry: DanKeyRegistry
    var clientValues: map<u32, Payload>

    ghost function Keys(): ClientKeys
      reads this, clientRegistry
    {
      ClientKeys(clientRegistry.Model(), clientValues)
    }

    /** The names of the session's topics. */
    ghost function Topics(): set<string>
      reads this, session
    {
      NamesOf(session.stores.Keys)
    }

    constructor (session: DanWebSocketSession)
      ensures this.session == session && Keys() == NO_KEYS && fresh(clientRegistry)
    {
      this.session := session;
      clientRegistry := new DanKeyRegistry();
      clientValues := map[];
    }

    /** handleClientTopicFrame for everything but ClientSync; a registration that throws is an error event. */
    method NoteFrame(f: Frame) returns (r: Result<()>)
      requires f.frameType in {CLIENT_RESET, CLIENT_KEY_REGISTRATION, CLIENT_VALUE}
      modifies this`clientRegistry, this`clientValues, clientRegistry
      ensures Keys() == Note(old(Keys()), f)
      ensures clientRegistry == old(clientRegistry) || fresh(clientRegistry)
      ensures r.Err? ==> Keys() == old(Keys())
    {
      hide RegisterOne;
      r := Ok(());
      if f.frameType == CLIENT_RESET {
        clientRegistry := new DanKeyRegistry();
        clientValues := map[];
      } else if f.frameType == CLIENT_KEY_REGISTRATION {
        if f.payload.Str? {
          r := clientRegistry.Register(f.keyId, f.payload.text, f.dataType);
        }
      } else {
        clientValues := clientValues[f.keyId := f.payload];
      }
    }

    /** The first loop of processTopicSync, over the paths in any order. */
    method ReadTopics() returns (r: Result<map<string, int>>)
      ensures r.Err? <==> Unreadable(Keys())
      ensures r.Ok? ==> Reads(Keys(), r.value)
    {
      hide IsNamePath, Stoi, GetByPath, Announces;
      var topics: map<string, int> := map[];
      var rest := clientRegistry.pathToId.Keys;
      ghost var k := Keys();
      while rest != {}
        invariant rest <= k.reg.pathToId.Keys
        invariant ReadSoFar(k, rest, topics)
      {
        var path :| path in rest;
        var found := NameAt(path);
        if found.Some? {
          var idx := Stoi(IndexText(path));
          if idx.None? {
            return Err(InvalidValueType);
          }
          ReadOne(k, rest, topics, path, found.value, idx.value);
          topics := topics[found.value := idx.value];
        } else {
          SkipOne(k, rest, topics, path);
        }
        rest := rest - {path};
      }
      ReadAll(k, topics);
      return Ok(topics);
    }

    /** The topic this path announces, if any. */
    method NameAt(path: string) returns (name: Option<string>)
      requires path in clientRegistry.pathToId
      ensures name.Some? ==> Announces(Keys(), path, name.value) && IsNamePath(path)
      ensures name.None? ==> Silent(Keys(), path)
    {
      hide EndsWithName;
      var entry := clientRegistry.FindByPath(path);
      if entry.None? || !IsNamePath(path) {
        return None;
      }
      if entry.value.keyId !in clientValues {
        return None;
      }
      var value := clientValues[entry.value.keyId];
      if !value.Str? || value.text == "" {
        return None;
      }
      return Some(value.text);
    }

    /** Unsubscribe every topic that is no longer announced; events are the callbacks fired. */
    method DropTopics(topics: map<string, int>) returns (events: seq<TopicEvent>, ghost gone: seq<string>)
      requires session.Valid()
      modifies session, session.queue
      ensures session.Valid() && ListsOnce(gone, old(Topics()) - topics.Keys)
      ensures events == Unsubscriptions(gone)
      ensures session.stores == old(session.stores) - Scopes(gone)
    {
      hide SessionInv, SessionView;
      gone, events := [], [];
      var rest := set a | a in session.stores && a.Some? && a.value !in topics :: a.value;
      ghost var all := rest;
      assert all == Topics() - topics.Keys;
      while rest != {}
        invariant session.Valid() && rest <= all
        invariant ListsOnce(gone, all - rest) && events == Unsubscriptions(gone)
        invariant session.stores == old(session.stores) - Scopes(gone)
      {
        var name :| name in rest;
        events := events + [TopicEvent.Unsubscribed(name)];
        ghost var frames := session.RemoveTopicHandle(name);
        ListsOneMore(gone, all, rest, name);
        gone := gone + [name];
        rest := rest - {name};
      }
    }

    /** Create a handle for every announced topic that has none. */
    method AddTopics(topics: map<string, int>) returns (events: seq<TopicEvent>, ghost added: seq<string>)
      requires session.Valid()
      modifies session
      ensures session.Valid() && ListsOnce(added, topics.Keys - old(Topics()))
      ensures events == Subscriptions(added)
      ensures session.stores.Keys == old(session.stores.Keys) + Scopes(added)
      ensures forall a :: a in old(session.stores) ==> a in session.stores && session.stores[a] == old(session.stores)[a]
      ensures forall n :: n in added && topics[n] >= 0 ==> session.stores[Some(n)].wirePrefix == Prefix(topics[n])
    {
      hide SessionInv, SessionView, Prefix;
      added, events := [], [];
      var rest := set n | n in topics && Some(n) !in session.stores;
      ghost var all := rest;
      assert all == topics.Keys - Topics() by { TopicsAre(); }
      while rest != {}
        invariant session.Valid() && rest <= all && all <= topics.Keys
        invariant ListsOnce(added, all - rest) && events == Subscriptions(added)
        invariant session.stores.Keys == old(session.stores.Keys) + Scopes(added)
        invariant forall n :: n in rest ==> Some(n) !in session.stores
        invariant forall a :: a in old(session.stores) ==> a in session.stores && session.stores[a] == old(session.stores)[a]
        invariant forall n :: n in added && topics[n] >= 0 ==> session.stores[Some(n)].wirePrefix == Prefix(topics[n])
      {
        var name :| name in rest;
        ghost var frames := AddTopic(name, topics[name]);
        events := events + [TopicEvent.Subscribed(name)];
        ListsOneMore(added, all, rest, name);
        added := added + [name];
        rest := rest - {name};
      }
    }

    lemma TopicsAre()
      ensures forall n :: n in Topics() <==> Some(n) in session.stores
    {
      NamesAre(session.stores.Keys);
    }

    method AddTopic(name: string, wireIndex: int) returns (ghost frames: seq<Frame>)
      requires session.Valid() && Some(name) !in session.stores
      modifies session
      ensures session.Valid() && Some(name) in session.stores
      ensures session.stores == old(session.stores)[Some(name) := session.stores[Some(name)]]
      ensures wireIndex >= 0 ==> session.stores[Some(name)].wirePrefix == Prefix(wireIndex)
    {
      hide SessionInv, Prefix;
      ghost var before := session.Spaces();
      var index := session.TakeIndex(wireIndex);
      assert session.Spaces() == before;
      frames := session.CreateTopicHandle(name, index);
    }

    /** processTopicSync: afterwards the session has exactly the announced topics;
        the callbacks fired are one unsubscribe for every dropped topic and then
        one subscribe for every new one; topics that stay keep their data. A path
        whose index cannot be read aborts the whole sync and changes nothing. */
    method ProcessTopicSync() returns (r: Result<seq<TopicEvent>>, ghost gone: seq<string>, ghost added: seq<string>)
      requires session.Valid()
      modifies session, session.queue
      ensures session.Valid() && Keys() == old(Keys()) && (r.Err? <==> Unreadable(Keys()))
      ensures r.Err? ==> session.stores == old(session.stores)
      ensures r.Ok? ==> Topics() == Announced(Keys())
      ensures r.Ok? ==> ListsOnce(gone, old(Topics()) - Topics()) && ListsOnce(added, Topics() - old(Topics()))
      ensures r.Ok? ==> r.value == Unsubscriptions(gone) + Subscriptions(added)
      ensures r.Ok? ==> forall n :: n in old(Topics()) && n in Topics() ==>
                Some(n) in session.stores && Some(n) in old(session.stores)
                && session.stores[Some(n)] == old(session.stores)[Some(n)]
      ensures r.Ok? ==> forall n :: n in added ==> (Some(n) in session.stores &&
                exists idx :: IndexedBy(Keys(), n, idx) && (idx >= 0 ==> session.stores[Some(n)].wirePrefix == Prefix(idx)))
    {
      hide SessionInv, SessionView, Prefix, Announced, IndexedBy, Unreadable, ListsOnce, NamesOf, Scopes;
      gone, added := [], [];
      ghost var k, before := Keys(), session.Spaces();
      TopicsAre();
      var topics := ReadTopics();
      assert session.Spaces() == before;
      if topics.Err? {
        r := Err(topics.error);
        return;
      }
      var fired, more;
      fired, gone := DropTopics(topics.value);
      TopicsAre();
      assert Keys() == k;
      more, added := AddTopics(topics.value);
      TopicsAre();
      Diffed(old(session.stores.Keys), topics.value.Keys, gone, added);
      assert forall n :: n in added ==> IndexedBy(k, n, topics.value[n]);
      forall n | n in old(Topics()) && n in Topics() ensures Some(n) in old(session.stores) && Some(n) !in Scopes(gone) {
        Kept(old(session.stores.Keys), topics.value.Keys, gone, n);
      }
      r := Ok(fired + more);
    }

    // ---------- A whole announcement ----------

    /** The frames of an announcement before its ClientSync, one by one. */
    method NoteFrames(frames: seq<Frame>)
      requires forall f :: f in frames ==> f.frameType in {CLIENT_RESET, CLIENT_KEY_REGISTRATION, CLIENT_VALUE}
      modifies this`clientRegistry, this`clientValues, clientRegistry
      ensures Keys() == NoteAll(old(Keys()), frames)
      ensures clientRegistry == old(clientRegistry) || fresh(clientRegistry)
    {
      hide Note;
      ghost var before := Keys();
      for i := 0 to |frames|
        invariant Keys() == NoteAll(before, frames[..i])
        invariant clientRegistry == old(clientRegistry) || fresh(clientRegistry)
      {
        assert frames[..i + 1][..i] == frames[..i];
        var noted := NoteFrame(frames[i]);
      }
      assert frames[..|frames|] == frames;
    }

    lemma PrefixKeys()
      ensures Prefixes().Keys == Topics()
      ensures forall n :: n in Topics() ==> Some(n) in session.stores && Prefixes()[n] == session.stores[Some(n)].wirePrefix
    {
      TopicsAre();
    }

    /** The wire prefix of each topic. */
    ghost function Prefixes(): map<string, string>
      reads this, session
    {
      map a | a in session.stores && a.Some? :: a.value := session.stores[a].wirePrefix
    }

    /** The server handles the frames of a client's announcement one by one: the session ends with exactly the client's topics, whatever topics and
        keys it had before. One unsubscribe for each old minus new name, one
        subscribe for each new minus old name; a new handle has the client's index,
        a kept one keeps its prefix. */
    method HandleAnnouncement(frames: seq<Frame>, ghost subs: seq<Subscription>)
      returns (r: Result<seq<TopicEvent>>, ghost gone: seq<string>, ghost added: seq<string>)
      requires session.Valid() && frames == TopicSyncFrames(subs) && SubsOk(subs) && NoNameLike(subs)
      modifies this`clientRegistry, this`clientValues, clientRegistry, session, session.queue
      ensures session.Valid() && r.Ok? && Topics() == Names(subs)
      ensures ListsOnce(gone, old(Topics()) - Names(subs)) && ListsOnce(added, Names(subs) - old(Topics()))
      ensures r.value == Unsubscriptions(gone) + Subscriptions(added)
      ensures Renumbered(old(Prefixes()), Prefixes(), subs)
      ensures clientRegistry == old(clientRegistry) || fresh(clientRegistry)
    {
      hide SessionInv, SessionView, Prefix, Announced, IndexedBy, Unreadable, ListsOnce, NamesOf, Scopes, SubsOk, NoNameLike, Renumbered,
           TopicSyncFrames;
      ghost var k, before, prefixes := Keys(), session.Spaces(), Prefixes();
      PrefixKeys();
      NoteAnnouncement(frames, subs);
      assert session.Spaces() == before;
      SubscriptionRoundTrip(k, subs);
      r, gone, added := ProcessTopicSync();
      PrefixKeys();
      RenumberedBy(k, prefixes, Prefixes(), subs, added);
    }

    /** All of them but the ClientSync. */
    method NoteAnnouncement(frames: seq<Frame>, ghost subs: seq<Subscription>)
      requires frames == TopicSyncFrames(subs)
      modifies this`clientRegistry, this`clientValues, clientRegistry
      ensures Keys() == AfterSync(old(Keys()), subs)
      ensures clientRegistry == old(clientRegistry) || fresh(clientRegistry)
    {
      hide TopicSyncFrames, Note, NoteAll;
      AnnouncementFrames(Keys(), subs);
      NoteFrames(frames[..|frames| - 1]);
    }
  }

  /** The prefixes before and after an announcement: kept topics keep theirs, new
      ones get their index in it. */
  ghost predicate Renumbered(before: map<string, string>, after: map<string, string>, subs: seq<Subscription>) {
    && after.Keys == Names(subs)
    && (forall n :: n in before && n in after ==> after[n] == before[n])
    && (forall i :: 0 <= i < |subs| && subs[i].name !in before ==> subs[i].name in after && after[subs[i].name] == Prefix(i))
  }

  lemma IsAdded(subs: seq<Subscription>, i: nat, added: seq<string>, before: set<string>)
    requires i < |subs| && ListsOnce(added, Names(subs) - before) && subs[i].name !in before
    ensures subs[i].name in added
  {
  }

  lemma RenumberedBy(k: ClientKeys, before: map<string, string>, after: map<string, string>, subs: seq<Subscription>, added: seq<string>)
    requires SubsOk(subs) && NoNameLike(subs) && after.Keys == Names(subs) && ListsOnce(added, Names(subs) - before.Keys)
    requires forall n :: n in before && n in after ==> after[n] == before[n]
    requires forall n :: n in added ==> (n in after &&
      exists idx :: IndexedBy(AfterSync(k, subs), n, idx) && (idx >= 0 ==> after[n] == Prefix(idx)))
    ensures Renumbered(before, after, subs)
  {
    hide SubsOk, NoNameLike, IndexedBy, AfterSync, Prefix, ListsOnce;
    forall i | 0 <= i < |subs| && subs[i].name !in before
      ensures subs[i].name in after && after[subs[i].name] == Prefix(i)
    {
      IsAdded(subs, i, added, before.Keys);
      var idx :| IndexedBy(AfterSync(k, subs), subs[i].name, idx) && (idx >= 0 ==> after[subs[i].name] == Prefix(idx));
      IndexedByClient(k, subs, i, idx);
    }
  }

  /** Only the client's own index announces a name. */
  lemma IndexedByClient(k: ClientKeys, subs: seq<Subscription>, i: nat, idx: int)
    requires SubsOk(subs) && NoNameLike(subs) && i < |subs| && IndexedBy(AfterSync(k, subs), subs[i].name, idx)
    ensures idx == i
  {
    hide IndexedBy, SubsOk, NoNameLike, AfterSync;
    SubscriptionRoundTrip(k, subs);
    OneIndex(subs, i, idx);
  }

  lemma OneIndex(subs: seq<Subscription>, i: nat, j: int)
    requires SubsOk(subs) && i < |subs| && 0 <= j < |subs| && subs[i].name == subs[j].name
    ensures i == j
  {
    hide PathsValid;
  }

  /** The announcement, its ClientSync aside, is what the server notes down. */
  lemma AnnouncementFrames(k: ClientKeys, subs: seq<Subscription>)
    ensures
      var frames := TopicSyncFrames(subs);
      && |frames| > 0 && NoteAll(k, frames[..|frames| - 1]) == AfterSync(k, subs)
      && forall f :: f in frames[..|frames| - 1] ==> f.frameType in {CLIENT_RESET, CLIENT_KEY_REGISTRATION, CLIENT_VALUE}
  {
    hide SyncPairs;
    var frames := TopicSyncFrames(subs);
    assert frames[|frames| - 1] == CLIENT_SYNC_FRAME;
  }

  /** No two topics share a wire prefix. */
  ghost predicate PrefixesApart(prefixes: map<string, string>) {
    forall m, n :: m in prefixes && n in prefixes && prefixes[m] == prefixes[n] ==> m == n
  }

  /** The client renumbers its topics, the server does not: after an announcement
      the prefixes are still distinct if and only if no kept handle has the prefix
      that a new name is announced under. */
  lemma PrefixesStayApartIff(before: map<string, string>, after: map<string, string>, subs: seq<Subscription>)
    requires SubsOk(subs) && PrefixesApart(before) && Renumbered(before, after, subs)
    ensures PrefixesApart(after) <==>
      forall n, i :: n in before && n in Names(subs) && 0 <= i < |subs| && subs[i].name !in before ==> before[n] != Prefix(i)
  {
    hide Prefix, PathsValid, SyncPairs;
    if PrefixesApart(after) {
      forall n, i | n in before && n in Names(subs) && 0 <= i < |subs| && subs[i].name !in before ensures before[n] != Prefix(i) {
        assert after[n] == before[n] && after[subs[i].name] == Prefix(i);
      }
    } else {
      var m, n :| m in after && n in after && after[m] == after[n] && m != n;
      var i :| 0 <= i < |subs| && subs[i].name == m;
      var j :| 0 <= j < |subs| && subs[j].name == n;
      if m !in before && n !in before {
        PairsCount(subs, 0);
        PrefixDiffers(i, j);
      }
    }
  }

  lemma PrefixDiffers(i: nat, j: nat)
    requires i < 0x8000_0000 && j < 0x8000_0000 && Prefix(i) == Prefix(j)
    ensures i == j
  {
    hide Prefix;
    PrefixInjective(i, "", j, "");
  }

  /** No parameter key looks like a topic name. */
  ghost predicate NoNameLike(subs: seq<Subscription>) {
    forall i, key, v :: 0 <= i < |subs| && (key, v) in subs[i].params ==> !NameLike(key)
  }

  ghost function Scopes(names: seq<string>): set<Scope> {
    set n | n in names :: Some(n)
  }

  lemma ListsOneMore(names: seq<string>, all: set<string>, rest: set<string>, name: string)
    requires rest <= all && name in rest && ListsOnce(names, all - rest)
    ensures ListsOnce(names + [name], all - (rest - {name}))
    ensures Scopes(names + [name]) == Scopes(names) + {Some(name)}
    ensures Subscriptions(names + [name]) == Subscriptions(names) + [TopicEvent.Subscribed(name)]
    ensures Unsubscriptions(names + [name]) == Unsubscriptions(names) + [TopicEvent.Unsubscribed(name)]
  {
    assert all - (rest - {name}) == (all - rest) + {name};
    assert (names + [name])[|names|] == name;
    forall n | n in names ensures n in names + [name] {
      var i :| 0 <= i < |names| && names[i] == n;
      assert (names + [name])[i] == n;
    }
  }

  /** The diff is exact: dropping what is not announced and adding what is new leaves the announced names. */
  lemma Diffed(before: set<Scope>, now: set<string>, gone: seq<string>, added: seq<string>)
    requires ListsOnce(gone, NamesOf(before) - now) && ListsOnce(added, now - NamesOf(before - Scopes(gone)))
    ensures NamesOf(before - Scopes(gone) + Scopes(added)) == now
    ensures ListsOnce(added, now - NamesOf(before))
  {
    var mid := before - Scopes(gone);
    NamesAre(before);
    NamesAre(mid);
    NamesAre(mid + Scopes(added));
    assert forall n :: Some(n) in Scopes(gone) <==> n in gone;
    assert forall n :: Some(n) in Scopes(added) <==> n in added;
    assert now - NamesOf(mid) == now - NamesOf(before);
  }

  lemma Kept(before: set<Scope>, now: set<string>, gone: seq<string>, n: string)
    requires ListsOnce(gone, NamesOf(before) - now) && n in NamesOf(before) && n in now
    ensures Some(n) in before && Some(n) !in Scopes(gone)
  {
    NamesAre(before);
  }

  ghost function NamesOf(scopes: set<Scope>): set<string> {
    set a | a in scopes && a.Some? :: a.value
  }

  lemma NamesAre(scopes: set<Scope>)
    ensures forall n :: n in NamesOf(scopes) <==> Some(n) in scopes
  {
    forall n | Some(n) in scopes ensures n in NamesOf(scopes) {
      assert Some(n).value == n;
    }
  }

  // ---------- Loop steps ----------

  /** What the first loop has collected from the paths outside rest. */
  ghost predicate ReadSoFar(k: ClientKeys, rest: set<string>, topics: map<string, int>) {
    && (forall p, n :: p in k.reg.pathToId && p !in rest && Announces(k, p, n) ==> n in topics && Stoi(IndexText(p)).Some?)
    && (forall n :: n in topics ==> IndexedBy(k, n, topics[n]))
  }

  lemma ReadOne(k: ClientKeys, rest: set<string>, topics: map<string, int>, path: string, name: string, idx: int)
    requires ReadSoFar(k, rest, topics) && path in rest && path in k.reg.pathToId
    requires Announces(k, path, name) && Stoi(IndexText(path)) == Some(idx)
    ensures ReadSoFar(k, rest - {path}, topics[name := idx])
  {
    hide IsNamePath, Stoi, GetByPath;
    assert IndexedBy(k, name, idx);
    forall n | Announces(k, path, n) ensures n == name {
    }
  }

  lemma SkipOne(k: ClientKeys, rest: set<string>, topics: map<string, int>, path: string)
    requires ReadSoFar(k, rest, topics) && path in rest && Silent(k, path)
    ensures ReadSoFar(k, rest - {path}, topics)
  {
    hide IsNamePath, Stoi, GetByPath;
  }

  lemma ReadAll(k: ClientKeys, topics: map<string, int>)
    requires ReadSoFar(k, {}, topics)
    ensures Reads(k, topics) && !Unreadable(k)
  {
    hide IsNamePath, Stoi, GetByPath;
    forall n | n in topics ensures n in Announced(k) {
      assert IndexedBy(k, n, topics[n]);
      var p :| p in k.reg.pathToId && Announces(k, p, n);
      AnnouncedHas(k, p, n);
    }
  }

  // ---------- The round trip ----------

  /** The client's announcement read back by the server, whatever it remembered
      before: when no parameter key looks like a name, exactly the subscribed
      names, every index readable, and each name under the client's own index. */
  lemma SubscriptionRoundTrip(k: ClientKeys, subs: seq<Subscription>)
    requires SubsOk(subs)
    requires NoNameLike(subs)
    ensures Announced(AfterSync(k, subs)) == Names(subs) && !Unreadable(AfterSync(k, subs))
    ensures forall name, idx :: IndexedBy(AfterSync(k, subs), name, idx) ==> 0 <= idx < |subs| && subs[idx].name == name
  {
    hide SubsOk, AfterSync, Announced, IsNamePath, Stoi, Announces, NameLike;
    NamesAgreeIff(k, subs);
    var after := AfterSync(k, subs);
    forall p, name | p in after.reg.pathToId && Announces(after, p, name)
      ensures IsNamePath(p) && Stoi(IndexText(p)).Some?
      ensures 0 <= Stoi(IndexText(p)).value < |subs| && subs[Stoi(IndexText(p)).value].name == name
    {
      AnnouncingIsNamePath(after, p, name);
      var i := SyncIndex(k, subs, p, name);
    }
  }

  lemma AnnouncingIsNamePath(k: ClientKeys, p: string, name: string)
    requires Announces(k, p, name)
    ensures IsNamePath(p)
  {
    hide IsNamePath, GetByPath;
  }

  // ---------- Two handles on one prefix ----------

  const ONLY_B: seq<Subscription> := [Subscription("b", [])]

  /** Names come in the map's order, so the second subscription takes index 0. */
  const A_AND_B: seq<Subscription> := [Subscription("a", []), Subscription("b", [])]

  lemma PlainSubscriptions()
    ensures SubsOk(ONLY_B) && SubsOk(A_AND_B) && NoNameLike(ONLY_B) && NoNameLike(A_AND_B)
    ensures Names(ONLY_B) == {"b"} && Names(A_AND_B) == {"a", "b"}
  {
    hide ValidPath;
    LiteralPaths();
    PlainPairs();
  }

  lemma PlainPairs()
    ensures SyncPairs(ONLY_B, 0) == [("topic.0.name", Str("b"))]
    ensures SyncPairs(A_AND_B, 0) == [("topic.0.name", Str("a")), ("topic.1.name", Str("b"))]
  {
    assert NatToString(0) == "0" && NatToString(1) == "1";
    assert NamePath(0) == "topic.0.name" && NamePath(1) == "topic.1.name";
    assert A_AND_B[1..] == [Subscription("b", [])];
  }

  lemma SecondTakesFirstPrefix(start: map<string, string>, one: map<string, string>, both: map<string, string>)
    requires start == map[] && Renumbered(start, one, ONLY_B) && Renumbered(one, both, A_AND_B)
    ensures "a" in both && "b" in both && both["a"] == both["b"] == Prefix(0)
  {
    hide Prefix;
    PlainSubscriptions();
    assert ONLY_B[0].name == "b" && A_AND_B[0].name == "a";
  }

  /** Subscribing b and later a as well puts both on the first prefix. */
  method RenumberingCollides() returns (a: string, b: string)
    ensures a == b == Prefix(0)
  {
    hide SubsOk, NoNameLike, SessionInv, SessionView, ListsOnce, Prefix, Renumbered, TopicSyncFrames;
    PlainSubscriptions();
    var session := new DanWebSocketSession();
    var server := new TopicConnection(session);
    ghost var start := server.Prefixes();
    assert start == map[];
    var first, gone, added := server.HandleAnnouncement(TopicSyncFrames(ONLY_B), ONLY_B);
    ghost var one := server.Prefixes();
    var second, gone', added' := server.HandleAnnouncement(TopicSyncFrames(A_AND_B), A_AND_B);
    SecondTakesFirstPrefix(start, one, server.Prefixes());
    server.PrefixKeys();
    return session.stores[Some("a")].wirePrefix, session.stores[Some("b")].wirePrefix;
  }
}
