/** Topic subscription: what sendTopicSync announces (client.cpp) and what
    processTopicSync reads back from it (server.cpp). */
module TopicSync {
  import opened Types
  import opened KeyRegistry
  import opened TopicPath
  import opened Client
  import VarDecimal

  // ---------- The server's copy of the client's keys ----------

  datatype ClientKeys = ClientKeys(reg: Registry, values: map<u32, Payload>)

  const NO_KEYS: ClientKeys := ClientKeys(EMPTY, map[])

  /** handleClientTopicFrame, all frames but ClientSync. */
  function Note(k: ClientKeys, f: Frame): ClientKeys {
    if f.frameType == CLIENT_RESET then NO_KEYS
    else if f.frameType == CLIENT_KEY_REGISTRATION then
      (if f.payload.Str? then
         (match RegisterOne(k.reg, f.keyId, f.payload.text, f.dataType)
          case Ok(reg) => k.(reg := reg)
          case Err(_) => k)
       else k)
    else if f.frameType == CLIENT_VALUE then k.(values := k.values[f.keyId := f.payload])
    else k
  }

  function NoteAll(k: ClientKeys, frames: seq<Frame>): ClientKeys {
    if frames == [] then k else Note(NoteAll(k, frames[..|frames| - 1]), frames[|frames| - 1])
  }

  /** Only a reset makes the server forget: any other frame, refused ones included,
      keeps every path it has and every value but that of its own id. */
  lemma OnlyResetForgets(k: ClientKeys, f: Frame)
    ensures f.frameType == CLIENT_RESET ==> Note(k, f) == NO_KEYS
    ensures f.frameType != CLIENT_RESET ==>
              && (forall p :: p in k.reg.pathToId ==> p in Note(k, f).reg.pathToId)
              && (forall id :: id in k.values ==> id in Note(k, f).values && (id != f.keyId ==> Note(k, f).values[id] == k.values[id]))
  {
    hide ValidPath;
  }

  // ---------- Reading topics out of the keys ----------

  predicate EndsWithName(p: string) { |p| >= 5 && p[|p| - 5..] == ".name" }

  /** `topic.<index>.name`, as the server tests for it: prefix and suffix only. */
  predicate IsNamePath(p: string) {
    |p| > 6 && p[..6] == "topic." && EndsWithName(p)
  }

  /** The text between `topic.` and the final `.name`; substr runs to the end when they overlap. */
  function IndexText(p: string): string
    requires IsNamePath(p)
  {
    if |p| >= 11 then p[6..|p| - 5] else p[6..]
  }

  /** A path that names a topic: a name path with a stored, non-empty string. */
  predicate Announces(k: ClientKeys, p: string, name: string) {
    && IsNamePath(p) && name != ""
    && GetByPath(k.reg, p).Some? && GetByPath(k.reg, p).value.keyId in k.values
    && k.values[GetByPath(k.reg, p).value.keyId] == Str(name)
  }

  /** The topic names processTopicSync finds. */
  ghost function Announced(k: ClientKeys): set<string> {
    set p, name | p in k.reg.pathToId && name in AllTexts(k.values) && Announces(k, p, name) :: name
  }

  ghost function AllTexts(values: map<u32, Payload>): set<string> {
    set id | id in values && values[id].Str? :: values[id].text
  }

  lemma AnnouncedHas(k: ClientKeys, p: string, name: string)
    requires p in k.reg.pathToId && Announces(k, p, name)
    ensures name in Announced(k)
  {
    hide IsNamePath, GetByPath;
    assert k.values[GetByPath(k.reg, p).value.keyId].text in AllTexts(k.values);
  }

  // ---------- The client's announcement as the server stores it ----------

  type Pairs = seq<(string, Payload)>

  ghost predicate DistinctPaths(pairs: Pairs) {
    forall i, j :: 0 <= i < j < |pairs| ==> pairs[i].0 != pairs[j].0
  }

  ghost predicate PathsValid(pairs: Pairs) {
    forall i :: 0 <= i < |pairs| ==> ValidPath(pairs[i].0)
  }

  ghost function Paths(pairs: Pairs): set<string> {
    set i | 0 <= i < |pairs| :: pairs[i].0
  }

  /** Pair i is registered under its key id, and nothing else is. */
  ghost predicate RegistryHolds(reg: Registry, pairs: Pairs) {
    && |reg.byId| <= |pairs| && reg.pathToId.Keys == Paths(pairs)
    && (forall i :: 0 <= i < |pairs| ==> HeldAt(reg, KeyIdAt(i), pairs[i].0))
  }

  ghost predicate HeldAt(reg: Registry, id: u32, path: string) {
    path in reg.pathToId && reg.pathToId[path] == id && id in reg.byId && reg.byId[id].keyId == id
  }

  ghost predicate ValuesHold(values: map<u32, Payload>, pairs: Pairs) {
    forall i :: 0 <= i < |pairs| ==> KeyIdAt(i) in values && values[KeyIdAt(i)] == pairs[i].1
  }

  lemma KeyIdsDiffer(i: nat, j: nat)
    requires i < j <= MAX_KEYS
    ensures KeyIdAt(i) != KeyIdAt(j)
  {
  }

  lemma PathsStep(pairs: Pairs, n: nat)
    requires n < |pairs| && DistinctPaths(pairs)
    ensures Paths(pairs[..n + 1]) == Paths(pairs[..n]) + {pairs[n].0} && pairs[n].0 !in Paths(pairs[..n])
  {
    assert pairs[..n + 1][n].0 in Paths(pairs[..n + 1]);
    forall p | p in Paths(pairs[..n]) ensures p in Paths(pairs[..n + 1]) {
      var i :| 0 <= i < n && pairs[..n][i].0 == p;
      assert pairs[..n + 1][i].0 == p;
    }
  }

  lemma OneMorePair(reg: Registry, pairs: Pairs, n: nat, dtype: DataType)
    requires n < |pairs| <= MAX_KEYS && DistinctPaths(pairs) && ValidPath(pairs[n].0) && RegistryHolds(reg, pairs[..n])
    ensures RegisterOne(reg, KeyIdAt(n), pairs[n].0, dtype).Ok?
    ensures RegistryHolds(RegisterOne(reg, KeyIdAt(n), pairs[n].0, dtype).value, pairs[..n + 1])
  {
    hide ValidPath, Paths, KeyIdAt;
    PathsStep(pairs, n);
    MapSize(reg.byId, KeyIdAt(n), KeyEntry(pairs[n].0, dtype, KeyIdAt(n)));
    var reg' := RegisterOne(reg, KeyIdAt(n), pairs[n].0, dtype).value;
    forall i | 0 <= i < n ensures HeldAt(reg', KeyIdAt(i), pairs[..n + 1][i].0) {
      assert HeldAt(reg, KeyIdAt(i), pairs[..n][i].0);
      KeyIdsDiffer(i, n);
    }
  }

  lemma {:induction false} KeysNoted(k: ClientKeys, pairs: Pairs, n: nat)
    requires n <= |pairs| <= MAX_KEYS && DistinctPaths(pairs) && PathsValid(pairs) && k == NO_KEYS
    ensures RegistryHolds(NoteAll(k, SyncKeyFrames(pairs)[..n]).reg, pairs[..n])
    ensures NoteAll(k, SyncKeyFrames(pairs)[..n]).values == map[]
  {
    hide RegistryHolds, RegisterOne, DistinctPaths, ValidPath;
    var frames := SyncKeyFrames(pairs)[..n];
    if n == 0 {
      NothingHeld();
    } else {
      KeysNoted(k, pairs, n - 1);
      assert frames[..n - 1] == SyncKeyFrames(pairs)[..n - 1];
      OneMorePair(NoteAll(k, frames[..n - 1]).reg, pairs, n - 1, DetectDataType(pairs[n - 1].1));
    }
  }

  lemma NothingHeld()
    ensures RegistryHolds(EMPTY, [])
  {
  }

  lemma {:induction false} ValuesNoted(k: ClientKeys, pairs: Pairs, n: nat)
    requires n <= |pairs| <= MAX_KEYS
    ensures NoteAll(k, SyncValueFrames(pairs)[..n]).reg == k.reg
    ensures ValuesHold(NoteAll(k, SyncValueFrames(pairs)[..n]).values, pairs[..n])
  {
    hide RegisterOne, KeyIdAt, ValuesHold;
    var frames := SyncValueFrames(pairs)[..n];
    if n > 0 {
      ValuesNoted(k, pairs, n - 1);
      assert frames[..n - 1] == SyncValueFrames(pairs)[..n - 1];
      OneMoreValue(NoteAll(k, frames[..n - 1]).values, pairs, n - 1);
    } else {
      NoValues(NoteAll(k, frames).values);
    }
  }

  lemma NoValues(values: map<u32, Payload>)
    ensures ValuesHold(values, [])
  {
  }

  lemma OneMoreValue(values: map<u32, Payload>, pairs: Pairs, n: nat)
    requires n < |pairs| <= MAX_KEYS && ValuesHold(values, pairs[..n])
    ensures ValuesHold(values[KeyIdAt(n) := pairs[n].1], pairs[..n + 1])
  {
    hide KeyIdAt;
    forall i | 0 <= i < n ensures KeyIdAt(i) in values && values[KeyIdAt(i)] == pairs[i].1 && KeyIdAt(i) != KeyIdAt(n) {
      assert pairs[..n][i] == pairs[i];
      KeyIdsDiffer(i, n);
    }
  }

  lemma {:induction false} NoteConcat(k: ClientKeys, a: seq<Frame>, b: seq<Frame>)
    ensures NoteAll(k, a + b) == NoteAll(NoteAll(k, a), b)
    decreases b
  {
    hide Note;
    if b == [] {
      assert a + b == a;
    } else {
      NoteConcat(k, a, b[..|b| - 1]);
      assert (a + b)[..|a + b| - 1] == a + b[..|b| - 1];
    }
  }

  lemma NoteOne(k: ClientKeys, f: Frame)
    ensures NoteAll(k, [f]) == Note(k, f)
  {
    hide Note;
    assert [f][..0] == [];
  }

  /** The whole announcement, frame by frame, on a server that remembers anything. */
  lemma SyncNoted(k: ClientKeys, pairs: Pairs, frames: seq<Frame>)
    requires |pairs| <= MAX_KEYS && DistinctPaths(pairs) && PathsValid(pairs)
    requires frames == [CLIENT_RESET_FRAME] + SyncKeyFrames(pairs) + SyncValueFrames(pairs) + [CLIENT_SYNC_FRAME]
    ensures RegistryHolds(NoteAll(k, frames).reg, pairs) && ValuesHold(NoteAll(k, frames).values, pairs)
  {
    hide RegistryHolds, ValuesHold, DistinctPaths, PathsValid, NoteAll, SyncKeyFrames, SyncValueFrames, RegisterOne;
    var keys, values := SyncKeyFrames(pairs), SyncValueFrames(pairs);
    NoteConcat(k, [CLIENT_RESET_FRAME] + keys + values, [CLIENT_SYNC_FRAME]);
    NoteConcat(k, [CLIENT_RESET_FRAME] + keys, values);
    NoteConcat(k, [CLIENT_RESET_FRAME], keys);
    NoteOne(k, CLIENT_RESET_FRAME);
    KeysNoted(NO_KEYS, pairs, |pairs|);
    assert keys[..|pairs|] == keys && pairs[..|pairs|] == pairs && values[..|pairs|] == values;
    var noted := NoteAll(NO_KEYS, keys);
    ValuesNoted(noted, pairs, |pairs|);
    NoteOne(NoteAll(noted, values), CLIENT_SYNC_FRAME);
  }

  /** What the stored announcement names: the non-empty strings at name paths. */
  lemma AnnouncedPairs(k: ClientKeys, pairs: Pairs, name: string)
    requires RegistryHolds(k.reg, pairs) && ValuesHold(k.values, pairs)
    ensures name in Announced(k) <==> exists i :: 0 <= i < |pairs| && IsNamePath(pairs[i].0) && name != "" && pairs[i].1 == Str(name)
  {
    hide IsNamePath;
    if name in Announced(k) {
      var p :| p in k.reg.pathToId && Announces(k, p, name);
      var i :| 0 <= i < |pairs| && pairs[i].0 == p;
      assert IsNamePath(pairs[i].0) && pairs[i].1 == Str(name);
    }
    if i :| 0 <= i < |pairs| && IsNamePath(pairs[i].0) && name != "" && pairs[i].1 == Str(name) {
      assert Announces(k, pairs[i].0, name);
      AnnouncedHas(k, pairs[i].0, name);
    }
  }

  // ---------- Paths ----------

  lemma NamePathIsOne(i: nat)
    requires i < 0x8000_0000
    ensures IsNamePath(NamePath(i)) && Stoi(IndexText(NamePath(i))) == Some(i)
  {
    hide NatToString, Stoi;
    StoiOfNat(i);
    assert NamePath(i)[6..|NamePath(i)| - 5] == NatToString(i);
  }

  /** A parameter path looks like a name path exactly when its key does. */
  lemma ParamPathTest(i: nat, key: string)
    requires key != ""
    ensures IsNamePath(ParamPath(i, key)) <==> key == "name" || EndsWithName(key)
  {
    hide NatToString;
    var p := ParamPath(i, key);
    var head := "topic." + NatToString(i) + ".param.";
    assert p == head + key && p[..6] == "topic.";
    if |key| >= 5 {
      assert p[|p| - 5..] == key[|key| - 5..];
    } else if |key| == 4 {
      assert p[|p| - 5..] == "." + key;
      assert ("." + key)[1..] == key;
    } else {
      assert p[|p| - 5 + (4 - |key|)] == '.';
    }
  }

  lemma StoiIgnoresRest(n: nat, rest: string)
    requires n < 0x8000_0000 && (rest != "" ==> !VarDecimal.IsDigit(rest[0]))
    ensures Stoi(NatToString(n) + rest) == Some(n)
  {
    hide NatToString, Stoi;
    NatRoundTrip(n);
    StoiReads("", "", NatToString(n), rest);
    assert "" + "" + NatToString(n) + rest == NatToString(n) + rest;
  }

  /** A parameter mistaken for a name still carries its topic's index. */
  lemma ParamIndexText(i: nat, key: string)
    requires i < 0x8000_0000 && IsNamePath(ParamPath(i, key))
    ensures Stoi(IndexText(ParamPath(i, key))) == Some(i)
  {
    hide NatToString, Stoi;
    var p, n := ParamPath(i, key), NatToString(i);
    var text := IndexText(p);
    assert |p| >= 6 + |n| + 7 && |n| >= 1;
    assert text == p[6..|p| - 5];
    assert p[6..6 + |n|] == n && p[6 + |n|] == '.';
    assert text[..|n|] == n;
    assert text == n + text[|n|..] && text[|n|] == '.';
    StoiIgnoresRest(i, text[|n|..]);
  }

  // ---------- Subscriptions ----------

  /** Keys the server would take for a topic name: `name` and anything ending in `.name`. */
  predicate NameLike(key: string) { key == "name" || EndsWithName(key) }

  ghost predicate Subscribed(subs: seq<Subscription>, name: string) {
    exists i :: 0 <= i < |subs| && subs[i].name == name
  }

  /** A parameter that the server will read as a topic of this name. */
  ghost predicate Phantom(subs: seq<Subscription>, name: string) {
    exists i, key :: 0 <= i < |subs| && NameLike(key) && (key, Str(name)) in subs[i].params
  }

  /** What the maps and the path rules give: distinct non-empty names, distinct
      non-empty parameter keys, valid paths and no more keys than a registry holds. */
  ghost predicate SubsOk(subs: seq<Subscription>) {
    && (forall i, j :: 0 <= i < j < |subs| ==> subs[i].name != subs[j].name)
    && (forall i :: 0 <= i < |subs| ==> subs[i].name != "" && ParamsOk(subs[i].params))
    && PathsValid(SyncPairs(subs, 0)) && |SyncPairs(subs, 0)| <= MAX_KEYS
  }

  ghost predicate ParamsOk(params: seq<(string, Payload)>) {
    && (forall i :: 0 <= i < |params| ==> params[i].0 != "")
    && (forall i, j :: 0 <= i < j < |params| ==> params[i].0 != params[j].0)
  }

  lemma {:induction false} ParamPairsAre(params: seq<(string, Payload)>, idx: nat)
    ensures |ParamPairs(params, idx)| == |params|
    ensures forall j :: 0 <= j < |params| ==> ParamPairs(params, idx)[j] == (ParamPath(idx, params[j].0), params[j].1)
  {
    hide ParamPath;
    if params != [] {
      ParamPairsAre(params[1..], idx);
    }
  }

  lemma {:induction false} PairsCount(subs: seq<Subscription>, from: nat)
    ensures |SyncPairs(subs, from)| >= |subs|
    decreases subs
  {
    if subs != [] { PairsCount(subs[1..], from + 1); }
  }

  /** A pair of the announcement is a pair of one of its topics. */
  lemma {:induction false} PairOrigin(subs: seq<Subscription>, from: nat, m: nat) returns (i: nat)
    requires m < |SyncPairs(subs, from)|
    ensures i < |subs| && SyncPairs(subs, from)[m] in TopicPairs(subs[i], from + i)
    decreases subs
  {
    hide TopicPairs;
    var head := TopicPairs(subs[0], from);
    if m < |head| {
      i := 0;
    } else {
      i := PairOrigin(subs[1..], from + 1, m - |head|);
      i := i + 1;
    }
  }

  lemma {:induction false} PairIncluded(subs: seq<Subscription>, from: nat, i: nat, pair: (string, Payload))
    requires i < |subs| && pair in TopicPairs(subs[i], from + i)
    ensures pair in SyncPairs(subs, from)
    decreases subs
  {
    hide TopicPairs;
    if i > 0 { PairIncluded(subs[1..], from + 1, i - 1, pair); }
  }

  lemma TopicPairIs(sub: Subscription, idx: nat, pair: (string, Payload))
    requires pair in TopicPairs(sub, idx)
    ensures pair == (NamePath(idx), Str(sub.name))
         || exists j :: 0 <= j < |sub.params| && pair == (ParamPath(idx, sub.params[j].0), sub.params[j].1)
  {
    hide ParamPath, NamePath;
    ParamPairsAre(sub.params, idx);
  }

  // ---------- Distinct paths ----------

  /** The path belongs to topic idx: `topic.`, the printed index, a dot. */
  ghost predicate Under(p: string, idx: nat) {
    && |p| > 6 + |NatToString(idx)| && p[6..6 + |NatToString(idx)|] == NatToString(idx)
    && p[6 + |NatToString(idx)|] == '.'
  }

  lemma TopicPathsUnder(sub: Subscription, idx: nat, m: nat)
    requires m < |TopicPairs(sub, idx)|
    ensures Under(TopicPairs(sub, idx)[m].0, idx)
  {
    hide NatToString;
    ParamPairsAre(sub.params, idx);
  }

  lemma UnderLeads(p: string, i: nat)
    requires Under(p, i)
    ensures LeadingDigits(p[6..]) == NatToString(i)
  {
    hide NatToString;
    var n := NatToString(i);
    LeadingRun(n, p[6 + |n|..]);
    assert p[6..] == n + p[6 + |n|..];
  }

  lemma UnderOne(p: string, i: nat, j: nat)
    requires Under(p, i) && Under(p, j)
    ensures i == j
  {
    hide *;
    UnderLeads(p, i);
    UnderLeads(p, j);
    NatRoundTrip(i);
    NatRoundTrip(j);
  }

  lemma TopicPathsDistinct(sub: Subscription, idx: nat)
    requires ParamsOk(sub.params)
    ensures DistinctPaths(TopicPairs(sub, idx))
  {
    hide NatToString;
    ParamPairsAre(sub.params, idx);
    var n, pairs := |NatToString(idx)|, TopicPairs(sub, idx);
    forall i, j | 0 <= i < j < |pairs| ensures pairs[i].0 != pairs[j].0 {
      assert pairs[j].0 == ParamPath(idx, sub.params[j - 1].0);
      if i == 0 {
        assert NamePath(idx)[7 + n] == 'n' && ParamPath(idx, sub.params[j - 1].0)[7 + n] == 'p';
      } else {
        ParamPathsDiffer(idx, sub.params[i - 1].0, sub.params[j - 1].0);
      }
    }
  }

  lemma ParamPathsDiffer(idx: nat, a: string, b: string)
    requires a != b
    ensures ParamPath(idx, a) != ParamPath(idx, b)
  {
    hide NatToString;
    var n := |"topic." + NatToString(idx) + ".param."|;
    assert ParamPath(idx, a)[n..] == a && ParamPath(idx, b)[n..] == b;
  }

  lemma {:induction false} SyncPathsDistinct(subs: seq<Subscription>, from: nat)
    requires forall i :: 0 <= i < |subs| ==> ParamsOk(subs[i].params)
    ensures DistinctPaths(SyncPairs(subs, from))
    decreases subs
  {
    hide TopicPairs, Under, ParamsOk;
    if subs != [] {
      var head, tail, pairs := TopicPairs(subs[0], from), SyncPairs(subs[1..], from + 1), SyncPairs(subs, from);
      SyncPathsDistinct(subs[1..], from + 1);
      TopicPathsDistinct(subs[0], from);
      forall i, j | 0 <= i < j < |pairs| ensures pairs[i].0 != pairs[j].0 {
        if i < |head| <= j {
          TopicPathsUnder(subs[0], from, i);
          LaterPathUnder(subs[1..], from + 1, j - |head|);
        } else if i >= |head| {
          assert tail[i - |head|].0 != tail[j - |head|].0;
        }
      }
    }
  }

  /** Paths of later topics are not under an earlier index. */
  lemma LaterPathUnder(subs: seq<Subscription>, from: nat, m: nat)
    requires m < |SyncPairs(subs, from)| && from > 0
    ensures !Under(SyncPairs(subs, from)[m].0, from - 1)
  {
    hide TopicPairs, Under, SyncPairs;
    var i := PairOrigin(subs, from, m);
    var p := SyncPairs(subs, from)[m].0;
    var k :| 0 <= k < |TopicPairs(subs[i], from + i)| && TopicPairs(subs[i], from + i)[k] == SyncPairs(subs, from)[m];
    TopicPathsUnder(subs[i], from + i, k);
    if Under(p, from - 1) { UnderOne(p, from + i, from - 1); }
  }

  // ---------- The round trip ----------

  /** What the server holds once it has seen the client's whole announcement. */
  ghost function AfterSync(k: ClientKeys, subs: seq<Subscription>): ClientKeys {
    NoteAll(k, TopicSyncFrames(subs))
  }

  lemma SyncHolds(k: ClientKeys, subs: seq<Subscription>)
    requires SubsOk(subs)
    ensures RegistryHolds(AfterSync(k, subs).reg, SyncPairs(subs, 0)) && ValuesHold(AfterSync(k, subs).values, SyncPairs(subs, 0))
  {
    hide SyncPairs, RegistryHolds, ValuesHold, NoteAll, PathsValid, ParamsOk, SyncKeyFrames, SyncValueFrames;
    SyncPathsDistinct(subs, 0);
    SyncNoted(k, SyncPairs(subs, 0), TopicSyncFrames(subs));
  }

  lemma NamePairAt(subs: seq<Subscription>, i: nat)
    requires i < |subs|
    ensures (NamePath(i), Str(subs[i].name)) in SyncPairs(subs, 0)
  {
    hide NamePath;
    PairIncluded(subs, 0, i, (NamePath(i), Str(subs[i].name)));
  }

  lemma ParamPairAt(subs: seq<Subscription>, i: nat, key: string, value: Payload)
    requires i < |subs| && (key, value) in subs[i].params
    ensures (ParamPath(i, key), value) in SyncPairs(subs, 0)
  {
    hide ParamPath, NamePath;
    ParamPairsAre(subs[i].params, i);
    var j :| 0 <= j < |subs[i].params| && subs[i].params[j] == (key, value);
    assert TopicPairs(subs[i], i)[j + 1] == (ParamPath(i, key), value);
    PairIncluded(subs, 0, i, (ParamPath(i, key), value));
  }

  /** What the server takes for topic names, for any subscriptions: the
      subscribed names and the phantoms, nothing else. */
  lemma SyncAnnounces(k: ClientKeys, subs: seq<Subscription>, name: string)
    requires SubsOk(subs)
    ensures name in Announced(AfterSync(k, subs)) <==> name != "" && (Subscribed(subs, name) || Phantom(subs, name))
  {
    hide SyncPairs, RegistryHolds, ValuesHold, AfterSync, Announced, PathsValid, IsNamePath, NamePath, ParamPath, TopicPairs;
    var pairs := SyncPairs(subs, 0);
    SyncHolds(k, subs);
    PairsCount(subs, 0);
    AnnouncedPairs(AfterSync(k, subs), pairs, name);
    if name in Announced(AfterSync(k, subs)) {
      var m :| 0 <= m < |pairs| && IsNamePath(pairs[m].0) && name != "" && pairs[m].1 == Str(name);
      var i := PairOrigin(subs, 0, m);
      PairNames(subs, i, pairs[m], name);
    }
    if name != "" && Subscribed(subs, name) {
      var i :| 0 <= i < |subs| && subs[i].name == name;
      NamePairAt(subs, i);
      NamePathIsOne(i);
      PairIndex(pairs, NamePath(i), name);
    }
    if name != "" && Phantom(subs, name) {
      var i, key :| 0 <= i < |subs| && NameLike(key) && (key, Str(name)) in subs[i].params;
      ParamPairAt(subs, i, key, Str(name));
      ParamPathTest(i, key);
      PairIndex(pairs, ParamPath(i, key), name);
    }
  }

  lemma PairIndex(pairs: Pairs, path: string, name: string)
    requires (path, Str(name)) in pairs && IsNamePath(path) && name != ""
    ensures exists i :: 0 <= i < |pairs| && IsNamePath(pairs[i].0) && name != "" && pairs[i].1 == Str(name)
  {
    hide IsNamePath;
    var i :| 0 <= i < |pairs| && pairs[i] == (path, Str(name));
    assert IsNamePath(pairs[i].0);
  }

  lemma PairNames(subs: seq<Subscription>, i: nat, pair: (string, Payload), name: string)
    requires SubsOk(subs) && i < |subs| && pair in TopicPairs(subs[i], i) && IsNamePath(pair.0) && pair.1 == Str(name)
    ensures Subscribed(subs, name) || Phantom(subs, name)
  {
    hide IsNamePath, NamePath, ParamPath, TopicPairs, PathsValid, SyncPairs;
    TopicPairIs(subs[i], i, pair);
    if pair != (NamePath(i), Str(subs[i].name)) {
      var j :| 0 <= j < |subs[i].params| && pair == (ParamPath(i, subs[i].params[j].0), subs[i].params[j].1);
      var key := subs[i].params[j].0;
      ParamPathTest(i, key);
      assert (key, Str(name)) == subs[i].params[j];
      assert NameLike(key) && (key, Str(name)) in subs[i].params;
    }
  }

  ghost function Names(subs: seq<Subscription>): set<string> {
    set i | 0 <= i < |subs| :: subs[i].name
  }

  /** The round trip of names is exact: the server ends up with exactly the
      subscribed names if and only if every phantom happens to be one of them. */
  lemma NamesAgreeIff(k: ClientKeys, subs: seq<Subscription>)
    requires SubsOk(subs)
    ensures Announced(AfterSync(k, subs)) == Names(subs) <==>
              forall name :: name != "" && Phantom(subs, name) ==> name in Names(subs)
  {
    hide AfterSync, Announced, Phantom, PathsValid, SyncPairs;
    forall name ensures name in Announced(AfterSync(k, subs)) <==> name in Names(subs) || (name != "" && Phantom(subs, name)) {
      SyncAnnounces(k, subs, name);
      assert name in Names(subs) <==> Subscribed(subs, name);
    }
  }

  /** A client that subscribes to topic a with a parameter called `name`. */
  const NAMED: seq<Subscription> := [Subscription("a", [("name", Str("b"))])]

  /** The server reads a second topic b out of it, whatever it remembered before. */
  lemma NameParameterIsPhantom(k: ClientKeys)
    ensures SubsOk(NAMED) && "b" in Announced(AfterSync(k, NAMED)) && "b" !in Names(NAMED)
  {
    hide AfterSync, Announced, ValidPath, SyncPairs;
    NamedOk();
    assert NameLike("name") && ("name", Str("b")) in NAMED[0].params;
    SyncAnnounces(k, NAMED, "b");
  }

  lemma NamedOk()
    ensures SubsOk(NAMED)
  {
    hide ValidPath, SyncPairs;
    NamedPairs();
    LiteralPaths();
  }

  lemma NamedPairs()
    ensures SyncPairs(NAMED, 0) == [("topic.0.name", Str("a")), ("topic.0.param.name", Str("b"))]
  {
    assert NatToString(0) == "0";
    assert NamePath(0) == "topic.0.name" && ParamPath(0, "name") == "topic.0.param.name";
  }

  lemma LiteralPaths()
    ensures ValidPath("topic.0.name") && ValidPath("topic.1.name") && ValidPath("topic.0.param.name")
  {
  }

  /** Every path that announces a name carries an index the server can read, and
      without name-like parameters it is the client's index of that very topic. */
  lemma SyncIndex(k: ClientKeys, subs: seq<Subscription>, p: string, name: string) returns (i: nat)
    requires SubsOk(subs) && Announces(AfterSync(k, subs), p, name) && p in AfterSync(k, subs).reg.pathToId
    ensures i < |subs| && Stoi(IndexText(p)) == Some(i)
    ensures (forall j, key, v :: 0 <= j < |subs| && (key, v) in subs[j].params ==> !NameLike(key)) ==> subs[i].name == name
  {
    hide SyncPairs, NamePath, ParamPath, TopicPairs, PathsValid, IsNamePath, Stoi, AfterSync;
    var pairs := SyncPairs(subs, 0);
    SyncHolds(k, subs);
    PairsCount(subs, 0);
    var m := HeldPair(AfterSync(k, subs), pairs, p, name);
    i := PairOrigin(subs, 0, m);
    TopicPairIs(subs[i], i, pairs[m]);
    if pairs[m].0 == NamePath(i) {
      NamePathIsOne(i);
    }
    if pairs[m] != (NamePath(i), Str(subs[i].name)) {
      var j :| 0 <= j < |subs[i].params| && pairs[m] == (ParamPath(i, subs[i].params[j].0), subs[i].params[j].1);
      ParamPathTest(i, subs[i].params[j].0);
      ParamIndexText(i, subs[i].params[j].0);
      assert (subs[i].params[j].0, subs[i].params[j].1) in subs[i].params;
    }
  }

  lemma HeldPair(k: ClientKeys, pairs: Pairs, p: string, name: string) returns (m: nat)
    requires RegistryHolds(k.reg, pairs) && ValuesHold(k.values, pairs)
    requires Announces(k, p, name) && p in k.reg.pathToId
    ensures m < |pairs| && pairs[m] == (p, Str(name)) && IsNamePath(p)
  {
    hide IsNamePath, KeyIdAt;
    m :| 0 <= m < |pairs| && pairs[m].0 == p;
    assert HeldAt(k.reg, KeyIdAt(m), pairs[m].0);
  }

  /** The path `topic.name` looks like a name path but has no index: a client that
      announces a name there makes the server throw. */
  lemma PathWithoutIndex()
    ensures IsNamePath("topic.name") && Stoi(IndexText("topic.name")).None?
  {
    assert IndexText("topic.name") == "name";
    assert SkipSpaces("name") == "name" && LeadingDigits("name") == "";
  }
}
