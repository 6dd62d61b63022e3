/** Key paths and the bidirectional id/path registry (key_registry.cpp). */
module KeyRegistry {
  import opened Types

  const MAX_KEYS: nat := 10000
  const MAX_KEY_PATH_BYTES: nat := 200

  predicate WordChar(c: char) {
    'a' <= c <= 'z' || 'A' <= c <= 'Z' || '0' <= c <= '9' || c == '_'
  }

  /** Word characters in non-empty segments separated by single dots. */
  predicate PathGrammar(s: string) {
    && s != "" && s[0] != '.' && s[|s| - 1] != '.'
    && (forall i :: 0 <= i < |s| ==> WordChar(s[i]) || s[i] == '.')
    && (forall i :: 0 < i < |s| && s[i] == '.' ==> s[i - 1] != '.')
  }

  /** The digits, the capital letters, the underscore and the small letters, by their ASCII codes. */
  lemma WordChars(c: char)
    ensures WordChar(c) <==> 48 <= c as int <= 57 || 65 <= c as int <= 90 || c as int == 95 || 97 <= c as int <= 122
  {
  }

  /** Word+ ( dot Word+ )*, read from the left. */
  predicate Matches(s: string)
    decreases |s|
  {
    var n := WordRun(s);
    n > 0 && (n == |s| || (s[n] == '.' && Matches(s[n + 1..])))
  }

  function WordRun(s: string): (n: nat)
    ensures n <= |s| && (forall i :: 0 <= i < n ==> WordChar(s[i])) && (n < |s| ==> !WordChar(s[n]))
  {
    if s != "" && WordChar(s[0]) then 1 + WordRun(s[1..]) else 0
  }

  /** The predicate is the regular expression. */
  lemma {:induction false} GrammarIsRegex(s: string)
    ensures PathGrammar(s) <==> Matches(s)
    decreases |s|
  {
    hide WordChar;
    DotIsNoWord();
    var n := WordRun(s);
    if n < |s| && s[n] == '.' {
      var rest := s[n + 1..];
      GrammarIsRegex(rest);
      if PathGrammar(s) { SuffixInGrammar(s, n); }
      if Matches(s) { PrefixInGrammar(s, n); }
    }
  }

  lemma DotIsNoWord()
    ensures !WordChar('.')
  {
  }

  lemma SuffixInGrammar(s: string, n: nat)
    requires PathGrammar(s) && n < |s| && s[n] == '.'
    ensures n > 0 && PathGrammar(s[n + 1..])
  {
    hide WordChar;
    var rest := s[n + 1..];
    assert n + 1 < |s|;
    assert forall i :: 0 <= i < |rest| ==> rest[i] == s[n + 1 + i];
    forall i | 0 < i < |rest| && rest[i] == '.' ensures rest[i - 1] != '.' {
      assert s[n + 1 + i] == '.';
    }
  }

  lemma PrefixInGrammar(s: string, n: nat)
    requires 0 < n < |s| && s[n] == '.' && (forall i :: 0 <= i < n ==> WordChar(s[i])) && PathGrammar(s[n + 1..])
    ensures PathGrammar(s)
  {
    hide WordChar;
    DotIsNoWord();
    var rest := s[n + 1..];
    assert forall i :: n < i < |s| ==> s[i] == rest[i - n - 1];
    forall i | 0 < i < |s| && s[i] == '.' ensures s[i - 1] != '.' {
      if i > n + 1 { assert rest[i - n - 1] == '.' && rest[i - n - 2] == s[i - 1]; }
    }
  }

  predicate ValidPath(s: string) {
    PathGrammar(s) && |s| <= MAX_KEY_PATH_BYTES
  }

  // ---------- Specification ----------

  datatype KeyEntry = KeyEntry(path: string, dtype: DataType, keyId: u32)

  datatype Registry = Registry(byId: map<u32, KeyEntry>, pathToId: map<string, u32>)

  const EMPTY: Registry := Registry(map[], map[])

  function RegisterOne(r: Registry, keyId: u32, path: string, dtype: DataType): Result<Registry> {
    if !ValidPath(path) then Err(InvalidKeyPath)
    else if path !in r.pathToId && |r.byId| >= MAX_KEYS then Err(KeyLimitExceeded)
    else Ok(Registry(r.byId[keyId := KeyEntry(path, dtype, keyId)], r.pathToId[path := keyId]))
  }

  function Remove(r: Registry, keyId: u32): Registry {
    if keyId !in r.byId then r
    else Registry(r.byId - {keyId}, r.pathToId - {r.byId[keyId].path})
  }

  function GetByPath(r: Registry, path: string): Option<KeyEntry> {
    if path in r.pathToId && r.pathToId[path] in r.byId then Some(r.byId[r.pathToId[path]]) else None
  }

  /** A path is refused when it does not match or is longer than 200 bytes, a new one also
      when there are 10000 keys; any other is then found under its path, with this id and type. */
  lemma RegisterRefusesIff(r: Registry, keyId: u32, path: string, dtype: DataType)
    ensures RegisterOne(r, keyId, path, dtype) == Err(InvalidKeyPath) <==> !Matches(path) || |path| > 200
    ensures RegisterOne(r, keyId, path, dtype) == Err(KeyLimitExceeded)
       <==> Matches(path) && |path| <= 200 && path !in r.pathToId && |r.byId| >= 10000
    ensures RegisterOne(r, keyId, path, dtype).Ok? ==>
              GetByPath(RegisterOne(r, keyId, path, dtype).value, path) == Some(KeyEntry(path, dtype, keyId))
    ensures RegisterOne(r, keyId, path, dtype).Err? ==> RegisterOne(r, keyId, path, dtype).error in {InvalidKeyPath, KeyLimitExceeded}
  {
    hide PathGrammar, Matches;
    GrammarIsRegex(path);
  }

  /** The two maps are mutual inverses, and small enough. */
  ghost predicate Inverse(r: Registry) {
    && (forall id :: id in r.byId ==> r.byId[id].keyId == id && r.byId[id].path in r.pathToId
                                      && r.pathToId[r.byId[id].path] == id)
    && (forall p :: p in r.pathToId ==> r.pathToId[p] in r.byId && r.byId[r.pathToId[p]].path == p)
    && |r.byId| <= MAX_KEYS
  }

  /** Id and path are both new, or already belong together. */
  ghost predicate Bindable(r: Registry, keyId: u32, path: string) {
    (keyId !in r.byId && path !in r.pathToId) || (keyId in r.byId && r.byId[keyId].path == path)
  }

  lemma BindableKeepsInverse(r: Registry, keyId: u32, path: string, dtype: DataType)
    requires Inverse(r) && RegisterOne(r, keyId, path, dtype).Ok? && Bindable(r, keyId, path)
    ensures Inverse(RegisterOne(r, keyId, path, dtype).value)
  {
    hide ValidPath, PathGrammar;
    MapSize(r.byId, keyId, KeyEntry(path, dtype, keyId));
  }

  lemma MapSize<K, V>(m: map<K, V>, k: K, v: V)
    ensures |m[k := v]| == if k in m then |m| else |m| + 1
  {
    assert m[k := v].Keys == m.Keys + {k};
  }

  lemma RebindingBreaksInverse(r: Registry, keyId: u32, path: string, dtype: DataType)
    requires Inverse(r) && RegisterOne(r, keyId, path, dtype).Ok? && !Bindable(r, keyId, path)
    ensures !Inverse(RegisterOne(r, keyId, path, dtype).value)
  {
    hide ValidPath, PathGrammar;
    var r' := RegisterOne(r, keyId, path, dtype).value;
    if keyId in r.byId {
      var lost := r.byId[keyId].path;
      assert lost in r'.pathToId && r'.pathToId[lost] == keyId && r'.byId[keyId].path != lost;
    } else {
      var other := r.pathToId[path];
      assert other in r'.byId && r'.byId[other].path == path && r'.pathToId[path] != other;
    }
  }

  /** The exact frame discipline the registry relies on: a registration keeps
      the maps inverse if and only if id and path are both new, or already
      belong together. */
  lemma RegisterKeepsInverseIff(r: Registry, keyId: u32, path: string, dtype: DataType)
    requires Inverse(r) && RegisterOne(r, keyId, path, dtype).Ok?
    ensures Inverse(RegisterOne(r, keyId, path, dtype).value) <==> Bindable(r, keyId, path)
  {
    hide *;
    if Bindable(r, keyId, path) {
      BindableKeepsInverse(r, keyId, path, dtype);
    } else {
      RebindingBreaksInverse(r, keyId, path, dtype);
    }
  }

  lemma RemoveKeepsInverse(r: Registry, keyId: u32)
    requires Inverse(r)
    ensures Inverse(Remove(r, keyId))
    ensures keyId in r.byId ==> |Remove(r, keyId).byId| == |r.byId| - 1
  {
    if keyId in r.byId {
      assert Remove(r, keyId).byId.Keys == r.byId.Keys - {keyId};
    }
  }

  /** A lookup by path in an inverse registry is the entry with that path. */
  lemma GetByPathIsInverse(r: Registry, path: string)
    requires Inverse(r)
    ensures GetByPath(r, path).Some? <==> exists id :: id in r.byId && r.byId[id].path == path
    ensures GetByPath(r, path).Some? ==> GetByPath(r, path).value.path == path
  {
  }

  /** Inverse maps have the same size. */
  lemma {:induction false} SameSize(r: Registry)
    requires Inverse(r)
    ensures |r.byId| == |r.pathToId|
    decreases |r.byId|
  {
    if r.byId == map[] {
      assert r.pathToId.Keys == {};
    } else {
      var id :| id in r.byId;
      RemoveKeepsInverse(r, id);
      SameSize(Remove(r, id));
      assert Remove(r, id).pathToId.Keys == r.pathToId.Keys - {r.byId[id].path};
    }
  }

  // ---------- The class ----------

  class DanKeyRegistry {
    var byId: map<u32, KeyEntry>
    var pathToId: map<string, u32>

    ghost function Model(): Registry
      reads this
    {
      Registry(byId, pathToId)
    }

    constructor ()
      ensures Model() == EMPTY
    {
      byId, pathToId := map[], map[];
    }

    method Register(keyId: u32, path: string, dtype: DataType) returns (r: Result<()>)
      modifies this
      ensures match RegisterOne(old(Model()), keyId, path, dtype)
        case Ok(m) => r == Ok(()) && Model() == m
        case Err(e) => r == Err(e) && Model() == old(Model())
    {
      if !ValidPath(path) {
        return Err(InvalidKeyPath);
      }
      if path !in pathToId {
        if |byId| >= MAX_KEYS {
          return Err(KeyLimitExceeded);
        }
      }
      byId := byId[keyId := KeyEntry(path, dtype, keyId)];
      pathToId := pathToId[path := keyId];
      return Ok(());
    }

    method FindByPath(path: string) returns (r: Option<KeyEntry>)
      ensures r == GetByPath(Model(), path)
    {
      if path !in pathToId {
        return None;
      }
      if pathToId[path] !in byId {
        return None;
      }
      return Some(byId[pathToId[path]]);
    }

    method RemoveByKeyId(keyId: u32) returns (removed: bool)
      modifies this
      ensures Model() == Remove(old(Model()), keyId) && removed == (keyId in old(byId))
    {
      if keyId !in byId {
        return false;
      }
      pathToId := pathToId - {byId[keyId].path};
      byId := byId - {keyId};
      return true;
    }

    method Clear()
      modifies this
      ensures Model() == EMPTY
    {
      byId := map[];
      pathToId := map[];
    }
  }
}
