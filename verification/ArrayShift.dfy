/** ArrayShiftLeft and ArrayShiftRight (client.cpp): cells `p.0`, `p.1`, ... and
    `p.length` are separate keys; a shift copies stored cells in place. */
module ArrayShift {
  import opened Types
  import opened KeyRegistry
  import opened TopicPath
  import VarDecimal

  type Store = map<u32, Payload>

  // ---------- Specification ----------

  function CellPath(prefix: string, i: nat): string {
    prefix + "." + NatToString(i)
  }

  /** lengthPath without ".length": substr clamps when the path is shorter. */
  function ArrayPrefix(lengthPath: string): string {
    if |lengthPath| >= 7 then lengthPath[..|lengthPath| - 7] else lengthPath
  }

  function CurrentLength(store: Store, id: u32): int {
    if id in store && store[id].I32? then store[id].i32 else 0
  }

  function Clamp(raw: int, length: int): (s: nat)
    ensures length >= 0 ==> s <= length
  {
    if raw < length then (if raw < 0 then 0 else raw) else (if length < 0 then 0 else length)
  }

  function RawShift(payload: Payload): int {
    if payload.I32? then payload.i32 else 0
  }

  /** One copy of the shift loops: skipped unless both cells are registered and the source is stored. */
  function CopyCell(reg: Registry, store: Store, prefix: string, src: nat, dst: nat): Store {
    var s, d := GetByPath(reg, CellPath(prefix, src)), GetByPath(reg, CellPath(prefix, dst));
    if s.Some? && d.Some? && s.value.keyId in store then store[d.value.keyId := store[s.value.keyId]] else store
  }

  /** Cells 0, 1, ..., n-1 in this order, each from `shift` places to the right. */
  function CopyLeft(reg: Registry, store: Store, prefix: string, shift: nat, n: nat): Store {
    if n == 0 then store
    else CopyCell(reg, CopyLeft(reg, store, prefix, shift, n - 1), prefix, n - 1 + shift, n - 1)
  }

  /** Cells n-1, ..., i in this order, each to `shift` places to the right. */
  function CopyRight(reg: Registry, store: Store, prefix: string, shift: nat, i: nat, n: nat): Store
    requires i <= n
    decreases n - i
  {
    if i == n then store
    else CopyCell(reg, CopyRight(reg, store, prefix, shift, i + 1, n), prefix, i, i + shift)
  }

  function ShiftLeft(reg: Registry, store: Store, id: u32, payload: Payload): Store
    requires id in reg.byId
  {
    var length := CurrentLength(store, id);
    var shift := Clamp(RawShift(payload), length);
    var moved := if length > shift then length - shift else 0;
    CopyLeft(reg, store, ArrayPrefix(reg.byId[id].path), shift, moved)[id := I32(length - shift)]
  }

  function ShiftRight(reg: Registry, store: Store, id: u32, payload: Payload): Store
    requires id in reg.byId
  {
    var length := CurrentLength(store, id);
    var shift := Clamp(RawShift(payload), length);
    if length <= 0 then store
    else CopyRight(reg, store, ArrayPrefix(reg.byId[id].path), shift, 0, length)
  }

  // ---------- Arrays on the client ----------

  /** The first |ids| cells of the array are registered, under these ids. */
  ghost predicate Cells(reg: Registry, prefix: string, ids: seq<u32>) {
    forall i :: 0 <= i < |ids| ==>
      GetByPath(reg, CellPath(prefix, i)).Some? && GetByPath(reg, CellPath(prefix, i)).value.keyId == ids[i]
  }

  ghost predicate Distinct(ids: seq<u32>) {
    forall i, j :: 0 <= i < j < |ids| ==> ids[i] != ids[j]
  }

  /** What the client shows for the array: the length key and that many cells hold a. */
  ghost predicate Shows(store: Store, lengthId: u32, ids: seq<u32>, a: seq<Payload>) {
    && |a| <= |ids| && |a| < 0x8000_0000
    && lengthId in store && store[lengthId] == I32(|a|)
    && forall i :: 0 <= i < |a| ==> ids[i] in store && store[ids[i]] == a[i]
  }

  /** An array of capacity |ids| under the key `prefix.length`. */
  ghost predicate ArrayKeys(reg: Registry, lengthId: u32, prefix: string, ids: seq<u32>) {
    && Inverse(reg) && Cells(reg, prefix, ids)
    && lengthId in reg.byId && reg.byId[lengthId].path == prefix + ".length"
    && |ids| < 0x8000_0000
  }

  lemma CellPathsDiffer(prefix: string, i: nat, j: nat)
    requires CellPath(prefix, i) == CellPath(prefix, j)
    ensures i == j
  {
    hide NatToString;
    assert NatToString(i) == CellPath(prefix, i)[|prefix| + 1..];
    assert NatToString(j) == CellPath(prefix, j)[|prefix| + 1..];
    NatRoundTrip(i);
    NatRoundTrip(j);
  }

  lemma LengthIsNoCell(prefix: string, i: nat)
    ensures CellPath(prefix, i) != prefix + ".length"
  {
    hide NatToString;
    var n := NatToString(i);
    assert VarDecimal.IsDigit(n[0]) && CellPath(prefix, i)[|prefix| + 1] == n[0];
    assert (prefix + ".length")[|prefix| + 1] == 'l';
  }

  lemma CellsDistinct(reg: Registry, lengthId: u32, prefix: string, ids: seq<u32>)
    requires ArrayKeys(reg, lengthId, prefix, ids)
    ensures Distinct(ids) && Outside(lengthId, ids, 0, |ids|)
    ensures ArrayPrefix(reg.byId[lengthId].path) == prefix
  {
    forall i, j | 0 <= i < j < |ids| ensures ids[i] != ids[j] {
      if CellPath(prefix, i) == CellPath(prefix, j) { CellPathsDiffer(prefix, i, j); }
    }
    forall i | 0 <= i < |ids| ensures ids[i] != lengthId {
      LengthIsNoCell(prefix, i);
    }
  }

  // ---------- The copy loops on ids ----------

  ghost predicate Outside(id: u32, ids: seq<u32>, lo: nat, hi: nat)
    requires hi <= |ids|
  {
    forall k :: lo <= k < hi ==> id != ids[k]
  }

  ghost function Copy(store: Store, src: u32, dst: u32): Store {
    if src in store then store[dst := store[src]] else store
  }

  ghost function MoveLeft(store: Store, ids: seq<u32>, shift: nat, n: nat): Store
    requires n + shift <= |ids|
  {
    if n == 0 then store else Copy(MoveLeft(store, ids, shift, n - 1), ids[n - 1 + shift], ids[n - 1])
  }

  ghost function MoveRight(store: Store, ids: seq<u32>, shift: nat, i: nat, n: nat): Store
    requires i <= n && n + shift <= |ids|
    decreases n - i
  {
    if i == n then store else Copy(MoveRight(store, ids, shift, i + 1, n), ids[i], ids[i + shift])
  }

  lemma {:induction false} CopyLeftOnIds(reg: Registry, store: Store, prefix: string, ids: seq<u32>, shift: nat, n: nat)
    requires Cells(reg, prefix, ids) && n + shift <= |ids|
    ensures CopyLeft(reg, store, prefix, shift, n) == MoveLeft(store, ids, shift, n)
  {
    hide GetByPath, CellPath;
    if n > 0 {
      CopyLeftOnIds(reg, store, prefix, ids, shift, n - 1);
    }
  }

  lemma {:induction false} CopyRightOnIds(reg: Registry, store: Store, prefix: string, ids: seq<u32>, shift: nat, i: nat, n: nat)
    requires Cells(reg, prefix, ids) && i <= n && n + shift <= |ids|
    ensures CopyRight(reg, store, prefix, shift, i, n) == MoveRight(store, ids, shift, i, n)
    decreases n - i
  {
    hide GetByPath, CellPath;
    if i < n {
      CopyRightOnIds(reg, store, prefix, ids, shift, i + 1, n);
    }
  }

  ghost predicate Stored(store: Store, ids: seq<u32>, n: nat)
    requires n <= |ids|
  {
    forall i :: 0 <= i < n ==> ids[i] in store
  }

  lemma {:induction false} MoveLeftElsewhere(store: Store, ids: seq<u32>, shift: nat, n: nat, id: u32)
    requires n + shift <= |ids| && Stored(store, ids, n + shift)
    ensures MoveLeft(store, ids, shift, n).Keys == store.Keys
    ensures id in store && Outside(id, ids, 0, n) ==> MoveLeft(store, ids, shift, n)[id] == store[id]
  {
    if n > 0 {
      MoveLeftElsewhere(store, ids, shift, n - 1, id);
    }
  }

  lemma {:induction false} MoveLeftCell(store: Store, ids: seq<u32>, shift: nat, n: nat, i: nat)
    requires n + shift <= |ids| && Stored(store, ids, n + shift) && Distinct(ids) && i < n
    ensures ids[i] in MoveLeft(store, ids, shift, n)
    ensures MoveLeft(store, ids, shift, n)[ids[i]] == store[ids[i + shift]]
  {
    MoveLeftElsewhere(store, ids, shift, n - 1, ids[n - 1 + shift]);
    if i < n - 1 {
      MoveLeftCell(store, ids, shift, n - 1, i);
      assert ids[i] != ids[n - 1];
    }
  }

  lemma {:induction false} MoveRightElsewhere(store: Store, ids: seq<u32>, shift: nat, i: nat, n: nat, id: u32)
    requires i <= n && n + shift <= |ids| && Stored(store, ids, n)
    ensures id in store ==> id in MoveRight(store, ids, shift, i, n)
    ensures Outside(id, ids, i + shift, n + shift) ==>
              (id in store <==> id in MoveRight(store, ids, shift, i, n))
    ensures id in store && Outside(id, ids, i + shift, n + shift) ==> MoveRight(store, ids, shift, i, n)[id] == store[id]
    decreases n - i
  {
    if i < n {
      MoveRightElsewhere(store, ids, shift, i + 1, n, id);
    }
  }

  lemma {:induction false} MoveRightCell(store: Store, ids: seq<u32>, shift: nat, i: nat, n: nat, k: nat)
    requires i <= k < n && n + shift <= |ids| && Stored(store, ids, n) && Distinct(ids)
    ensures ids[k + shift] in MoveRight(store, ids, shift, i, n)
    ensures MoveRight(store, ids, shift, i, n)[ids[k + shift]] == store[ids[k]]
    decreases n - i
  {
    MoveRightElsewhere(store, ids, shift, i + 1, n, ids[i]);
    if k > i {
      MoveRightCell(store, ids, shift, i + 1, n, k);
      assert ids[i + shift] != ids[k + shift];
    }
  }

  // ---------- Theorems ----------

  lemma ShiftLeftUnfolds(reg: Registry, store: Store, lengthId: u32, prefix: string, ids: seq<u32>,
                         a: seq<Payload>, payload: Payload)
    requires ArrayKeys(reg, lengthId, prefix, ids) && Shows(store, lengthId, ids, a)
    ensures Cells(reg, prefix, ids) && |a| <= |ids| && |a| < 0x8000_0000
    ensures
      var s := Clamp(RawShift(payload), |a|);
      ShiftLeft(reg, store, lengthId, payload) == CopyLeft(reg, store, prefix, s, |a| - s)[lengthId := I32(|a| - s)]
  {
    hide CopyLeft, Inverse, Cells, CellPath;
    assert reg.byId[lengthId].path[..|prefix|] == prefix;
  }

  lemma LeftIsMove(reg: Registry, store: Store, lengthId: u32, prefix: string, ids: seq<u32>,
                   a: seq<Payload>, payload: Payload)
    requires ArrayKeys(reg, lengthId, prefix, ids) && Shows(store, lengthId, ids, a)
    ensures
      var s := Clamp(RawShift(payload), |a|);
      ShiftLeft(reg, store, lengthId, payload) == MoveLeft(store, ids, s, |a| - s)[lengthId := I32(|a| - s)]
  {
    hide *;
    ShiftLeftUnfolds(reg, store, lengthId, prefix, ids, a, payload);
    CopyLeftOnIds(reg, store, prefix, ids, Clamp(RawShift(payload), |a|), |a| - Clamp(RawShift(payload), |a|));
  }

  lemma MoveLeftShows(store: Store, lengthId: u32, ids: seq<u32>, a: seq<Payload>, s: nat)
    requires Distinct(ids) && Outside(lengthId, ids, 0, |ids|) && Shows(store, lengthId, ids, a) && s <= |a|
    ensures Shows(MoveLeft(store, ids, s, |a| - s)[lengthId := I32(|a| - s)], lengthId, ids, a[s..])
  {
    hide MoveLeft;
    var moved := MoveLeft(store, ids, s, |a| - s);
    forall i | 0 <= i < |a| - s ensures ids[i] in moved && moved[ids[i]] == a[i + s] && ids[i] != lengthId {
      MoveLeftCell(store, ids, s, |a| - s, i);
    }
  }

  /** A left shift is slicing: the client shows a[clamp(s)..]. */
  lemma ShiftLeftIsSlice(reg: Registry, store: Store, lengthId: u32, prefix: string, ids: seq<u32>,
                         a: seq<Payload>, payload: Payload)
    requires ArrayKeys(reg, lengthId, prefix, ids) && Shows(store, lengthId, ids, a)
    ensures Shows(ShiftLeft(reg, store, lengthId, payload), lengthId, ids, a[Clamp(RawShift(payload), |a|)..])
  {
    hide *;
    CellsDistinct(reg, lengthId, prefix, ids);
    LeftIsMove(reg, store, lengthId, prefix, ids, a, payload);
    MoveLeftShows(store, lengthId, ids, a, Clamp(RawShift(payload), |a|));
  }

  lemma ShowsStored(store: Store, lengthId: u32, ids: seq<u32>, a: seq<Payload>)
    requires Shows(store, lengthId, ids, a)
    ensures |a| <= |ids| && Stored(store, ids, |a|) && lengthId in store
  {
  }

  /** ... and nothing but the moved cells and the length changes. */
  lemma ShiftLeftElsewhere(reg: Registry, store: Store, lengthId: u32, prefix: string, ids: seq<u32>,
                           a: seq<Payload>, payload: Payload, id: u32)
    requires ArrayKeys(reg, lengthId, prefix, ids) && Shows(store, lengthId, ids, a)
    ensures
      var s := Clamp(RawShift(payload), |a|);
      var after := ShiftLeft(reg, store, lengthId, payload);
      && after.Keys == store.Keys
      && (id in store && id != lengthId && Outside(id, ids, 0, |a| - s) ==> after[id] == store[id])
  {
    hide *;
    var s := Clamp(RawShift(payload), |a|);
    ShowsStored(store, lengthId, ids, a);
    LeftIsMove(reg, store, lengthId, prefix, ids, a, payload);
    MoveLeftElsewhere(store, ids, s, |a| - s, id);
  }

  lemma RightIsMove(reg: Registry, store: Store, lengthId: u32, prefix: string, ids: seq<u32>,
                    a: seq<Payload>, payload: Payload)
    requires ArrayKeys(reg, lengthId, prefix, ids) && Shows(store, lengthId, ids, a)
    requires |a| + Clamp(RawShift(payload), |a|) <= |ids|
    ensures ShiftRight(reg, store, lengthId, payload) == MoveRight(store, ids, Clamp(RawShift(payload), |a|), 0, |a|)
    ensures Distinct(ids) && Outside(lengthId, ids, 0, |ids|)
  {
    CellsDistinct(reg, lengthId, prefix, ids);
    hide CopyRight, ArrayPrefix, Inverse;
    CopyRightOnIds(reg, store, prefix, ids, Clamp(RawShift(payload), |a|), 0, |a|);
  }

  /** A right shift touches only the cells from clamp(s) on: the length and every other key stay. */
  lemma ShiftRightElsewhere(reg: Registry, store: Store, lengthId: u32, prefix: string, ids: seq<u32>,
                            a: seq<Payload>, payload: Payload, id: u32)
    requires ArrayKeys(reg, lengthId, prefix, ids) && Shows(store, lengthId, ids, a)
    requires |a| + Clamp(RawShift(payload), |a|) <= |ids|
    ensures
      var s := Clamp(RawShift(payload), |a|);
      var after := ShiftRight(reg, store, lengthId, payload);
      && Outside(lengthId, ids, s, s + |a|)
      && (Outside(id, ids, s, s + |a|) ==> (id in after <==> id in store) && (id in store ==> after[id] == store[id]))
  {
    RightIsMove(reg, store, lengthId, prefix, ids, a, payload);
    hide Cells, Inverse, MoveRight, ShiftRight;
    MoveRightElsewhere(store, ids, Clamp(RawShift(payload), |a|), 0, |a|, id);
  }

  lemma MoveRightShows(store: Store, lengthId: u32, ids: seq<u32>, a: seq<Payload>, s: nat)
    requires Distinct(ids) && Outside(lengthId, ids, 0, |ids|) && Shows(store, lengthId, ids, a)
    requires s <= |a| && |a| + s <= |ids| < 0x8000_0000
    ensures Shows(MoveRight(store, ids, s, 0, |a|)[lengthId := I32(|a| + s)], lengthId, ids, a[..s] + a)
  {
    hide MoveRight;
    var moved := MoveRight(store, ids, s, 0, |a|);
    forall i | 0 <= i < |a| + s ensures ids[i] in moved && moved[ids[i]] == (a[..s] + a)[i] && ids[i] != lengthId {
      if i < s {
        assert Outside(ids[i], ids, s, s + |a|);
        MoveRightElsewhere(store, ids, s, 0, |a|, ids[i]);
      } else {
        MoveRightCell(store, ids, s, 0, |a|, i - s);
      }
    }
  }

  /** A right shift opens a gap: the cells below clamp(s) keep their values and
      the array starts again at clamp(s), as the grown length shows. */
  lemma ShiftRightOpensGap(reg: Registry, store: Store, lengthId: u32, prefix: string, ids: seq<u32>,
                           a: seq<Payload>, payload: Payload)
    requires ArrayKeys(reg, lengthId, prefix, ids) && Shows(store, lengthId, ids, a)
    requires |a| + Clamp(RawShift(payload), |a|) <= |ids|
    ensures
      var s := Clamp(RawShift(payload), |a|);
      Shows(ShiftRight(reg, store, lengthId, payload)[lengthId := I32(|a| + s)], lengthId, ids, a[..s] + a)
  {
    assert |ids| < 0x8000_0000;
    hide *;
    RightIsMove(reg, store, lengthId, prefix, ids, a, payload);
    MoveRightShows(store, lengthId, ids, a, Clamp(RawShift(payload), |a|));
  }

  /** Left shifts compose: what the client shows after s then t is what it shows after s + t. */
  lemma LeftShiftsCompose(reg: Registry, store: Store, lengthId: u32, prefix: string, ids: seq<u32>,
                          a: seq<Payload>, s: i32, t: i32, u: i32)
    requires ArrayKeys(reg, lengthId, prefix, ids) && Shows(store, lengthId, ids, a)
    requires s >= 0 && t >= 0 && u == s + t
    ensures
      var twice := ShiftLeft(reg, ShiftLeft(reg, store, lengthId, I32(s)), lengthId, I32(t));
      var once := ShiftLeft(reg, store, lengthId, I32(u));
      var rest := a[Clamp(u, |a|)..];
      Shows(twice, lengthId, ids, rest) && Shows(once, lengthId, ids, rest)
  {
    hide ShiftLeft, Shows, Inverse, Cells;
    ShiftLeftIsSlice(reg, store, lengthId, prefix, ids, a, I32(s));
    var mid := a[Clamp(s, |a|)..];
    ShiftLeftIsSlice(reg, ShiftLeft(reg, store, lengthId, I32(s)), lengthId, prefix, ids, mid, I32(t));
    ShiftLeftIsSlice(reg, store, lengthId, prefix, ids, a, I32(u));
    assert mid[Clamp(t, |mid|)..] == a[Clamp(u, |a|)..];
  }

  /** Undo: right by s, the new length, then left by s shows the original array. */
  lemma RightThenLeftRestores(reg: Registry, store: Store, lengthId: u32, prefix: string, ids: seq<u32>,
                              a: seq<Payload>, s: i32)
    requires ArrayKeys(reg, lengthId, prefix, ids) && Shows(store, lengthId, ids, a)
    requires 0 <= s <= |a| && |a| + s <= |ids|
    ensures
      var grown := ShiftRight(reg, store, lengthId, I32(s))[lengthId := I32(|a| + s)];
      Shows(ShiftLeft(reg, grown, lengthId, I32(s)), lengthId, ids, a)
  {
    hide ShiftLeft, ShiftRight, Shows, Inverse, Cells;
    ShiftRightOpensGap(reg, store, lengthId, prefix, ids, a, I32(s));
    var grown := ShiftRight(reg, store, lengthId, I32(s))[lengthId := I32(|a| + s)];
    ShiftLeftIsSlice(reg, grown, lengthId, prefix, ids, a[..s] + a, I32(s));
    assert (a[..s] + a)[s..] == a;
  }

  /** A count that is not an int32, or is negative, shifts nothing. */
  lemma NoShift(reg: Registry, store: Store, lengthId: u32, prefix: string, ids: seq<u32>, a: seq<Payload>, payload: Payload)
    requires ArrayKeys(reg, lengthId, prefix, ids) && Shows(store, lengthId, ids, a)
    requires !payload.I32? || payload.i32 <= 0
    ensures Shows(ShiftLeft(reg, store, lengthId, payload), lengthId, ids, a)
    ensures Shows(ShiftRight(reg, store, lengthId, payload), lengthId, ids, a)
  {
    hide ShiftLeft, ShiftRight;
    ShiftLeftIsSlice(reg, store, lengthId, prefix, ids, a, payload);
    ShiftRightOpensGap(reg, store, lengthId, prefix, ids, a, payload);
    ShiftRightElsewhere(reg, store, lengthId, prefix, ids, a, payload, lengthId);
    assert a[0..] == a && a[..0] + a == a;
    var after := ShiftRight(reg, store, lengthId, payload);
    assert after[lengthId := I32(|a|)] == after;
  }

  /** An array without cells: with a length of zero or less nothing changes, and with a
      length that is missing or no int32 a left shift makes it zero. */
  lemma NoCells(reg: Registry, store: Store, id: u32, payload: Payload)
    requires id in reg.byId && (id in store && store[id].I32? ==> store[id].i32 <= 0)
    ensures ShiftRight(reg, store, id, payload) == store
    ensures ShiftLeft(reg, store, id, payload) == if id in store && store[id].I32? then store else store[id := I32(0)]
  {
    assert id in store && store[id].I32? ==> store == store[id := I32(store[id].i32)];
  }

  /** Seven characters are cut off the path of the length key, and none when there are fewer. */
  lemma PrefixCut(prefix: string, tail: string)
    ensures |tail| == 7 ==> ArrayPrefix(prefix + tail) == prefix
    ensures |prefix| < 7 ==> ArrayPrefix(prefix) == prefix
  {
  }
}
