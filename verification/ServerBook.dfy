/** The server's books in the non-topic modes: active and pending sessions, the
    principal index and the session counts (server.cpp, principal_tx.cpp). */
module ServerBook {
  import opened Types
  import opened PrincipalIndex

  const BROADCAST_PRINCIPAL: string := "__broadcast__"

  /** What a run keeps fixed: broadcast or principal mode, enableAuthorization, setMaxConnections. */
  datatype Settings = Settings(broadcast: bool, auth: bool, maxConnections: int)

  /** An InternalSession; the index holds pointers to them, here serial numbers. */
  datatype Internal = Internal(serial: nat, principal: string, connected: bool)

  datatype Book = Book(
    sessions: map<string, Internal>,
    pending: map<string, Internal>,
    index: Index,
    counts: map<string, int>,
    made: nat)

  const EMPTY_BOOK: Book := Book(map[], map[], map[], map[], 0)

  // ---------- Operations ----------

  function Effective(s: Settings, principal: string): string {
    if s.broadcast then BROADCAST_PRINCIPAL else principal
  }

  function DefaultPrincipal(s: Settings): string {
    if s.broadcast then BROADCAST_PRINCIPAL else "default"
  }

  function CountOf(counts: map<string, int>, p: string): int {
    if p in counts then counts[p] else 0
  }

  function RemoveSession(counts: map<string, int>, p: string): map<string, int> {
    if p !in counts then counts
    else if counts[p] - 1 <= 0 then counts - {p}
    else counts[p := counts[p] - 1]
  }

  /** authorize on the session, then activateSession. */
  function Activate(s: Settings, b: Book, uuid: string, serial: nat, principal: string): Book {
    var p := Effective(s, principal);
    b.(sessions := b.sessions[uuid := Internal(serial, principal, true)],
       index := IndexAdd(b.index, p, serial),
       counts := b.counts[p := CountOf(b.counts, p) + 1])
  }

  predicate Full(s: Settings, b: Book) {
    s.maxConnections > 0 && |b.sessions| + |b.pending| >= s.maxConnections
  }

  /** handleIdentified. For a uuid still active this is the reconnection
      branch, with the old socket no longer open. */
  function Identify(s: Settings, b: Book, uuid: string): Book {
    if uuid in b.sessions then
      var known := b.sessions[uuid];
      if s.auth then
        b.(pending := b.pending[uuid := known.(connected := true)], sessions := b.sessions - {uuid})
      else
        Activate(s, b, uuid, known.serial, if known.principal == "" then DefaultPrincipal(s) else known.principal)
    else if Full(s, b) then b
    else if s.auth then b.(pending := b.pending[uuid := Internal(b.made, "", true)], made := b.made + 1)
    else Activate(s, b.(made := b.made + 1), uuid, b.made, DefaultPrincipal(s))
  }

  function Authorize(s: Settings, b: Book, uuid: string, principal: string): Result<Book> {
    if principal == "" then Err(InvalidPrincipal)
    else if uuid !in b.pending then Ok(b)
    else Ok(Activate(s, b.(pending := b.pending - {uuid}), uuid, b.pending[uuid].serial, principal))
  }

  function Reject(b: Book, uuid: string): Book { b.(pending := b.pending - {uuid}) }

  /** handleSessionDisconnect. */
  function Disconnect(s: Settings, b: Book, uuid: string): Book {
    if uuid !in b.sessions then b.(pending := b.pending - {uuid})
    else
      var gone := b.sessions[uuid];
      var p := Effective(s, gone.principal);
      if !gone.connected then b
      else if gone.principal == "" then b.(sessions := b.sessions - {uuid})
      else b.(sessions := b.sessions - {uuid},
              index := IndexRemove(b.index, p, gone.serial), counts := RemoveSession(b.counts, p))
  }

  datatype Step =
    | Identified(uuid: string)
    | Authorized(uuid: string, principal: string)
    | Rejected(uuid: string)
    | Disconnected(uuid: string)

  /** A refused authorize changes nothing. */
  function Next(s: Settings, b: Book, step: Step): Book {
    match step
    case Identified(u) => Identify(s, b, u)
    case Authorized(u, p) => (match Authorize(s, b, u, p) case Ok(b') => b' case Err(_) => b)
    case Rejected(u) => Reject(b, u)
    case Disconnected(u) => Disconnect(s, b, u)
  }

  function After(s: Settings, steps: seq<Step>): Book {
    if steps == [] then EMPTY_BOOK else Next(s, After(s, steps[..|steps| - 1]), steps[|steps| - 1])
  }

  // ---------- Limits ----------

  /** No uuid is both active and pending; without authorization none is pending. */
  ghost predicate Settled(s: Settings, b: Book) {
    b.sessions.Keys !! b.pending.Keys && (!s.auth ==> b.pending == map[])
  }

  /** Settled, and together they respect the limit. */
  ghost predicate WithinLimits(s: Settings, b: Book) {
    && Settled(s, b)
    && (s.maxConnections > 0 ==> |b.sessions| + |b.pending| <= s.maxConnections)
  }

  lemma Sizes<V>(m: map<string, V>, k: string, v: V)
    ensures |m[k := v]| == if k in m then |m| else |m| + 1
    ensures |m - {k}| == if k in m then |m| - 1 else |m|
  {
    assert m[k := v].Keys == m.Keys + {k};
    assert (m - {k}).Keys == m.Keys - {k};
  }

  lemma IdentifyWithinLimits(s: Settings, b: Book, uuid: string)
    requires WithinLimits(s, b)
    ensures WithinLimits(s, Identify(s, b, uuid))
  {
    hide Activate;
    var b' := Identify(s, b, uuid);
    if uuid in b.sessions && s.auth {
      Sizes(b.pending, uuid, b.sessions[uuid].(connected := true));
      Sizes(b.sessions, uuid, b.sessions[uuid]);
    } else if uuid in b.sessions {
      var known := b.sessions[uuid];
      ActivateSizes(s, b, uuid, known.serial, if known.principal == "" then DefaultPrincipal(s) else known.principal);
    } else if s.auth {
      Sizes(b.pending, uuid, Internal(b.made, "", true));
    } else {
      ActivateSizes(s, b.(made := b.made + 1), uuid, b.made, DefaultPrincipal(s));
    }
  }

  lemma ActivateSizes(s: Settings, b: Book, uuid: string, serial: nat, principal: string)
    ensures
      var b' := Activate(s, b, uuid, serial, principal);
      && b'.sessions.Keys == b.sessions.Keys + {uuid} && b'.pending == b.pending
      && |b'.sessions| == if uuid in b.sessions then |b.sessions| else |b.sessions| + 1
  {
    Sizes(b.sessions, uuid, Internal(serial, principal, true));
  }

  lemma StepWithinLimits(s: Settings, b: Book, step: Step)
    requires WithinLimits(s, b)
    ensures WithinLimits(s, Next(s, b, step))
  {
    hide WithinLimits, Identify, Authorize, Reject, Disconnect;
    match step
    case Identified(u) => IdentifyWithinLimits(s, b, u);
    case Authorized(u, p) => AuthorizeWithinLimits(s, b, u, p);
    case Rejected(u) => RejectWithinLimits(s, b, u);
    case Disconnected(u) => DisconnectWithinLimits(s, b, u);
  }

  lemma RejectWithinLimits(s: Settings, b: Book, uuid: string)
    requires WithinLimits(s, b)
    ensures WithinLimits(s, Reject(b, uuid))
  {
    Sizes(b.pending, uuid, Internal(0, "", true));
  }

  lemma DisconnectWithinLimits(s: Settings, b: Book, uuid: string)
    requires WithinLimits(s, b)
    ensures WithinLimits(s, Disconnect(s, b, uuid))
  {
    hide IndexRemove, RemoveSession, Effective;
    Sizes(b.pending, uuid, Internal(0, "", true));
    Sizes(b.sessions, uuid, Internal(0, "", true));
  }

  lemma AuthorizeWithinLimits(s: Settings, b: Book, uuid: string, principal: string)
    requires WithinLimits(s, b)
    ensures WithinLimits(s, Next(s, b, Authorized(uuid, principal)))
  {
    hide Activate;
    if principal != "" && uuid in b.pending {
      Sizes(b.pending, uuid, b.pending[uuid]);
      ActivateSizes(s, b.(pending := b.pending - {uuid}), uuid, b.pending[uuid].serial, principal);
    }
  }

  /** In every run, reconnections included. */
  lemma {:induction false} RunWithinLimits(s: Settings, steps: seq<Step>)
    ensures WithinLimits(s, After(s, steps))
    decreases steps
  {
    hide WithinLimits, Next;
    if steps == [] {
      assert WithinLimits(s, EMPTY_BOOK) by { EmptyBook(s); }
    } else {
      RunWithinLimits(s, steps[..|steps| - 1]);
      StepWithinLimits(s, After(s, steps[..|steps| - 1]), steps[|steps| - 1]);
    }
  }

  lemma EmptyBook(s: Settings)
    ensures WithinLimits(s, EMPTY_BOOK) && BookInv(s, EMPTY_BOOK)
  {
  }

  // ---------- Counts ----------

  ghost function Active(s: Settings, b: Book, p: string): set<string> {
    set u | u in b.sessions && Effective(s, b.sessions[u].principal) == p
  }

  ghost function Serials(s: Settings, b: Book, p: string): set<nat> {
    set u | u in b.sessions && Effective(s, b.sessions[u].principal) == p :: b.sessions[u].serial
  }

  /** No two sessions, active or pending, are the same object. */
  ghost predicate Distinct(b: Book) {
    && (forall u :: u in b.sessions ==> b.sessions[u].serial < b.made)
    && (forall u :: u in b.pending ==> b.pending[u].serial < b.made)
    && (forall u, v :: u in b.sessions && v in b.sessions && b.sessions[u].serial == b.sessions[v].serial ==> u == v)
    && (forall u, v :: u in b.sessions && v in b.pending ==> b.sessions[u].serial != b.pending[v].serial)
    && (forall u, v :: u in b.pending && v in b.pending && b.pending[u].serial == b.pending[v].serial ==> u == v)
  }

  /** Active sessions are connected and have a principal. */
  ghost predicate Live(b: Book) {
    forall u :: u in b.sessions ==> b.sessions[u].connected && b.sessions[u].principal != ""
  }

  /** The index holds the active sessions with this effective principal; the count is its size. */
  ghost predicate CountedAt(s: Settings, b: Book, p: string) {
    && Members(b.index, p) == Serials(s, b, p) && CountOf(b.counts, p) == |Members(b.index, p)|
    && (p in b.index ==> b.index[p] != {}) && (p in b.counts ==> b.counts[p] > 0)
  }

  ghost predicate Counted(s: Settings, b: Book) {
    forall p :: CountedAt(s, b, p)
  }

  ghost predicate BookInv(s: Settings, b: Book) {
    Settled(s, b) && Distinct(b) && Live(b) && Counted(s, b)
  }

  lemma ActivateInv(s: Settings, b: Book, uuid: string, serial: nat, principal: string)
    requires BookInv(s, b) && uuid !in b.sessions && uuid !in b.pending && principal != "" && serial < b.made
    requires forall u :: u in b.sessions ==> b.sessions[u].serial != serial
    requires forall u :: u in b.pending ==> b.pending[u].serial != serial
    ensures BookInv(s, Activate(s, b, uuid, serial, principal))
  {
    hide Counted, Effective;
    ActivateCounts(s, b, uuid, serial, principal);
  }

  lemma ActivateSerials(s: Settings, b: Book, uuid: string, serial: nat, principal: string, p: string)
    requires uuid !in b.sessions
    ensures Serials(s, Activate(s, b, uuid, serial, principal), p)
         == Serials(s, b, p) + if p == Effective(s, principal) then {serial} else {}
  {
    hide Effective;
    var b' := Activate(s, b, uuid, serial, principal);
    forall n | n in Serials(s, b, p) ensures n in Serials(s, b', p) {
      var u :| u in b.sessions && Effective(s, b.sessions[u].principal) == p && b.sessions[u].serial == n;
      assert u in b'.sessions && b'.sessions[u] == b.sessions[u];
    }
    assert b'.sessions[uuid] == Internal(serial, principal, true);
  }

  lemma ActivateCounts(s: Settings, b: Book, uuid: string, serial: nat, principal: string)
    requires Counted(s, b) && uuid !in b.sessions
    requires forall u :: u in b.sessions ==> b.sessions[u].serial != serial
    ensures Counted(s, Activate(s, b, uuid, serial, principal))
  {
    hide CountedAt, Activate;
    forall p ensures CountedAt(s, Activate(s, b, uuid, serial, principal), p) {
      ActivateCountAt(s, b, uuid, serial, principal, p);
    }
  }

  lemma ActivateCountAt(s: Settings, b: Book, uuid: string, serial: nat, principal: string, p: string)
    requires CountedAt(s, b, p) && uuid !in b.sessions
    requires forall u :: u in b.sessions ==> b.sessions[u].serial != serial
    ensures CountedAt(s, Activate(s, b, uuid, serial, principal), p)
  {
    hide Effective, Serials, IndexAdd;
    NewSerial(s, b, serial, p);
    AddsTo(b.index, Effective(s, principal), serial, p);
    ActivateSerials(s, b, uuid, serial, principal, p);
  }

  lemma NewSerial(s: Settings, b: Book, serial: nat, p: string)
    requires forall u :: u in b.sessions ==> b.sessions[u].serial != serial
    ensures serial !in Serials(s, b, p)
  {
  }

  /** Adding puts a session into one entry, which is then not empty. */
  lemma AddsTo(index: Index, mine: string, serial: nat, p: string)
    ensures Members(IndexAdd(index, mine, serial), p) == Members(index, p) + if p == mine then {serial} else {}
    ensures serial !in Members(index, p) ==>
      |Members(IndexAdd(index, mine, serial), p)| == |Members(index, p)| + if p == mine then 1 else 0
    ensures (p in index ==> index[p] != {}) && p in IndexAdd(index, mine, serial) ==> IndexAdd(index, mine, serial)[p] != {}
  {
  }

  lemma GoneSerials(s: Settings, b: Book, uuid: string, p: string)
    requires uuid in b.sessions && Distinct(b)
    ensures Serials(s, b.(sessions := b.sessions - {uuid}), p)
         == Serials(s, b, p) - if p == Effective(s, b.sessions[uuid].principal) then {b.sessions[uuid].serial} else {}
  {
    hide Effective;
    var b' := b.(sessions := b.sessions - {uuid});
    forall n | n in Serials(s, b, p) && n != b.sessions[uuid].serial ensures n in Serials(s, b', p) {
      var u :| u in b.sessions && Effective(s, b.sessions[u].principal) == p && b.sessions[u].serial == n;
      assert u in b'.sessions && b'.sessions[u] == b.sessions[u];
    }
  }

  lemma DisconnectCounts(s: Settings, b: Book, uuid: string)
    requires BookInv(s, b) && uuid in b.sessions
    ensures Counted(s, Disconnect(s, b, uuid))
  {
    hide CountedAt, Disconnect;
    forall p ensures CountedAt(s, Disconnect(s, b, uuid), p) {
      DisconnectCountAt(s, b, uuid, p);
    }
  }

  /** Removal takes the session out of one entry and lowers one count. */
  lemma RemovesFrom(index: Index, counts: map<string, int>, mine: string, serial: nat, p: string)
    ensures Members(IndexRemove(index, mine, serial), p) == Members(index, p) - if p == mine then {serial} else {}
    ensures (p in index ==> index[p] != {}) && p in IndexRemove(index, mine, serial) ==>
      IndexRemove(index, mine, serial)[p] != {}
    ensures (p in counts ==> counts[p] > 0) ==>
      && CountOf(RemoveSession(counts, mine), p) == (if p == mine && p in counts then counts[p] - 1 else CountOf(counts, p))
      && (p in RemoveSession(counts, mine) ==> RemoveSession(counts, mine)[p] > 0)
  {
  }

  lemma DisconnectCountAt(s: Settings, b: Book, uuid: string, p: string)
    requires Distinct(b) && Live(b) && uuid in b.sessions && CountedAt(s, b, p)
    ensures CountedAt(s, Disconnect(s, b, uuid), p)
  {
    hide Effective, Distinct, IndexRemove, RemoveSession;
    var mine, serial := Effective(s, b.sessions[uuid].principal), b.sessions[uuid].serial;
    RemovesFrom(b.index, b.counts, mine, serial, p);
    GoneSerials(s, b, uuid, p);
    assert Serials(s, Disconnect(s, b, uuid), p) == Serials(s, b.(sessions := b.sessions - {uuid}), p);
    if p == Effective(s, b.sessions[uuid].principal) {
      assert serial in Serials(s, b, p);
    }
  }

  lemma PendingAside(s: Settings, b: Book, pending: map<string, Internal>, made: nat)
    requires Counted(s, b)
    ensures Counted(s, b.(pending := pending, made := made))
  {
    var b' := b.(pending := pending, made := made);
    forall p ensures CountedAt(s, b', p) {
      assert CountedAt(s, b, p) && Serials(s, b', p) == Serials(s, b, p);
    }
  }

  lemma IdentifyInv(s: Settings, b: Book, uuid: string)
    requires BookInv(s, b) && uuid !in b.sessions
    ensures BookInv(s, Identify(s, b, uuid))
  {
    hide BookInv, Activate, Full;
    if !Full(s, b) {
      if s.auth {
        PendInv(s, b, uuid);
      } else {
        MadeInv(s, b);
        ActivateInv(s, b.(made := b.made + 1), uuid, b.made, DefaultPrincipal(s));
      }
    }
  }

  lemma PendInv(s: Settings, b: Book, uuid: string)
    requires BookInv(s, b) && uuid !in b.sessions && s.auth
    ensures BookInv(s, b.(pending := b.pending[uuid := Internal(b.made, "", true)], made := b.made + 1))
  {
    hide Counted, Distinct;
    PendingAside(s, b, b.pending[uuid := Internal(b.made, "", true)], b.made + 1);
    PendDistinct(b, uuid);
  }

  lemma PendDistinct(b: Book, uuid: string)
    requires Distinct(b) && uuid !in b.sessions
    ensures Distinct(b.(pending := b.pending[uuid := Internal(b.made, "", true)], made := b.made + 1))
  {
  }

  /** A fresh session object. */
  lemma MadeInv(s: Settings, b: Book)
    requires BookInv(s, b)
    ensures BookInv(s, b.(made := b.made + 1)) && (forall u :: u in b.sessions ==> b.sessions[u].serial != b.made)
    ensures (!s.auth ==> b.pending == map[]) && (forall u :: u in b.pending ==> b.pending[u].serial != b.made)
  {
    hide Counted;
    PendingAside(s, b, b.pending, b.made + 1);
  }

  lemma AuthorizeInv(s: Settings, b: Book, uuid: string, principal: string)
    requires BookInv(s, b) && principal != "" && uuid in b.pending
    ensures BookInv(s, Authorize(s, b, uuid, principal).value)
  {
    hide Counted;
    PendingAside(s, b, b.pending - {uuid}, b.made);
    ActivateInv(s, b.(pending := b.pending - {uuid}), uuid, b.pending[uuid].serial, principal);
  }

  lemma DisconnectInv(s: Settings, b: Book, uuid: string)
    requires BookInv(s, b)
    ensures BookInv(s, Disconnect(s, b, uuid))
  {
    hide Counted;
    if uuid in b.sessions {
      DisconnectCounts(s, b, uuid);
    } else {
      PendingAside(s, b, b.pending - {uuid}, b.made);
    }
  }

  /** No step but a reconnection breaks the books. */
  lemma StepKeepsBook(s: Settings, b: Book, step: Step)
    requires BookInv(s, b)
    requires step.Identified? ==> step.uuid !in b.sessions
    ensures BookInv(s, Next(s, b, step))
  {
    hide BookInv, Full;
    match step
    case Identified(u) => IdentifyInv(s, b, u);
    case Authorized(u, p) => if p != "" && u in b.pending { AuthorizeInv(s, b, u, p); }
    case Rejected(u) => RejectInv(s, b, u);
    case Disconnected(u) => DisconnectInv(s, b, u);
  }

  lemma RejectInv(s: Settings, b: Book, uuid: string)
    requires BookInv(s, b)
    ensures BookInv(s, Reject(b, uuid))
  {
    hide Counted;
    PendingAside(s, b, b.pending - {uuid}, b.made);
  }

  /** Every identify is of a uuid that is not active then. */
  ghost predicate FirstTime(s: Settings, steps: seq<Step>) {
    forall i :: 0 <= i < |steps| && steps[i].Identified? ==> steps[i].uuid !in After(s, steps[..i]).sessions
  }

  lemma {:induction false} RunKeepsBook(s: Settings, steps: seq<Step>)
    requires FirstTime(s, steps)
    ensures BookInv(s, After(s, steps))
    decreases steps
  {
    hide BookInv, Next;
    if steps == [] {
      EmptyBook(s);
    } else {
      var n := |steps| - 1;
      forall i | 0 <= i < n ensures steps[..n][..i] == steps[..i] {
      }
      RunKeepsBook(s, steps[..n]);
      StepKeepsBook(s, After(s, steps[..n]), steps[n]);
    }
  }

  /** As many objects as uuids. */
  lemma {:induction false} SameCount(b: Book, uuids: set<string>)
    requires Distinct(b) && uuids <= b.sessions.Keys
    ensures |set u | u in uuids :: b.sessions[u].serial| == |uuids|
    decreases uuids
  {
    var image := set u | u in uuids :: b.sessions[u].serial;
    if uuids == {} {
      assert image == {};
    } else {
      var u :| u in uuids;
      SameCount(b, uuids - {u});
      assert image == (set v | v in uuids - {u} :: b.sessions[v].serial) + {b.sessions[u].serial};
    }
  }

  /** For fixed settings, in every run of first-time identifies, authorizations,
      rejections and disconnects: each principal's session count is the size of
      its index entry and the number of active sessions with that effective
      principal. */
  lemma CountsAreExact(s: Settings, steps: seq<Step>, p: string)
    requires FirstTime(s, steps)
    ensures
      var b := After(s, steps);
      && CountOf(b.counts, p) == |Members(b.index, p)| == |Active(s, b, p)|
      && (p in b.counts <==> Active(s, b, p) != {}) && (p in b.index <==> Active(s, b, p) != {})
  {
    hide Effective, After;
    RunKeepsBook(s, steps);
    var b := After(s, steps);
    SameCount(b, Active(s, b, p));
    assert Serials(s, b, p) == set u | u in Active(s, b, p) :: b.sessions[u].serial;
    assert CountedAt(s, b, p);
  }

  /** Identifying keeps the books if and only if the uuid is not active: a
      reconnection counts its session twice, or leaves it indexed while pending. */
  lemma {:induction false} IdentifyKeepsBookIff(s: Settings, b: Book, uuid: string)
    requires BookInv(s, b)
    ensures BookInv(s, Identify(s, b, uuid)) <==> uuid !in b.sessions
  {
    hide BookInv, Identify;
    if uuid in b.sessions {
      ReconnectBreaks(s, b, uuid);
    } else {
      IdentifyInv(s, b, uuid);
    }
  }

  lemma ReconnectBreaks(s: Settings, b: Book, uuid: string)
    requires BookInv(s, b) && uuid in b.sessions
    ensures !BookInv(s, Identify(s, b, uuid))
  {
    hide Effective;
    var b' := Identify(s, b, uuid);
    var mine, serial := Effective(s, b.sessions[uuid].principal), b.sessions[uuid].serial;
    assert serial in Serials(s, b, mine) && CountedAt(s, b, mine);
    assert b.sessions[uuid].principal != "";
    if s.auth {
      assert b'.index == b.index && serial in Members(b'.index, mine);
      GoneSerials(s, b, uuid, mine);
      assert Serials(s, b', mine) == Serials(s, b.(sessions := b.sessions - {uuid}), mine);
      assert !CountedAt(s, b', mine);
    } else {
      assert b'.index[mine] == b.index[mine] + {serial} == b.index[mine];
      assert CountOf(b'.counts, mine) == CountOf(b.counts, mine) + 1;
      assert !CountedAt(s, b', mine);
    }
  }

  // ---------- What each operation does to its session ----------

  /** b' is b with uuid active for this principal: it joins the sessions counted
      under p, and nothing else changes among the active ones. */
  ghost predicate Joins(s: Settings, b: Book, b': Book, uuid: string, serial: nat, principal: string, p: string) {
    && b'.sessions == b.sessions[uuid := Internal(serial, principal, true)]
    && Active(s, b', p) == Active(s, b, p) + {uuid} && CountOf(b'.counts, p) == CountOf(b.counts, p) + 1
    && Members(b'.index, p) == Members(b.index, p) + {serial}
    && forall q :: q != p ==>
        Active(s, b', q) == Active(s, b, q) && CountOf(b'.counts, q) == CountOf(b.counts, q) && Members(b'.index, q) == Members(b.index, q)
  }

  /** ... and without it. */
  ghost predicate Goes(s: Settings, b: Book, b': Book, uuid: string, serial: nat, p: string) {
    && b'.sessions == b.sessions - {uuid}
    && Active(s, b', p) == Active(s, b, p) - {uuid} && CountOf(b'.counts, p) == CountOf(b.counts, p) - 1
    && Members(b'.index, p) == Members(b.index, p) - {serial}
    && forall q :: q != p ==>
        Active(s, b', q) == Active(s, b, q) && CountOf(b'.counts, q) == CountOf(b.counts, q) && Members(b'.index, q) == Members(b.index, q)
  }

  /** The one name of broadcast mode, or the principal itself. */
  predicate CountedUnder(s: Settings, principal: string, p: string) {
    p == if s.broadcast then "__broadcast__" else principal
  }

  lemma ActivateJoins(s: Settings, b: Book, uuid: string, serial: nat, principal: string, p: string)
    requires uuid !in b.sessions && CountedUnder(s, principal, p)
    ensures Joins(s, b, Activate(s, b, uuid, serial, principal), uuid, serial, principal, p)
  {
    var b' := Activate(s, b, uuid, serial, principal);
    forall q ensures Active(s, b', q) == Active(s, b, q) + if q == p then {uuid} else {} {
    }
  }

  /** authorize takes a pending session to the active ones, as the same object and
      for the principal it was given. */
  lemma AuthorizeMoves(s: Settings, b: Book, uuid: string, principal: string, p: string)
    requires Settled(s, b) && uuid in b.pending && principal != "" && CountedUnder(s, principal, p)
    ensures
      var b' := Next(s, b, Authorized(uuid, principal));
      b'.pending == b.pending - {uuid} && Joins(s, b, b', uuid, b.pending[uuid].serial, principal, p)
  {
    hide Activate, Joins;
    var less := b.(pending := b.pending - {uuid});
    ActivateJoins(s, less, uuid, b.pending[uuid].serial, principal, p);
    JoinsIgnoresPending(s, b, less, Next(s, b, Authorized(uuid, principal)), uuid, b.pending[uuid].serial, principal, p);
    ActivateKeepsPending(s, less, uuid, b.pending[uuid].serial, principal);
  }

  lemma JoinsIgnoresPending(s: Settings, b: Book, less: Book, b': Book, uuid: string, serial: nat, principal: string, p: string)
    requires Joins(s, less, b', uuid, serial, principal, p)
    requires less.sessions == b.sessions && less.index == b.index && less.counts == b.counts
    ensures Joins(s, b, b', uuid, serial, principal, p)
  {
    hide Effective;
    forall q ensures Active(s, less, q) == Active(s, b, q) {
    }
  }

  lemma ActivateKeepsPending(s: Settings, b: Book, uuid: string, serial: nat, principal: string)
    ensures Activate(s, b, uuid, serial, principal).pending == b.pending
  {
  }

  /** It does nothing for a uuid that is not pending, and nothing but fail without a principal. */
  lemma AuthorizeIgnores(s: Settings, b: Book, uuid: string, principal: string)
    requires uuid !in b.pending || principal == ""
    ensures Next(s, b, Authorized(uuid, principal)) == b && (Authorize(s, b, uuid, principal).Err? <==> principal == "")
  {
  }

  /** A new uuid is refused if and only if there is a limit and it is reached;
      otherwise it waits for authorization, or is active at once under the mode's
      default principal, as a new object either way. */
  lemma IdentifyAdmits(s: Settings, b: Book, uuid: string, p: string)
    requires BookInv(s, b) && uuid !in b.sessions
    requires p == if s.broadcast then "__broadcast__" else "default"
    ensures
      var b' := Next(s, b, Identified(uuid));
      if 0 < s.maxConnections <= |b.sessions| + |b.pending| then b' == b
      else if s.auth then b' == b.(pending := b.pending[uuid := Internal(b.made, "", true)], made := b.made + 1)
      else b'.pending == b.pending && b'.made == b.made + 1 && Joins(s, b, b', uuid, b.made, p, p)
  {
    hide BookInv, Activate, Joins;
    var made := b.(made := b.made + 1);
    ActivateJoins(s, made, uuid, b.made, p, p);
    JoinsIgnoresPending(s, b, made, Activate(s, made, uuid, b.made, p), uuid, b.made, p, p);
    ActivateKeeps(s, made, uuid, b.made, p);
  }

  lemma ActivateKeeps(s: Settings, b: Book, uuid: string, serial: nat, principal: string)
    ensures Activate(s, b, uuid, serial, principal).pending == b.pending
    ensures Activate(s, b, uuid, serial, principal).made == b.made
  {
  }

  /** What a reconnection does instead: with authorization the session waits again,
      still indexed and counted; without, it stays active and is counted once more. */
  lemma ReconnectCounts(s: Settings, b: Book, uuid: string, p: string)
    requires BookInv(s, b) && uuid in b.sessions && CountedUnder(s, b.sessions[uuid].principal, p)
    ensures
      var b' := Next(s, b, Identified(uuid));
      if s.auth then b' == b.(pending := b.pending[uuid := b.sessions[uuid]], sessions := b.sessions - {uuid})
      else b' == b.(counts := b.counts[p := CountOf(b.counts, p) + 1])
  {
    hide Distinct;
    assert CountedAt(s, b, p) && b.sessions[uuid].serial in Serials(s, b, p);
    assert b.sessions[uuid].(connected := true) == b.sessions[uuid];
    if !s.auth {
      assert b.sessions[uuid := b.sessions[uuid]] == b.sessions;
      assert Members(b.index, p) + {b.sessions[uuid].serial} == b.index[p];
      assert b.index[p := b.index[p]] == b.index;
    }
  }

  /** reject drops the pending session and touches nothing else. */
  lemma RejectDrops(s: Settings, b: Book, uuid: string)
    ensures uuid !in Next(s, b, Rejected(uuid)).pending
    ensures forall u :: u != uuid && u in b.pending ==>
              u in Next(s, b, Rejected(uuid)).pending && Next(s, b, Rejected(uuid)).pending[u] == b.pending[u]
    ensures Next(s, b, Rejected(uuid)).(pending := b.pending) == b
  {
  }

  /** A disconnect takes an active session out of its principal's books, or drops a
      pending one, and touches nothing else. */
  lemma DisconnectGoes(s: Settings, b: Book, uuid: string, p: string)
    requires BookInv(s, b)
    requires uuid in b.sessions ==> CountedUnder(s, b.sessions[uuid].principal, p)
    ensures
      var b' := Next(s, b, Disconnected(uuid));
      && (uuid in b.sessions ==> b'.pending == b.pending && Goes(s, b, b', uuid, b.sessions[uuid].serial, p))
      && (uuid !in b.sessions ==> b' == b.(pending := b.pending - {uuid}))
  {
    if uuid in b.sessions {
      ActiveGoes(s, b, uuid, p);
    }
  }

  lemma ActiveGoes(s: Settings, b: Book, uuid: string, p: string)
    requires BookInv(s, b) && uuid in b.sessions && CountedUnder(s, b.sessions[uuid].principal, p)
    ensures Disconnect(s, b, uuid).pending == b.pending
    ensures Goes(s, b, Disconnect(s, b, uuid), uuid, b.sessions[uuid].serial, p)
  {
    hide IndexRemove, RemoveSession, Counted, Distinct;
    var b', serial := Disconnect(s, b, uuid), b.sessions[uuid].serial;
    assert Effective(s, b.sessions[uuid].principal) == p;
    forall q ensures Active(s, b', q) == Active(s, b, q) - if q == p then {uuid} else {}
      ensures Members(b'.index, q) == Members(b.index, q) - if q == p then {serial} else {}
      ensures CountOf(b'.counts, q) == CountOf(b.counts, q) - if q == p then 1 else 0
    {
      CountsPositive(s, b, uuid, p, q);
      RemovesFrom(b.index, b.counts, p, serial, q);
    }
  }

  lemma CountsPositive(s: Settings, b: Book, uuid: string, p: string, q: string)
    requires BookInv(s, b) && uuid in b.sessions && Effective(s, b.sessions[uuid].principal) == p
    ensures p in b.counts && (q in b.counts ==> b.counts[q] > 0)
  {
    hide Effective, Distinct;
    assert CountedAt(s, b, p) && CountedAt(s, b, q);
    assert b.sessions[uuid].serial in Serials(s, b, p);
  }

  /** In broadcast mode every session is counted under one name; in principal mode
      under its own principal. */
  lemma CountsByMode(s: Settings, steps: seq<Step>, p: string)
    requires FirstTime(s, steps)
    ensures
      var b := After(s, steps);
      && (s.broadcast ==> CountOf(b.counts, p) == if p == "__broadcast__" then |b.sessions| else 0)
      && (!s.broadcast ==> CountOf(b.counts, p) == |set u | u in b.sessions && b.sessions[u].principal == p|)
  {
    hide After;
    CountsAreExact(s, steps, p);
    var b := After(s, steps);
    assert |b.sessions| == |b.sessions.Keys|;
    assert s.broadcast && p == "__broadcast__" ==> Active(s, b, p) == b.sessions.Keys;
    assert s.broadcast && p != "__broadcast__" ==> Active(s, b, p) == {};
    assert !s.broadcast ==> Active(s, b, p) == set u | u in b.sessions && b.sessions[u].principal == p;
  }

  // ---------- The fields ----------

  class DanServerBook {
    const settings: Settings
    var sessions: map<string, Internal>
    var tmpSessions: map<string, Internal>
    const principalIndex: DanPrincipalIndex
    var sessionCounts: map<string, int>
    var made: nat

    ghost function Model(): Book
      reads this, principalIndex
    {
      Book(sessions, tmpSessions, principalIndex.entries, sessionCounts, made)
    }

    constructor (settings: Settings)
      ensures Model() == EMPTY_BOOK && this.settings == settings && fresh(principalIndex)
    {
      this.settings := settings;
      principalIndex := new DanPrincipalIndex();
      sessions, tmpSessions, sessionCounts, made := map[], map[], map[], 0;
    }

    method CountDown(p: string) returns (last: bool)
      modifies this`sessionCounts
      ensures sessionCounts == RemoveSession(old(sessionCounts), p) && last == (p !in sessionCounts)
    {
      if p !in sessionCounts {
        return true;
      }
      sessionCounts := sessionCounts[p := sessionCounts[p] - 1];
      if sessionCounts[p] <= 0 {
        sessionCounts := sessionCounts - {p};
        return true;
      }
      return false;
    }

    method ActivateSession(uuid: string, serial: nat, principal: string)
      modifies this, principalIndex
      ensures Model() == Activate(settings, old(Model()), uuid, serial, principal)
    {
      sessions := sessions[uuid := Internal(serial, principal, true)];
      var p := if settings.broadcast then BROADCAST_PRINCIPAL else principal;
      sessionCounts := sessionCounts[p := (if p in sessionCounts then sessionCounts[p] else 0) + 1];
      principalIndex.AddSession(p, serial);
    }

    method HandleIdentified(uuid: string)
      modifies this, principalIndex
      ensures Model() == Identify(settings, old(Model()), uuid)
    {
      var total := |sessions| + |tmpSessions|;
      if settings.maxConnections > 0 && uuid !in sessions && total >= settings.maxConnections {
        return;
      }
      if uuid in sessions {
        var existing := sessions[uuid].(connected := true);
        if settings.auth {
          tmpSessions := tmpSessions[uuid := existing];
          sessions := sessions - {uuid};
        } else {
          var p := if existing.principal == "" then DefaultPrincipal(settings) else existing.principal;
          ActivateSession(uuid, existing.serial, p);
        }
        return;
      }
      var serial := made;
      made := made + 1;
      if settings.auth {
        tmpSessions := tmpSessions[uuid := Internal(serial, "", true)];
      } else {
        ActivateSession(uuid, serial, DefaultPrincipal(settings));
      }
    }

    method AuthorizeSession(uuid: string, principal: string) returns (r: Result<()>)
      modifies this, principalIndex
      ensures Model() == Next(settings, old(Model()), Authorized(uuid, principal))
      ensures r == if principal == "" then Err(InvalidPrincipal) else Ok(())
    {
      if principal == "" {
        return Err(InvalidPrincipal);
      }
      if uuid !in tmpSessions {
        return Ok(());
      }
      var found := tmpSessions[uuid];
      tmpSessions := tmpSessions - {uuid};
      ActivateSession(uuid, found.serial, principal);
      return Ok(());
    }

    method RejectSession(uuid: string)
      modifies this
      ensures Model() == Reject(old(Model()), uuid)
    {
      tmpSessions := tmpSessions - {uuid};
    }

    method HandleSessionDisconnect(uuid: string)
      modifies this, principalIndex
      ensures Model() == Disconnect(settings, old(Model()), uuid)
    {
      if uuid !in sessions {
        tmpSessions := tmpSessions - {uuid};
        return;
      }
      var gone := sessions[uuid];
      if !gone.connected {
        return;
      }
      if gone.principal != "" {
        var p := if settings.broadcast then BROADCAST_PRINCIPAL else gone.principal;
        principalIndex.RemoveSession(p, gone.serial);
        var last := CountDown(p);
      }
      sessions := sessions - {uuid};
    }
  }

  /** The fields follow every run of the specification. */
  method Replay(settings: Settings, steps: seq<Step>) returns (counts: map<string, int>, active: nat, waiting: nat)
    ensures counts == After(settings, steps).counts
    ensures active == |After(settings, steps).sessions| && waiting == |After(settings, steps).pending|
    ensures settings.maxConnections > 0 ==> active + waiting <= settings.maxConnections
  {
    hide Next;
    var book := new DanServerBook(settings);
    RunWithinLimits(settings, steps);
    for i := 0 to |steps|
      invariant book.settings == settings && book.Model() == After(settings, steps[..i])
    {
      assert steps[..i + 1][..i] == steps[..i];
      NextCases(settings, book.Model(), steps[i]);
      match steps[i]
      case Identified(u) => book.HandleIdentified(u);
      case Authorized(u, p) => var r := book.AuthorizeSession(u, p);
      case Rejected(u) => book.RejectSession(u);
      case Disconnected(u) => book.HandleSessionDisconnect(u);
    }
    assert steps[..|steps|] == steps;
    return book.sessionCounts, |book.sessions|, |book.tmpSessions|;
  }

  lemma NextCases(s: Settings, b: Book, step: Step)
    ensures step.Identified? ==> Next(s, b, step) == Identify(s, b, step.uuid)
    ensures step.Rejected? ==> Next(s, b, step) == Reject(b, step.uuid)
    ensures step.Disconnected? ==> Next(s, b, step) == Disconnect(s, b, step.uuid)
  {
  }
}
