/**
 * The session middleware of crow/middlewares/session.h with its in-memory store, as a refinement
 * of a plain map from ids to entries.
 */
module SessionCache {

  import opened Wrappers

  // Requests that carry one session id share one cached object, counted by `referrers` and written back
  // to the store when the last of them ends.

  /** `multi_value` */
  datatype Value = Bool(b: bool) | Int(i: int) | Double(d: real) | String(s: string)

  type Entries = map<string, Value>

  predicate SameType(a: Value, b: Value) {
    a.Bool? == b.Bool? && a.Int? == b.Int? && a.Double? == b.Double?
  }

  function Lookup(e: Entries, key: string, fallback: Value): Value {
    if key in e && SameType(e[key], fallback) then e[key] else fallback
  }

  // ----- The plain map -----

  /** What a request works on: nothing yet, a stored session, or entries of its own. */
  datatype Handle = NoSession | Shared(id: string) | Private(entries: Entries)

  datatype Plain = Plain(sessions: map<string, Entries>, handles: map<nat, Handle>)

  datatype Event =
    | Begin(r: nat, id: string)
    | Put(r: nat, key: string, value: Value)
    | Erase(r: nat, key: string)
    | Update(r: nat, key: string, fallback: Value, f: Value -> Value)
    | End(r: nat, newId: string)

  ghost predicate Consistent(p: Plain) {
    forall r :: r in p.handles && p.handles[r].Shared? ==> p.handles[r].id in p.sessions
  }

  /** What the request sees; None before it has a session. */
  function Seen(p: Plain, r: nat): Option<Entries>
    requires r in p.handles && (p.handles[r].Shared? ==> p.handles[r].id in p.sessions)
  {
    match p.handles[r]
    case NoSession => None
    case Shared(id) => Some(p.sessions[id])
    case Private(e) => Some(e)
  }

  function EntriesSeen(p: Plain, r: nat): Entries
    requires r in p.handles && (p.handles[r].Shared? ==> p.handles[r].id in p.sessions)
  {
    match Seen(p, r) case None => map[] case Some(e) => e
  }

  function Write(p: Plain, r: nat, e: Entries): Plain
    requires r in p.handles
  {
    match p.handles[r]
    case Shared(id) => p.(sessions := p.sessions[id := e])
    case _ => p.(handles := p.handles[r := Private(e)])
  }

  ghost predicate InUse(p: Plain, id: string) {
    exists r :: r in p.handles && p.handles[r] == Shared(id)
  }

  /** The caller's side of an event: requests begin once and use their session until they end. */
  ghost predicate Allowed(p: Plain, e: Event) {
    match e
    case Begin(r, id) => r !in p.handles
    case End(r, newId) => r in p.handles && newId != ""
    case _ => e.r in p.handles
  }

  ghost function Step(p: Plain, e: Event): (q: Plain)
    requires Consistent(p) && Allowed(p, e)
    ensures Consistent(q)
  {
    match e
    case Begin(r, id) =>
      p.(handles := p.handles[r := if id != "" && id in p.sessions then Shared(id) else NoSession])
    case Put(r, key, value) => Write(p, r, EntriesSeen(p, r)[key := value])
    case Erase(r, key) => if Seen(p, r).None? then p else Write(p, r, EntriesSeen(p, r) - {key})
    case Update(r, key, fallback, f) =>
      Write(p, r, EntriesSeen(p, r)[key := f(Lookup(EntriesSeen(p, r), key, fallback))])
    case End(r, newId) =>
      // A new session is stored, unless its id is being used by other requests.
      if p.handles[r].Private? && !InUse(p, newId)
      then Plain(p.sessions[newId := p.handles[r].entries], p.handles - {r})
      else p.(handles := p.handles - {r})
  }

  ghost predicate AllAllowed(p: Plain, es: seq<Event>)
    requires Consistent(p)
    decreases |es|
  {
    es == [] || (Allowed(p, es[0]) && AllAllowed(Step(p, es[0]), es[1..]))
  }

  ghost function Run(p: Plain, es: seq<Event>): (q: Plain)
    requires Consistent(p) && AllAllowed(p, es)
    ensures Consistent(q)
    decreases |es|
  {
    if es == [] then p else Run(Step(p, es[0]), es[1..])
  }

  /** Whether the event writes to the stored session `id`. */
  ghost predicate Writes(p: Plain, e: Event, id: string) {
    match e
    case Begin(_, _) => false
    case End(r, newId) => r in p.handles && p.handles[r].Private? && newId == id
    case _ => e.r in p.handles && p.handles[e.r] == Shared(id)
  }

  /** Along a run: no event writes `id`. */
  ghost predicate Untouched(p: Plain, es: seq<Event>, id: string)
    requires Consistent(p) && AllAllowed(p, es)
    decreases |es|
  {
    es == [] || (!Writes(p, es[0], id) && Untouched(Step(p, es[0]), es[1..], id))
  }

  /** Nothing is lost: a session keeps its entries through every run that does not write to
      it, in particular through the end of the request that wrote last. */
  lemma {:induction false} NoUpdateIsLost(p: Plain, es: seq<Event>, id: string)
    requires Consistent(p) && AllAllowed(p, es) && id in p.sessions && Untouched(p, es, id)
    ensures id in Run(p, es).sessions && Run(p, es).sessions[id] == p.sessions[id]
    decreases |es|
  {
    if es != [] {
      NoUpdateIsLost(Step(p, es[0]), es[1..], id);
    }
  }

  /** Requests with one id see each other's writes at once. */
  lemma SharersSeeWrites(p: Plain, e: Event, r: nat)
    requires Consistent(p) && Allowed(p, e) && (e.Put? || e.Update? || e.Erase?)
    requires r in p.handles && p.handles[e.r].Shared? && p.handles[r] == p.handles[e.r]
    ensures Seen(Step(p, e), r) == Seen(Step(p, e), e.r)
    ensures e.Put? ==> Seen(Step(p, e), r) == Some(EntriesSeen(p, r)[e.key := e.value])
  {
  }

  /** The end of a request leaves a stored session alone unless the request's own new session is
      given that session's id while nobody uses it: the id is not compared with the stored ones. */
  lemma StoredSessionStays(p: Plain, r: nat, newId: string, id: string)
    requires Consistent(p) && Allowed(p, End(r, newId)) && id in p.sessions
    ensures id in Step(p, End(r, newId)).sessions
    ensures Step(p, End(r, newId)).sessions[id] == p.sessions[id] <==>
            !(p.handles[r].Private? && newId == id && !InUse(p, id) && p.handles[r].entries != p.sessions[id])
  {
    var q := Step(p, End(r, newId));
    if p.handles[r].Private? && newId == id && !InUse(p, id) {
      assert q.sessions[id] == p.handles[r].entries;
    }
  }

  /** A stored session is replaced by a new one of the same id. */
  lemma StoredSessionIsReplaced()
    ensures exists p: Plain ::
      && Consistent(p) && Allowed(p, End(0, "id")) && "id" in p.sessions && p.sessions["id"] == map["user" := Int(1)]
      && Step(p, End(0, "id")).sessions["id"] == map["user" := Int(2)]
  {
    var p := Plain(map["id" := map["user" := Int(1)]], map[0 := Private(map["user" := Int(2)])]);
    assert Consistent(p) && Allowed(p, End(0, "id"));
    assert !InUse(p, "id");
    assert Step(p, End(0, "id")).sessions["id"] == map["user" := Int(2)];
  }

  // ----- The cache -----

  class CachedSession {
    var sessionId: string
    var entries: Entries
    var dirty: set<string>
    var requestedRefresh: bool
    var referrers: int

    /** `make_shared`: value-initialised. */
    constructor ()
      ensures sessionId == "" && entries == map[] && dirty == {} && !requestedRefresh && referrers == 0
    {
      sessionId, entries, dirty, requestedRefresh, referrers := "", map[], {}, false, 0;
    }

    constructor Loaded(id: string, e: Entries)
      ensures sessionId == id && entries == e && dirty == {} && !requestedRefresh && referrers == 1
    {
      sessionId, entries, dirty, requestedRefresh, referrers := id, e, {}, false, 1;
    }

    /** A request lets a new session go, which gets its id. */
    method LetGoAs(newId: string)
      modifies this`referrers, this`sessionId, this`requestedRefresh
      ensures sessionId == newId && referrers == old(referrers) - 1 && requestedRefresh
    {
      referrers := referrers - 1;
      requestedRefresh := true;
      sessionId := newId;
    }
  }

  // ----- Memory, as a value -----

  datatype Node = Node(id: string, entries: Entries, referrers: int)

  datatype Memory = Memory(
    cache: map<string, CachedSession>,
    store: map<string, Entries>,
    contexts: map<nat, CachedSession?>,
    fields: map<CachedSession, Node>)

  ghost function Holders(m: Memory, n: CachedSession): set<nat> {
    set r | r in m.contexts && m.contexts[r] == n
  }

  /** A cached session is counted by the requests that hold it. */
  ghost predicate Counted(m: Memory, id: string) {
    id in m.cache ==>
      && id != "" && id in m.store && m.cache[id] in m.fields
      && m.fields[m.cache[id]].id == id && m.fields[m.cache[id]].referrers == |Holders(m, m.cache[id])| >= 1
  }

  /** Any other held session is new, uncounted and held by one request. */
  ghost predicate CachedOrNew(m: Memory, r: nat) {
    r in m.contexts && m.contexts[r] != null ==>
      var n := m.contexts[r];
      && n in m.fields
      && if m.fields[n].id == "" then m.fields[n].referrers == 0 && Holders(m, n) == {r}
         else m.fields[n].id in m.cache && m.cache[m.fields[n].id] == n
  }

  ghost predicate WellCounted(m: Memory) {
    && (forall id {:trigger Counted(m, id)} :: Counted(m, id))
    && (forall r {:trigger CachedOrNew(m, r)} :: CachedOrNew(m, r))
  }

  /** The session `id` is where the plain map says, in the cache or in the store. */
  ghost predicate SessionShown(m: Memory, p: Plain, id: string) {
    id in m.store ==>
      && id in p.sessions
      && p.sessions[id] ==
           if id in m.cache && m.cache[id] in m.fields then m.fields[m.cache[id]].entries else m.store[id]
  }

  function HandleOf(m: Memory, n: CachedSession?): Handle {
    if n == null || n !in m.fields then NoSession
    else if m.fields[n].id == "" then Private(m.fields[n].entries)
    else Shared(m.fields[n].id)
  }

  ghost predicate HandleShown(m: Memory, p: Plain, r: nat) {
    r in m.contexts ==> r in p.handles && p.handles[r] == HandleOf(m, m.contexts[r])
  }

  /** The memory stands for the plain map. */
  ghost predicate Shows(m: Memory, p: Plain) {
    && p.sessions.Keys == m.store.Keys && p.handles.Keys == m.contexts.Keys && Consistent(p)
    && (forall id {:trigger SessionShown(m, p, id)} :: SessionShown(m, p, id))
    && (forall r {:trigger HandleShown(m, p, r)} :: HandleShown(m, p, r))
  }

  // What the middleware does to the memory, and that it stays well counted and in step with
  // the plain map.

  lemma NotHeld(m: Memory, n: CachedSession)
    requires WellCounted(m) && n !in m.fields
    ensures Holders(m, n) == {}
  {
    forall r ensures r !in Holders(m, n) {
      assert CachedOrNew(m, r);
    }
  }

  /** A session is in the cache exactly while a request uses it. */
  lemma InUseIsCached(m: Memory, p: Plain, id: string)
    requires WellCounted(m) && Shows(m, p)
    ensures InUse(p, id) <==> id in m.cache
  {
    assert Counted(m, id);
    if id in m.cache {
      var r :| r in Holders(m, m.cache[id]);
      assert HandleShown(m, p, r) && p.handles[r] == Shared(id);
    }
    if InUse(p, id) {
      var r :| r in p.handles && p.handles[r] == Shared(id);
      assert CachedOrNew(m, r) && HandleShown(m, p, r);
    }
  }

  /** A request without a session begins. */
  function Idle(m: Memory, r: nat): Memory {
    m.(contexts := m.contexts[r := null])
  }

  lemma IdleShows(m: Memory, p: Plain, r: nat, id: string)
    requires WellCounted(m) && Shows(m, p)
    requires r !in m.contexts && (id == "" || id !in m.store)
    ensures WellCounted(Idle(m, r)) && Shows(Idle(m, r), Step(p, Begin(r, id)))
  {
    var m', p' := Idle(m, r), Step(p, Begin(r, id));
    assert forall x: CachedSession :: Holders(m', x) == Holders(m, x);
    forall j ensures Counted(m', j) && SessionShown(m', p', j) {
      assert Counted(m, j) && SessionShown(m, p, j);
    }
    forall q ensures CachedOrNew(m', q) && HandleShown(m', p', q) {
      assert CachedOrNew(m, q) && HandleShown(m, p, q);
    }
  }

  /** A request joins others that use its session. */
  function Joined(m: Memory, r: nat, n: CachedSession): Memory
    requires n in m.fields
  {
    m.(contexts := m.contexts[r := n], fields := m.fields[n := m.fields[n].(referrers := m.fields[n].referrers + 1)])
  }

  lemma JoinedHolders(m: Memory, r: nat, n: CachedSession)
    requires r !in m.contexts && n in m.fields
    ensures |Holders(Joined(m, r, n), n)| == |Holders(m, n)| + 1
  {
    var before, after := Holders(m, n), Holders(Joined(m, r, n), n);
    forall q ensures q in after <==> q in before || q == r {
    }
    OneMore(before, after, r);
  }

  lemma OneMore(before: set<nat>, after: set<nat>, r: nat)
    requires r !in before && forall q: nat :: q in after <==> q in before || q == r
    ensures |after| == |before| + 1
  {
    assert after == before + {r};
  }

  lemma JoinedOthers(m: Memory, r: nat, n: CachedSession, x: CachedSession)
    requires n in m.fields && x != n && r !in m.contexts
    ensures Holders(Joined(m, r, n), x) == Holders(m, x)
  {
  }

  lemma JoinedShows(m: Memory, p: Plain, r: nat, id: string, n: CachedSession)
    requires WellCounted(m) && Shows(m, p)
    requires r !in m.contexts && id in m.cache && n == m.cache[id] && n in m.fields
    ensures WellCounted(Joined(m, r, n)) && Shows(Joined(m, r, n), Step(p, Begin(r, id)))
  {
    assert Counted(m, id);
    var m', p' := Joined(m, r, n), Step(p, Begin(r, id));
    JoinedHolders(m, r, n);
    forall j ensures Counted(m', j) && SessionShown(m', p', j) {
      assert Counted(m, j) && SessionShown(m, p, j);
      if j in m.cache && m.cache[j] != n {
        JoinedOthers(m, r, n, m.cache[j]);
      }
    }
    forall q ensures CachedOrNew(m', q) && HandleShown(m', p', q) {
      assert CachedOrNew(m, q) && HandleShown(m, p, q);
      if q in m.contexts && m.contexts[q] != null && m.contexts[q] != n {
        JoinedOthers(m, r, n, m.contexts[q]);
      }
    }
  }

  /** A request takes its session from the store. */
  function Loaded(m: Memory, r: nat, id: string, n: CachedSession, leftover: Entries): Memory
    requires id in m.store
  {
    Memory(m.cache[id := n], m.store[id := leftover], m.contexts[r := n], m.fields[n := Node(id, m.store[id], 1)])
  }

  lemma LoadedHolders(m: Memory, r: nat, id: string, n: CachedSession, leftover: Entries)
    requires WellCounted(m) && r !in m.contexts && id in m.store && n !in m.fields
    ensures Holders(Loaded(m, r, id, n, leftover), n) == {r}
    ensures forall x: CachedSession :: x != n ==> Holders(Loaded(m, r, id, n, leftover), x) == Holders(m, x)
  {
    NotHeld(m, n);
  }

  lemma LoadedShows(m: Memory, p: Plain, r: nat, id: string, n: CachedSession, leftover: Entries)
    requires WellCounted(m) && Shows(m, p)
    requires r !in m.contexts && id != "" && id !in m.cache && id in m.store && n !in m.fields
    ensures WellCounted(Loaded(m, r, id, n, leftover)) && Shows(Loaded(m, r, id, n, leftover), Step(p, Begin(r, id)))
  {
    var m', p' := Loaded(m, r, id, n, leftover), Step(p, Begin(r, id));
    LoadedHolders(m, r, id, n, leftover);
    forall j ensures Counted(m', j) && SessionShown(m', p', j) {
      assert Counted(m, j) && SessionShown(m, p, j);
    }
    forall q ensures CachedOrNew(m', q) && HandleShown(m', p', q) {
      assert CachedOrNew(m, q) && HandleShown(m, p, q);
    }
  }

  /** A request without a session gets an empty one. */
  function WithNew(m: Memory, r: nat, n: CachedSession): Memory {
    m.(contexts := m.contexts[r := n], fields := m.fields[n := Node("", map[], 0)])
  }

  lemma WithNewShows(m: Memory, p: Plain, r: nat, n: CachedSession)
    requires WellCounted(m) && Shows(m, p)
    requires r in m.contexts && m.contexts[r] == null && n !in m.fields
    ensures WellCounted(WithNew(m, r, n)) && Shows(WithNew(m, r, n), Write(p, r, map[]))
  {
    assert HandleShown(m, p, r);
    var m', p' := WithNew(m, r, n), Write(p, r, map[]);
    assert Holders(m', n) == {r} by { NotHeld(m, n); }
    assert forall x: CachedSession :: x != n ==> Holders(m', x) == Holders(m, x);
    forall j ensures Counted(m', j) && SessionShown(m', p', j) {
      assert Counted(m, j) && SessionShown(m, p, j);
    }
    forall q ensures CachedOrNew(m', q) && HandleShown(m', p', q) {
      assert CachedOrNew(m, q) && HandleShown(m, p, q);
    }
  }

  /** The entries of a held session change. */
  function Written(m: Memory, n: CachedSession, e: Entries): Memory
    requires n in m.fields
  {
    m.(fields := m.fields[n := m.fields[n].(entries := e)])
  }

  lemma WrittenShows(m: Memory, p: Plain, r: nat, n: CachedSession, e: Entries)
    requires WellCounted(m) && Shows(m, p)
    requires r in m.contexts && m.contexts[r] == n && n in m.fields
    ensures WellCounted(Written(m, n, e)) && Shows(Written(m, n, e), Write(p, r, e))
  {
    assert CachedOrNew(m, r) && HandleShown(m, p, r);
    var m', p' := Written(m, n, e), Write(p, r, e);
    assert forall x: CachedSession :: Holders(m', x) == Holders(m, x);
    forall j ensures Counted(m', j) && SessionShown(m', p', j) {
      assert Counted(m, j) && SessionShown(m, p, j);
    }
    forall q ensures CachedOrNew(m', q) && HandleShown(m', p', q) {
      assert CachedOrNew(m, q) && HandleShown(m, p, q);
      assert q in m.contexts && m.contexts[q] == n ==> q in Holders(m, n);
    }
  }

  /** A request without a session ends. */
  function Dropped(m: Memory, r: nat): Memory {
    m.(contexts := m.contexts - {r})
  }

  lemma DroppedShows(m: Memory, p: Plain, r: nat, newId: string)
    requires WellCounted(m) && Shows(m, p)
    requires r in m.contexts && m.contexts[r] == null && newId != ""
    ensures WellCounted(Dropped(m, r)) && Shows(Dropped(m, r), Step(p, End(r, newId)))
  {
    assert HandleShown(m, p, r);
    var m', p' := Dropped(m, r), Step(p, End(r, newId));
    assert forall x: CachedSession :: Holders(m', x) == Holders(m, x);
    forall j ensures Counted(m', j) && SessionShown(m', p', j) {
      assert Counted(m, j) && SessionShown(m, p, j);
    }
    forall q ensures CachedOrNew(m', q) && HandleShown(m', p', q) {
      assert CachedOrNew(m, q) && HandleShown(m, p, q);
    }
  }

  /** A request ends while others use its session. */
  function Released(m: Memory, r: nat, n: CachedSession): Memory
    requires n in m.fields
  {
    m.(contexts := m.contexts - {r}, fields := m.fields[n := m.fields[n].(referrers := m.fields[n].referrers - 1)])
  }

  lemma ReleasedShows(m: Memory, p: Plain, r: nat, n: CachedSession, newId: string)
    requires WellCounted(m) && Shows(m, p)
    requires r in m.contexts && m.contexts[r] == n && newId != ""
    requires n in m.fields && m.fields[n].referrers > 1
    ensures WellCounted(Released(m, r, n)) && Shows(Released(m, r, n), Step(p, End(r, newId)))
  {
    assert CachedOrNew(m, r) && HandleShown(m, p, r) && Counted(m, m.fields[n].id);
    var m', p' := Released(m, r, n), Step(p, End(r, newId));
    assert Holders(m', n) == Holders(m, n) - {r};
    assert forall x: CachedSession :: x != n ==> Holders(m', x) == Holders(m, x);
    forall j ensures Counted(m', j) && SessionShown(m', p', j) {
      assert Counted(m, j) && SessionShown(m, p, j);
    }
    forall q ensures CachedOrNew(m', q) && HandleShown(m', p', q) {
      assert CachedOrNew(m, q) && HandleShown(m, p, q);
    }
  }

  /** The last request that uses a cached session ends. */
  function WrittenBack(m: Memory, r: nat, n: CachedSession): Memory
    requires n in m.fields
  {
    var f := m.fields[n];
    Memory(m.cache - {f.id}, m.store[f.id := f.entries], m.contexts - {r},
        m.fields[n := f.(referrers := f.referrers - 1)])
  }

  lemma WrittenBackShows(m: Memory, p: Plain, r: nat, n: CachedSession, newId: string)
    requires WellCounted(m) && Shows(m, p)
    requires r in m.contexts && m.contexts[r] == n && newId != ""
    requires n in m.fields && m.fields[n].referrers <= 1 && m.fields[n].id != ""
    ensures WellCounted(WrittenBack(m, r, n)) && Shows(WrittenBack(m, r, n), Step(p, End(r, newId)))
  {
    assert CachedOrNew(m, r) && HandleShown(m, p, r) && Counted(m, m.fields[n].id);
    OnlyOne(Holders(m, n), r);
    var m', p' := WrittenBack(m, r, n), Step(p, End(r, newId));
    assert forall x: CachedSession :: x != n ==> Holders(m', x) == Holders(m, x);
    forall j ensures Counted(m', j) && SessionShown(m', p', j) {
      assert Counted(m, j) && SessionShown(m, p, j);
      assert j in m.cache && m.cache[j] == n ==> j == m.fields[n].id;
    }
    forall q ensures CachedOrNew(m', q) && HandleShown(m', p', q) {
      assert CachedOrNew(m, q) && HandleShown(m, p, q);
      assert q in m.contexts && m.contexts[q] == n ==> q in Holders(m, n);
    }
  }

  /** A request that made a session ends. */
  function SavedNew(m: Memory, r: nat, n: CachedSession, newId: string): Memory
    requires n in m.fields
  {
    var f := m.fields[n];
    Memory(m.cache, m.store[newId := f.entries], m.contexts - {r},
        m.fields[n := f.(id := newId, referrers := f.referrers - 1)])
  }

  lemma SavedNewShows(m: Memory, p: Plain, r: nat, n: CachedSession, newId: string)
    requires WellCounted(m) && Shows(m, p)
    requires r in m.contexts && m.contexts[r] == n && newId != ""
    requires n in m.fields && m.fields[n].id == ""
    ensures WellCounted(SavedNew(m, r, n, newId)) && Shows(SavedNew(m, r, n, newId), Step(p, End(r, newId)))
  {
    assert CachedOrNew(m, r) && HandleShown(m, p, r);
    InUseIsCached(m, p, newId);
    var m', p' := SavedNew(m, r, n, newId), Step(p, End(r, newId));
    assert forall x: CachedSession :: x != n ==> Holders(m', x) == Holders(m, x);
    forall j ensures Counted(m', j) && SessionShown(m', p', j) {
      assert Counted(m, j) && SessionShown(m, p, j);
    }
    forall q ensures CachedOrNew(m', q) && HandleShown(m', p', q) {
      assert CachedOrNew(m, q) && HandleShown(m, p, q);
      assert q in m.contexts && m.contexts[q] == n ==> q in Holders(m, n);
    }
  }

  lemma OnlyOne(s: set<nat>, r: nat)
    requires r in s && |s| <= 1
    ensures s == {r}
  {
    if exists q :: q in s && q != r {
      var q :| q in s && q != r;
      SmallerSet({q, r}, s);
    }
  }

  lemma {:induction false} SmallerSet(a: set<nat>, b: set<nat>)
    requires a <= b
    ensures |a| <= |b|
  {
    if a != {} {
      var x :| x in a;
      SmallerSet(a - {x}, b - {x});
    }
  }

  // ----- The middleware -----

  class SessionMiddleware {
    var cache: map<string, CachedSession>
    var store: map<string, Entries>
    var contexts: map<nat, CachedSession?> // each request's `context::node`

    ghost var nodes: set<CachedSession>    // every session object made so far
    ghost var plain: Plain                 // the plain map this stands for

    ghost function Mem(): Memory
      reads this`cache, this`store, this`contexts, this`nodes, nodes
    {
      Memory(cache, store, contexts, map n | n in nodes :: Node(n.sessionId, n.entries, n.referrers))
    }

    ghost predicate Valid()
      reads this, nodes
    {
      WellCounted(Mem()) && Shows(Mem(), plain)
    }

    constructor (stored: map<string, Entries>)
      ensures Valid() && plain == Plain(stored, map[])
    {
      cache, store, contexts := map[], stored, map[];
      nodes, plain := {}, Plain(stored, map[]);
    }

    /** `before_handle` */
    method BeforeHandle(r: nat, id: string)
      requires Valid() && Allowed(plain, Begin(r, id))
      modifies this, nodes
      ensures Valid() && plain == Step(old(plain), Begin(r, id))
      ensures fresh(nodes - old(nodes))
    {
      if id != "" && id in cache {
        assert Counted(Mem(), id);
        Join(r, id, cache[id]);
      } else if id != "" && id in store {
        Load(r, id);
      } else {
        Open(r, id);
      }
    }

    /** The request has no session. */
    method Open(r: nat, ghost id: string)
      requires Valid() && r !in contexts && (id == "" || id !in store)
      modifies this`contexts, this`plain
      ensures Valid() && plain == Step(old(plain), Begin(r, id))
    {
      ghost var m := Mem();
      IdleShows(m, plain, r, id);
      contexts := contexts[r := null];
      plain := Step(plain, Begin(r, id));
      assert Mem() == Idle(m, r);
    }

    /** The session is in the cache: one more request refers to it. */
    method Join(r: nat, id: string, node: CachedSession)
      requires Valid() && r !in contexts && id in cache && node == cache[id] && node in nodes
      modifies this`contexts, this`plain, node`referrers
      ensures Valid() && plain == Step(old(plain), Begin(r, id))
    {
      ghost var m := Mem();
      JoinedShows(m, plain, r, id, node);
      node.referrers := node.referrers + 1;
      contexts := contexts[r := node];
      plain := Step(plain, Begin(r, id));
      assert Mem() == Joined(m, r, node);
    }

    /** The session is only in the store: it is moved into the cache. */
    method Load(r: nat, id: string)
      requires Valid() && r !in contexts && id != "" && id !in cache && id in store
      modifies this
      ensures Valid() && plain == Step(old(plain), Begin(r, id))
      ensures fresh(nodes - old(nodes))
    {
      var node := new CachedSession.Loaded(id, store[id]);
      // The store's entries are moved from: what is left behind is unspecified.
      var leftover: Entries := *;
      Attach(r, id, node, leftover);
    }

    method Attach(r: nat, id: string, node: CachedSession, leftover: Entries)
      requires Valid() && r !in contexts && id != "" && id !in cache && id in store
      requires node !in nodes && node.sessionId == id && node.entries == store[id] && node.referrers == 1
      modifies this
      ensures Valid() && plain == Step(old(plain), Begin(r, id)) && nodes == old(nodes) + {node}
    {
      LoadedShows(Mem(), plain, r, id, node, leftover);
      ghost var p := Step(plain, Begin(r, id));
      Insert(r, id, node, leftover);
      plain := p;
    }

    method Insert(r: nat, id: string, node: CachedSession, leftover: Entries)
      requires id in store && node !in nodes
      requires node.sessionId == id && node.entries == store[id] && node.referrers == 1
      modifies this`store, this`contexts, this`cache, this`nodes
      ensures Mem() == Loaded(old(Mem()), r, id, node, leftover) && nodes == old(nodes) + {node}
    {
      store := store[id := leftover];
      contexts := contexts[r := node];
      cache := cache[id := node];
      nodes := nodes + {node};
    }

    /** `check_node`: a request that writes before it has a session gets an empty one. */
    method CheckNode(r: nat) returns (node: CachedSession)
      requires Valid() && r in contexts
      modifies this`contexts, this`nodes, this`plain
      ensures Valid() && contexts.Keys == old(contexts.Keys) && contexts[r] == node && node in nodes
      ensures plain == if old(plain).handles[r].NoSession? then Write(old(plain), r, map[]) else old(plain)
      ensures fresh(nodes - old(nodes))
    {
      assert CachedOrNew(Mem(), r) && HandleShown(Mem(), plain, r);
      if contexts[r] == null {
        assert plain.handles[r] == NoSession;
        node := new CachedSession();
        AttachNew(r, node);
      } else {
        node := contexts[r];
      }
    }

    lemma HeldEntries(r: nat)
      requires Valid() && r in contexts
      ensures contexts[r] == null ==> Seen(plain, r) == None
      ensures contexts[r] != null ==> contexts[r] in nodes && Seen(plain, r) == Some(contexts[r].entries)
    {
      assert CachedOrNew(Mem(), r) && HandleShown(Mem(), plain, r);
      if contexts[r] != null {
        assert SessionShown(Mem(), plain, contexts[r].sessionId) && Counted(Mem(), contexts[r].sessionId);
      }
    }

    method AttachNew(r: nat, node: CachedSession)
      requires Valid() && r in contexts && contexts[r] == null
      requires node !in nodes && node.sessionId == "" && node.entries == map[] && node.referrers == 0
      modifies this`contexts, this`nodes, this`plain
      ensures Valid() && plain == Write(old(plain), r, map[])
      ensures nodes == old(nodes) + {node} && contexts == old(contexts)[r := node]
    {
      WithNewShows(Mem(), plain, r, node);
      ghost var p := Write(plain, r, map[]);
      Hold(r, node);
      plain := p;
    }

    method Hold(r: nat, node: CachedSession)
      requires node !in nodes && node.sessionId == "" && node.entries == map[] && node.referrers == 0
      modifies this`contexts, this`nodes
      ensures Mem() == WithNew(old(Mem()), r, node)
      ensures nodes == old(nodes) + {node} && contexts == old(contexts)[r := node]
    {
      contexts := contexts[r := node];
      nodes := nodes + {node};
    }

    /** Writing the entries of a held session is one write to the plain map. */
    method SetEntries(r: nat, node: CachedSession, key: string, e: Entries)
      requires Valid() && r in contexts && contexts[r] == node && node in nodes
      modifies this`plain, node`entries, node`dirty
      ensures Valid() && plain == Write(old(plain), r, e)
    {
      ghost var m := Mem();
      WrittenShows(m, plain, r, node, e);
      node.dirty := node.dirty + {key};
      node.entries := e;
      plain := Write(plain, r, e);
      assert Mem() == Written(m, node, e);
    }

    /** `set` */
    method Set(r: nat, key: string, value: Value)
      requires Valid() && Allowed(plain, Put(r, key, value))
      modifies this`contexts, this`nodes, this`plain, nodes
      ensures Valid() && plain == Step(old(plain), Put(r, key, value))
      ensures fresh(nodes - old(nodes))
    {
      var node := CheckNode(r);
      HeldEntries(r);
      SetEntries(r, node, key, node.entries[key := value]);
    }

    /** `apply` */
    method Apply(r: nat, key: string, fallback: Value, f: Value -> Value)
      requires Valid() && Allowed(plain, Update(r, key, fallback, f))
      modifies this`contexts, this`nodes, this`plain, nodes
      ensures Valid() && plain == Step(old(plain), Update(r, key, fallback, f))
      ensures fresh(nodes - old(nodes))
    {
      var node := CheckNode(r);
      HeldEntries(r);
      SetEntries(r, node, key, node.entries[key := f(Lookup(node.entries, key, fallback))]);
    }

    /** `remove` */
    method Remove(r: nat, key: string)
      requires Valid() && Allowed(plain, Erase(r, key))
      modifies this`plain, nodes
      ensures Valid() && plain == Step(old(plain), Erase(r, key)) && nodes == old(nodes)
    {
      HeldEntries(r);
      var node := contexts[r];
      if node != null {
        SetEntries(r, node, key, node.entries - {key});
      }
    }

    /** `get` */
    method Get(r: nat, key: string, fallback: Value) returns (value: Value)
      requires Valid() && r in contexts
      ensures value == Lookup(EntriesSeen(plain, r), key, fallback)
    {
      HeldEntries(r);
      var node := contexts[r];
      return if node == null then fallback else Lookup(node.entries, key, fallback);
    }

    /** `after_handle`; `newId` is the random id, used for a new session. The cookie is the id
        sent back, if any. */
    method AfterHandle(r: nat, newId: string) returns (cookie: Option<string>)
      requires Valid() && Allowed(plain, End(r, newId))
      modifies this, nodes
      ensures Valid() && plain == Step(old(plain), End(r, newId)) && nodes == old(nodes)
      ensures old(plain).handles[r].Private? ==> cookie == Some(newId)
    {
      assert CachedOrNew(Mem(), r) && HandleShown(Mem(), plain, r);
      var node := contexts[r];
      cookie := None;
      if node == null {
        Drop(r, newId);
      } else if node.referrers - 1 > 0 {
        Release(r, node, newId);
      } else if node.sessionId == "" {
        cookie := SaveNew(r, node, newId);
      } else {
        cookie := WriteBack(r, node, newId);
      }
    }

    method Drop(r: nat, ghost newId: string)
      requires Valid() && r in contexts && contexts[r] == null && newId != ""
      modifies this`contexts, this`plain
      ensures Valid() && plain == Step(old(plain), End(r, newId))
    {
      ghost var m := Mem();
      DroppedShows(m, plain, r, newId);
      contexts := contexts - {r};
      plain := Step(plain, End(r, newId));
      assert Mem() == Dropped(m, r);
    }

    /** Other requests still refer to the session. */
    method Release(r: nat, node: CachedSession, ghost newId: string)
      requires Valid() && r in contexts && contexts[r] == node && node in nodes && node.referrers > 1 && newId != ""
      modifies this`contexts, this`plain, node`referrers
      ensures Valid() && plain == Step(old(plain), End(r, newId))
    {
      ghost var m := Mem();
      ReleasedShows(m, plain, r, node, newId);
      node.referrers := node.referrers - 1;
      contexts := contexts - {r};
      plain := Step(plain, End(r, newId));
      assert Mem() == Released(m, r, node);
    }

    /** The last request that uses a cached session takes it out of the cache. */
    method WriteBack(r: nat, node: CachedSession, ghost newId: string) returns (cookie: Option<string>)
      requires Valid() && r in contexts && contexts[r] == node && node in nodes
      requires node.referrers <= 1 && node.sessionId != "" && newId != ""
      modifies this, node`referrers
      ensures cookie == if node.requestedRefresh then Some(node.sessionId) else None
      ensures Valid() && plain == Step(old(plain), End(r, newId)) && nodes == old(nodes)
    {
      cookie := if node.requestedRefresh then Some(node.sessionId) else None;
      WrittenBackShows(Mem(), plain, r, node, newId);
      ghost var p := Step(plain, End(r, newId));
      TakeOut(r, node);
      plain := p;
    }

    method TakeOut(r: nat, node: CachedSession)
      requires node in nodes
      modifies this`store, this`contexts, this`cache, node`referrers
      ensures Mem() == WrittenBack(old(Mem()), r, node)
    {
      node.referrers := node.referrers - 1;
      contexts := contexts - {r};
      cache := cache - {node.sessionId};
      store := store[node.sessionId := node.entries];
    }

    /** A new session gets its id and is stored. */
    method SaveNew(r: nat, node: CachedSession, newId: string) returns (cookie: Option<string>)
      requires Valid() && r in contexts && contexts[r] == node && node in nodes && node.sessionId == "" && newId != ""
      modifies this, node`referrers, node`sessionId, node`requestedRefresh
      ensures Valid() && plain == Step(old(plain), End(r, newId)) && nodes == old(nodes)
      ensures cookie == Some(newId) && old(node.referrers) == 0 && node.referrers == -1
    {
      assert CachedOrNew(Mem(), r);
      SavedNewShows(Mem(), plain, r, node, newId);
      ghost var p := Step(plain, End(r, newId));
      StoreNew(r, node, newId);
      plain := p;
      cookie := Some(node.sessionId);
    }

    method StoreNew(r: nat, node: CachedSession, newId: string)
      requires node in nodes
      modifies this`store, this`contexts, node`referrers, node`sessionId, node`requestedRefresh
      ensures Mem() == SavedNew(old(Mem()), r, node, newId) && node.sessionId == newId
      ensures node.referrers == old(node.referrers) - 1
    {
      node.LetGoAs(newId);
      contexts := contexts - {r};
      store := store[node.sessionId := node.entries];
    }

    /** Requests that use one session share one object, and it counts them. */
    lemma OneObjectPerSession(r: nat, q: nat, id: string)
      requires Valid() && r in plain.handles && q in plain.handles
      requires plain.handles[r] == plain.handles[q] == Shared(id)
      ensures r in contexts && q in contexts && contexts[r] == contexts[q] && contexts[r] != null
      ensures contexts[r].referrers == |set k | k in plain.handles && plain.handles[k] == Shared(id)|
    {
      var m := Mem();
      assert CachedOrNew(m, r) && HandleShown(m, plain, r) && CachedOrNew(m, q) && HandleShown(m, plain, q);
      assert Counted(m, id);
      var users := set k | k in plain.handles && plain.handles[k] == Shared(id);
      forall k ensures k in users <==> k in Holders(m, contexts[r]) {
        assert CachedOrNew(m, k) && HandleShown(m, plain, k);
      }
      assert users == Holders(m, contexts[r]);
    }

    /** The count of a held session is right if and only if the session came from the store; a new
        one counts 0, though one request holds it. */
    lemma CountIsExactIffShared(r: nat)
      requires Valid() && r in contexts && contexts[r] != null
      ensures r in plain.handles && contexts[r] in nodes
      ensures contexts[r].referrers == |Holders(Mem(), contexts[r])| <==> plain.handles[r].Shared?
      ensures !plain.handles[r].Shared? ==>
              plain.handles[r].Private? && contexts[r].referrers == 0 && Holders(Mem(), contexts[r]) == {r}
    {
      var m := Mem();
      assert CachedOrNew(m, r) && HandleShown(m, plain, r);
      assert Counted(m, contexts[r].sessionId);
    }

    method Perform(e: Event)
      requires Valid() && Allowed(plain, e)
      modifies this, nodes
      ensures Valid() && plain == Step(old(plain), e)
      ensures fresh(nodes - old(nodes))
    {
      match e
      case Begin(r, id) => BeforeHandle(r, id);
      case Put(r, key, value) => Set(r, key, value);
      case Erase(r, key) => Remove(r, key);
      case Update(r, key, fallback, f) => Apply(r, key, fallback, f);
      case End(r, newId) => var _ := AfterHandle(r, newId);
    }

    /** Every interleaving of the requests' calls does what it does to the plain map. */
    method Serve(es: seq<Event>)
      requires Valid() && AllAllowed(plain, es)
      modifies this, nodes
      ensures Valid() && plain == Run(old(plain), es)
    {
      var i := 0;
      assert es[0..] == es;
      while i < |es|
        invariant i <= |es| && Valid() && fresh(nodes - old(nodes))
        invariant AllAllowed(plain, es[i..]) && Run(plain, es[i..]) == Run(old(plain), es)
      {
        assert es[i..][0] == es[i] && es[i..][1..] == es[i + 1..];
        Perform(es[i]);
        i := i + 1;
      }
    }
  }
}
