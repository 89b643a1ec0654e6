/**
 * The order in which middleware handlers run: crow/middleware.h, the packed index lists of
 * crow/routing.h and the paths of crow/http_connection.h.
 */
module Middleware {

  // Recursive call helpers and sliding index filters; a connection and a rule put them together around
  // a handler.

  // ----- Packed indices -----

  predicate Ascending(s: seq<nat>) {
    forall i, j :: 0 <= i < j < |s| ==> s[i] < s[j]
  }

  predicate Ordered(s: seq<nat>) {
    forall i, j :: 0 <= i < j < |s| ==> s[i] <= s[j]
  }

  function Insert(x: nat, s: seq<nat>): seq<nat> {
    if s == [] || x <= s[0] then [x] + s else [s[0]] + Insert(x, s[1..])
  }

  /** What `std::sort` leaves. */
  function Sort(s: seq<nat>): seq<nat> {
    if s == [] then [] else Insert(s[0], Sort(s[1..]))
  }

  lemma {:induction false} InsertKeepsOrder(x: nat, s: seq<nat>)
    requires Ordered(s)
    ensures Ordered(Insert(x, s)) && forall y :: y in Insert(x, s) <==> y == x || y in s
  {
    if s != [] && x > s[0] {
      InsertKeepsOrder(x, s[1..]);
      var r := Insert(x, s[1..]);
      assert forall y :: y in r <==> y == x || y in s[1..];
      assert forall y :: y in s <==> y == s[0] || y in s[1..];
      assert forall i :: 0 <= i < |r| ==> r[i] in r;
    }
  }

  lemma {:induction false} SortOrders(s: seq<nat>)
    ensures Ordered(Sort(s)) && forall y :: y in Sort(s) <==> y in s
  {
    if s != [] {
      SortOrders(s[1..]);
      InsertKeepsOrder(s[0], Sort(s[1..]));
      assert forall y :: y in s <==> y == s[0] || y in s[1..];
    }
  }

  class Indices {
    var indices: seq<nat>

    constructor (s: seq<nat>)
      ensures indices == s
    {
      indices := s;
    }

    /** `pack`: sorted, and only the first of each run of equals kept. */
    method Pack()
      modifies this
      ensures Ascending(indices) && forall y :: y in indices <==> y in old(indices)
    {
      var s := Sort(indices);
      SortOrders(indices);
      var r: seq<nat> := [];
      for i := 0 to |s|
        invariant Packs(r, s[..i])
      {
        assert s[..i + 1] == s[..i] + [s[i]] && forall y :: y in s[..i] ==> y <= s[i];
        PackOne(r, s[..i], s[i]);
        if r == [] || r[|r| - 1] != s[i] {
          r := r + [s[i]];
        }
      }
      assert s[..|s|] == s;
      indices := r;
    }
  }

  /** `r` has each number of the ordered list `s` once, in order. */
  ghost predicate Packs(r: seq<nat>, s: seq<nat>) {
    && Ascending(r) && (forall y :: y in r <==> y in s)
    && (r == [] <==> s == []) && (r != [] ==> r[|r| - 1] == s[|s| - 1])
  }

  lemma PackOne(r: seq<nat>, s: seq<nat>, x: nat)
    requires Packs(r, s) && forall y :: y in s ==> y <= x
    ensures Packs(if r == [] || r[|r| - 1] != x then r + [x] else r, s + [x])
  {
    assert forall k :: 0 <= k < |r| ==> r[k] in s;
    if r != [] {
      assert forall k :: 0 <= k < |r| ==> r[k] <= r[|r| - 1];
    }
  }

  // ----- Which middleware is enabled -----

  datatype Kind = Global | Forward | Backward

  class Criteria {
    const kind: Kind
    const global: seq<bool>     // which middleware is global
    const indices: seq<nat>     // a rule's packed indices
    var slider: int

    ghost predicate Accepts(n: nat) {
      if kind.Global? then n < |global| && global[n] else n in indices
    }

    /** Everything before position `n` of the walk has been passed. */
    ghost predicate At(n: int)
      reads this
    {
      match kind
      case Global => true
      case Forward =>
        && Ascending(indices) && 0 <= slider <= |indices|
        && (forall j :: 0 <= j < slider ==> indices[j] < n) && (forall j :: slider <= j < |indices| ==> indices[j] >= n)
      case Backward =>
        && Ascending(indices) && -1 <= slider < |indices|
        && (forall j :: 0 <= j <= slider ==> indices[j] <= n) && (forall j :: slider < j < |indices| ==> indices[j] > n)
    }

    constructor OnlyGlobal(global: seq<bool>)
      ensures kind == Global && this.global == global
    {
      kind, this.global, indices, slider := Global, global, [], 0;
    }

    constructor Dynamic(indices: seq<nat>)
      requires Ascending(indices)
      ensures kind == Forward && this.indices == indices && At(0)
    {
      kind, global, this.indices, slider := Forward, [], indices, 0;
    }

    constructor DynamicReversed(indices: seq<nat>, count: nat)
      requires Ascending(indices) && forall i :: i in indices ==> i < count
      ensures kind == Backward && this.indices == indices && At(count - 1)
    {
      kind, global, this.indices, slider := Backward, [], indices, |indices| - 1;
      assert forall j :: 0 <= j < |indices| ==> indices[j] in indices;
    }

    /** The sliding filter is set membership. */
    method Enabled(n: nat) returns (r: bool)
      requires At(n)
      modifies this
      ensures r == Accepts(n)
      ensures kind.Backward? ==> At(n - 1)
      ensures !kind.Backward? ==> At(n + 1)
    {
      match kind
      case Global =>
        return n < |global| && global[n];
      case Forward =>
        if slider < |indices| && indices[slider] == n {
          slider := slider + 1;
          return true;
        }
        return false;
      case Backward =>
        if slider >= 0 && indices[slider] == n {
          slider := slider - 1;
          return true;
        }
        return false;
    }
  }

  // ----- What is called -----

  datatype Event = Before(n: nat) | After(n: nat) | Handler | Upgraded

  /** The accepted middleware from `n` on, ascending. */
  function Accepted(accepts: nat -> bool, n: nat, count: nat): seq<nat>
    decreases count - n
  {
    if n >= count then [] else (if accepts(n) then [n] else []) + Accepted(accepts, n + 1, count)
  }

  function Befores(ns: seq<nat>): seq<Event> { seq(|ns|, i requires 0 <= i < |ns| => Before(ns[i])) }

  function AftersReversed(ns: seq<nat>): seq<Event> { seq(|ns|, i requires 0 <= i < |ns| => After(ns[|ns| - 1 - i])) }

  /** How many before-handlers run: up to the first that completes the response. */
  function Reached(ends: seq<Event> -> bool, log: seq<Event>, ns: seq<nat>): (k: nat)
    ensures k <= |ns|
    decreases |ns|
  {
    if ns == [] then 0
    else if ends(log + [Before(ns[0])]) then 1
    else 1 + Reached(ends, log + [Before(ns[0])], ns[1..])
  }

  /** Whether one of them completes it. */
  predicate Completes(ends: seq<Event> -> bool, log: seq<Event>, ns: seq<nat>)
    decreases |ns|
  {
    ns != [] && (ends(log + [Before(ns[0])]) || Completes(ends, log + [Before(ns[0])], ns[1..]))
  }

  lemma {:induction false} IncompleteReachesAll(ends: seq<Event> -> bool, log: seq<Event>, ns: seq<nat>)
    requires !Completes(ends, log, ns)
    ensures Reached(ends, log, ns) == |ns|
    decreases |ns|
  {
    if ns != [] {
      IncompleteReachesAll(ends, log + [Before(ns[0])], ns[1..]);
    }
  }

  /** Exactly the accepted middleware, each once and in order. */
  lemma {:induction false} AcceptedIs(accepts: nat -> bool, n: nat, count: nat)
    ensures Ascending(Accepted(accepts, n, count))
    ensures forall i: nat :: i in Accepted(accepts, n, count) <==> n <= i < count && accepts(i)
    decreases count - n
  {
    if n < count {
      AcceptedIs(accepts, n + 1, count);
      InFront(n, Accepted(accepts, n + 1, count));
    }
  }

  lemma InFront(n: nat, later: seq<nat>)
    requires Ascending(later) && forall i: nat :: i in later ==> n < i
    ensures Ascending([n] + later) && forall i: nat :: i in [n] + later <==> i == n || i in later
  {
    assert forall k :: 0 <= k < |later| ==> later[k] in later;
  }

  class Exchange {
    const ends: seq<Event> -> bool // whether a before-handler, called last, completes the response
    var completed: bool
    var log: seq<Event>

    constructor (ends: seq<Event> -> bool)
      ensures this.ends == ends && !completed && log == []
    {
      this.ends, completed, log := ends, false, [];
    }

    method CallBefore(n: nat)
      modifies this
      ensures log == old(log) + [Before(n)] && completed == (old(completed) || ends(log))
    {
      log := log + [Before(n)];
      completed := completed || ends(log);
    }

    method CallAfter(n: nat)
      modifies this`log
      ensures log == old(log) + [After(n)]
    {
      log := log + [After(n)];
    }

    /** `middleware_call_helper`: when a before-handler completes the response, the
        after-handlers of all that ran follow at once, last first. */
    method Call(cc: Criteria, ghost accepts: nat -> bool, n: nat, count: nat) returns (done: bool)
      requires !completed && cc.At(n) && !cc.kind.Backward?
      requires forall i: nat {:trigger accepts(i)} :: accepts(i) == cc.Accepts(i)
      modifies this, cc
      ensures var ns := Accepted(accepts, n, count);
        var called := ns[..Reached(ends, old(log), ns)];
        && done == completed == Completes(ends, old(log), ns)
        && log == old(log) + Befores(called) + if done then AftersReversed(called) else []
      decreases count - n
    {
      if n >= count {
        return false;
      }
      ghost var start, later := log, Accepted(accepts, n + 1, count);
      var enabled := cc.Enabled(n);
      assert enabled == accepts(n);
      if !enabled {
        assert Accepted(accepts, n, count) == later;
        done := Call(cc, accepts, n + 1, count);
        return;
      }
      ghost var ns := Accepted(accepts, n, count);
      assert ns == [n] + later && ns[1..] == later;
      CallBefore(n);
      if completed {
        CallAfter(n);
        OneCalled(start, n, ns[..1]);
        return true;
      }
      done := Call(cc, accepts, n + 1, count);
      ghost var k := Reached(ends, start + [Before(n)], later);
      MoreCalled(start, n, later[..k], ns[..k + 1]);
      if done {
        CallAfter(n);
      }
    }

    /** `after_handlers_call_helper` */
    method CallAfters(cc: Criteria, ghost accepts: nat -> bool, n: int)
      requires n >= -1 && cc.At(n) && !cc.kind.Forward?
      requires forall i: nat {:trigger accepts(i)} :: accepts(i) == cc.Accepts(i)
      modifies this`log, cc
      ensures log == old(log) + AftersReversed(Accepted(accepts, 0, n + 1))
      decreases n + 1
    {
      if n < 0 {
        return;
      }
      var enabled := cc.Enabled(n);
      assert enabled == accepts(n);
      AcceptedLast(accepts, 0, n);
      if enabled {
        CallAfter(n);
      }
      CallAfters(cc, accepts, n - 1);
    }
  }

  lemma OneCalled(log: seq<Event>, n: nat, called: seq<nat>)
    requires called == [n]
    ensures log + [Before(n)] + [After(n)] == log + Befores(called) + AftersReversed(called)
  {
    assert Befores(called) == [Before(n)] && AftersReversed(called) == [After(n)];
  }

  lemma MoreCalled(log: seq<Event>, n: nat, rest: seq<nat>, called: seq<nat>)
    requires called == [n] + rest
    ensures log + [Before(n)] + Befores(rest) == log + Befores(called)
    ensures log + [Before(n)] + Befores(rest) + AftersReversed(rest) + [After(n)] ==
        log + Befores(called) + AftersReversed(called)
  {
    assert Befores(called) == [Before(n)] + Befores(rest);
    assert AftersReversed(called) == AftersReversed(rest) + [After(n)];
  }

  lemma {:induction false} AcceptedLast(accepts: nat -> bool, n: nat, m: nat)
    requires n <= m
    ensures Accepted(accepts, n, m + 1) == Accepted(accepts, n, m) + if accepts(m) then [m] else []
    decreases m - n
  {
    if n < m {
      AcceptedLast(accepts, n + 1, m);
    }
  }

  // ----- A request -----

  function GlobalOnes(global: seq<bool>): nat -> bool { (n: nat) => n < |global| && global[n] }

  function Members(indices: seq<nat>): nat -> bool { (n: nat) => n in indices }

  /** `handle_rule`: a rule's own middleware around its handler. */
  method HandleRule(x: Exchange, indices: seq<nat>, count: nat)
    requires !x.completed && Ascending(indices) && forall i :: i in indices ==> i < count
    modifies x
    ensures x.completed
    ensures var ns := Accepted(Members(indices), 0, count);
      var called := ns[..Reached(x.ends, old(x.log), ns)];
      x.log == old(x.log) + Befores(called)
               + (if Completes(x.ends, old(x.log), ns) then [] else [Handler]) + AftersReversed(called)
  {
    ghost var accepts := Members(indices);
    ghost var start, ns := x.log, Accepted(accepts, 0, count);
    if indices == [] {
      NoneAccepted(accepts, 0, count);
      x.log := x.log + [Handler];
      x.completed := true;
      return;
    }
    var forward := new Criteria.Dynamic(indices);
    var done := x.Call(forward, accepts, 0, count);
    if done {
      return;
    }
    IncompleteReachesAll(x.ends, start, ns);
    x.log := x.log + [Handler];
    x.completed := true;
    var backward := new Criteria.DynamicReversed(indices, count);
    x.CallAfters(backward, accepts, count - 1);
  }

  lemma {:induction false} NoneAccepted(accepts: nat -> bool, n: nat, count: nat)
    requires forall i: nat {:trigger accepts(i)} :: !accepts(i)
    ensures Accepted(accepts, n, count) == []
    decreases count - n
  {
    if n < count {
      NoneAccepted(accepts, n + 1, count);
    }
  }

  /** What becomes of a request: its URL has no route, it is an HTTP/1.1 request without a
      host, it is upgraded to a websocket, or it is routed to a handler. */
  datatype Request = Unrouted | Invalid | Upgrade | Routed

  /** The handlers a request runs through, given the global and the rule's own middleware. */
  function Served(request: Request, ends: seq<Event> -> bool, g: seq<nat>, l: seq<nat>): seq<Event> {
    match request
    case Unrouted => AftersReversed(g)
    case Invalid => []
    case Upgrade => Outer(ends, g) + [Upgraded]
    case Routed => if Completes(ends, [], g) then Outer(ends, g) else Inner(ends, g, l)
  }

  /** The global before-handlers, with their after-handlers when one of them completes the response. */
  function Outer(ends: seq<Event> -> bool, g: seq<nat>): seq<Event> {
    var called := g[..Reached(ends, [], g)];
    Befores(called) + if Completes(ends, [], g) then AftersReversed(called) else []
  }

  function Inner(ends: seq<Event> -> bool, g: seq<nat>, l: seq<nat>): seq<Event> {
    var called := l[..Reached(ends, Befores(g), l)];
    Befores(g) + Befores(called) + (if Completes(ends, Befores(g), l) then [] else [Handler])
    + AftersReversed(called) + AftersReversed(g)
  }

  /** A request from its first handler to its last. */
  method Serve(request: Request, ends: seq<Event> -> bool, global: seq<bool>, indices: Indices)
    returns (log: seq<Event>)
    requires forall i :: i in indices.indices ==> i < |global|
    modifies indices
    ensures var g := Accepted(GlobalOnes(global), 0, |global|);
      log == Served(request, ends, g, Accepted(Members(old(indices.indices)), 0, |global|))
  {
    ghost var given := indices.indices;
    indices.Pack();
    SameMembers(Members(given), Members(indices.indices), 0, |global|);
    var x := new Exchange(ends);
    match request {
      case Unrouted => CompleteRequest(x, global);
      case Invalid =>
      case Upgrade => HandleUpgrade(x, global);
      case Routed => HandleRouted(x, global, indices.indices);
    }
    log := x.log;
  }

  /** `complete_request` with the flag need_to_call_after_handlers_ set. */
  method CompleteRequest(x: Exchange, global: seq<bool>)
    modifies x`log
    ensures x.log == old(x.log) + AftersReversed(Accepted(GlobalOnes(global), 0, |global|))
  {
    var last := new Criteria.OnlyGlobal(global);
    x.CallAfters(last, GlobalOnes(global), |global| - 1);
  }

  /** The helper's outcome is ignored and no after-handlers are called on the way out. */
  method HandleUpgrade(x: Exchange, global: seq<bool>)
    requires !x.completed && x.log == []
    modifies x
    ensures x.log == Outer(x.ends, Accepted(GlobalOnes(global), 0, |global|)) + [Upgraded]
  {
    var first := new Criteria.OnlyGlobal(global);
    var done := x.Call(first, GlobalOnes(global), 0, |global|);
    x.log := x.log + [Upgraded];
  }

  method HandleRouted(x: Exchange, global: seq<bool>, indices: seq<nat>)
    requires !x.completed && x.log == [] && Ascending(indices) && forall i :: i in indices ==> i < |global|
    modifies x
    ensures var g := Accepted(GlobalOnes(global), 0, |global|);
      x.log == Served(Routed, x.ends, g, Accepted(Members(indices), 0, |global|))
  {
    ghost var g := Accepted(GlobalOnes(global), 0, |global|);
    var first := new Criteria.OnlyGlobal(global);
    var done := x.Call(first, GlobalOnes(global), 0, |global|);
    if !done {
      IncompleteReachesAll(x.ends, [], g);
      assert g[..|g|] == g && x.log == Befores(g);
      HandleRule(x, indices, |global|);
      CompleteRequest(x, global);
    }
  }

  lemma {:induction false} SameMembers(a: nat -> bool, b: nat -> bool, n: nat, count: nat)
    requires forall i: nat {:trigger b(i)} :: a(i) == b(i)
    ensures Accepted(a, n, count) == Accepted(b, n, count)
    decreases count - n
  {
    if n < count {
      assert a(n) == b(n);
      SameMembers(a, b, n + 1, count);
    }
  }

  // ----- After-handlers mirror before-handlers -----

  function BeforeNames(log: seq<Event>): seq<nat> {
    if log == [] then [] else BeforeNames(log[..|log| - 1]) + (match log[|log| - 1] case Before(n) => [n] case _ => [])
  }

  function AfterNames(log: seq<Event>): seq<nat> {
    if log == [] then [] else AfterNames(log[..|log| - 1]) + (match log[|log| - 1] case After(n) => [n] case _ => [])
  }

  function Reversed(ns: seq<nat>): seq<nat> { seq(|ns|, i requires 0 <= i < |ns| => ns[|ns| - 1 - i]) }

  lemma {:induction false} NamesOfConcat(a: seq<Event>, b: seq<Event>)
    ensures BeforeNames(a + b) == BeforeNames(a) + BeforeNames(b)
    ensures AfterNames(a + b) == AfterNames(a) + AfterNames(b)
    decreases |b|
  {
    if b == [] {
      assert a + b == a;
    } else {
      var c, last := b[..|b| - 1], b[|b| - 1];
      NamesOfConcat(a, c);
      assert (a + b)[..|a + b| - 1] == a + c && (a + b)[|a + b| - 1] == last;
    }
  }

  lemma {:induction false} NamesOfBefores(ns: seq<nat>)
    ensures BeforeNames(Befores(ns)) == ns && AfterNames(Befores(ns)) == []
    decreases |ns|
  {
    if ns != [] {
      var c := ns[..|ns| - 1];
      NamesOfBefores(c);
      assert Befores(ns)[..|ns| - 1] == Befores(c);
      assert ns == c + [ns[|ns| - 1]];
    }
  }

  lemma {:induction false} NamesOfAfters(ns: seq<nat>)
    ensures AfterNames(AftersReversed(ns)) == Reversed(ns) && BeforeNames(AftersReversed(ns)) == []
    decreases |ns|
  {
    if ns != [] {
      NamesOfAfters(ns[1..]);
      assert AftersReversed(ns)[..|ns| - 1] == AftersReversed(ns[1..]);
      assert Reversed(ns) == Reversed(ns[1..]) + [ns[0]];
    }
  }

  lemma NamesOfAllBefores(outer: seq<nat>, inner: seq<nat>)
    ensures BeforeNames(Befores(outer) + Befores(inner)) == outer + inner
    ensures AfterNames(Befores(outer) + Befores(inner)) == []
  {
    NamesOfConcat(Befores(outer), Befores(inner));
    NamesOfBefores(outer);
    NamesOfBefores(inner);
  }

  lemma NamesOfAllAfters(outer: seq<nat>, inner: seq<nat>)
    ensures AfterNames(AftersReversed(inner) + AftersReversed(outer)) == Reversed(outer + inner)
    ensures BeforeNames(AftersReversed(inner) + AftersReversed(outer)) == []
  {
    NamesOfConcat(AftersReversed(inner), AftersReversed(outer));
    NamesOfAfters(inner);
    NamesOfAfters(outer);
    assert Reversed(outer + inner) == Reversed(inner) + Reversed(outer);
  }

  lemma MirrorIs(outer: seq<nat>, inner: seq<nat>, middle: seq<Event>)
    requires middle == [] || middle == [Handler]
    ensures var log := Befores(outer) + Befores(inner) + middle + AftersReversed(inner) + AftersReversed(outer);
      AfterNames(log) == Reversed(BeforeNames(log))
  {
    var b, a := Befores(outer) + Befores(inner), AftersReversed(inner) + AftersReversed(outer);
    var log := b + middle + a;
    assert log == Befores(outer) + Befores(inner) + middle + AftersReversed(inner) + AftersReversed(outer);
    assert BeforeNames(middle) == [] && AfterNames(middle) == [] by {
      assert middle != [] ==> middle[..0] == [];
    }
    NamesOfAllBefores(outer, inner);
    NamesOfAllAfters(outer, inner);
    NamesOfConcat(b, middle);
    NamesOfConcat(b + middle, a);
    assert BeforeNames(log) == outer + inner;
  }

  lemma RoutedMirrors(ends: seq<Event> -> bool, g: seq<nat>, l: seq<nat>)
    ensures var log := Served(Routed, ends, g, l); AfterNames(log) == Reversed(BeforeNames(log))
  {
    if Completes(ends, [], g) {
      OuterMirrors(ends, g);
    } else {
      MirrorIs(g, l[..Reached(ends, Befores(g), l)], if Completes(ends, Befores(g), l) then [] else [Handler]);
    }
  }

  lemma OuterMirrors(ends: seq<Event> -> bool, g: seq<nat>)
    requires Completes(ends, [], g)
    ensures var log := Outer(ends, g); AfterNames(log) == Reversed(BeforeNames(log))
  {
    var outer := g[..Reached(ends, [], g)];
    MirrorIs(outer, [], []);
    assert Befores(outer) + Befores([]) + [] + AftersReversed([]) == Befores(outer);
  }

  lemma NamesOfUpgrade(a: seq<Event>)
    ensures BeforeNames(a + [Upgraded]) == BeforeNames(a) && AfterNames(a + [Upgraded]) == AfterNames(a)
  {
    assert (a + [Upgraded])[..|a|] == a;
  }

  lemma UpgradeMirrors(ends: seq<Event> -> bool, g: seq<nat>)
    ensures var log := Outer(ends, g) + [Upgraded];
      AfterNames(log) == Reversed(BeforeNames(log)) <==> g == [] || Completes(ends, [], g)
  {
    NamesOfUpgrade(Outer(ends, g));
    if Completes(ends, [], g) {
      OuterMirrors(ends, g);
    } else {
      OuterIsBefores(ends, g);
      NamesOfBefores(g);
    }
  }

  lemma OuterIsBefores(ends: seq<Event> -> bool, g: seq<nat>)
    requires !Completes(ends, [], g)
    ensures Outer(ends, g) == Befores(g)
  {
    IncompleteReachesAll(ends, [], g);
    assert g[..|g|] == g && Befores(g) + [] == Befores(g);
  }

  /** The global handlers are called on one side only: a URL without a route gets the
      after-handlers alone, an upgrade that nothing completed the before-handlers alone. */
  predicate OneSided(request: Request, ends: seq<Event> -> bool, g: seq<nat>) {
    g != [] && (request.Unrouted? || (request.Upgrade? && !Completes(ends, [], g)))
  }

  /** The after-handlers called are the before-handlers called, last first, exactly on the
      paths that are not one-sided: every routed request is among them. */
  lemma AftersMirrorBefores(request: Request, ends: seq<Event> -> bool, g: seq<nat>, l: seq<nat>)
    ensures var log := Served(request, ends, g, l);
      AfterNames(log) == Reversed(BeforeNames(log)) <==> !OneSided(request, ends, g)
  {
    match request
    case Unrouted => NamesOfAfters(g);
    case Invalid =>
    case Upgrade => UpgradeMirrors(ends, g);
    case Routed => RoutedMirrors(ends, g, l);
  }

  /** What the two one-sided paths run. */
  lemma OneSidedRuns(ends: seq<Event> -> bool, g: seq<nat>)
    ensures var log := Served(Unrouted, ends, g, []); BeforeNames(log) == [] && AfterNames(log) == Reversed(g)
    ensures !Completes(ends, [], g) ==>
            var log := Served(Upgrade, ends, g, []); BeforeNames(log) == g && AfterNames(log) == []
  {
    NamesOfAfters(g);
    if !Completes(ends, [], g) {
      OuterIsBefores(ends, g);
      NamesOfUpgrade(Outer(ends, g));
      NamesOfBefores(g);
    }
  }

  predicate Never(log: seq<Event>) { false }

  /** With one global handler that lets every request pass: a URL without a route runs its
      after-handler alone, an upgrade its before-handler alone. */
  lemma OneSideOnly()
    ensures var log := Served(Unrouted, Never, [0], []); BeforeNames(log) == [] && AfterNames(log) == [0]
    ensures var log := Served(Upgrade, Never, [0], []); BeforeNames(log) == [0] && AfterNames(log) == []
  {
    assert Reversed([0]) == [0];
    assert !Completes(Never, [], [0]);
    OneSidedRuns(Never, [0]);
  }
}
