/**
 * The route trie of crow/routing.h: `add` grows a character trie, `optimize` merges chains of
 * nodes, `find` searches with backtracking.
 */
module Tries {

  import opened Wrappers
  import opened Patterns

  // A node owns its children by value, so a node is a value here and the methods of class Trie replace
  // `head`.

  type uint16 = n: int | 0 <= n < 0x10000

  const INVALID_BP_ID: uint16 := 0xFFFF

  datatype Node = Node(rule: uint16, bp: uint16, key: string, param: ParamType, children: seq<Node>)

  const EMPTY_NODE := Node(0, INVALID_BP_ID, "", MAX, [])

  predicate IsSimpleNode(n: Node) {
    && n.rule == 0
    && n.bp == INVALID_BP_ID
    && |n.children| < 2
    && n.param == MAX
    && forall c :: c in n.children ==> c.param == MAX
  }

  // ----- find -----

  datatype Found = Found(rule: uint16, params: Params)

  /** Keeps the smallest non-zero rule index seen so far. */
  function UpdateFound(acc: Found, ret: Found): Found {
    if ret.rule != 0 && (acc.rule == 0 || acc.rule > ret.rule) then ret else acc
  }

  function FindNode(n: Node, url: string, pos: nat, ps: Params, strtod: Strtod): Found
    requires pos <= |url|
    decreases n, 1
  {
    if pos == |url| then Found(n.rule, ps)
    else FindAmong(n.children, url, pos, ps, Found(0, NO_PARAMS), strtod)
  }

  function FindAmong(cs: seq<Node>, url: string, pos: nat, ps: Params, acc: Found, strtod: Strtod): Found
    requires pos < |url|
    decreases cs, 0
  {
    if cs == [] then acc
    else FindAmong(cs[1..], url, pos, ps, UpdateFound(acc, FindChild(cs[0], url, pos, ps, strtod)), strtod)
  }

  /** What one child contributes: nothing (rule 0) when its key or placeholder does not apply. */
  function FindChild(c: Node, url: string, pos: nat, ps: Params, strtod: Strtod): Found
    requires pos < |url|
    decreases c, 2
  {
    if c.param != MAX then
      match Capture(c.param, url, pos, strtod)
      case None => Found(0, NO_PARAMS)
      case Some((v, e)) => FindNode(c, url, e, Push(ps, v), strtod)
    else if StartsWith(url, pos, c.key) then FindNode(c, url, pos + |c.key|, ps, strtod)
    else Found(0, NO_PARAMS)
  }

  // ----- add -----

  /** The label of a child in a trie that has not been optimized. */
  function Label(c: Node): Token
  {
    if c.param != MAX then Par(c.param) else if c.key == "" then Lit('\0') else Lit(c.key[0])
  }

  /** The position of the first child with a label, or the number of children. */
  function ChildIndex(cs: seq<Node>, t: Token): (k: nat)
    ensures k <= |cs|
    ensures k < |cs| ==> Label(cs[k]) == t
    ensures forall j :: 0 <= j < k ==> Label(cs[j]) != t
  {
    if cs == [] then 0 else if Label(cs[0]) == t then 0 else 1 + ChildIndex(cs[1..], t)
  }

  function NewChild(t: Token, bp: uint16): Node {
    match t
    case Lit(c) => Node(0, bp, [c], MAX, [])
    case Par(p) => Node(0, INVALID_BP_ID, "", p, [])
  }

  /** The blueprint a literal node created for position `i` is marked with. */
  function BlueprintAt(i: nat, prefix: nat, bp: uint16): uint16 {
    if prefix != 0 && bp != INVALID_BP_ID && i == prefix then bp else INVALID_BP_ID
  }

  /** None stands for the exception "handler already exists". */
  function AddFrom(n: Node, url: string, i: nat, rule: uint16, prefix: nat, bp: uint16): (r: Option<Node>)
    requires i <= |url| && ValidFrom(url, i)
    decreases |url| - i
  {
    if i == |url| then (if n.rule != 0 then None else Some(n.(rule := rule)))
    else
      var (t, i') := TokenAt(url, i);
      var k := ChildIndex(n.children, t);
      if k < |n.children| then
        match AddFrom(n.children[k], url, i', rule, prefix, bp)
        case None => None
        case Some(c) => Some(n.(children := n.children[k := c]))
      else
        match AddFrom(NewChild(t, BlueprintAt(i, prefix, bp)), url, i', rule, prefix, bp)
        case None => None
        case Some(c) => Some(n.(children := n.children + [c]))
  }

  /** A child as `add` makes them: one character or one placeholder. */
  predicate UnoptimizedLabel(c: Node) {
    if c.param != MAX then c.key == "" else |c.key| == 1 && c.key[0] != '\0'
  }

  /** What `add` assumes: single labels, no two siblings alike. */
  predicate Unoptimized(n: Node) {
    && (forall c :: c in n.children ==> UnoptimizedLabel(c) && Unoptimized(c))
    && (forall j, k :: 0 <= j < k < |n.children| ==> Label(n.children[j]) != Label(n.children[k]))
  }

  /** The rule stored at the end of an exact token path (0 when there is none). */
  function RuleAt(n: Node, ts: seq<Token>): uint16
    decreases |ts|
  {
    if ts == [] then n.rule
    else
      var k := ChildIndex(n.children, ts[0]);
      if k < |n.children| then RuleAt(n.children[k], ts[1..]) else 0
  }

  lemma {:induction false} RuleAtLeaf(n: Node, ts: seq<Token>)
    requires n.children == [] && n.rule == 0
    ensures RuleAt(n, ts) == 0
  {
  }

  /** `add` stores the rule under exactly the pattern's tokens and disturbs no other path;
      it refuses exactly when that path already carries a rule. */
  lemma {:induction false} AddStoresRule(n: Node, url: string, i: nat, rule: uint16, prefix: nat, bp: uint16)
    requires i <= |url| && ValidFrom(url, i) && Unoptimized(n)
    ensures AddFrom(n, url, i, rule, prefix, bp).None? <==> RuleAt(n, TokensFrom(url, i)) != 0
    ensures var r := AddFrom(n, url, i, rule, prefix, bp);
      r.Some? ==>
        && Unoptimized(r.value)
        && r.value.key == n.key && r.value.param == n.param
        && forall ts :: RuleAt(r.value, ts) == if ts == TokensFrom(url, i) then rule else RuleAt(n, ts)
    decreases |url| - i
  {
    var all := TokensFrom(url, i);
    if i < |url| {
      var (t, i') := TokenAt(url, i);
      var rest := TokensFrom(url, i');
      assert all == [t] + rest && all[1..] == rest;
      var k := ChildIndex(n.children, t);
      var old' := if k < |n.children| then n.children[k] else NewChild(t, BlueprintAt(i, prefix, bp));
      if k == |n.children| {
        RuleAtLeaf(old', rest);
      }
      AddStoresRule(old', url, i', rule, prefix, bp);
      var r := AddFrom(n, url, i, rule, prefix, bp);
      if r.Some? {
        var c := AddFrom(old', url, i', rule, prefix, bp).value;
        AddedChild(n, k, t, old', c, r.value);
        forall ts ensures RuleAt(r.value, ts) == if ts == all then rule else RuleAt(n, ts) {
          RuleAfterAdd(n, k, t, old', c, r.value, rest, rule, ts, if ts == [] then [] else ts[1..]);
        }
      }
    }
  }

  /** Only the path that was added leads to the new rule. */
  lemma RuleAfterAdd(n: Node, k: nat, t: Token, before: Node, after: Node, n': Node, rest: seq<Token>, rule: uint16,
      ts: seq<Token>, tail: seq<Token>)
    requires k == ChildIndex(n.children, t) && Label(after) == t
    requires if k < |n.children| then before == n.children[k] else before.rule == 0 && before.children == []
    requires n' == n.(children := if k < |n.children| then n.children[k := after] else n.children + [after])
    requires ts != [] ==> ts[1..] == tail
    requires RuleAt(after, tail) == if tail == rest then rule else RuleAt(before, tail)
    ensures RuleAt(n', ts) == if ts == [t] + rest then rule else RuleAt(n, ts)
  {
    if ts != [] {
      assert ts == [ts[0]] + tail;
      if ts[0] == t {
        RuleOnPath(n, k, t, before, after, n', ts, tail);
      } else {
        RuleOffPath(n, k, t, after, n', ts);
      }
    }
  }

  lemma RuleOnPath(n: Node, k: nat, t: Token, before: Node, after: Node, n': Node, ts: seq<Token>, tail: seq<Token>)
    requires k == ChildIndex(n.children, t) && Label(after) == t && ts != [] && ts[0] == t && ts[1..] == tail
    requires if k < |n.children| then before == n.children[k] else before.rule == 0 && before.children == []
    requires n' == n.(children := if k < |n.children| then n.children[k := after] else n.children + [after])
    ensures RuleAt(n', ts) == RuleAt(after, tail) && RuleAt(n, ts) == RuleAt(before, tail)
  {
    ChildAfterAdd(n, k, t, after, n', t);
    if k == |n.children| {
      RuleAtLeaf(before, tail);
    }
  }

  lemma RuleOffPath(n: Node, k: nat, t: Token, after: Node, n': Node, ts: seq<Token>)
    requires k == ChildIndex(n.children, t) && Label(after) == t && ts != [] && ts[0] != t
    requires n' == n.(children := if k < |n.children| then n.children[k := after] else n.children + [after])
    ensures RuleAt(n', ts) == RuleAt(n, ts)
  {
    ChildAfterAdd(n, k, t, after, n', ts[0]);
  }

  lemma AddedChild(n: Node, k: nat, t: Token, before: Node, after: Node, n': Node)
    requires Unoptimized(n) && k == ChildIndex(n.children, t)
    requires Label(before) == t && UnoptimizedLabel(before)
    requires k < |n.children| ==> before == n.children[k]
    requires Unoptimized(after) && after.key == before.key && after.param == before.param
    requires n' == n.(children := if k < |n.children| then n.children[k := after] else n.children + [after])
    ensures Unoptimized(n')
  {
    assert Label(after) == t;
  }

  lemma ChildIndexIs(cs: seq<Node>, t: Token, k: nat)
    requires k <= |cs| && (k < |cs| ==> Label(cs[k]) == t)
    requires forall j :: 0 <= j < k ==> Label(cs[j]) != t
    ensures ChildIndex(cs, t) == k
  {
    var j := ChildIndex(cs, t);
    assert j < |cs| ==> Label(cs[j]) == t;
  }

  lemma ChildAfterAdd(n: Node, k: nat, t: Token, after: Node, n': Node, u: Token)
    requires k == ChildIndex(n.children, t) && Label(after) == t
    requires n' == n.(children := if k < |n.children| then n.children[k := after] else n.children + [after])
    ensures u == t ==> ChildIndex(n'.children, u) == k
    ensures u != t ==>
      var j, j' := ChildIndex(n.children, u), ChildIndex(n'.children, u);
      (j < |n.children| ==> j' == j && n'.children[j'] == n.children[j]) && (j == |n.children| ==> j' == |n'.children|)
  {
    var cs, cs' := n.children, n'.children;
    assert forall i :: 0 <= i < |cs| && i != k ==> cs'[i] == cs[i];
    if u == t {
      ChildIndexIs(cs', u, k);
    } else {
      var j := ChildIndex(cs, u);
      var j' := if j < |cs| then j else |cs'|;
      forall i | 0 <= i < j' ensures Label(cs'[i]) != u {
        if i != k {
          assert Label(cs[i]) != u;
        }
      }
      ChildIndexIs(cs', u, j');
    }
  }

  // ----- find visits exactly the stored paths -----

  /** The outcome of matching one token path, as `find` would report it. */
  function MatchPath(ts: seq<Token>, url: string, pos: nat, ps: Params, strtod: Strtod): Option<Params>
    requires pos <= |url|
  {
    match Captured(ts, url, pos, strtod)
    case None => None
    case Some(vs) => Some(PushAll(ps, vs))
  }

  /** `f` is the best stored path below `n`: smallest index, with parameters of such a path. */
  ghost predicate Best(n: Node, url: string, pos: nat, ps: Params, strtod: Strtod, f: Found)
    requires pos <= |url|
  {
    && (f.rule != 0 ==> exists ts :: RuleAt(n, ts) == f.rule && MatchPath(ts, url, pos, ps, strtod) == Some(f.params))
    && (forall ts :: RuleAt(n, ts) != 0 && MatchPath(ts, url, pos, ps, strtod).Some? ==> 0 != f.rule <= RuleAt(n, ts))
  }

  /** `f` is the best stored path among those that start with one of the first `k` children. */
  ghost predicate BestUpTo(n: Node, k: nat, url: string, pos: nat, ps: Params, strtod: Strtod, f: Found)
    requires pos <= |url|
  {
    && (f.rule != 0 ==> exists ts :: Via(n, 0, k, ts) && RuleAt(n, ts) == f.rule
                                     && MatchPath(ts, url, pos, ps, strtod) == Some(f.params))
    && (forall ts :: Via(n, 0, k, ts) && RuleAt(n, ts) != 0 && MatchPath(ts, url, pos, ps, strtod).Some?
                     ==> 0 != f.rule <= RuleAt(n, ts))
  }

  predicate Via(n: Node, lo: nat, hi: nat, ts: seq<Token>) {
    ts != [] && lo <= ChildIndex(n.children, ts[0]) < hi
  }

  /** Entering a child: the position and parameters its subtree is searched with. */
  function Enter(c: Node, url: string, pos: nat, ps: Params, strtod: Strtod): (r: Option<(nat, Params)>)
    requires pos < |url|
    ensures r.Some? ==> r.value.0 <= |url|
  {
    if c.param != MAX then
      match Capture(c.param, url, pos, strtod)
      case None => None
      case Some((v, e)) => Some((e, Push(ps, v)))
    else if StartsWith(url, pos, c.key) then Some((pos + |c.key|, ps))
    else None
  }

  /** One step of a path is entering the child it goes through. */
  lemma PathStep(n: Node, k: nat, ts: seq<Token>, url: string, pos: nat, ps: Params, strtod: Strtod)
    requires Unoptimized(n) && k < |n.children| && Via(n, k, k + 1, ts) && pos < |url|
    ensures RuleAt(n, ts) == RuleAt(n.children[k], ts[1..])
    ensures var next := Enter(n.children[k], url, pos, ps, strtod);
      MatchPath(ts, url, pos, ps, strtod) ==
      if next.None? then None else MatchPath(ts[1..], url, next.value.0, next.value.1, strtod)
  {
    var c := n.children[k];
    assert ts[0] == Label(c) && c in n.children;
    if c.param == MAX {
      assert c.key == [c.key[0]];
      assert StartsWith(url, pos, c.key) <==> url[pos..pos + 1][0] == c.key[0];
    } else {
      match Capture(c.param, url, pos, strtod)
      case None =>
      case Some((v, e)) =>
        match Captured(ts[1..], url, e, strtod)
        case None =>
        case Some(vs) => assert ([v] + vs)[1..] == vs;
    }
  }

  lemma {:induction false} FindNodeBest(n: Node, url: string, pos: nat, ps: Params, strtod: Strtod)
    requires pos <= |url| && Unoptimized(n)
    ensures Best(n, url, pos, ps, strtod, FindNode(n, url, pos, ps, strtod))
    decreases n, 1
  {
    if pos == |url| {
      assert RuleAt(n, []) == n.rule && MatchPath([], url, pos, ps, strtod) == Some(ps);
    } else {
      FindAmongBest(n, 0, url, pos, ps, Found(0, NO_PARAMS), strtod);
      assert n.children[0..] == n.children;
      forall ts | RuleAt(n, ts) != 0 && MatchPath(ts, url, pos, ps, strtod).Some?
        ensures Via(n, 0, |n.children|, ts)
      {
      }
    }
  }

  lemma {:induction false} FindAmongBest(n: Node, k: nat, url: string, pos: nat, ps: Params, acc: Found, strtod: Strtod)
    requires pos < |url| && Unoptimized(n) && k <= |n.children|
    requires BestUpTo(n, k, url, pos, ps, strtod, acc)
    ensures BestUpTo(n, |n.children|, url, pos, ps, strtod, FindAmong(n.children[k..], url, pos, ps, acc, strtod))
    decreases n, 0, |n.children| - k
  {
    if k < |n.children| {
      var c := n.children[k];
      assert n.children[k..][1..] == n.children[k + 1..];
      var f := FindChild(c, url, pos, ps, strtod);
      ChildBest(n, k, url, pos, ps, strtod);
      var acc' := UpdateFound(acc, f);
      forall ts | Via(n, 0, k + 1, ts) && RuleAt(n, ts) != 0 && MatchPath(ts, url, pos, ps, strtod).Some?
        ensures 0 != acc'.rule <= RuleAt(n, ts)
      {
        assert Via(n, 0, k, ts) || Via(n, k, k + 1, ts);
      }
      if acc'.rule != 0 {
        var ts :| (Via(n, 0, k, ts) || Via(n, k, k + 1, ts)) && RuleAt(n, ts) == acc'.rule
                  && MatchPath(ts, url, pos, ps, strtod) == Some(acc'.params);
        assert Via(n, 0, k + 1, ts);
      }
      FindAmongBest(n, k + 1, url, pos, ps, acc', strtod);
    } else {
      assert n.children[k..] == [];
    }
  }

  lemma {:induction false} ChildBest(n: Node, k: nat, url: string, pos: nat, ps: Params, strtod: Strtod)
    requires pos < |url| && Unoptimized(n) && k < |n.children|
    ensures var f := FindChild(n.children[k], url, pos, ps, strtod);
      && (f.rule != 0 ==> exists ts :: Via(n, k, k + 1, ts) && RuleAt(n, ts) == f.rule
                                       && MatchPath(ts, url, pos, ps, strtod) == Some(f.params))
      && (forall ts :: Via(n, k, k + 1, ts) && RuleAt(n, ts) != 0 && MatchPath(ts, url, pos, ps, strtod).Some?
                       ==> 0 != f.rule <= RuleAt(n, ts))
    decreases n, 0, 0
  {
    var c := n.children[k];
    var f := FindChild(c, url, pos, ps, strtod);
    var next := Enter(c, url, pos, ps, strtod);
    if next.Some? {
      FindNodeBest(c, url, next.value.0, next.value.1, strtod);
      assert f == FindNode(c, url, next.value.0, next.value.1, strtod);
      if f.rule != 0 {
        var us :| RuleAt(c, us) == f.rule && MatchPath(us, url, next.value.0, next.value.1, strtod) == Some(f.params);
        var ts := [Label(c)] + us;
        assert ts[1..] == us && Via(n, k, k + 1, ts);
        PathStep(n, k, ts, url, pos, ps, strtod);
      }
    } else {
      assert f.rule == 0;
    }
    forall ts | Via(n, k, k + 1, ts) && RuleAt(n, ts) != 0 && MatchPath(ts, url, pos, ps, strtod).Some?
      ensures 0 != f.rule <= RuleAt(n, ts)
    {
      PathStep(n, k, ts, url, pos, ps, strtod);
    }
  }

  // ----- optimize -----

  function NodeCount(n: Node): (c: nat)
    ensures c > 0
    decreases n, 0
  {
    1 + NodesCount(n.children)
  }

  function NodesCount(cs: seq<Node>): nat
    decreases cs, 1
  {
    if cs == [] then 0 else NodeCount(cs[0]) + NodesCount(cs[1..])
  }

  lemma {:induction false} ChildIsSmaller(cs: seq<Node>, k: nat)
    requires k < |cs|
    ensures NodeCount(cs[k]) <= NodesCount(cs)
  {
    if k > 0 {
      ChildIsSmaller(cs[1..], k - 1);
    }
  }

  /** A node and its only child in one. */
  function Merged(n: Node): Node
    requires IsSimpleNode(n) && n.children != []
  {
    var c := n.children[0];
    Node(c.rule, c.bp, n.key + c.key, n.param, c.children)
  }

  function OptimizeNode(n: Node): Node
    decreases NodeCount(n), 0
  {
    if n.children == [] then n
    else if IsSimpleNode(n) then
      assert NodesCount(n.children) == NodeCount(n.children[0]) + NodesCount(n.children[1..]);
      OptimizeNode(Merged(n))
    else n.(children := OptimizeAll(n.children))
  }

  function OptimizeAll(cs: seq<Node>): (r: seq<Node>)
    ensures |r| == |cs|
    decreases NodesCount(cs), 1, |cs|
  {
    if cs == [] then [] else [OptimizeNode(cs[0])] + OptimizeAll(cs[1..])
  }

  /** The outcomes a caller of `find` cannot tell apart while collecting children. */
  predicate SameFound(f: Found, g: Found) {
    f == g || (f.rule == 0 && g.rule == 0)
  }

  /** No literal node has an empty key: true of every trie `add` builds, kept by merging. */
  predicate Keyed(n: Node) {
    forall c :: c in n.children ==> (c.param == MAX ==> c.key != "") && Keyed(c)
  }

  lemma {:induction false} UnoptimizedIsKeyed(n: Node)
    requires Unoptimized(n)
    ensures Keyed(n)
  {
    forall c | c in n.children ensures Keyed(c) {
      UnoptimizedIsKeyed(c);
    }
  }

  lemma ConcatenatedKey(url: string, pos: nat, a: string, b: string)
    requires pos <= |url|
    ensures StartsWith(url, pos, a + b) <==> StartsWith(url, pos, a) && StartsWith(url, pos + |a|, b)
  {
    var mid, end := pos + |a|, pos + |a| + |b|;
    if end <= |url| {
      assert url[pos..end] == url[pos..mid] + url[mid..end];
      if StartsWith(url, pos, a + b) {
        assert url[pos..mid] == (a + b)[..|a|] == a;
        assert url[mid..end] == (a + b)[|a|..] == b;
      }
    }
  }

  /** Merging two nodes of a chain never changes what the chain contributes. */
  lemma MergeKeepsFind(n: Node, url: string, pos: nat, ps: Params, strtod: Strtod)
    requires IsSimpleNode(n) && n.children != [] && pos < |url| && Keyed(n)
    ensures SameFound(FindChild(n, url, pos, ps, strtod), FindChild(Merged(n), url, pos, ps, strtod))
    ensures Keyed(Merged(n))
  {
    var c := n.children[0];
    var m := Merged(n);
    var none := Found(0, NO_PARAMS);
    assert n.children == [c] && c in n.children;
    ConcatenatedKey(url, pos, n.key, c.key);
    var mid := pos + |n.key|;
    if StartsWith(url, pos, n.key) && mid < |url| {
      var f := FindChild(c, url, mid, ps, strtod);
      assert n.children[1..] == [];
      assert FindAmong(n.children, url, mid, ps, none, strtod) == UpdateFound(none, f);
      if StartsWith(url, mid, c.key) {
        var p := mid + |c.key|;
        assert FindNode(c, url, p, ps, strtod) == FindNode(m, url, p, ps, strtod);
      }
    }
  }

  /** Optimizing a child keeps what it contributes to every search of every URL. */
  lemma {:induction false} OptimizeNodeKeepsFind(n: Node, url: string, pos: nat, ps: Params, strtod: Strtod)
    requires pos < |url| && Keyed(n)
    ensures SameFound(FindChild(n, url, pos, ps, strtod), FindChild(OptimizeNode(n), url, pos, ps, strtod))
    decreases NodeCount(n), 0
  {
    if n.children == [] {
    } else if IsSimpleNode(n) {
      assert NodesCount(n.children) == NodeCount(n.children[0]) + NodesCount(n.children[1..]);
      MergeKeepsFind(n, url, pos, ps, strtod);
      OptimizeNodeKeepsFind(Merged(n), url, pos, ps, strtod);
    } else {
      var next := Enter(n, url, pos, ps, strtod);
      if next.Some? && next.value.0 < |url| {
        OptimizeAllKeepsFind(n.children, url, next.value.0, next.value.1, Found(0, NO_PARAMS), strtod);
      }
    }
  }

  lemma {:induction false} OptimizeAllKeepsFind(cs: seq<Node>, url: string, pos: nat, ps: Params, acc: Found,
      strtod: Strtod)
    requires pos < |url| && forall c :: c in cs ==> Keyed(c)
    ensures FindAmong(cs, url, pos, ps, acc, strtod) == FindAmong(OptimizeAll(cs), url, pos, ps, acc, strtod)
    decreases NodesCount(cs), 1, |cs|
  {
    if cs != [] {
      OptimizeNodeKeepsFind(cs[0], url, pos, ps, strtod);
      var o := OptimizeAll(cs);
      assert o[1..] == OptimizeAll(cs[1..]);
      OptimizeAllKeepsFind(cs[1..], url, pos, ps, UpdateFound(acc, FindChild(cs[0], url, pos, ps, strtod)), strtod);
    }
  }

  /** `optimize` on the whole trie: the head itself is never merged. */
  function OptimizeHead(head: Node): Node {
    head.(children := OptimizeAll(head.children))
  }

  lemma OptimizeHeadKeepsFind(head: Node, url: string, strtod: Strtod)
    requires Keyed(head)
    ensures FindNode(OptimizeHead(head), url, 0, NO_PARAMS, strtod) == FindNode(head, url, 0, NO_PARAMS, strtod)
  {
    if url != "" {
      OptimizeAllKeepsFind(head.children, url, 0, NO_PARAMS, Found(0, NO_PARAMS), strtod);
    }
  }

  // ----- Registered rules -----

  type Rules = seq<(string, uint16)>

  ghost predicate AllValid(rules: Rules) {
    forall j :: 0 <= j < |rules| ==> ValidPattern(rules[j].0)
  }

  /** The trie stores exactly the registered rules. */
  ghost predicate Stores(n: Node, rules: Rules)
    requires AllValid(rules)
  {
    && (forall j :: 0 <= j < |rules| && rules[j].1 != 0 ==> RuleAt(n, Tokens(rules[j].0)) == rules[j].1)
    && (forall ts :: RuleAt(n, ts) != 0 ==>
          exists j :: 0 <= j < |rules| && Tokens(rules[j].0) == ts && rules[j].1 == RuleAt(n, ts))
  }

  /** Whether a rule's whole pattern matches the whole URL. */
  predicate Matches(rule: (string, uint16), url: string, strtod: Strtod)
    requires ValidPattern(rule.0)
  {
    rule.1 != 0 && Captured(Tokens(rule.0), url, 0, strtod).Some?
  }

  /** The specification of `find`: look at every rule, keep the smallest matching index. */
  function LinearScan(rules: Rules, url: string, strtod: Strtod): uint16
    requires AllValid(rules)
  {
    if rules == [] then 0
    else
      var best := LinearScan(rules[..|rules| - 1], url, strtod);
      var r := rules[|rules| - 1];
      if Matches(r, url, strtod) && (best == 0 || r.1 < best) then r.1 else best
  }

  lemma {:induction false} LinearScanIsLeast(rules: Rules, url: string, strtod: Strtod)
    requires AllValid(rules)
    ensures var b := LinearScan(rules, url, strtod);
      && (b != 0 ==> exists j :: 0 <= j < |rules| && Matches(rules[j], url, strtod) && rules[j].1 == b)
      && (forall j :: 0 <= j < |rules| && Matches(rules[j], url, strtod) ==> 0 != b <= rules[j].1)
  {
    if rules != [] {
      var n := |rules| - 1;
      LinearScanIsLeast(rules[..n], url, strtod);
      var b, b' := LinearScan(rules, url, strtod), LinearScan(rules[..n], url, strtod);
      if b != 0 && b == b' {
        var j :| 0 <= j < n && Matches(rules[..n][j], url, strtod) && rules[..n][j].1 == b;
        assert Matches(rules[j], url, strtod) && rules[j].1 == b;
      }
      forall j | 0 <= j < |rules| && Matches(rules[j], url, strtod) ensures 0 != b <= rules[j].1 {
        if j < n { assert rules[..n][j] == rules[j]; }
      }
    }
  }

  /** The parameters `find` hands out are those of a rule with the reported index. */
  ghost predicate FoundRule(rules: Rules, url: string, strtod: Strtod, f: Found)
    requires AllValid(rules)
  {
    && f.rule == LinearScan(rules, url, strtod)
    && (f.rule != 0 ==>
          exists j :: 0 <= j < |rules| && rules[j].1 == f.rule && Matches(rules[j], url, strtod)
                      && f.params == PushAll(NO_PARAMS, Captured(Tokens(rules[j].0), url, 0, strtod).value))
  }

  /** The trie search refines the linear scan. */
  lemma FindIsLinearScan(n: Node, rules: Rules, url: string, strtod: Strtod)
    requires AllValid(rules) && Unoptimized(n) && Stores(n, rules)
    ensures FoundRule(rules, url, strtod, FindNode(n, url, 0, NO_PARAMS, strtod))
  {
    var f := FindNode(n, url, 0, NO_PARAMS, strtod);
    FindNodeBest(n, url, 0, NO_PARAMS, strtod);
    LinearScanIsLeast(rules, url, strtod);
    if f.rule != 0 {
      var ts :| RuleAt(n, ts) == f.rule && MatchPath(ts, url, 0, NO_PARAMS, strtod) == Some(f.params);
      var j :| 0 <= j < |rules| && Tokens(rules[j].0) == ts && rules[j].1 == RuleAt(n, ts);
      assert Matches(rules[j], url, strtod);
    }
    forall j | 0 <= j < |rules| && Matches(rules[j], url, strtod) ensures 0 != f.rule <= rules[j].1 {
      assert MatchPath(Tokens(rules[j].0), url, 0, NO_PARAMS, strtod).Some?;
    }
  }

  /** Adding one more rule keeps the trie and the rule list in step. */
  lemma AddKeepsStores(n: Node, rules: Rules, url: string, rule: uint16, prefix: nat, bp: uint16)
    requires AllValid(rules) && Unoptimized(n) && Stores(n, rules) && ValidPattern(url)
    ensures var r := AddFrom(n, url, 0, rule, prefix, bp);
      && (r.None? <==> exists j :: 0 <= j < |rules| && rules[j].1 != 0 && Tokens(rules[j].0) == Tokens(url))
      && (r.Some? ==> Unoptimized(r.value) && AllValid(rules + [(url, rule)]) && Stores(r.value, rules + [(url, rule)]))
  {
    AddStoresRule(n, url, 0, rule, prefix, bp);
    var r := AddFrom(n, url, 0, rule, prefix, bp);
    var rules' := rules + [(url, rule)];
    if r.Some? {
      assert RuleAt(n, Tokens(url)) == 0;
      forall ts | RuleAt(r.value, ts) != 0
        ensures exists j :: 0 <= j < |rules'| && Tokens(rules'[j].0) == ts && rules'[j].1 == RuleAt(r.value, ts)
      {
        if ts == Tokens(url) {
          assert rules'[|rules|] == (url, rule);
        } else {
          var j :| 0 <= j < |rules| && Tokens(rules[j].0) == ts && rules[j].1 == RuleAt(n, ts);
          assert rules'[j] == rules[j];
        }
      }
    }
  }
}
