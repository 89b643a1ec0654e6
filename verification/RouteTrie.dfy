/**
 * The mutable side of the trie: `add` walks a cursor, `find` pushes and pops captured values in
 * one shared parameter object, `optimizeNode` rewrites nodes.
 */
module RouteTrie {

  import opened Wrappers
  import opened Patterns
  import opened Tries

  // Each method is tied to the functions of module Tries.

  // ----- Cursors into a node -----

  type Path = seq<nat>

  predicate HasPath(n: Node, path: Path)
    decreases |path|
  {
    path == [] || (path[0] < |n.children| && HasPath(n.children[path[0]], path[1..]))
  }

  function NodeAt(n: Node, path: Path): Node
    requires HasPath(n, path)
    decreases |path|
  {
    if path == [] then n else NodeAt(n.children[path[0]], path[1..])
  }

  function ReplaceAt(n: Node, path: Path, m: Node): Node
    requires HasPath(n, path)
    decreases |path|
  {
    if path == [] then m
    else n.(children := n.children[path[0] := ReplaceAt(n.children[path[0]], path[1..], m)])
  }

  /** Replacing a node leaves the cursor valid, and a later replacement overrides it. */
  lemma {:induction false} ReplacedPath(n: Node, path: Path, m: Node)
    requires HasPath(n, path)
    ensures HasPath(ReplaceAt(n, path, m), path)
    ensures NodeAt(ReplaceAt(n, path, m), path) == m
    ensures forall m' :: ReplaceAt(ReplaceAt(n, path, m), path, m') == ReplaceAt(n, path, m')
    decreases |path|
  {
    if path != [] {
      ReplacedPath(n.children[path[0]], path[1..], m);
    }
  }

  /** One level deeper: replacing a child is replacing its parent with that child changed. */
  lemma {:induction false} DeeperPath(n: Node, path: Path, k: nat)
    requires HasPath(n, path) && k < |NodeAt(n, path).children|
    ensures HasPath(n, path + [k]) && NodeAt(n, path + [k]) == NodeAt(n, path).children[k]
    ensures forall c :: ReplaceAt(n, path + [k], c)
                     == ReplaceAt(n, path, NodeAt(n, path).(children := NodeAt(n, path).children[k := c]))
    decreases |path|
  {
    if path != [] {
      assert (path + [k])[1..] == path[1..] + [k];
      DeeperPath(n.children[path[0]], path[1..], k);
    } else {
      assert path + [k] == [k] && [k][1..] == [];
    }
  }

  /** A subtree with no rules never refuses a new one. */
  lemma FreshNodeAccepts(t: Token, bp1: uint16, url: string, i: nat, rule: uint16, prefix: nat, bp: uint16)
    requires i <= |url| && ValidFrom(url, i)
    requires t.Par? ==> t.t != MAX
    requires t.Lit? ==> t.c != '\0'
    ensures Unoptimized(NewChild(t, bp1)) && Label(NewChild(t, bp1)) == t && UnoptimizedLabel(NewChild(t, bp1))
    ensures AddFrom(NewChild(t, bp1), url, i, rule, prefix, bp).Some?
  {
    RuleAtLeaf(NewChild(t, bp1), TokensFrom(url, i));
    AddStoresRule(NewChild(t, bp1), url, i, rule, prefix, bp);
  }

  // ----- The parameter object shared along one search -----

  class RoutingParams {
    var ints: seq<int>
    var uints: seq<nat>
    var doubles: seq<real>
    var strings: seq<string>

    function Value(): Params
      reads this
    {
      Params(ints, uints, doubles, strings)
    }

    constructor ()
      ensures Value() == NO_PARAMS
    {
      ints, uints, doubles, strings := [], [], [], [];
    }

    method PushBack(v: Patterns.Value)
      modifies this
      ensures Value() == Push(old(Value()), v)
    {
      match v {
        case IntV(i) => ints := ints + [i];
        case UintV(u) => uints := uints + [u];
        case DoubleV(d) => doubles := doubles + [d];
        case StringV(s) => strings := strings + [s];
      }
    }

    /** Undoes the push of a value of the same kind. */
    method PopBack(v: Patterns.Value, ghost before: Params)
      requires Value() == Push(before, v)
      modifies this
      ensures Value() == before
    {
      match v {
        case IntV(_) => ints := ints[..|ints| - 1];
        case UintV(_) => uints := uints[..|uints| - 1];
        case DoubleV(_) => doubles := doubles[..|doubles| - 1];
        case StringV(_) => strings := strings[..|strings| - 1];
      }
    }
  }

  /** No URL tells the two tries apart. */
  ghost predicate SameSearch(a: Node, b: Node) {
    forall url, strtod :: FindNode(a, url, 0, NO_PARAMS, strtod) == FindNode(b, url, 0, NO_PARAMS, strtod)
  }

  class Trie {
    var head: Node
    ghost var rules: Rules  // what has been registered so far
    ghost var grown: Node   // the trie as `add` left it

    ghost predicate Valid()
      reads this
    {
      && AllValid(rules)
      && Unoptimized(grown)
      && Stores(grown, rules)
      && Keyed(head)
      && SameSearch(head, grown)
    }

    constructor ()
      ensures Valid() && rules == [] && head == grown
    {
      head, grown, rules := EMPTY_NODE, EMPTY_NODE, [];
      new;
      forall ts ensures RuleAt(EMPTY_NODE, ts) == 0 {
        RuleAtLeaf(EMPTY_NODE, ts);
      }
    }

    /** The search loop of `add` over the cursor's children. */
    method ChildWith(cs: seq<Node>, t: Token) returns (k: nat)
      requires forall c :: c in cs ==> UnoptimizedLabel(c)
      requires t.Par? ==> t.t != MAX
      requires t.Lit? ==> t.c != '\0'
      ensures k == ChildIndex(cs, t)
    {
      k := 0;
      while k < |cs|
        invariant k <= |cs|
        invariant ChildIndex(cs, t) == k + ChildIndex(cs[k..], t)
      {
        var c := cs[k];
        assert c in cs;
        var first := if c.key == "" then '\0' else c.key[0];
        if (t.Par? && c.param == t.t) || (t.Lit? && first == t.c) {
          assert Label(c) == t;
          return;
        }
        assert Label(c) != t;
        assert cs[k..][1..] == cs[k + 1..];
        k := k + 1;
      }
    }

    /** One turn of the loop of `add`: the cursor goes to the child of the next token, which is made
        when there is none. What is still to be added is the same. */
    method Descend(path: Path, url: string, i: nat, ghost rule: uint16, prefix: nat, bp: uint16)
      returns (path': Path, next: nat)
      requires HasPath(head, path) && Unoptimized(NodeAt(head, path)) && i < |url| && ValidFrom(url, i)
      modifies this`head
      ensures i < next <= |url| && ValidFrom(url, next) && HasPath(head, path') && Unoptimized(NodeAt(head, path'))
      ensures var r := AddFrom(NodeAt(old(head), path), url, i, rule, prefix, bp);
        var r' := AddFrom(NodeAt(head, path'), url, next, rule, prefix, bp);
        && (r.Some? <==> r'.Some?)
        && (r.Some? ==> ReplaceAt(old(head), path, r.value) == ReplaceAt(head, path', r'.value))
        && (r.None? ==> head == old(head))
    {
      var t := TokenAt(url, i).0;
      next := TokenAt(url, i).1;
      var cursor := NodeAt(head, path);
      var k := ChildWith(cursor.children, t);
      if k == |cursor.children| {
        var fresh' := NewChild(t, BlueprintAt(i, prefix, bp));
        FreshNodeAccepts(t, BlueprintAt(i, prefix, bp), url, next, rule, prefix, bp);
        var grownCursor := cursor.(children := cursor.children + [fresh']);
        assert forall c :: grownCursor.children[k := c] == cursor.children + [c];
        ReplacedPath(head, path, grownCursor);
        head := ReplaceAt(head, path, grownCursor);
      }
      DeeperPath(head, path, k);
      path' := path + [k];
    }

    /** Assumes, as the source does, that the trie has not been optimized yet.
        `ok` is false where the source throws "handler already exists": exactly when a
        non-zero rule with the same tokens is registered, and then nothing has changed. */
    method Add(url: string, rule: uint16, prefix: nat, bp: uint16) returns (ok: bool)
      requires Valid() && head == grown
      requires ValidPattern(url)
      modifies this
      ensures Valid() && head == grown
      ensures ok <==> !exists j :: 0 <= j < |old(rules)| && old(rules)[j].1 != 0
                                   && ValidPattern(old(rules)[j].0) && Tokens(old(rules)[j].0) == Tokens(url)
      ensures rules == if ok then old(rules) + [(url, rule)] else old(rules)
      ensures !ok ==> head == old(head)
    {
      AddKeepsStores(head, rules, url, rule, prefix, bp);
      ghost var goal := AddFrom(head, url, 0, rule, prefix, bp);
      var path: Path := [];
      var i := 0;
      while i < |url|
        invariant i <= |url| && ValidFrom(url, i)
        invariant HasPath(head, path) && Unoptimized(NodeAt(head, path))
        invariant var r := AddFrom(NodeAt(head, path), url, i, rule, prefix, bp);
          goal == if r.Some? then Some(ReplaceAt(head, path, r.value)) else None
        invariant goal.None? ==> head == old(head)
        invariant unchanged(`rules) && unchanged(`grown)
      {
        path, i := Descend(path, url, i, rule, prefix, bp);
      }
      var last := NodeAt(head, path);
      if last.rule != 0 {
        return false;
      }
      head := ReplaceAt(head, path, last.(rule := rule));
      rules := rules + [(url, rule)];
      grown := head;
      UnoptimizedIsKeyed(head);
      return true;
    }

    /** The backtracking search below `n`. The shared parameters come back as they were. */
    method FindFrom(url: string, n: Node, pos: nat, params: RoutingParams, strtod: Strtod)
      returns (found: uint16, matchParams: Params)
      requires pos <= |url|
      modifies params
      ensures params.Value() == old(params.Value())
      ensures Found(found, matchParams) == FindNode(n, url, pos, old(params.Value()), strtod)
      decreases n
    {
      if pos == |url| {
        return n.rule, params.Value();
      }
      ghost var ps := params.Value();
      found, matchParams := 0, NO_PARAMS;
      var k := 0;
      while k < |n.children|
        invariant k <= |n.children|
        invariant params.Value() == ps
        invariant FindAmong(n.children, url, pos, ps, Found(0, NO_PARAMS), strtod)
               == FindAmong(n.children[k..], url, pos, ps, Found(found, matchParams), strtod)
      {
        var child := n.children[k];
        var r, rParams := 0, NO_PARAMS;
        if child.param != MAX {
          var captured := Capture(child.param, url, pos, strtod);
          if captured.Some? {
            var (v, e) := captured.value;
            params.PushBack(v);
            r, rParams := FindFrom(url, child, e, params, strtod);
            params.PopBack(v, ps);
          }
        } else if StartsWith(url, pos, child.key) {
          r, rParams := FindFrom(url, child, pos + |child.key|, params, strtod);
        }
        assert Found(r, rParams) == FindChild(child, url, pos, ps, strtod);
        if r != 0 && (found == 0 || found > r) {
          found, matchParams := r, rParams;
        }
        assert n.children[k..][1..] == n.children[k + 1..];
        k := k + 1;
      }
    }

    /** The smallest index whose whole pattern matches the whole URL, optimized or not. */
    method Find(url: string, strtod: Strtod) returns (rule: uint16, params: Params)
      requires Valid()
      ensures FoundRule(rules, url, strtod, Found(rule, params))
    {
      var shared := new RoutingParams();
      rule, params := FindFrom(url, head, 0, shared, strtod);
      FindIsLinearScan(grown, rules, url, strtod);
    }

    method OptimizeInPlace(n: Node) returns (m: Node)
      ensures m == OptimizeNode(n)
      decreases NodeCount(n)
    {
      if n.children == [] {
        return n;
      }
      if IsSimpleNode(n) {
        assert NodesCount(n.children) == NodeCount(n.children[0]) + NodesCount(n.children[1..]);
        m := OptimizeInPlace(Merged(n));
      } else {
        var cs := OptimizeChildren(n);
        m := n.(children := cs);
      }
    }

    method OptimizeChildren(n: Node) returns (cs: seq<Node>)
      ensures cs == OptimizeAll(n.children)
      decreases NodeCount(n), 0
    {
      cs := n.children;
      var k := 0;
      while k < |cs|
        invariant k <= |cs| == |n.children|
        invariant cs[k..] == n.children[k..]
        invariant OptimizeAll(n.children) == cs[..k] + OptimizeAll(n.children[k..])
      {
        ChildIsSmaller(n.children, k);
        var c := OptimizeInPlace(cs[k]);
        assert n.children[k..][0] == cs[k] && n.children[k..][1..] == n.children[k + 1..];
        assert cs[..k] + [c] == cs[k := c][..k + 1];
        cs := cs[k := c];
        k := k + 1;
      }
    }

    method Optimize()
      requires Valid()
      modifies this`head
      ensures Valid() && head == OptimizeHead(old(head))
    {
      forall url, strtod
        ensures FindNode(OptimizeHead(head), url, 0, NO_PARAMS, strtod) == FindNode(head, url, 0, NO_PARAMS, strtod)
      {
        OptimizeHeadKeepsFind(head, url, strtod);
      }
      OptimizeHeadKeyed(head);
      var cs := OptimizeChildren(head);
      head := head.(children := cs);
    }

    /** `ok` is false where the source throws "Trie header should be simple!". */
    method Validate() returns (ok: bool)
      requires Valid()
      modifies this`head
      ensures Valid()
      ensures ok <==> IsSimpleNode(old(head))
      ensures head == if ok then OptimizeHead(old(head)) else old(head)
    {
      ok := IsSimpleNode(head);
      if ok {
        Optimize();
      }
    }
  }

  lemma {:induction false} OptimizeNodeKeyed(n: Node)
    requires Keyed(n)
    ensures Keyed(OptimizeNode(n)) && OptimizeNode(n).param == n.param
    ensures n.key != "" ==> OptimizeNode(n).key != ""
    decreases NodeCount(n), 0
  {
    if n.children == [] {
    } else if IsSimpleNode(n) {
      assert NodesCount(n.children) == NodeCount(n.children[0]) + NodesCount(n.children[1..]);
      OptimizeNodeKeyed(Merged(n));
    } else {
      OptimizeAllKeyed(n.children);
    }
  }

  lemma {:induction false} OptimizeAllKeyed(cs: seq<Node>)
    requires forall c :: c in cs ==> (c.param == MAX ==> c.key != "") && Keyed(c)
    ensures forall c :: c in OptimizeAll(cs) ==> (c.param == MAX ==> c.key != "") && Keyed(c)
    decreases NodesCount(cs), 1, |cs|
  {
    if cs != [] {
      OptimizeNodeKeyed(cs[0]);
      OptimizeAllKeyed(cs[1..]);
    }
  }

  lemma OptimizeHeadKeyed(head: Node)
    requires Keyed(head)
    ensures Keyed(OptimizeHead(head))
  {
    OptimizeAllKeyed(head.children);
  }
}
