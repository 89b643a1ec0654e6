/**
 * Reading a loaded JSON document: each string is decoded in place the first time it is read.
 * In whatever order strings are read, the document keeps its meaning.
 */
module JsonReading {

  import opened JsonBuffer
  import opened JsonParser
  import opened JsonText
  import opened JsonValue
  import opened Octets
  import opened Wrappers

  /** The string node reached by these child positions. */
  function StringAt(n: RNode, path: seq<nat>): Option<Slice>
    decreases path
  {
    match n
    case NString(s) => if path == [] then Some(s) else None
    case NList(ns) => if path != [] && path[0] < |ns| then StringAt(ns[path[0]], path[1..]) else None
    case NObject(fs) => if path != [] && path[0] < |fs| then StringAt(fs[path[0]].1, path[1..]) else None
    case _ => None
  }

  /** The string of the abstract document. */
  function TextAt(v: RValue, path: seq<nat>): Option<bytes>
    decreases path
  {
    match v
    case RString(s) => if path == [] then Some(s) else None
    case RList(vs) => if path != [] && path[0] < |vs| then TextAt(vs[path[0]], path[1..]) else None
    case RObject(fs) => if path != [] && path[0] < |fs| then TextAt(fs[path[0]].1, path[1..]) else None
    case _ => None
  }

  /** The tree after that node moved its `end_`. */
  function WithString(n: RNode, path: seq<nat>, s: Slice): RNode
    requires StringAt(n, path).Some?
    decreases path
  {
    match n
    case NString(_) => NString(s)
    case NList(ns) => NList(ns[path[0] := WithString(ns[path[0]], path[1..], s)])
    case NObject(fs) => NObject(fs[path[0] := (fs[path[0]].0, WithString(fs[path[0]].1, path[1..], s))])
  }

  /** A string of a document lies within the document's part and means its abstract text. */
  lemma {:induction false} StringWithin(b: bytes, n: RNode, v: RValue, lo: nat, hi: nat, path: seq<nat>)
    requires Means(b, n, v, lo, hi) && hi <= |b|
    ensures StringAt(n, path).Some? <==> TextAt(v, path).Some?
    ensures StringAt(n, path).Some? ==> StringMeans(b, StringAt(n, path).value, TextAt(v, path).value, lo, hi)
    decreases |path|, 1, 0
  {
    match n
    case NList(ns) =>
      if path != [] && path[0] < |ns| {
        ItemStringWithin(b, ns, v.items, lo, hi, path);
      }
    case NObject(fs) =>
      if path != [] && path[0] < |fs| {
        FieldStringWithin(b, fs, v.fields, lo, hi, path);
      }
    case _ =>
  }

  lemma {:induction false} ItemStringWithin(b: bytes, ns: seq<RNode>, vs: seq<RValue>, lo: nat, hi: nat, path: seq<nat>)
    requires ItemsMean(b, ns, vs, lo, hi) && hi <= |b|
    requires path != [] && path[0] < |ns|
    ensures StringAt(ns[path[0]], path[1..]).Some? <==> TextAt(vs[path[0]], path[1..]).Some?
    ensures StringAt(ns[path[0]], path[1..]).Some? ==>
              StringMeans(b, StringAt(ns[path[0]], path[1..]).value, TextAt(vs[path[0]], path[1..]).value, lo, hi)
    decreases |path|, 0, |vs|
  {
    var k := |ns| - 1;
    var mid :| lo <= mid <= hi && ItemsMean(b, ns[..k], vs[..k], lo, mid) && Means(b, ns[k], vs[k], mid, hi);
    if path[0] == k {
      StringWithin(b, ns[k], vs[k], mid, hi, path[1..]);
    } else {
      ItemStringWithin(b, ns[..k], vs[..k], lo, mid, path);
    }
  }

  lemma {:induction false} FieldStringWithin(b: bytes, fs: seq<(Slice, RNode)>, vs: seq<(bytes, RValue)>, lo: nat,
      hi: nat, path: seq<nat>)
    requires FieldsMean(b, fs, vs, lo, hi) && hi <= |b|
    requires path != [] && path[0] < |fs|
    ensures StringAt(fs[path[0]].1, path[1..]).Some? <==> TextAt(vs[path[0]].1, path[1..]).Some?
    ensures StringAt(fs[path[0]].1, path[1..]).Some? ==>
              StringMeans(b, StringAt(fs[path[0]].1, path[1..]).value, TextAt(vs[path[0]].1, path[1..]).value, lo, hi)
    decreases |path|, 0, |vs|
  {
    var k := |fs| - 1;
    var mid :| lo <= mid <= hi && FieldsMean(b, fs[..k], vs[..k], lo, mid) && FieldMeans(b, fs[k], vs[k], mid, hi);
    if path[0] == k {
      var m :| mid <= m <= hi && StringMeans(b, fs[k].0, vs[k].0, mid, m) && Means(b, fs[k].1, vs[k].1, m, hi);
      StringWithin(b, fs[k].1, vs[k].1, m, hi, path[1..]);
    } else {
      FieldStringWithin(b, fs[..k], vs[..k], lo, mid, path);
    }
  }

  /** The rest of the document does not notice a read. */
  lemma {:induction false} ReadKeepsMeaning(b: bytes, b': bytes, n: RNode, v: RValue, lo: nat, hi: nat, path: seq<nat>,
      s': Slice)
    requires Means(b, n, v, lo, hi) && hi <= |b| && StringAt(n, path).Some? && TextAt(v, path).Some?
    requires Reads(b, b', StringAt(n, path).value, s', TextAt(v, path).value)
    ensures Means(b', WithString(n, path, s'), v, lo, hi)
    decreases |path|, 1, 0
  {
    StringWithin(b, n, v, lo, hi, path);
    match n
    case NString(_) =>
    case NList(ns) => ItemReadKeepsMeaning(b, b', ns, v.items, lo, hi, path, s');
    case NObject(fs) => FieldReadKeepsMeaning(b, b', fs, v.fields, lo, hi, path, s');
  }

  lemma {:induction false} ItemReadKeepsMeaning(b: bytes, b': bytes, ns: seq<RNode>, vs: seq<RValue>, lo: nat, hi: nat,
      path: seq<nat>, s': Slice)
    requires ItemsMean(b, ns, vs, lo, hi) && hi <= |b|
    requires path != [] && path[0] < |ns| && StringAt(ns[path[0]], path[1..]).Some?
        && TextAt(vs[path[0]], path[1..]).Some?
    requires Reads(b, b', StringAt(ns[path[0]], path[1..]).value, s', TextAt(vs[path[0]], path[1..]).value)
    ensures ItemsMean(b', ns[path[0] := WithString(ns[path[0]], path[1..], s')], vs, lo, hi)
    decreases |path|, 0, |vs|
  {
    var k := |ns| - 1;
    var i, n' := path[0], WithString(ns[path[0]], path[1..], s');
    var mid :| lo <= mid <= hi && ItemsMean(b, ns[..k], vs[..k], lo, mid) && Means(b, ns[k], vs[k], mid, hi);
    assert ns[i := n'][..k] == if i == k then ns[..k] else ns[..k][i := n'];
    if i == k {
      StringWithin(b, ns[k], vs[k], mid, hi, path[1..]);
      ReadKeepsMeaning(b, b', ns[k], vs[k], mid, hi, path[1..], s');
      ItemsFrame(b, b', ns[..k], vs[..k], lo, mid);
    } else {
      ItemStringWithin(b, ns[..k], vs[..k], lo, mid, path);
      ItemReadKeepsMeaning(b, b', ns[..k], vs[..k], lo, mid, path, s');
      MeansFrame(b, b', ns[k], vs[k], mid, hi);
    }
  }

  lemma {:induction false} FieldReadKeepsMeaning(b: bytes, b': bytes, fs: seq<(Slice, RNode)>,
      vs: seq<(bytes, RValue)>, lo: nat, hi: nat, path: seq<nat>, s': Slice)
    requires FieldsMean(b, fs, vs, lo, hi) && hi <= |b|
    requires path != [] && path[0] < |fs| && StringAt(fs[path[0]].1, path[1..]).Some?
        && TextAt(vs[path[0]].1, path[1..]).Some?
    requires Reads(b, b', StringAt(fs[path[0]].1, path[1..]).value, s', TextAt(vs[path[0]].1, path[1..]).value)
    ensures FieldsMean(b', fs[path[0] := (fs[path[0]].0, WithString(fs[path[0]].1, path[1..], s'))], vs, lo, hi)
    decreases |path|, 0, |vs|
  {
    var k := |fs| - 1;
    var i, f' := path[0], (fs[path[0]].0, WithString(fs[path[0]].1, path[1..], s'));
    var mid :| lo <= mid <= hi && FieldsMean(b, fs[..k], vs[..k], lo, mid) && FieldMeans(b, fs[k], vs[k], mid, hi);
    assert fs[i := f'][..k] == if i == k then fs[..k] else fs[..k][i := f'];
    if i == k {
      var m :| mid <= m <= hi && StringMeans(b, fs[k].0, vs[k].0, mid, m) && Means(b, fs[k].1, vs[k].1, m, hi);
      StringWithin(b, fs[k].1, vs[k].1, m, hi, path[1..]);
      ReadKeepsMeaning(b, b', fs[k].1, vs[k].1, m, hi, path[1..], s');
      StringFrame(b, b', fs[k].0, vs[k].0, mid, m);
      assert FieldMeans(b', f', vs[k], mid, hi);
      FieldsFrame(b, b', fs[..k], vs[..k], lo, mid);
    } else {
      FieldStringWithin(b, fs[..k], vs[..k], lo, mid, path);
      FieldReadKeepsMeaning(b, b', fs[..k], vs[..k], lo, mid, path, s');
      FieldFrame(b, b', fs[k], vs[k], mid, hi);
    }
  }

  lemma {:induction false} StringIsStillThere(n: RNode, path: seq<nat>, s: Slice)
    requires StringAt(n, path).Some?
    ensures StringAt(WithString(n, path, s), path) == Some(s)
    decreases path
  {
    match n
    case NString(_) =>
    case NList(ns) => StringIsStillThere(ns[path[0]], path[1..], s);
    case NObject(fs) => StringIsStillThere(fs[path[0]].1, path[1..], s);
  }

  /** `s()` on a string of the document: the abstract text, and the document as before. */
  method ReadString(buf: array<byte>, root: RNode, path: seq<nat>, ghost v: RValue, ghost lo: nat, ghost hi: nat)
    returns (text: bytes, root': RNode)
    requires StringAt(root, path).Some? && hi <= buf.Length && Means(buf[..], root, v, lo, hi)
    modifies buf
    ensures TextAt(v, path) == Some(text)
    ensures StringAt(root', path).Some? && Means(buf[..], root', v, lo, hi)
    ensures forall i :: 0 <= i < buf.Length && !(lo <= i < hi) ==> buf[i] == old(buf[i])
  {
    ghost var before := buf[..];
    StringWithin(before, root, v, lo, hi, path);
    var s := StringAt(root, path).value;
    var s';
    text, s' := ReadSlice(buf, s, TextAt(v, path).value);
    root' := WithString(root, path, s');
    StringIsStillThere(root, path, s');
    ReadKeepsMeaning(before, buf[..], root, v, lo, hi, path, s');
  }

  /** The string at a path of a loaded text, read twice. */
  method LoadAndRead(s: bytes, path: seq<nat>) returns (first: Option<bytes>, second: Option<bytes>)
    ensures first == second == if Load(s).Some? then TextAt(Load(s).value, path) else None
  {
    var parser := new Parser(s);
    var root := parser.Parse();
    if root.None? {
      return None, None;
    }
    ghost var v := Load(s).value;
    StringWithin(parser.buf[..], root.value, v, 0, parser.buf.Length, path);
    if StringAt(root.value, path).None? {
      return None, None;
    }
    var text, root' := ReadString(parser.buf, root.value, path, v, 0, parser.buf.Length);
    var again, _ := ReadString(parser.buf, root', path, v, 0, parser.buf.Length);
    return Some(text), Some(again);
  }
}
