/**
 * The parser object of crow/json.h: it advances a cursor through one mutable buffer, writes
 * a NUL over each closing quote and a flag over each opening quote, and returns values that
 * point into the buffer. It refines the parser on text: no byte is read after it was written.
 */
module JsonBuffer {

  import opened JsonText
  import opened JsonValue
  import opened Octets

  /** `start_` and `end_`. */
  datatype Slice = Slice(start: nat, end: nat)

  datatype RNode =
    | NNull | NFalse | NTrue
    | NNumber(text: Slice)
    | NString(text: Slice)
    | NList(items: seq<RNode>)
    | NObject(fields: seq<(Slice, RNode)>)

  // ----- What a node means in a buffer -----

  /** A string slice: escaped text under a set flag byte, decoded bytes under a cleared one. */
  predicate StringMeans(b: bytes, s: Slice, text: bytes, lo: nat, hi: nat) {
    && lo < s.start <= s.end < hi <= |b|
    && if b[s.start - 1] != 0 then ValidText(b[s.start..s.end]) && Decode(b[s.start..s.end]) == text
       else b[s.start..s.end] == text
  }

  /** The node stands for `v`, using only bytes of [lo, hi). */
  ghost predicate Means(b: bytes, n: RNode, v: RValue, lo: nat, hi: nat)
    decreases v, 1
  {
    match n
    case NNull => v == RNull
    case NFalse => v == RFalse
    case NTrue => v == RTrue
    case NNumber(s) => v.RNumber? && lo <= s.start <= s.end <= hi <= |b| && b[s.start..s.end] == v.text
    case NString(s) => v.RString? && StringMeans(b, s, v.value, lo, hi)
    case NList(ns) => v.RList? && ItemsMean(b, ns, v.items, lo, hi)
    case NObject(fs) => v.RObject? && FieldsMean(b, fs, v.fields, lo, hi)
  }

  /** Siblings use separate parts of the buffer, in order. */
  ghost predicate ItemsMean(b: bytes, ns: seq<RNode>, vs: seq<RValue>, lo: nat, hi: nat)
    decreases vs, 0
  {
    && |ns| == |vs| && lo <= hi
    && (ns != [] ==>
          var k := |ns| - 1;
          exists mid :: lo <= mid <= hi && ItemsMean(b, ns[..k], vs[..k], lo, mid) && Means(b, ns[k], vs[k], mid, hi))
  }

  ghost predicate FieldMeans(b: bytes, f: (Slice, RNode), v: (bytes, RValue), lo: nat, hi: nat)
    decreases v, 2
  {
    exists mid :: lo <= mid <= hi && StringMeans(b, f.0, v.0, lo, mid) && Means(b, f.1, v.1, mid, hi)
  }

  ghost predicate FieldsMean(b: bytes, fs: seq<(Slice, RNode)>, vs: seq<(bytes, RValue)>, lo: nat, hi: nat)
    decreases vs, 0
  {
    && |fs| == |vs| && lo <= hi
    && (fs != [] ==>
          var k := |fs| - 1;
          exists mid :: lo <= mid <= hi && FieldsMean(b, fs[..k], vs[..k], lo, mid)
              && FieldMeans(b, fs[k], vs[k], mid, hi))
  }

  predicate SameOn(b: bytes, b': bytes, lo: nat, hi: nat) {
    hi <= |b| == |b'| && forall i :: lo <= i < hi ==> b[i] == b'[i]
  }

  lemma StringFrame(b: bytes, b': bytes, s: Slice, text: bytes, lo: nat, hi: nat)
    requires StringMeans(b, s, text, lo, hi) && SameOn(b, b', lo, hi)
    ensures StringMeans(b', s, text, lo, hi)
  {
    assert b'[s.start..s.end] == b[s.start..s.end];
  }

  /** Changes elsewhere in the buffer do not touch a node. */
  lemma {:induction false} MeansFrame(b: bytes, b': bytes, n: RNode, v: RValue, lo: nat, hi: nat)
    requires Means(b, n, v, lo, hi) && SameOn(b, b', lo, hi)
    ensures Means(b', n, v, lo, hi)
    decreases v, 1
  {
    match n
    case NNumber(s) => assert b'[s.start..s.end] == b[s.start..s.end];
    case NString(s) => StringFrame(b, b', s, v.value, lo, hi);
    case NList(ns) => ItemsFrame(b, b', ns, v.items, lo, hi);
    case NObject(fs) => FieldsFrame(b, b', fs, v.fields, lo, hi);
    case _ =>
  }

  lemma {:induction false} ItemsFrame(b: bytes, b': bytes, ns: seq<RNode>, vs: seq<RValue>, lo: nat, hi: nat)
    requires ItemsMean(b, ns, vs, lo, hi) && SameOn(b, b', lo, hi)
    ensures ItemsMean(b', ns, vs, lo, hi)
    decreases vs, 0
  {
    if ns != [] {
      var k := |ns| - 1;
      var mid :| lo <= mid <= hi && ItemsMean(b, ns[..k], vs[..k], lo, mid) && Means(b, ns[k], vs[k], mid, hi);
      ItemsFrame(b, b', ns[..k], vs[..k], lo, mid);
      MeansFrame(b, b', ns[k], vs[k], mid, hi);
    }
  }

  lemma {:induction false} FieldsFrame(b: bytes, b': bytes, fs: seq<(Slice, RNode)>, vs: seq<(bytes, RValue)>, lo: nat,
      hi: nat)
    requires FieldsMean(b, fs, vs, lo, hi) && SameOn(b, b', lo, hi)
    ensures FieldsMean(b', fs, vs, lo, hi)
    decreases vs, 0
  {
    if fs != [] {
      var k := |fs| - 1;
      var mid :| lo <= mid <= hi && FieldsMean(b, fs[..k], vs[..k], lo, mid) && FieldMeans(b, fs[k], vs[k], mid, hi);
      FieldsFrame(b, b', fs[..k], vs[..k], lo, mid);
      FieldFrame(b, b', fs[k], vs[k], mid, hi);
    }
  }

  lemma {:induction false} FieldFrame(b: bytes, b': bytes, f: (Slice, RNode), v: (bytes, RValue), lo: nat, hi: nat)
    requires FieldMeans(b, f, v, lo, hi) && SameOn(b, b', lo, hi)
    ensures FieldMeans(b', f, v, lo, hi)
    decreases v, 2
  {
    var mid :| lo <= mid <= hi && StringMeans(b, f.0, v.0, lo, mid) && Means(b, f.1, v.1, mid, hi);
    StringFrame(b, b', f.0, v.0, lo, mid);
    MeansFrame(b, b', f.1, v.1, mid, hi);
  }

  /** A node may be given more room. */
  lemma {:induction false} MeansWiden(b: bytes, n: RNode, v: RValue, lo: nat, hi: nat, lo': nat, hi': nat)
    requires Means(b, n, v, lo, hi) && lo' <= lo <= hi <= hi' <= |b|
    ensures Means(b, n, v, lo', hi')
    decreases v, 1
  {
    match n
    case NList(ns) => ItemsWiden(b, ns, v.items, lo, hi, lo', hi');
    case NObject(fs) => FieldsWiden(b, fs, v.fields, lo, hi, lo', hi');
    case _ =>
  }

  lemma {:induction false} ItemsWiden(b: bytes, ns: seq<RNode>, vs: seq<RValue>, lo: nat, hi: nat, lo': nat, hi': nat)
    requires ItemsMean(b, ns, vs, lo, hi) && lo' <= lo <= hi <= hi' <= |b|
    ensures ItemsMean(b, ns, vs, lo', hi')
    decreases vs, 0
  {
    if ns != [] {
      var k := |ns| - 1;
      var mid :| lo <= mid <= hi && ItemsMean(b, ns[..k], vs[..k], lo, mid) && Means(b, ns[k], vs[k], mid, hi);
      ItemsWiden(b, ns[..k], vs[..k], lo, mid, lo', mid);
      MeansWiden(b, ns[k], vs[k], mid, hi, mid, hi');
    }
  }

  lemma {:induction false} FieldsWiden(b: bytes, fs: seq<(Slice, RNode)>, vs: seq<(bytes, RValue)>, lo: nat, hi: nat,
      lo': nat, hi': nat)
    requires FieldsMean(b, fs, vs, lo, hi) && lo' <= lo <= hi <= hi' <= |b|
    ensures FieldsMean(b, fs, vs, lo', hi')
    decreases vs, 0
  {
    if fs != [] {
      var k := |fs| - 1;
      var mid :| lo <= mid <= hi && FieldsMean(b, fs[..k], vs[..k], lo, mid) && FieldMeans(b, fs[k], vs[k], mid, hi);
      FieldsWiden(b, fs[..k], vs[..k], lo, mid, lo', mid);
      FieldWiden(b, fs[k], vs[k], mid, hi, mid, hi');
    }
  }

  lemma {:induction false} FieldWiden(b: bytes, f: (Slice, RNode), v: (bytes, RValue), lo: nat, hi: nat, lo': nat,
      hi': nat)
    requires FieldMeans(b, f, v, lo, hi) && lo' <= lo <= hi <= hi' <= |b|
    ensures FieldMeans(b, f, v, lo', hi')
    decreases v, 2
  {
    var mid :| lo <= mid <= hi && StringMeans(b, f.0, v.0, lo, mid) && Means(b, f.1, v.1, mid, hi);
    MeansWiden(b, f.1, v.1, mid, hi, mid, hi');
    assert StringMeans(b, f.0, v.0, lo', mid);
  }

  lemma ItemsSnoc(b: bytes, ns: seq<RNode>, vs: seq<RValue>, n: RNode, v: RValue, lo: nat, mid: nat, hi: nat)
    requires ItemsMean(b, ns, vs, lo, mid) && Means(b, n, v, mid, hi) && mid <= hi
    ensures ItemsMean(b, ns + [n], vs + [v], lo, hi)
  {
    var all, values := ns + [n], vs + [v];
    assert all[..|ns|] == ns && values[..|vs|] == vs;
    assert ItemsMean(b, all[..|ns|], values[..|ns|], lo, mid) && Means(b, all[|ns|], values[|ns|], mid, hi);
  }

  lemma FieldsSnoc(b: bytes, fs: seq<(Slice, RNode)>, vs: seq<(bytes, RValue)>, f: (Slice, RNode), v: (bytes, RValue),
      lo: nat, mid: nat, hi: nat)
    requires FieldsMean(b, fs, vs, lo, mid) && FieldMeans(b, f, v, mid, hi) && mid <= hi
    ensures FieldsMean(b, fs + [f], vs + [v], lo, hi)
  {
    var all, values := fs + [f], vs + [v];
    assert all[..|fs|] == fs && values[..|vs|] == vs;
    assert FieldsMean(b, all[..|fs|], values[..|fs|], lo, mid) && FieldMeans(b, all[|fs|], values[|fs|], mid, hi);
  }

  // ----- Reading one string -----

  /** What one read does to the buffer: it keeps the string's text in a slice that starts
      where it did, and writes only from the flag byte to the closing position. */
  predicate Reads(b: bytes, b': bytes, s: Slice, s': Slice, text: bytes) {
    && |b| == |b'| && 0 < s.start == s'.start && s'.end <= s.end < |b|
    && StringMeans(b', s', text, s.start - 1, s.end + 1)
    && (forall i :: 0 <= i < |b| && !(s.start - 1 <= i <= s.end) ==> b[i] == b'[i])
  }

  /** `s()` on a slice of the buffer. */
  method ReadSlice(buf: array<byte>, s: Slice, ghost text: bytes) returns (r: bytes, s': Slice)
    requires 0 < s.start && StringMeans(buf[..], s, text, s.start - 1, s.end + 1)
    modifies buf
    ensures r == text && Reads(old(buf[..]), buf[..], s, s', text)
  {
    ghost var before := buf[..];
    assert before[s.start..s.end] == buf[s.start..s.end];
    var str := new LoadedString(buf, s.start, s.end);
    assert str.text == text;
    r := str.S();
    s' := Slice(s.start, str.end);
    ghost var after := buf[..];
    assert after[s'.start..s'.end] == r;
    WasRead(before, after, s, s', text);
  }

  lemma WasRead(before: bytes, after: bytes, s: Slice, s': Slice, text: bytes)
    requires |before| == |after| && 0 < s.start == s'.start <= s'.end <= s.end < |before|
    requires after[s.start - 1] == 0 && after[s'.start..s'.end] == text
    requires forall i :: 0 <= i < |before| && !(s.start - 1 <= i <= s.end) ==> before[i] == after[i]
    ensures Reads(before, after, s, s', text)
  {
  }
}
