/**
 * Printing a multipart message and reading it back with either parser.
 */
module MultipartRoundTrip {

  import opened Wrappers
  import opened Multipart

  /** A header as it is printed: its parameters in the order their map iterates them. */
  datatype PrintedHeader = PrintedHeader(key: string, value: string, params: seq<(string, string)>)

  datatype PrintedPart = PrintedPart(headers: seq<PrintedHeader>, body: string)

  // ----- dump -----

  function Pad(s: string): string { "\"" + s + "\"" }

  function ParamText(kv: (string, string)): string { kv.0 + "=" + Pad(kv.1) }

  function ParamsText(ps: seq<(string, string)>): string {
    if ps == [] then "" else "; " + ParamText(ps[0]) + ParamsText(ps[1..])
  }

  function FieldText(h: PrintedHeader): string { h.key + ": " + h.value }

  function LineText(h: PrintedHeader): string { FieldText(h) + ParamsText(h.params) }

  function LinesText(hs: seq<PrintedHeader>): string {
    if hs == [] then "" else LineText(hs[0]) + CRLF + LinesText(hs[1..])
  }

  function PartText(p: PrintedPart): string { LinesText(p.headers) + CRLF + p.body + CRLF }

  function Dump(ps: seq<PrintedPart>, boundary: string): string {
    if ps == [] then "--" + boundary + "--" + CRLF
    else "--" + boundary + CRLF + PartText(ps[0]) + Dump(ps[1..], boundary)
  }

  // ----- What a printed message reads as -----

  function ParamMap(ps: seq<(string, string)>, acc: map<string, string>): map<string, string> {
    if ps == [] then acc else ParamMap(ps[1..], Emplace(acc, ps[0]))
  }

  function ReadHeader(h: PrintedHeader): (string, Header) { (h.key, Header(h.value, ParamMap(h.params, map[]))) }

  function ReadHeaders(hs: seq<PrintedHeader>): seq<(string, Header)> {
    if hs == [] then [] else [ReadHeader(hs[0])] + ReadHeaders(hs[1..])
  }

  /** A map's entries, each once, in any order. */
  ghost predicate Lists(ps: seq<(string, string)>, m: map<string, string>) {
    && |ps| == |m|
    && (forall i, j :: 0 <= i < j < |ps| ==> ps[i].0 != ps[j].0)
    && (forall i :: 0 <= i < |ps| ==> ps[i].0 in m && m[ps[i].0] == ps[i].1)
  }

  ghost predicate PrintsHeader(h: PrintedHeader, header: (string, Header)) {
    h.key == header.0 && h.value == header.1.value && Lists(h.params, header.1.params)
  }

  /** What a part looks like when it is printed. */
  ghost predicate Prints(p: PrintedPart, part: Part) {
    && p.body == part.body && |p.headers| == |part.headers|
    && forall i :: 0 <= i < |p.headers| ==> PrintsHeader(p.headers[i], part.headers[i])
  }

  ghost predicate PrintsAll(ps: seq<PrintedPart>, parts: seq<Part>) {
    |ps| == |parts| && forall i :: 0 <= i < |ps| ==> Prints(ps[i], parts[i])
  }

  /** The parts with their names; nothing is promised when one has none. */
  function ReadParts(parts: seq<Part>, pick: Pick<Header>): Result<seq<Entry>, Error> {
    if parts == [] then Ok([])
    else
      match NameOf(parts[0], pick)
      case None => Err(NoName)
      case Some(name) => Prepend((name, parts[0]), ReadParts(parts[1..], pick))
  }

  // ----- The parameters arrive -----

  /** Parameters with distinct keys all arrive. */
  lemma {:induction false} ParamMapIs(ps: seq<(string, string)>, acc: map<string, string>)
    requires forall i, j :: 0 <= i < j < |ps| ==> ps[i].0 != ps[j].0
    requires forall i :: 0 <= i < |ps| ==> ps[i].0 !in acc
    ensures forall i :: 0 <= i < |ps| ==> ps[i].0 in ParamMap(ps, acc) && ParamMap(ps, acc)[ps[i].0] == ps[i].1
    ensures forall k :: k in acc ==> k in ParamMap(ps, acc) && ParamMap(ps, acc)[k] == acc[k]
    ensures |ParamMap(ps, acc)| == |acc| + |ps|
    decreases |ps|
  {
    if ps != [] {
      ParamMapIs(ps[1..], Emplace(acc, ps[0]));
    }
  }

  /** In whatever order a map is listed, the reader builds it again. */
  lemma ListedIsRead(ps: seq<(string, string)>, m: map<string, string>)
    requires Lists(ps, m)
    ensures ParamMap(ps, map[]) == m
  {
    ParamMapIs(ps, map[]);
    var r := ParamMap(ps, map[]);
    ListsKeys(ps, m);
    ListsKeys(ps, r);
    assert r.Keys == m.Keys;
  }

  lemma ListsKeys(ps: seq<(string, string)>, m: map<string, string>)
    requires Lists(ps, m)
    ensures m.Keys == set i | 0 <= i < |ps| :: ps[i].0
  {
    var keys := set i | 0 <= i < |ps| :: ps[i].0;
    DistinctKeys(ps);
    SameSize(keys, m.Keys);
  }

  lemma {:induction false} DistinctKeys(ps: seq<(string, string)>)
    requires forall i, j :: 0 <= i < j < |ps| ==> ps[i].0 != ps[j].0
    ensures |set i | 0 <= i < |ps| :: ps[i].0| == |ps|
  {
    var keys := set i | 0 <= i < |ps| :: ps[i].0;
    if ps != [] {
      var n := |ps| - 1;
      var front := ps[..n];
      DistinctKeys(front);
      var fewer := set i | 0 <= i < |front| :: front[i].0;
      assert keys == fewer + {ps[n].0};
    }
  }

  lemma {:induction false} SameSize(a: set<string>, b: set<string>)
    requires a <= b && |a| == |b|
    ensures a == b
  {
    if a != {} {
      var x :| x in a;
      SameSize(a - {x}, b - {x});
    }
  }

  lemma {:induction false} HeadersAreRead(hs: seq<PrintedHeader>, headers: seq<(string, Header)>)
    requires |hs| == |headers| && forall i :: 0 <= i < |hs| ==> PrintsHeader(hs[i], headers[i])
    ensures ReadHeaders(hs) == headers
    decreases |hs|
  {
    if hs != [] {
      ListedIsRead(hs[0].params, headers[0].1.params);
      HeadersAreRead(hs[1..], headers[1..]);
    }
  }

  // ----- Messages whose texts do not contain the separators -----

  ghost predicate PlainParam(kv: (string, string)) {
    !Contains(kv.0, "=") && !Contains(ParamText(kv), "; ")
  }

  ghost predicate PlainHeader(h: PrintedHeader) {
    && !Contains(h.key, ": ") && !Contains(FieldText(h), "; ") && !Contains(LineText(h), CRLF)
    && forall i :: 0 <= i < |h.params| ==> PlainParam(h.params[i])
  }

  ghost predicate PlainPart(p: PrintedPart, boundary: string) {
    && p.headers != [] && !Contains(PartText(p), "--" + boundary)
    && forall i :: 0 <= i < |p.headers| ==> PlainHeader(p.headers[i])
  }

  // ----- Finding a separator -----

  /** Text without the separator, then the separator: it is found right there when it cannot
      begin inside the text. */
  lemma FoundAfter(a: string, p: string, b: string)
    requires !Contains(a, p) && p != ""
    requires forall j: nat :: j < |a| < j + |p| ==> a[j..] != p[..|a| - j]
    ensures Find(a + p + b, p) == Some(|a|)
  {
    var s := a + p + b;
    forall j: nat | j < |a| ensures !At(s, p, j) {
      if j + |p| <= |a| {
        assert s[j..j + |p|] == a[j..j + |p|];
        assert !At(a, p, j);
      } else {
        StartsInside(a, p + b, j, j + |p|);
        assert s == a + (p + b);
      }
    }
    FindIs(s, p, |a|);
  }

  lemma StartsInside(a: string, b: string, j: nat, k: nat)
    requires j <= |a| <= k <= |a + b|
    ensures (a + b)[j..k][..|a| - j] == a[j..]
  {
  }

  /** A separator of two different characters cannot begin inside the text before it. */
  lemma FoundAfterPair(a: string, p: string, b: string)
    requires !Contains(a, p) && |p| == 2 && p[0] != p[1]
    ensures Find(a + p + b, p) == Some(|a|)
  {
    var s := a + p + b;
    forall j: nat | j < |a| ensures !At(s, p, j) {
      if j + 2 <= |a| {
        assert s[j..j + 2] == a[j..j + 2];
        assert !At(a, p, j);
      } else {
        assert s[j + 1] == p[0];
        assert s[j..j + 2][1] == s[j + 1];
      }
    }
    FindIs(s, p, |a|);
  }

  lemma NotFound(a: string, p: string)
    requires !Contains(a, p)
    ensures Find(a, p) == None
  {
    FindIsFirst(a, p);
  }

  // ----- Reading back -----

  lemma ParamReads(kv: (string, string))
    requires PlainParam(kv)
    ensures ParseParam(ParamText(kv)) == kv
  {
    FoundAfter(kv.0, "=", Pad(kv.1));
    assert ParamText(kv) == kv.0 + "=" + Pad(kv.1);
    assert ParamText(kv)[..|kv.0|] == kv.0 && ParamText(kv)[|kv.0| + 1..] == Pad(kv.1);
    assert Trim(Pad(kv.1)) == kv.1;
  }

  /** The parameters without the first separator. */
  function Joined(ps: seq<(string, string)>): string
    requires ps != []
  {
    ParamText(ps[0]) + if |ps| == 1 then "" else "; " + Joined(ps[1..])
  }

  lemma {:induction false} ParamsTextIs(ps: seq<(string, string)>)
    requires ps != []
    ensures ParamsText(ps) == "; " + Joined(ps)
  {
    if |ps| > 1 {
      ParamsTextIs(ps[1..]);
    }
  }

  lemma CutAfter(a: string, p: string, b: string)
    requires !Contains(a, p) && |p| == 2 && p[0] != p[1]
    ensures Cut(a + p + b, p) == (a, b)
  {
    FoundAfterPair(a, p, b);
    assert (a + p + b)[..|a|] == a && (a + p + b)[|a| + 2..] == b;
  }

  lemma CutNothing(a: string, p: string)
    requires !Contains(a, p)
    ensures Cut(a, p) == (a, "")
  {
    NotFound(a, p);
  }

  lemma {:induction false} ParamsRead(ps: seq<(string, string)>, acc: map<string, string>)
    requires ps != [] && forall i :: 0 <= i < |ps| ==> PlainParam(ps[i])
    ensures ParseParams(Joined(ps), acc) == ParamMap(ps, acc)
    decreases |ps|
  {
    var t := ParamText(ps[0]);
    ParamReads(ps[0]);
    if |ps| == 1 {
      CutNothing(t, "; ");
      assert Joined(ps) == t;
    } else {
      CutAfter(t, "; ", Joined(ps[1..]));
      assert Joined(ps) == t + "; " + Joined(ps[1..]);
      ParamsRead(ps[1..], Emplace(acc, ps[0]));
    }
  }

  lemma LineIsCut(h: PrintedHeader)
    requires PlainHeader(h)
    ensures Cut(LineText(h), "; ") == (FieldText(h), if h.params == [] then "" else Joined(h.params))
  {
    if h.params == [] {
      CutNothing(FieldText(h), "; ");
      assert LineText(h) == FieldText(h);
    } else {
      ParamsTextIs(h.params);
      CutAfter(FieldText(h), "; ", Joined(h.params));
      assert LineText(h) == FieldText(h) + "; " + Joined(h.params);
    }
  }

  lemma KeyIsFound(h: PrintedHeader)
    requires !Contains(h.key, ": ")
    ensures Find(FieldText(h), ": ") == Some(|h.key|)
    ensures FieldText(h)[..|h.key|] == h.key && FieldText(h)[|h.key| + 2..] == h.value
  {
    FoundAfterPair(h.key, ": ", h.value);
  }

  lemma LineReads(h: PrintedHeader)
    requires PlainHeader(h)
    ensures ParseLine(LineText(h)) == Ok(ReadHeader(h))
  {
    LineIsCut(h);
    KeyIsFound(h);
    if h.params != [] {
      ParamsRead(h.params, map[]);
    }
  }

  lemma {:induction false} HeadReads(hs: seq<PrintedHeader>)
    requires forall i :: 0 <= i < |hs| ==> PlainHeader(hs[i])
    ensures ParseHead(LinesText(hs)) == Ok(ReadHeaders(hs))
    decreases |hs|
  {
    if hs != [] {
      var line, rest := LineText(hs[0]), LinesText(hs[1..]);
      FoundAfterPair(line, CRLF, rest);
      CutAfter(line, CRLF, rest);
      LineReads(hs[0]);
      HeadReads(hs[1..]);
      assert NextLines(LinesText(hs)) == rest;
    }
  }

  /** The blank line after the head is the first one. */
  lemma {:induction false} HeadEnds(hs: seq<PrintedHeader>, tail: string)
    requires hs != [] && AllPlain(hs)
    ensures |LinesText(hs)| >= 2 && Find(LinesText(hs) + CRLF + tail, BLANK_LINE) == Some(|LinesText(hs)| - 2)
    decreases |hs|
  {
    var line, more := LineText(hs[0]), LinesText(hs[1..]);
    FirstLine(hs, tail);
    PlainRest(hs);
    if |hs| == 1 {
      OneLineEnds(line, tail);
    } else {
      NoBlankBefore(line, more + CRLF + tail);
      HeadEnds(hs[1..], tail);
      StartsWithLine(hs[1..], tail);
      BlankAfterLine(line, more + CRLF + tail, |more| - 2);
    }
  }

  ghost predicate AllPlain(hs: seq<PrintedHeader>) { forall i :: 0 <= i < |hs| ==> PlainHeader(hs[i]) }

  lemma PlainRest(hs: seq<PrintedHeader>)
    requires hs != [] && AllPlain(hs)
    ensures PlainHeader(hs[0]) && !Contains(LineText(hs[0]), CRLF) && AllPlain(hs[1..])
    ensures |hs| > 1 ==> PlainHeader(hs[1..][0])
  {
  }

  lemma OneLineEnds(line: string, tail: string)
    requires !Contains(line, CRLF)
    ensures Find(line + CRLF + ("" + CRLF + tail), BLANK_LINE) == Some(|line|)
  {
    NoBlankBefore(line, "" + CRLF + tail);
    assert line + CRLF + ("" + CRLF + tail) == line + BLANK_LINE + tail;
    FindIs(line + BLANK_LINE + tail, BLANK_LINE, |line|);
  }

  lemma FirstLine(hs: seq<PrintedHeader>, tail: string)
    requires hs != []
    ensures LinesText(hs) + CRLF + tail == LineText(hs[0]) + CRLF + (LinesText(hs[1..]) + CRLF + tail)
    ensures |LinesText(hs)| == |LineText(hs[0])| + 2 + |LinesText(hs[1..])|
  {
  }

  lemma NoBlankBefore(line: string, rest: string)
    requires !Contains(line, CRLF)
    ensures forall j: nat :: j < |line| ==> !At(line + CRLF + rest, BLANK_LINE, j)
  {
    var s := line + CRLF + rest;
    FoundAfterPair(line, CRLF, rest);
    FindIsFirst(s, CRLF);
    forall j: nat | j < |line| ensures !At(s, BLANK_LINE, j) {
      ByCharacter(s, j);
      assert !At(s, CRLF, j);
    }
  }

  /** A head does not begin with a line end. */
  lemma StartsWithLine(hs: seq<PrintedHeader>, tail: string)
    requires hs != [] && PlainHeader(hs[0])
    ensures !At(LinesText(hs) + CRLF + tail, CRLF, 0)
  {
    var line := LineText(hs[0]);
    var rest := LinesText(hs[1..]) + CRLF + tail;
    assert LinesText(hs) + CRLF + tail == line + CRLF + rest;
    FoundAfterPair(line, CRLF, rest);
    FindIsFirst(line + CRLF + rest, CRLF);
    assert |line| > 0;
  }

  lemma ByCharacter(s: string, i: nat)
    ensures At(s, CRLF, i) <==> i + 2 <= |s| && s[i] == '\r' && s[i + 1] == '\n'
    ensures At(s, BLANK_LINE, i) <==>
        i + 4 <= |s| && s[i] == '\r' && s[i + 1] == '\n' && s[i + 2] == '\r' && s[i + 3] == '\n'
  {
  }

  lemma BlankAfterLine(line: string, rest: string, k: nat)
    requires forall j: nat :: j < |line| ==> !At(line + CRLF + rest, BLANK_LINE, j)
    requires !At(rest, CRLF, 0) && Find(rest, BLANK_LINE) == Some(k)
    ensures Find(line + CRLF + rest, BLANK_LINE) == Some(|line| + 2 + k)
  {
    var s := line + CRLF + rest;
    FindIsFirst(rest, BLANK_LINE);
    ByCharacter(rest, 0);
    forall j: nat | |line| <= j < |line| + 2 + k ensures !At(s, BLANK_LINE, j) {
      ByCharacter(s, j);
      if j >= |line| + 2 {
        ByCharacter(rest, j - |line| - 2);
        assert !At(rest, BLANK_LINE, j - |line| - 2);
      }
    }
    assert s[|line| + 2 + k..|line| + 2 + k + 4] == rest[k..k + 4];
    FindIs(s, BLANK_LINE, |line| + 2 + k);
  }

  lemma PartReads(p: PrintedPart, part: Part, view: bool)
    requires p.headers != [] && forall i :: 0 <= i < |p.headers| ==> PlainHeader(p.headers[i])
    requires Prints(p, part)
    ensures ParseSection(PartText(p), view) == Ok(part)
  {
    HeadersAreRead(p.headers, part.headers);
    var lines, tail := LinesText(p.headers), p.body + CRLF;
    HeadEnds(p.headers, tail);
    assert PartText(p) == lines + CRLF + tail;
    assert PartText(p)[..|lines|] == lines && PartText(p)[|lines| + 2..] == tail;
    assert SplitSection(PartText(p), view) == Ok((lines, tail));
    assert tail[..|tail| - 2] == p.body;
    HeadReads(p.headers);
  }

  // ----- The whole message -----

  /** What follows the delimiter and the two characters after it. */
  function Rest(ps: seq<PrintedPart>, delimiter: string): string {
    if ps == [] then CRLF else PartText(ps[0]) + delimiter + Mark(ps[1..]) + Rest(ps[1..], delimiter)
  }

  /** The two characters after a delimiter. */
  function Mark(ps: seq<PrintedPart>): string { if ps == [] then "--" else CRLF }

  lemma {:induction false} DumpIs(ps: seq<PrintedPart>, boundary: string)
    ensures Dump(ps, boundary) == ("--" + boundary) + Mark(ps) + Rest(ps, "--" + boundary)
  {
    var d := "--" + boundary;
    if ps == [] {
      assert Dump(ps, boundary) == d + "--" + CRLF;
    } else {
      DumpIs(ps[1..], boundary);
      Regroup(d, CRLF, PartText(ps[0]), d, Mark(ps[1..]), Rest(ps[1..], d));
    }
  }

  lemma Regroup(a: string, b: string, c: string, x: string, y: string, z: string)
    ensures a + b + c + (x + y + z) == a + b + (c + x + y + z)
  {
  }

  /** A delimiter without a line end does not begin inside a text that ends with one. */
  lemma DelimiterFound(text: string, delimiter: string, b: string)
    requires '\n' !in delimiter && delimiter != "" && !Contains(text, delimiter)
    requires text == "" || text[|text| - 1] == '\n'
    ensures Find(text + delimiter + b, delimiter) == Some(|text|)
  {
    forall j: nat | j < |text| < j + |delimiter| ensures text[j..] != delimiter[..|text| - j] {
      var n := |text| - j;
      assert text[j..][n - 1] == '\n' && delimiter[..n][n - 1] == delimiter[n - 1];
    }
    FoundAfter(text, delimiter, b);
  }

  /** One delimiter: the section before it, then what is read from the rest. */
  lemma SectionRead(parse: SectionParser, section: string, delimiter: string, mark: string, rest: string, view: bool)
    requires '\n' !in delimiter && delimiter != "" && !Contains(section, delimiter) && |mark| == 2
    requires section == "" || section[|section| - 1] == '\n'
    ensures ParseBody(parse, section + delimiter + mark + rest, delimiter, view)
         == AfterSection(parse, section, ParseBody(parse, rest, delimiter, view))
  {
    var body := section + delimiter + mark + rest;
    assert body == section + delimiter + (mark + rest);
    DelimiterFound(section, delimiter, mark + rest);
    var n := |section| + |delimiter| + 2;
    assert body[n..] == rest && body[..|section|] == section;
    assert body != CRLF by {
      FindIsFirst(body, delimiter);
      assert body[|section|] == body[|section|..|section| + |delimiter|][0];
      assert |body| > 2;
    }
  }

  ghost predicate PartIsRead(parse: SectionParser, p: PrintedPart, part: Part, pick: Pick<Header>) {
    parse(PartText(p)) == Named(Ok(part), pick)
  }

  lemma {:induction false} RestReads(
      parse: SectionParser, ps: seq<PrintedPart>, parts: seq<Part>, delimiter: string, view: bool, pick: Pick<Header>)
    requires '\n' !in delimiter && delimiter != "" && |ps| == |parts|
    requires forall i :: 0 <= i < |ps| ==>
      !Contains(PartText(ps[i]), delimiter) && PartIsRead(parse, ps[i], parts[i], pick)
    ensures ParseBody(parse, Rest(ps, delimiter), delimiter, view) == ReadParts(parts, pick)
    decreases |ps|
  {
    if ps != [] {
      var section := PartText(ps[0]);
      assert section[|section| - 1] == '\n' && PartIsRead(parse, ps[0], parts[0], pick);
      RestReads(parse, ps[1..], parts[1..], delimiter, view, pick);
      SectionRead(parse, section, delimiter, Mark(ps[1..]), Rest(ps[1..], delimiter), view);
    }
  }

  /** Parts that are printed, with their parameter maps in any order, are read back as the same
      parts by either parser, each under its name; when a part has no name the reading fails there. */
  lemma RoundTrip(parts: seq<Part>, ps: seq<PrintedPart>, boundary: string, view: bool, pick: Pick<Header>)
    requires PrintsAll(ps, parts)
    requires boundary != "" && '\n' !in boundary && forall i :: 0 <= i < |ps| ==> PlainPart(ps[i], boundary)
    ensures Parse(Dump(ps, boundary), boundary, view, pick) == ReadParts(parts, pick)
  {
    forall i | 0 <= i < |ps| ensures PartIsRead(SectionsOf(view, pick), ps[i], parts[i], pick) {
      PartReads(ps[i], parts[i], view);
    }
    DumpReads(SectionsOf(view, pick), ps, parts, boundary, view, pick);
  }

  lemma DumpReads(
      parse: SectionParser, ps: seq<PrintedPart>, parts: seq<Part>, boundary: string, view: bool, pick: Pick<Header>)
    requires '\n' !in boundary && |ps| == |parts|
    requires forall i :: 0 <= i < |ps| ==>
      !Contains(PartText(ps[i]), "--" + boundary) && PartIsRead(parse, ps[i], parts[i], pick)
    ensures ParseBody(parse, Dump(ps, boundary), "--" + boundary, view) == ReadParts(parts, pick)
  {
    var d := "--" + boundary;
    RestReads(parse, ps, parts, d, view, pick);
    DumpIs(ps, boundary);
    FirstDelimiter(parse, d, Mark(ps), Rest(ps, d), view);
  }

  lemma FirstDelimiter(parse: SectionParser, delimiter: string, mark: string, rest: string, view: bool)
    requires '\n' !in delimiter && delimiter != "" && |mark| == 2
    ensures ParseBody(parse, delimiter + mark + rest, delimiter, view) == ParseBody(parse, rest, delimiter, view)
  {
    assert delimiter + mark + rest == "" + delimiter + mark + rest;
    SectionRead(parse, "", delimiter, mark, rest, view);
  }

  // ----- Looking up by name -----

  predicate AllNamed(parts: seq<Part>, pick: Pick<Header>) {
    forall i :: 0 <= i < |parts| ==> NameOf(parts[i], pick).Some?
  }

  ghost predicate AreEntries(entries: seq<Entry>, parts: seq<Part>, pick: Pick<Header>) {
    && |entries| == |parts|
    && forall i :: 0 <= i < |parts| ==>
         entries[i].1 == parts[i] && Some(entries[i].0) == NameOf(parts[i], pick)
  }

  /** Reading gives all the parts, in order, exactly when each has a name. */
  lemma {:induction false} ReadPartsIs(parts: seq<Part>, pick: Pick<Header>)
    ensures var r := ReadParts(parts, pick);
      && (r.Ok? <==> AllNamed(parts, pick)) && (r.Err? ==> r.error == NoName)
      && (r.Ok? ==> AreEntries(r.value, parts, pick))
    decreases |parts|
  {
    if parts != [] {
      ReadPartsIs(parts[1..], pick);
      var first, more := NameOf(parts[0], pick), ReadParts(parts[1..], pick);
      NamedRest(parts, pick);
      if first.Some? && more.Ok? {
        EntriesCons((first.value, parts[0]), more.value, parts, pick);
      }
    }
  }

  lemma NamedRest(parts: seq<Part>, pick: Pick<Header>)
    requires parts != []
    ensures AllNamed(parts, pick) <==> NameOf(parts[0], pick).Some? && AllNamed(parts[1..], pick)
  {
    assert forall i :: 0 < i < |parts| ==> parts[i] == parts[1..][i - 1];
  }

  lemma EntriesCons(e: Entry, es: seq<Entry>, parts: seq<Part>, pick: Pick<Header>)
    requires parts != [] && AreEntries(es, parts[1..], pick)
    requires e.1 == parts[0] && Some(e.0) == NameOf(parts[0], pick)
    ensures AreEntries([e] + es, parts, pick)
  {
    var all := [e] + es;
    forall i | 0 <= i < |parts| ensures all[i].1 == parts[i] && Some(all[i].0) == NameOf(parts[i], pick) {
      if i > 0 {
        assert all[i] == es[i - 1] && parts[i] == parts[1..][i - 1];
      }
    }
  }

  /** Looking a name up finds an entry with that name whenever there is one. */
  lemma LookupFinds(entries: seq<Entry>, i: nat, pick: Pick<Part>)
    requires i < |entries|
    ensures exists j :: 0 <= j < |entries| && SameName(entries[j].0, entries[i].0)
                     && FindIn(entries, entries[i].0, pick) == Some(entries[j].1)
  {
    var found := Matching(entries, entries[i].0);
    assert entries[i] in found;
    var e := found[if pick(found) < |found| then pick(found) else 0];
    assert e in found;
    var j :| 0 <= j < |entries| && entries[j] == e;
  }

  /** In a printed message that was read back, looking up the name of a part finds a part of that
      name, whichever the map picks; and the part itself when no other name is equal to its own. */
  lemma PartsAreFound(parts: seq<Part>, ps: seq<PrintedPart>, boundary: string, view: bool,
                      pick: Pick<Header>, choose: Pick<Part>, i: nat)
    requires PrintsAll(ps, parts)
    requires boundary != "" && '\n' !in boundary && forall k :: 0 <= k < |ps| ==> PlainPart(ps[k], boundary)
    requires AllNamed(parts, pick) && i < |parts|
    ensures var r := Parse(Dump(ps, boundary), boundary, view, pick);
      var name := NameOf(parts[i], pick).value;
      && r.Ok? && |r.value| == |parts|
      && (exists j :: 0 <= j < |parts| && SameName(NameOf(parts[j], pick).value, name)
                   && FindIn(r.value, name, choose) == Some(parts[j]))
      && ((forall j :: 0 <= j < |parts| && SameName(NameOf(parts[j], pick).value, name) ==> j == i) ==>
            FindIn(r.value, name, choose) == Some(parts[i]))
  {
    RoundTrip(parts, ps, boundary, view, pick);
    ReadPartsIs(parts, pick);
    var entries := ReadParts(parts, pick).value;
    LookupFinds(entries, i, choose);
    var j :| 0 <= j < |entries| && SameName(entries[j].0, entries[i].0)
          && FindIn(entries, entries[i].0, choose) == Some(entries[j].1);
    assert SameName(NameOf(parts[j], pick).value, NameOf(parts[i], pick).value);
  }
}
