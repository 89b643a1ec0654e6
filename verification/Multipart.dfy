/**
 * Multipart messages: the string parser of crow/multipart.h and the view-based parser of
 * crow/multipart_view.h.
 */
module Multipart {

  import opened Wrappers

  // Both are one algorithm; they differ in how they drop a prefix that is longer than the text, in what
  // they do without a delimiter, and in whether they refuse an empty boundary.

  const CRLF: string := ['\r', '\n']
  const BLANK_LINE: string := ['\r', '\n', '\r', '\n']

  datatype Header = Header(value: string, params: map<string, string>)

  datatype Part = Part(headers: seq<(string, Header)>, body: string)

  /** A part and the key under which part_map holds it. */
  type Entry = (string, Part)

  /** `bad_request` and `std::out_of_range`; without a name the end of a map is dereferenced,
      and nothing is promised of what follows. */
  datatype Error = BadRequest | OutOfRange | NoName

  // ----- Searching -----

  predicate At(s: string, p: string, i: nat) { i + |p| <= |s| && s[i..i + |p|] == p }

  ghost predicate Contains(s: string, p: string) { exists i: nat :: At(s, p, i) }

  function FindFrom(s: string, p: string, i: nat): (r: Option<nat>)
    requires i <= |s|
    ensures r.Some? ==> i <= r.value && r.value + |p| <= |s|
    decreases |s| - i
  {
    if At(s, p, i) then Some(i) else if i == |s| then None else FindFrom(s, p, i + 1)
  }

  /** `find`: the first occurrence. */
  function Find(s: string, p: string): (r: Option<nat>)
    ensures r.Some? ==> r.value + |p| <= |s|
  {
    FindFrom(s, p, 0)
  }

  lemma {:induction false} FindFromIsFirst(s: string, p: string, i: nat)
    requires i <= |s|
    ensures var r := FindFrom(s, p, i);
      && (r.Some? ==> At(s, p, r.value) && forall j: nat :: i <= j < r.value ==> !At(s, p, j))
      && (r.None? ==> forall j: nat :: i <= j ==> !At(s, p, j))
    decreases |s| - i
  {
    if !At(s, p, i) && i < |s| {
      FindFromIsFirst(s, p, i + 1);
    }
  }

  lemma FindIsFirst(s: string, p: string)
    ensures var r := Find(s, p);
      && (r.Some? ==> At(s, p, r.value) && forall j: nat :: j < r.value ==> !At(s, p, j))
      && (r.None? <==> !Contains(s, p))
  {
    FindFromIsFirst(s, p, 0);
  }

  lemma FindIs(s: string, p: string, k: nat)
    requires At(s, p, k) && forall j: nat :: j < k ==> !At(s, p, j)
    ensures Find(s, p) == Some(k)
  {
    FindIsFirst(s, p);
    assert Contains(s, p);
  }

  /** Dropping `n` characters: a string loses what it has, a view must have them. */
  function Drop(s: string, n: nat, view: bool): (r: Result<string, Error>)
    ensures r.Ok? ==> |r.value| + n <= |s| || r.value == ""
  {
    if n <= |s| then Ok(s[n..]) else if view then Err(OutOfRange) else Ok("")
  }

  // ----- The parser -----

  /** What is before the first separator, and what is after it. */
  function Cut(s: string, separator: string): (r: (string, string))
    ensures |r.0| + |r.1| <= |s| && (separator != "" && s != "" ==> |r.1| < |s|)
  {
    match Find(s, separator) case None => (s, "") case Some(k) => (s[..k], s[k + |separator|..])
  }

  function Trim(s: string): string {
    if |s| > 1 && s[0] == '"' && s[|s| - 1] == '"' then s[1..|s| - 1] else s
  }

  /** A parameter: without an equals sign the text is both key and value. */
  function ParseParam(param: string): (string, string) {
    match Find(param, "=") case None => (param, Trim(param)) case Some(k) => (param[..k], Trim(param[k + 1..]))
  }

  /** `emplace` into a map keeps what is there. */
  function Emplace(m: map<string, string>, kv: (string, string)): map<string, string> {
    if kv.0 in m then m else m[kv.0 := kv.1]
  }

  function ParseParams(line: string, acc: map<string, string>): map<string, string>
    decreases |line|
  {
    if line == "" then acc else ParseParams(Cut(line, "; ").1, Emplace(acc, ParseParam(Cut(line, "; ").0)))
  }

  /** One header line. Without a colon, what follows the first character is the value. */
  function ParseLine(line: string): Result<(string, Header), Error> {
    if line == "" then Ok(("", Header("", map[])))
    else
      var (header, rest) := Cut(line, "; ");
      match Find(header, ": ")
      case None => if header == "" then Err(OutOfRange) else Ok((header, Header(header[1..], ParseParams(rest, map[]))))
      case Some(k) => Ok((header[..k], Header(header[k + 2..], ParseParams(rest, map[]))))
  }

  /** What is left of `lines` after a line: without a line end only one character goes. */
  function NextLines(lines: string): (r: string)
    requires lines != ""
    ensures |r| < |lines|
  {
    match Find(lines, CRLF) case None => lines[1..] case Some(k) => lines[k + 2..]
  }

  function Prepend<T>(x: T, r: Result<seq<T>, Error>): Result<seq<T>, Error> {
    match r case Ok(xs) => Ok([x] + xs) case Err(e) => Err(e)
  }

  /** `parse_section_head` */
  function ParseHead(lines: string): Result<seq<(string, Header)>, Error>
    decreases |lines|
  {
    if lines == "" then Ok([])
    else
      match ParseLine(Cut(lines, CRLF).0)
      case Err(e) => Err(e)
      case Ok(header) => Prepend(header, ParseHead(NextLines(lines)))
  }

  /** The lines of the head and the rest of a section; without a blank line the head is one
      character and three are dropped. */
  function SplitSection(section: string, view: bool): Result<(string, string), Error> {
    match Find(section, BLANK_LINE)
    case None =>
      (match Drop(section, 3, view)
       case Err(e) => Err(e)
       case Ok(rest) => Ok((if section == "" then "" else section[..1], rest)))
    case Some(k) => Ok((section[..k + 2], section[k + 4..]))
  }

  /** `parse_section`; a rest shorter than its line end is taken whole. */
  function ParseSection(section: string, view: bool): Result<Part, Error> {
    match SplitSection(section, view)
    case Err(e) => Err(e)
    case Ok((head, rest)) =>
      match ParseHead(head)
      case Err(e) => Err(e)
      case Ok(headers) => Ok(Part(headers, if |rest| >= 2 then rest[..|rest| - 2] else rest))
  }

  // ----- Names -----

  function Upper(c: char): char { if 'a' <= c <= 'z' then (c as int - 32) as char else c }

  /** `string_equals`: the equality of the multimaps' keys. */
  predicate SameName(a: string, b: string) {
    |a| == |b| && forall i :: 0 <= i < |a| ==> Upper(a[i]) == Upper(b[i])
  }

  function Matching<T(!new)>(entries: seq<(string, T)>, key: string): (r: seq<(string, T)>)
    ensures forall e :: e in r <==> e in entries && SameName(e.0, key)
  {
    if entries == [] then []
    else (if SameName(entries[0].0, key) then [entries[0]] else []) + Matching(entries[1..], key)
  }

  /** Which of several equal keys `unordered_multimap::find` returns is left open. */
  type Pick<!T> = seq<(string, T)> -> nat

  function FindIn<T(!new)>(entries: seq<(string, T)>, key: string, pick: Pick<T>): Option<T> {
    var found := Matching(entries, key);
    if found == [] then None else Some(found[if pick(found) < |found| then pick(found) else 0].1)
  }

  /** The parameter under which a part goes into part_map. */
  function NameOf(part: Part, pick: Pick<Header>): Option<string> {
    match FindIn(part.headers, "Content-Disposition", pick)
    case None => None
    case Some(header) => if "name" in header.params then Some(header.params["name"]) else None
  }

  function Named(r: Result<Part, Error>, pick: Pick<Header>): Result<Entry, Error> {
    match r
    case Err(e) => Err(e)
    case Ok(part) => match NameOf(part, pick) case None => Err(NoName) case Some(name) => Ok((name, part))
  }

  // ----- Bodies -----

  type SectionParser = string -> Result<Entry, Error>

  function SectionsOf(view: bool, pick: Pick<Header>): SectionParser {
    (section: string) => Named(ParseSection(section, view), pick)
  }

  /** A section in front of what the rest of the body gives; an empty one is no part. */
  function AfterSection(parse: SectionParser, section: string, r: Result<seq<Entry>, Error>)
    : Result<seq<Entry>, Error>
  {
    if section == "" then r
    else match parse(section) case Err(e) => Err(e) case Ok(entry) => Prepend(entry, r)
  }

  /** `parse_body` */
  function ParseBody(parse: SectionParser, body: string, delimiter: string, view: bool): Result<seq<Entry>, Error>
    requires delimiter != ""
    decreases |body|
  {
    if body == CRLF then Ok([])
    else
      match Find(body, delimiter)
      case None => if view then Ok([]) else Err(BadRequest)
      case Some(k) =>
        match Drop(body, k + |delimiter| + 2, view)
        case Err(e) => Err(e)
        case Ok(rest) => AfterSection(parse, body[..k], ParseBody(parse, rest, delimiter, view))
  }

  /** Reading a request's body: its parts in order, each with its key in part_map. Only the
      string parser refuses an empty boundary. */
  function Parse(body: string, boundary: string, view: bool, pick: Pick<Header>): Result<seq<Entry>, Error> {
    if boundary == "" && !view then Err(BadRequest)
    else ParseBody(SectionsOf(view, pick), body, "--" + boundary, view)
  }

  // ----- The two parsers agree -----

  /** The body's last delimiter is followed by two characters and a line end. */
  ghost predicate Terminated(body: string, delimiter: string)
    requires delimiter != ""
    decreases |body|
  {
    body == CRLF || (
      Find(body, delimiter).Some? &&
      var n := Find(body, delimiter).value + |delimiter| + 2;
      n <= |body| && Terminated(body[n..], delimiter))
  }

  /** The string parser takes exactly what the view parser takes and is terminated, and then gives
      the same. */
  ghost predicate Agree(m: Result<seq<Entry>, Error>, v: Result<seq<Entry>, Error>, terminated: bool) {
    && (m.Ok? <==> v.Ok? && terminated)
    && (m.Ok? ==> m == v)
    && (v.Ok? && m.Err? ==> m == Err(BadRequest))
  }

  /** How the two section parsers relate. */
  ghost predicate SectionLaw(p: SectionParser, q: SectionParser, section: string) {
    section != "" ==> SameOrBothFail(p(section), q(section))
  }

  /** On a section of one or two characters the view parser throws; the string parser takes its
      first character for a header, and so finds no name. */
  lemma ShortSection(section: string, pick: Pick<Header>)
    requires 0 < |section| < 3
    ensures ParseSection(section, true) == Err(OutOfRange)
    ensures Named(ParseSection(section, false), pick) == Err(NoName)
  {
    var head := section[..1];
    assert Find(section, BLANK_LINE).None?;
    assert SplitSection(section, false) == Ok((head, ""));
    OneCharacterHead(head);
    var headers := ParseHead(head).value;
    assert !SameName(head, "Content-Disposition");
    assert Matching(headers, "Content-Disposition") == [] by {
      assert forall e :: e in headers ==> e.0 == head;
    }
  }

  lemma OneCharacterHead(head: string)
    requires |head| == 1
    ensures ParseHead(head) == Ok([(head, Header("", map[]))])
  {
    TooShort(head, CRLF);
    OneCharacterLine(head);
    assert Cut(head, CRLF) == (head, "");
    assert NextLines(head) == "";
    var x := (head, Header("", map[]));
    assert ParseHead(head) == Prepend(x, ParseHead(""));
    assert [x] + [] == [x];
  }

  lemma OneCharacterLine(line: string)
    requires |line| == 1
    ensures ParseLine(line) == Ok((line, Header("", map[])))
  {
    TooShort(line, "; ");
    TooShort(line, ": ");
    assert Cut(line, "; ") == (line, "");
    assert line[1..] == "";
    assert ParseParams("", map[]) == map[];
  }

  lemma TooShort(s: string, p: string)
    requires |s| < |p|
    ensures Find(s, p) == None
  {
  }

  /** From three characters on the two drop the same prefix. */
  lemma LongSection(section: string)
    requires |section| >= 3
    ensures ParseSection(section, true) == ParseSection(section, false)
  {
    assert SplitSection(section, true) == SplitSection(section, false);
  }

  ghost predicate SameOrBothFail(a: Result<Entry, Error>, b: Result<Entry, Error>) { a == b || (a.Err? && b.Err?) }

  lemma SectionsAgree(section: string, pick: Pick<Header>)
    requires section != ""
    ensures SameOrBothFail(Named(ParseSection(section, false), pick), Named(ParseSection(section, true), pick))
  {
    if |section| < 3 {
      ShortSection(section, pick);
    } else {
      LongSection(section);
    }
  }

  lemma SectionLawHolds(p: SectionParser, q: SectionParser, pick: Pick<Header>)
    requires p == SectionsOf(false, pick) && q == SectionsOf(true, pick)
    ensures forall s {:trigger SectionLaw(p, q, s)} :: SectionLaw(p, q, s)
  {
    forall s ensures SectionLaw(p, q, s) {
      if s != "" {
        SectionsAgree(s, pick);
      }
    }
  }

  lemma {:induction false} BodiesAgree(p: SectionParser, q: SectionParser, body: string, delimiter: string)
    requires delimiter != ""
    requires forall s {:trigger SectionLaw(p, q, s)} :: SectionLaw(p, q, s)
    ensures Agree(ParseBody(p, body, delimiter, false), ParseBody(q, body, delimiter, true),
                  Terminated(body, delimiter))
    decreases |body|
  {
    if body != CRLF && Find(body, delimiter).Some? {
      var k := Find(body, delimiter).value;
      var n := k + |delimiter| + 2;
      if n <= |body| {
        BodiesAgree(p, q, body[n..], delimiter);
        assert SectionLaw(p, q, body[..k]);
      } else {
        assert ParseBody(p, "", delimiter, false) == Err(BadRequest);
      }
    }
  }

  /** For every body and every boundary: the string parser gives parts if and only if the view
      parser does, the boundary is not empty and the body is terminated; they are the same parts. */
  lemma ParsersAgree(body: string, boundary: string, pick: Pick<Header>)
    ensures Agree(Parse(body, boundary, false, pick), Parse(body, boundary, true, pick),
                  boundary != "" && Terminated(body, "--" + boundary))
  {
    SectionLawHolds(SectionsOf(false, pick), SectionsOf(true, pick), pick);
    BodiesAgree(SectionsOf(false, pick), SectionsOf(true, pick), body, "--" + boundary);
  }

  // ----- The code -----

  method ReadParams(text: string) returns (params: map<string, string>)
    ensures params == ParseParams(text, map[])
  {
    var line := text;
    params := map[];
    while line != ""
      invariant ParseParams(line, params) == ParseParams(text, map[])
      decreases |line|
    {
      var param := Cut(line, "; ").0;
      line := Cut(line, "; ").1;
      params := Emplace(params, ParseParam(param));
    }
  }

  method ReadLine(text: string) returns (r: Result<(string, Header), Error>)
    ensures r == ParseLine(text)
  {
    var line := text;
    var key, value := "", "";
    if line != "" {
      var header := Cut(line, "; ").0;
      line := Cut(line, "; ").1;
      var split := Find(header, ": ");
      if split.None? {
        if header == "" {
          return Err(OutOfRange);
        }
        key, value := header, header[1..];
      } else {
        key, value := header[..split.value], header[split.value + 2..];
      }
    }
    var params := ReadParams(line);
    return Ok((key, Header(value, params)));
  }

  method ReadHead(head: string) returns (r: Result<seq<(string, Header)>, Error>)
    ensures r == ParseHead(head)
  {
    var lines := head;
    var headers: seq<(string, Header)> := [];
    OntoNothing(ParseHead(head));
    while lines != ""
      invariant ParseHead(head) == Onto(headers, ParseHead(lines))
      decreases |lines|
    {
      var line := Cut(lines, CRLF).0;
      lines := NextLines(lines);
      var header := ReadLine(line);
      if header.Err? {
        return Err(header.error);
      }
      OntoOne(headers, header.value, ParseHead(lines));
      headers := headers + [header.value];
    }
    assert headers + [] == headers;
    return Ok(headers);
  }

  lemma OntoNothing<T>(r: Result<seq<T>, Error>)
    ensures Onto([], r) == r
  {
    if r.Ok? {
      assert [] + r.value == r.value;
    }
  }

  function Onto<T>(xs: seq<T>, r: Result<seq<T>, Error>): Result<seq<T>, Error> {
    match r case Ok(ys) => Ok(xs + ys) case Err(e) => Err(e)
  }

  lemma OntoOne<T>(xs: seq<T>, x: T, r: Result<seq<T>, Error>)
    ensures Onto(xs, Prepend(x, r)) == Onto(xs + [x], r)
  {
    if r.Ok? {
      assert xs + ([x] + r.value) == xs + [x] + r.value;
    }
  }

  method ReadSection(section: string, view: bool) returns (r: Result<Part, Error>)
    ensures r == ParseSection(section, view)
  {
    var split := SplitSection(section, view);
    if split.Err? {
      return Err(split.error);
    }
    var (head, rest) := split.value;
    var headers := ReadHead(head);
    if headers.Err? {
      return Err(headers.error);
    }
    return Ok(Part(headers.value, if |rest| >= 2 then rest[..|rest| - 2] else rest));
  }

  ghost predicate ParserLaw(parse: SectionParser, view: bool, pick: Pick<Header>, section: string) {
    parse(section) == Named(ParseSection(section, view), pick)
  }

  /** A section becomes a part, and its name the key for part_map. */
  method ReadEntry(section: string, view: bool, pick: Pick<Header>, ghost parse: SectionParser)
    returns (r: Result<Entry, Error>)
    requires forall s {:trigger ParserLaw(parse, view, pick, s)} :: ParserLaw(parse, view, pick, s)
    ensures r == parse(section)
  {
    assert ParserLaw(parse, view, pick, section);
    var part := ReadSection(section, view);
    if part.Err? {
      return Err(part.error);
    }
    var name := NameOf(part.value, pick);
    return if name.Some? then Ok((name.value, part.value)) else Err(NoName);
  }

  /** One turn of the loop of `parse_body`: `end` when it ends here, else the entry of a section
      that is not empty, and what follows the delimiter. */
  method NextSection(body: string, delimiter: string, view: bool, pick: Pick<Header>, ghost parse: SectionParser)
    returns (end: Option<Result<seq<Entry>, Error>>, entry: Option<Entry>, rest: string)
    requires delimiter != "" && body != CRLF
    requires forall s {:trigger ParserLaw(parse, view, pick, s)} :: ParserLaw(parse, view, pick, s)
    ensures end.Some? ==> ParseBody(parse, body, delimiter, view) == end.value
                          && (end.value.Ok? ==> end.value.value == [])
    ensures end.None? ==> |rest| < |body|
    ensures end.None? ==> ParseBody(parse, body, delimiter, view) ==
                          var r := ParseBody(parse, rest, delimiter, view);
                          if entry.Some? then Prepend(entry.value, r) else r
  {
    entry, rest := None, "";
    var found := Find(body, delimiter);
    if found.None? {
      return Some(if view then Ok([]) else Err(BadRequest)), None, "";
    }
    var section := body[..found.value];
    var dropped := Drop(body, found.value + |delimiter| + 2, view);
    if dropped.Err? {
      return Some(Err(dropped.error)), None, "";
    }
    rest := dropped.value;
    if section != "" {
      var read := ReadEntry(section, view, pick, parse);
      if read.Err? {
        return Some(Err(read.error)), None, "";
      }
      entry := Some(read.value);
    }
    end := None;
  }

  method ReadBody(text: string, delimiter: string, view: bool, pick: Pick<Header>, ghost parse: SectionParser)
    returns (r: Result<seq<Entry>, Error>)
    requires delimiter != ""
    requires forall s {:trigger ParserLaw(parse, view, pick, s)} :: ParserLaw(parse, view, pick, s)
    ensures r == ParseBody(parse, text, delimiter, view)
  {
    var body := text;
    var entries: seq<Entry> := [];
    ghost var goal := ParseBody(parse, text, delimiter, view);
    OntoNothing(goal);
    while body != CRLF
      invariant goal == Onto(entries, ParseBody(parse, body, delimiter, view))
      decreases |body|
    {
      var end, entry, rest := NextSection(body, delimiter, view, pick, parse);
      if end.Some? {
        assert entries + [] == entries;
        return if end.value.Ok? then Ok(entries) else Err(end.value.error);
      }
      body := rest;
      if entry.Some? {
        OntoOne(entries, entry.value, ParseBody(parse, body, delimiter, view));
        entries := entries + [entry.value];
      }
    }
    assert entries + [] == entries;
    return Ok(entries);
  }

  /** A message made from a request. */
  method ReadMessage(body: string, boundary: string, view: bool, pick: Pick<Header>)
    returns (r: Result<seq<Entry>, Error>)
    ensures r == Parse(body, boundary, view, pick)
  {
    if boundary == "" && !view {
      return Err(BadRequest);
    }
    r := ReadBody(body, "--" + boundary, view, pick, SectionsOf(view, pick));
  }
}
