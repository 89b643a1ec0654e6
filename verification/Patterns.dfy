/**
 * Route patterns as crow/routing.h and crow/utility.h read them: a pattern is a
 * list of literal characters and typed placeholders, a placeholder captures a
 * value from the URL, and a whole pattern matches a whole URL.
 */
module Patterns {

  import opened Wrappers

  /** MAX is the source's "no parameter". */
  datatype ParamType = INT | UINT | DOUBLE | STRING | PATH | MAX

  datatype Token = Lit(c: char) | Par(t: ParamType)

  datatype Value = IntV(i: int) | UintV(u: nat) | DoubleV(d: real) | StringV(s: string)

  /** The four vectors of `routing_params`. */
  datatype Params = Params(ints: seq<int>, uints: seq<nat>, doubles: seq<real>, strings: seq<string>)

  const NO_PARAMS := Params([], [], [], [])

  function Push(ps: Params, v: Value): Params {
    match v
    case IntV(i) => ps.(ints := ps.ints + [i])
    case UintV(u) => ps.(uints := ps.uints + [u])
    case DoubleV(d) => ps.(doubles := ps.doubles + [d])
    case StringV(s) => ps.(strings := ps.strings + [s])
  }

  // ----- Reading one placeholder from a URL -----

  const INT64_MIN: int := -0x8000_0000_0000_0000
  const INT64_MAX: int := 0x7FFF_FFFF_FFFF_FFFF
  const UINT64_MAX: int := 0xFFFF_FFFF_FFFF_FFFF

  predicate IsDigit(c: char) { '0' <= c <= '9' }

  /** Where the run of digits that starts at `p` ends. */
  function DigitsEnd(url: string, p: nat): (e: nat)
    requires p <= |url|
    ensures p <= e <= |url|
    decreases |url| - p
  {
    if p < |url| && IsDigit(url[p]) then DigitsEnd(url, p + 1) else p
  }

  function DigitsValue(url: string, p: nat, e: nat): nat
    requires p <= e <= |url|
    requires forall k :: p <= k < e ==> IsDigit(url[k])
  {
    if p == e then 0
    else
      assert IsDigit(url[e - 1]);
      DigitsValue(url, p, e - 1) * 10 + (url[e - 1] as int - '0' as int)
  }

  lemma DigitsEndIsRun(url: string, p: nat)
    requires p <= |url|
    ensures forall k :: p <= k < DigitsEnd(url, p) ==> IsDigit(url[k])
    decreases |url| - p
  {
    if p < |url| && IsDigit(url[p]) {
      DigitsEndIsRun(url, p + 1);
    }
  }

  /** Unsigned decimal at `p`: its value and its end; None when there is no digit. */
  function Magnitude(url: string, p: nat): (r: Option<(nat, nat)>)
    requires p <= |url|
    ensures r.Some? ==> p < r.value.1 <= |url|
  {
    var e := DigitsEnd(url, p);
    DigitsEndIsRun(url, p);
    if e == p then None else Some((DigitsValue(url, p, e), e))
  }

  /** C `strtoll` in base 10 at a position holding a digit or a sign; None stands for
      "no conversion" and for ERANGE. */
  function Strtoll(url: string, pos: nat): (r: Option<(int, nat)>)
    requires pos < |url|
    ensures r.Some? ==> pos < r.value.1 <= |url|
  {
    var signed := url[pos] == '+' || url[pos] == '-';
    match Magnitude(url, if signed then pos + 1 else pos)
    case None => None
    case Some((m, e)) =>
      var n: int := m;
      var v := if url[pos] == '-' then -n else n;
      if INT64_MIN <= v <= INT64_MAX then Some((v, e)) else None
  }

  /** C `strtoull` in base 10 at a position holding a digit or a plus sign. */
  function Strtoull(url: string, pos: nat): (r: Option<(nat, nat)>)
    requires pos < |url|
    ensures r.Some? ==> pos < r.value.1 <= |url|
  {
    match Magnitude(url, if url[pos] == '+' then pos + 1 else pos)
    case None => None
    case Some((m, e)) => if m <= UINT64_MAX then Some((m, e)) else None
  }

  /** C `strtod` as an arbitrary function to a value and the position after it. */
  type Strtod = (string, nat) -> Option<(real, nat)>

  /** End of the run of characters other than '/'. */
  function SegmentEnd(url: string, p: nat): (e: nat)
    requires p <= |url|
    ensures p <= e <= |url|
    decreases |url| - p
  {
    if p < |url| && url[p] != '/' then SegmentEnd(url, p + 1) else p
  }

  /** What a placeholder takes from the URL at `pos`, and where it stops. */
  function Capture(t: ParamType, url: string, pos: nat, strtod: Strtod): (r: Option<(Value, nat)>)
    requires pos < |url|
    ensures r.Some? ==> pos < r.value.1 <= |url|
  {
    var c := url[pos];
    match t
    case INT =>
      if IsDigit(c) || c == '+' || c == '-' then
        match Strtoll(url, pos) { case None => None case Some((v, e)) => Some((IntV(v), e)) }
      else None
    case UINT =>
      if IsDigit(c) || c == '+' then
        match Strtoull(url, pos) { case None => None case Some((v, e)) => Some((UintV(v), e)) }
      else None
    case DOUBLE =>
      if IsDigit(c) || c == '+' || c == '-' || c == '.' then
        match strtod(url, pos) {
          case None => None
          case Some((v, e)) => if pos < e <= |url| then Some((DoubleV(v), e)) else None
        }
      else None
    case STRING =>
      var e := SegmentEnd(url, pos);
      if e != pos then Some((StringV(url[pos..e]), e)) else None
    case PATH => Some((StringV(url[pos..]), |url|))
    case MAX => None
  }

  // ----- What it means for a pattern to match a URL -----

  /** The values a pattern takes from the URL, in URL order; None when the pattern does
      not match all of url[pos..]. */
  function Captured(ts: seq<Token>, url: string, pos: nat, strtod: Strtod): Option<seq<Value>>
    requires pos <= |url|
    decreases |ts|
  {
    if ts == [] then (if pos == |url| then Some([]) else None)
    else if pos == |url| then None
    else
      match ts[0]
      case Lit(c) => if url[pos] == c then Captured(ts[1..], url, pos + 1, strtod) else None
      case Par(t) =>
        match Capture(t, url, pos, strtod)
        case None => None
        case Some((v, e)) =>
          match Captured(ts[1..], url, e, strtod)
          case None => None
          case Some(vs) => Some([v] + vs)
  }

  function PushAll(ps: Params, vs: seq<Value>): Params
    decreases |vs|
  {
    if vs == [] then ps else PushAll(Push(ps, vs[0]), vs[1..])
  }

  // ----- Pattern text -----

  predicate StartsWith(s: string, i: nat, name: string)
    requires i <= |s|
  {
    i + |name| <= |s| && s[i..i + |name|] == name
  }

  /** The placeholder names of `Trie::add`, in the order it tries them. */
  const PLACEHOLDERS: seq<(string, ParamType)> := [
    ("<int>", INT), ("<uint>", UINT), ("<float>", DOUBLE), ("<double>", DOUBLE),
    ("<str>", STRING), ("<string>", STRING), ("<path>", PATH)]

  predicate IsPlaceholder(e: (string, ParamType)) {
    && |e.0| >= 5 && e.1 != MAX && e.0[|e.0| - 1] == '>'
    && forall j :: 0 <= j < |e.0| - 1 ==> e.0[j] != '>' && e.0[j] != '\0'
  }

  lemma TableIsValid()
    ensures forall k :: 0 <= k < |PLACEHOLDERS| ==> IsPlaceholder(PLACEHOLDERS[k])
  {
    assert IsPlaceholder(("<int>", INT));
    assert IsPlaceholder(("<uint>", UINT));
    assert IsPlaceholder(("<float>", DOUBLE));
    assert IsPlaceholder(("<double>", DOUBLE));
    assert IsPlaceholder(("<str>", STRING));
    assert IsPlaceholder(("<string>", STRING));
    assert IsPlaceholder(("<path>", PATH));
  }

  lemma CharactersOf(url: string, i: nat, name: string)
    requires i <= |url| && StartsWith(url, i, name)
    ensures forall j :: i <= j < i + |name| ==> url[j] == name[j - i]
  {
    assert forall j :: i <= j < i + |name| ==> url[j] == url[i..i + |name|][j - i];
  }

  function PlaceholderIn(table: seq<(string, ParamType)>, url: string, i: nat): (r: Option<(ParamType, nat)>)
    requires i <= |url| && forall k :: 0 <= k < |table| ==> IsPlaceholder(table[k])
    ensures r.Some? ==>
      var (t, n) := r.value;
      && 5 <= n && i + n <= |url| && t != MAX && url[i + n - 1] == '>'
      && forall j :: i <= j < i + n - 1 ==> url[j] != '>' && url[j] != '\0'
  {
    if table == [] then None
    else if StartsWith(url, i, table[0].0) then
      assert IsPlaceholder(table[0]);
      CharactersOf(url, i, table[0].0);
      Some((table[0].1, |table[0].0|))
    else PlaceholderIn(table[1..], url, i)
  }

  function PlaceholderAt(url: string, i: nat): (r: Option<(ParamType, nat)>)
    requires i <= |url|
    ensures r.Some? ==> 5 <= r.value.1 && i + r.value.1 <= |url| && r.value.0 != MAX
  {
    TableIsValid();
    PlaceholderIn(PLACEHOLDERS, url, i)
  }

  /** Every '<' starts a known placeholder and there is no NUL: what the tag computation
      that every route goes through demands before `add` is reached. */
  predicate ValidFrom(url: string, i: nat)
    requires i <= |url|
    decreases |url| - i
  {
    i == |url| ||
    if url[i] == '<' then
      PlaceholderAt(url, i).Some? && ValidFrom(url, i + PlaceholderAt(url, i).value.1)
    else
      url[i] != '\0' && ValidFrom(url, i + 1)
  }

  /** The token at `i` and the position after it. */
  function TokenAt(url: string, i: nat): (r: (Token, nat))
    requires i < |url| && ValidFrom(url, i)
    ensures i < r.1 <= |url| && ValidFrom(url, r.1)
    ensures r.0.Lit? ==> r.0.c != '\0'
    ensures r.0.Par? ==> r.0.t != MAX
  {
    if url[i] == '<' then
      var (t, n) := PlaceholderAt(url, i).value;
      (Par(t), i + n)
    else
      (Lit(url[i]), i + 1)
  }

  function TokensFrom(url: string, i: nat): seq<Token>
    requires i <= |url| && ValidFrom(url, i)
    decreases |url| - i
  {
    if i == |url| then [] else [TokenAt(url, i).0] + TokensFrom(url, TokenAt(url, i).1)
  }

  predicate ValidPattern(url: string) { ValidFrom(url, 0) }

  function Tokens(url: string): seq<Token>
    requires ValidPattern(url)
  {
    TokensFrom(url, 0)
  }
}
