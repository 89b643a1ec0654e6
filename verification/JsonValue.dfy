/**
 * Loading and dumping JSON in crow/json.h, on text: the recursive-descent parser with its
 * depth limit, the number state machine, the printer, and the round trip between them.
 * Text is the bytes before the terminating NUL.
 */
module JsonValue {

  import opened JsonText
  import opened Octets
  import opened Wrappers

  const MAX_DEPTH: nat := 10000

  const SPACE: byte := 32
  const COMMA: byte := 44
  const COLON: byte := 58
  const MINUS: byte := 45
  const PLUS: byte := 43
  const DOT: byte := 46
  const LEFT_BRACKET: byte := 91
  const RIGHT_BRACKET: byte := 93
  const LEFT_BRACE: byte := 123
  const RIGHT_BRACE: byte := 125

  const TRUE_TEXT: bytes := [116, 114, 117, 101]
  const FALSE_TEXT: bytes := [102, 97, 108, 115, 101]
  const NULL_TEXT: bytes := [110, 117, 108, 108]

  /** A loaded value: numbers keep their text, strings are taken decoded. */
  datatype RValue =
    | RNull | RFalse | RTrue
    | RNumber(text: bytes)
    | RString(value: bytes)
    | RList(items: seq<RValue>)
    | RObject(fields: seq<(bytes, RValue)>)

  // ----- Scanning -----

  /** `*data`: the terminating NUL follows the text. */
  function First(s: bytes): byte { if s == [] then 0 else s[0] }

  predicate IsSpace(c: byte) { c == SPACE || c == HT || c == CR || c == NL }

  function SkipWs(s: bytes): (r: bytes)
    ensures |r| <= |s|
  {
    if s != [] && IsSpace(s[0]) then SkipWs(s[1..]) else s
  }

  /** Where the closing quote is; None when there is none or the text before it is invalid. */
  function TextEnd(s: bytes): (r: Option<nat>)
    ensures r.Some? ==> r.value < |s|
    decreases |s|
  {
    if s == [] then None
    else if s[0] == QUOTE then Some(0)
    else if UnitLength(s) == 0 then None
    else
      match TextEnd(s[UnitLength(s)..])
      case None => None
      case Some(k) => Some(UnitLength(s) + k)
  }

  lemma TextEndAfterUnit(s: bytes, n: nat)
    requires s != [] && s[0] != QUOTE && UnitLength(s) == n > 0
    ensures TextEnd(s) == match TextEnd(s[n..]) { case None => None case Some(k) => Some(n + k) }
  {
  }

  lemma {:induction false} TextEndIsQuote(s: bytes)
    requires TextEnd(s).Some?
    ensures s[TextEnd(s).value] == QUOTE && ValidText(s[..TextEnd(s).value])
    decreases |s|
  {
    if s[0] != QUOTE {
      var n := UnitLength(s);
      var k := TextEnd(s[n..]).value;
      TextEndIsQuote(s[n..]);
      assert s[..n + k][n..] == s[n..][..k];
      assert UnitLength(s[..n + k]) == n;
    }
  }

  /** `decode_string`: the raw text between the quotes, and what follows. */
  function ParseString(s: bytes): (r: Option<(bytes, bytes)>)
    ensures r.Some? ==> ValidText(r.value.0) && |r.value.1| + 2 + |r.value.0| == |s|
  {
    if First(s) != QUOTE || TextEnd(s[1..]).None? then None
    else
      var k := TextEnd(s[1..]).value;
      TextEndIsQuote(s[1..]);
      assert s[1..k + 1] == s[1..][..k];
      Some((s[1..k + 1], s[k + 2..]))
  }

  datatype NumberState = NMinus | AfterMinus | ZeroFirst | Digits | DigitsAfterPoints | NE | DigitsAfterE | Invalid

  predicate IsDigit(c: byte) { 48 <= c <= 57 }

  predicate IsNumberByte(c: byte) { IsDigit(c) || c == DOT || c == MINUS || c == PLUS || c == 101 || c == 69 }

  /** The transition tables of `decode_number`. */
  function NumberStep(st: NumberState, c: byte): NumberState
    requires IsNumberByte(c)
  {
    if c == 48 then
      match st
      case NMinus => ZeroFirst case AfterMinus => ZeroFirst case Digits => Digits
      case DigitsAfterPoints => DigitsAfterPoints case NE => DigitsAfterE case DigitsAfterE => DigitsAfterE
      case _ => Invalid
    else if IsDigit(c) then
      match st
      case NMinus => Digits case AfterMinus => Digits case Digits => Digits
      case DigitsAfterPoints => DigitsAfterPoints case NE => DigitsAfterE case DigitsAfterE => DigitsAfterE
      case _ => Invalid
    else if c == DOT then (if st == ZeroFirst || st == Digits then DigitsAfterPoints else Invalid)
    else if c == MINUS then (if st == NMinus then AfterMinus else if st == NE then DigitsAfterE else Invalid)
    else if c == PLUS then (if st == NE then DigitsAfterE else Invalid)
    else (if st == Digits || st == DigitsAfterPoints then NE else Invalid)
  }

  predicate Accepting(st: NumberState) {
    st == ZeroFirst || st == Digits || st == DigitsAfterPoints || st == DigitsAfterE
  }

  /** How many bytes a number takes from state `st` on. */
  function NumberEnd(st: NumberState, s: bytes): (r: Option<nat>)
    ensures r.Some? ==> r.value <= |s| && (!Accepting(st) ==> r.value > 0)
    decreases |s|
  {
    if st == Invalid then None
    else if s != [] && IsNumberByte(s[0]) then
      match NumberEnd(NumberStep(st, s[0]), s[1..])
      case None => None
      case Some(n) => Some(n + 1)
    else if Accepting(st) then Some(0)
    else None
  }

  // ----- The parser -----

  function ParseValue(s: bytes, depth: nat): (r: Option<(RValue, bytes)>)
    ensures r.Some? ==> |r.value.1| < |s|
    decreases |s|, 2
  {
    if First(s) == LEFT_BRACKET then ParseList(s[1..], depth + 1)
    else if First(s) == LEFT_BRACE then ParseObject(s[1..], depth + 1)
    else if First(s) == QUOTE then
      match ParseString(s) case None => None case Some((raw, rest)) => Some((RString(Decode(raw)), rest))
    else if First(s) == TRUE_TEXT[0] then (if TRUE_TEXT <= s then Some((RTrue, s[4..])) else None)
    else if First(s) == FALSE_TEXT[0] then (if FALSE_TEXT <= s then Some((RFalse, s[5..])) else None)
    else if First(s) == NULL_TEXT[0] then (if NULL_TEXT <= s then Some((RNull, s[4..])) else None)
    else
      match NumberEnd(NMinus, s) case None => None case Some(n) => Some((RNumber(s[..n]), s[n..]))
  }

  /** After the opening bracket. */
  function ParseList(s: bytes, depth: nat): (r: Option<(RValue, bytes)>)
    ensures r.Some? ==> |r.value.1| < |s|
    decreases |s|, 4
  {
    if depth > MAX_DEPTH then None
    else
      var s1 := SkipWs(s);
      if First(s1) == RIGHT_BRACKET then Some((RList([]), s1[1..]))
      else match ParseItems(s1, depth) case None => None case Some((vs, rest)) => Some((RList(vs), rest))
  }

  function ParseItems(s: bytes, depth: nat): (r: Option<(seq<RValue>, bytes)>)
    ensures r.Some? ==> |r.value.1| < |s|
    decreases |s|, 3
  {
    match ParseValue(s, depth + 1)
    case None => None
    case Some((v, s1)) =>
      var s2 := SkipWs(s1);
      if First(s2) == RIGHT_BRACKET then Some(([v], s2[1..]))
      else if First(s2) != COMMA then None
      else
        match ParseItems(SkipWs(s2[1..]), depth)
        case None => None
        case Some((vs, rest)) => Some(([v] + vs, rest))
  }

  /** After the opening brace. */
  function ParseObject(s: bytes, depth: nat): (r: Option<(RValue, bytes)>)
    ensures r.Some? ==> |r.value.1| < |s|
    decreases |s|, 4
  {
    if depth > MAX_DEPTH then None
    else
      var s1 := SkipWs(s);
      if First(s1) == RIGHT_BRACE then Some((RObject([]), s1[1..]))
      else match ParseFields(s1, depth) case None => None case Some((fs, rest)) => Some((RObject(fs), rest))
  }

  function ParseFields(s: bytes, depth: nat): (r: Option<(seq<(bytes, RValue)>, bytes)>)
    ensures r.Some? ==> |r.value.1| < |s|
    decreases |s|, 3
  {
    match ParseString(s)
    case None => None
    case Some((key, s1)) =>
      var s2 := SkipWs(s1);
      if First(s2) != COLON then None
      else
        match ParseValue(SkipWs(s2[1..]), depth + 1)
        case None => None
        case Some((v, s3)) =>
          var s4 := SkipWs(s3);
          if First(s4) == RIGHT_BRACE then Some(([(Decode(key), v)], s4[1..]))
          else if First(s4) != COMMA then None
          else
            match ParseFields(SkipWs(s4[1..]), depth)
            case None => None
            case Some((fs, rest)) => Some(([(Decode(key), v)] + fs, rest))
  }

  /** `load`: what follows the value must be the end of the text, or a NUL inside it. */
  function Load(s: bytes): Option<RValue> {
    match ParseValue(SkipWs(s), 0)
    case None => None
    case Some((v, rest)) => if First(SkipWs(rest)) == 0 then Some(v) else None
  }

  // One step of each production.

  lemma OpensList(s: bytes, d: nat)
    requires First(s) == LEFT_BRACKET
    ensures ParseValue(s, d) == ParseList(s[1..], d + 1)
  {
  }

  lemma OpensObject(s: bytes, d: nat)
    requires First(s) == LEFT_BRACE
    ensures ParseValue(s, d) == ParseObject(s[1..], d + 1)
  {
  }

  lemma ListIs(s: bytes, body: bytes, depth: nat)
    requires SkipWs(s) == body
    ensures depth > MAX_DEPTH ==> ParseList(s, depth) == None
    ensures depth <= MAX_DEPTH && First(body) == RIGHT_BRACKET ==> ParseList(s, depth) == Some((RList([]), body[1..]))
    ensures depth <= MAX_DEPTH && First(body) != RIGHT_BRACKET ==>
              ParseList(s, depth) ==
                  match ParseItems(body, depth) {
                    case None => None
                    case Some((vs, rest)) => Some((RList(vs), rest))
                  }
  {
  }

  lemma ObjectIs(s: bytes, body: bytes, depth: nat)
    requires SkipWs(s) == body
    ensures depth > MAX_DEPTH ==> ParseObject(s, depth) == None
    ensures depth <= MAX_DEPTH && First(body) == RIGHT_BRACE ==> ParseObject(s, depth) == Some((RObject([]), body[1..]))
    ensures depth <= MAX_DEPTH && First(body) != RIGHT_BRACE ==>
              ParseObject(s, depth) ==
                  match ParseFields(body, depth) {
                    case None => None
                    case Some((fs, rest)) => Some((RObject(fs), rest))
                  }
  {
  }

  function Cons<T>(x: T, r: Option<(seq<T>, bytes)>): Option<(seq<T>, bytes)> {
    match r case None => None case Some((xs, rest)) => Some(([x] + xs, rest))
  }

  /** After one item: the closing bracket or a comma. */
  lemma AfterItem(s: bytes, depth: nat, item: Option<(RValue, bytes)>, next: bytes)
    requires ParseValue(s, depth + 1) == item
    requires item.Some? ==> SkipWs(item.value.1) == next
    ensures item.None? ==> ParseItems(s, depth) == None
    ensures item.Some? && First(next) == RIGHT_BRACKET ==> ParseItems(s, depth) == Some(([item.value.0], next[1..]))
    ensures item.Some? && First(next) == COMMA ==>
              ParseItems(s, depth) == Cons(item.value.0, ParseItems(SkipWs(next[1..]), depth))
    ensures item.Some? && First(next) != RIGHT_BRACKET && First(next) != COMMA ==> ParseItems(s, depth) == None
  {
  }

  /** One field: a key, a colon and a value. */
  function ParseField(s: bytes, depth: nat): Option<((bytes, RValue), bytes)> {
    match ParseString(s)
    case None => None
    case Some((key, s1)) =>
      var s2 := SkipWs(s1);
      if First(s2) != COLON then None
      else
        match ParseValue(SkipWs(s2[1..]), depth + 1)
        case None => None
        case Some((v, s3)) => Some(((Decode(key), v), s3))
  }

  function WithKey(key: bytes, r: Option<(RValue, bytes)>): Option<((bytes, RValue), bytes)> {
    match r case None => None case Some((v, rest)) => Some(((key, v), rest))
  }

  lemma FieldIs(s: bytes, depth: nat, raw: bytes, rest: bytes, colon: bytes, body: bytes)
    requires ParseString(s) == Some((raw, rest)) && SkipWs(rest) == colon
    requires First(colon) == COLON ==> SkipWs(colon[1..]) == body
    ensures First(colon) != COLON ==> ParseField(s, depth) == None
    ensures First(colon) == COLON ==>
              ParseField(s, depth) == WithKey(Decode(raw), ParseValue(body, depth + 1))
  {
  }

  lemma AfterField(s: bytes, depth: nat, field: Option<((bytes, RValue), bytes)>, next: bytes)
    requires ParseField(s, depth) == field
    requires field.Some? ==> SkipWs(field.value.1) == next
    ensures field.None? ==> ParseFields(s, depth) == None
    ensures field.Some? && First(next) == RIGHT_BRACE ==> ParseFields(s, depth) == Some(([field.value.0], next[1..]))
    ensures field.Some? && First(next) == COMMA ==>
              ParseFields(s, depth) == Cons(field.value.0, ParseFields(SkipWs(next[1..]), depth))
    ensures field.Some? && First(next) != RIGHT_BRACE && First(next) != COMMA ==> ParseFields(s, depth) == None
  {
  }

  // ----- The printer -----

  type int64 = n: int | -0x8000_0000_0000_0000 <= n < 0x8000_0000_0000_0000
  type uint64 = n: int | 0 <= n < 0x1_0000_0000_0000_0000

  /** A writable value; an object's fields in the order its map iterates them. */
  datatype WValue =
    | Null | False | True
    | Signed(i: int64)
    | Unsigned(u: uint64)
    | String(s: bytes)
    | List(items: seq<WValue>)
    | Object(fields: seq<(bytes, WValue)>)

  /** `std::to_string` */
  function Decimal(n: nat): bytes {
    if n < 10 then [48 + n] else Decimal(n / 10) + [48 + n % 10]
  }

  function IntegerText(n: int): bytes { if n < 0 then [MINUS] + Decimal(-n) else Decimal(n) }

  function StringText(s: bytes): bytes { [QUOTE] + Escape(s) + [QUOTE] }

  datatype Layout = Layout(indent: int, separator: byte)

  function Repeat(c: byte, n: nat): (r: bytes)
    ensures |r| == n && forall i :: 0 <= i < n ==> r[i] == c
  {
    if n == 0 then [] else [c] + Repeat(c, n - 1)
  }

  /** `level` times `indent` separators. */
  function Margin(l: Layout, level: nat): bytes
    requires l.indent >= 0
  {
    if level == 0 then [] else Margin(l, level - 1) + Repeat(l.separator, l.indent)
  }

  lemma {:induction false} MarginIs(l: Layout, level: nat)
    requires l.indent >= 0
    ensures |Margin(l, level)| == level * l.indent && forall c :: c in Margin(l, level) ==> c == l.separator
  {
    if level > 0 {
      MarginIs(l, level - 1);
      assert (level - 1) * l.indent + l.indent == level * l.indent;
    }
  }

  function Indentation(l: Layout, level: nat): bytes {
    if l.indent >= 0 then [NL] + Margin(l, level) else []
  }

  function Dump(v: WValue, l: Layout, level: nat): bytes
    decreases v, 1
  {
    match v
    case Null => NULL_TEXT
    case False => FALSE_TEXT
    case True => TRUE_TEXT
    case Signed(i) => IntegerText(i)
    case Unsigned(u) => IntegerText(u)
    case String(s) => StringText(s)
    case List(items) =>
      [LEFT_BRACKET] + Indentation(l, level + 1)
      + (if items == [] then [] else DumpItems(items, l, level + 1))
      + Indentation(l, level) + [RIGHT_BRACKET]
    case Object(fields) =>
      [LEFT_BRACE] + Indentation(l, level + 1)
      + (if fields == [] then [] else DumpFields(fields, l, level + 1))
      + Indentation(l, level) + [RIGHT_BRACE]
  }

  function DumpItems(vs: seq<WValue>, l: Layout, level: nat): bytes
    requires vs != []
    decreases vs, 0
  {
    Dump(vs[0], l, level)
    + if |vs| == 1 then [] else [COMMA] + Indentation(l, level) + DumpItems(vs[1..], l, level)
  }

  function DumpField(f: (bytes, WValue), l: Layout, level: nat): bytes
    decreases f, 2
  {
    StringText(f.0) + [COLON] + (if l.indent >= 0 then [SPACE] else []) + Dump(f.1, l, level)
  }

  function DumpFields(fs: seq<(bytes, WValue)>, l: Layout, level: nat): bytes
    requires fs != []
    decreases fs, 0
  {
    DumpField(fs[0], l, level)
    + if |fs| == 1 then [] else [COMMA] + Indentation(l, level) + DumpFields(fs[1..], l, level)
  }

  // ----- What a dumped value loads as -----

  function Loaded(v: WValue): RValue {
    match v
    case Null => RNull
    case False => RFalse
    case True => RTrue
    case Signed(i) => RNumber(IntegerText(i))
    case Unsigned(u) => RNumber(IntegerText(u))
    case String(s) => RString(s)
    case List(items) => RList(LoadedItems(items))
    case Object(fields) => RObject(LoadedFields(fields))
  }

  function LoadedItems(vs: seq<WValue>): seq<RValue> {
    if vs == [] then [] else [Loaded(vs[0])] + LoadedItems(vs[1..])
  }

  function LoadedField(f: (bytes, WValue)): (bytes, RValue) { (f.0, Loaded(f.1)) }

  function LoadedFields(fs: seq<(bytes, WValue)>): seq<(bytes, RValue)> {
    if fs == [] then [] else [LoadedField(fs[0])] + LoadedFields(fs[1..])
  }

  /** Whether a value met at depth `d` stays within the parser's limit: entering a container
      and reading its elements each go one deeper. */
  predicate Fits(v: WValue, d: nat) {
    match v
    case List(items) => d + 1 <= MAX_DEPTH && ItemsFit(items, d + 2)
    case Object(fields) => d + 1 <= MAX_DEPTH && FieldsFit(fields, d + 2)
    case _ => true
  }

  predicate ItemsFit(vs: seq<WValue>, d: nat) {
    vs == [] || (Fits(vs[0], d) && ItemsFit(vs[1..], d))
  }

  predicate FieldFits(f: (bytes, WValue), d: nat) { Fits(f.1, d) }

  predicate FieldsFit(fs: seq<(bytes, WValue)>, d: nat) {
    fs == [] || (FieldFits(fs[0], d) && FieldsFit(fs[1..], d))
  }
}
