/**
 * Loading what was dumped (crow/json.h): the parser gives the value back exactly when its nesting
 * stays within the depth limit.
 */
module JsonRoundTrip {

  import opened JsonText
  import opened JsonValue
  import opened Octets
  import opened Wrappers

  // For every value, every indentation with a whitespace separator and every surrounding depth.

  /** What may follow a value without being read as part of a number. */
  predicate Stops(s: bytes) { !IsNumberByte(First(s)) }

  // ----- Pieces -----

  lemma {:induction false} SkipSpaces(ws: bytes, s: bytes)
    requires (forall c :: c in ws ==> IsSpace(c)) && !IsSpace(First(s))
    ensures SkipWs(ws + s) == s
    decreases |ws|
  {
    if ws == [] {
      assert ws + s == s;
    } else {
      assert ws[0] in ws && (ws + s)[1..] == ws[1..] + s;
      SkipSpaces(ws[1..], s);
    }
  }

  lemma IndentationIsSpace(l: Layout, level: nat)
    requires IsSpace(l.separator)
    ensures forall c :: c in Indentation(l, level) ==> IsSpace(c)
  {
    if l.indent >= 0 { MarginIs(l, level); }
  }

  lemma SkipIndentation(l: Layout, level: nat, s: bytes)
    requires IsSpace(l.separator) && !IsSpace(First(s))
    ensures SkipWs(Indentation(l, level) + s) == s
    ensures Stops(s) ==> Stops(Indentation(l, level) + s)
  {
    IndentationIsSpace(l, level);
    SkipSpaces(Indentation(l, level), s);
    assert l.indent < 0 ==> Indentation(l, level) + s == s;
  }

  lemma {:induction false} EscapeEnds(s: bytes, rest: bytes)
    ensures TextEnd(Escape(s) + ([QUOTE] + rest)) == Some(|Escape(s)|)
  {
    if s == [] {
      assert Escape(s) + ([QUOTE] + rest) == [QUOTE] + rest;
    } else {
      var tail := Escape(s[1..]) + ([QUOTE] + rest);
      var unit := EscapeByte(s[0]);
      assert Escape(s) + ([QUOTE] + rest) == unit + tail;
      EscapedUnit(s[0], tail);
      EscapeEnds(s[1..], rest);
      TextEndAfterUnit(unit + tail, |unit|);
    }
  }

  lemma StringParses(s: bytes, rest: bytes)
    ensures ParseString(StringText(s) + rest) == Some((Escape(s), rest))
    ensures Decode(Escape(s)) == s && First(StringText(s) + rest) == QUOTE
  {
    Quoted(Escape(s), rest);
    EscapeEnds(s, rest);
    DecodeEscape(s);
  }

  lemma Quoted(raw: bytes, rest: bytes)
    ensures var all := [QUOTE] + raw + [QUOTE] + rest;
      First(all) == QUOTE && all[1..] == raw + ([QUOTE] + rest) && all[1..|raw| + 1] == raw && all[|raw| + 2..] == rest
  {
  }

  // ----- Numbers -----

  lemma {:induction false} DecimalDigits(n: nat)
    ensures Decimal(n) != [] && (forall c :: c in Decimal(n) ==> IsDigit(c)) && (n > 0 ==> Decimal(n)[0] != 48)
    ensures n == 0 ==> Decimal(n) == [48]
  {
    if n >= 10 {
      DecimalDigits(n / 10);
    }
  }

  lemma {:induction false} DigitsEnd(ds: bytes, rest: bytes)
    requires (forall c :: c in ds ==> IsDigit(c)) && Stops(rest)
    ensures NumberEnd(Digits, ds + rest) == Some(|ds|)
    decreases |ds|
  {
    if ds == [] {
      assert ds + rest == rest;
    } else {
      assert ds[0] in ds && (ds + rest)[1..] == ds[1..] + rest;
      DigitsEnd(ds[1..], rest);
    }
  }

  lemma DecimalEnds(n: nat, st: NumberState, rest: bytes)
    requires (st == NMinus || st == AfterMinus) && Stops(rest)
    ensures NumberEnd(st, Decimal(n) + rest) == Some(|Decimal(n)|)
  {
    var ds := Decimal(n);
    DecimalDigits(n);
    assert ds[0] in ds && (ds + rest)[1..] == ds[1..] + rest;
    if n == 0 {
      assert ds[1..] + rest == rest;
    } else {
      DigitsEnd(ds[1..], rest);
    }
  }

  lemma IntegerParses(n: int, rest: bytes, d: nat)
    requires Stops(rest)
    ensures ParseValue(IntegerText(n) + rest, d) == Some((RNumber(IntegerText(n)), rest))
    ensures First(IntegerText(n) + rest) == IntegerText(n)[0]
        && (IntegerText(n)[0] == MINUS || IsDigit(IntegerText(n)[0]))
  {
    IntegerEnds(n, rest);
    NumberParses(IntegerText(n), rest, d);
  }

  lemma IntegerEnds(n: int, rest: bytes)
    requires Stops(rest)
    ensures var text := IntegerText(n);
      text != [] && (text[0] == MINUS || IsDigit(text[0])) && NumberEnd(NMinus, text + rest) == Some(|text|)
  {
    var text := IntegerText(n);
    if n < 0 {
      DecimalDigits(-n);
      Headed(MINUS, Decimal(-n), rest);
      DecimalEnds(-n, AfterMinus, rest);
    } else {
      DecimalDigits(n);
      DecimalEnds(n, NMinus, rest);
      assert text[0] in text;
    }
  }

  lemma Headed(c: byte, a: bytes, rest: bytes)
    ensures ([c] + a + rest)[0] == c && ([c] + a + rest)[1..] == a + rest && ([c] + a)[0] == c
  {
  }

  lemma NumberParses(text: bytes, rest: bytes, d: nat)
    requires text != [] && (text[0] == MINUS || IsDigit(text[0])) && NumberEnd(NMinus, text + rest) == Some(|text|)
    ensures ParseValue(text + rest, d) == Some((RNumber(text), rest)) && First(text + rest) == text[0]
  {
    assert (text + rest)[..|text|] == text && (text + rest)[|text|..] == rest;
  }

  // ----- Values -----

  lemma LiteralParses(text: bytes, v: RValue, rest: bytes, d: nat)
    requires (text == NULL_TEXT && v == RNull) || (text == TRUE_TEXT && v == RTrue)
        || (text == FALSE_TEXT && v == RFalse)
    ensures ParseValue(text + rest, d) == Some((v, rest))
  {
    assert text <= text + rest && (text + rest)[|text|..] == rest;
  }

  lemma IntegerStarts(n: int)
    ensures IntegerText(n) != [] && (IntegerText(n)[0] == MINUS || IsDigit(IntegerText(n)[0]))
  {
    if n >= 0 {
      DecimalDigits(n);
      assert IntegerText(n)[0] in IntegerText(n);
    }
  }

  lemma DumpStarts(v: WValue, l: Layout, level: nat, rest: bytes)
    ensures !IsSpace(First(Dump(v, l, level) + rest)) && First(Dump(v, l, level) + rest) != RIGHT_BRACKET
    decreases v, 0
  {
    match v
    case Signed(i) => IntegerStarts(i);
    case Unsigned(u) => IntegerStarts(u);
    case _ =>
  }

  /** The main fact: a dumped value, whatever follows it, is read back exactly when it fits. */
  lemma {:induction false} DumpParses(v: WValue, l: Layout, level: nat, rest: bytes, d: nat)
    requires IsSpace(l.separator) && Stops(rest)
    ensures ParseValue(Dump(v, l, level) + rest, d) == if Fits(v, d) then Some((Loaded(v), rest)) else None
    decreases v, 2
  {
    match v
    case Null => LiteralParses(NULL_TEXT, RNull, rest, d);
    case False => LiteralParses(FALSE_TEXT, RFalse, rest, d);
    case True => LiteralParses(TRUE_TEXT, RTrue, rest, d);
    case Signed(i) => IntegerParses(i, rest, d);
    case Unsigned(u) => IntegerParses(u, rest, d);
    case String(s) => StringParses(s, rest);
    case List(items) => ListParses(v, l, level, rest, d);
    case Object(fields) => ObjectParses(v, l, level, rest, d);
  }

  // Shapes of the printed text.

  lemma ListShape(items: seq<WValue>, l: Layout, level: nat, rest: bytes)
    ensures var end := Indentation(l, level) + ([RIGHT_BRACKET] + rest); var s := Dump(List(items), l, level) + rest;
      First(s) == LEFT_BRACKET
      && s[1..] == Indentation(l, level + 1) + if items == [] then end else DumpItems(items, l, level + 1) + end
  {
    var i1, i0 := Indentation(l, level + 1), Indentation(l, level);
    var body := if items == [] then [] else DumpItems(items, l, level + 1);
    Bracketed(LEFT_BRACKET, i1, body, i0, RIGHT_BRACKET, rest);
    assert body == [] ==> body + (i0 + ([RIGHT_BRACKET] + rest)) == i0 + ([RIGHT_BRACKET] + rest);
  }

  lemma ObjectShape(fields: seq<(bytes, WValue)>, l: Layout, level: nat, rest: bytes)
    ensures var end := Indentation(l, level) + ([RIGHT_BRACE] + rest); var s := Dump(Object(fields), l, level) + rest;
      First(s) == LEFT_BRACE
      && s[1..] == Indentation(l, level + 1) + if fields == [] then end else DumpFields(fields, l, level + 1) + end
  {
    var i1, i0 := Indentation(l, level + 1), Indentation(l, level);
    var body := if fields == [] then [] else DumpFields(fields, l, level + 1);
    Bracketed(LEFT_BRACE, i1, body, i0, RIGHT_BRACE, rest);
    assert body == [] ==> body + (i0 + ([RIGHT_BRACE] + rest)) == i0 + ([RIGHT_BRACE] + rest);
  }

  lemma Bracketed(open: byte, a: bytes, body: bytes, b: bytes, close: byte, rest: bytes)
    ensures var s := [open] + a + body + b + [close] + rest;
      First(s) == open && s[1..] == a + (body + (b + ([close] + rest)))
  {
  }

  lemma ItemsShape(vs: seq<WValue>, l: Layout, level: nat, end: bytes)
    requires vs != []
    ensures DumpItems(vs, l, level) + end == Dump(vs[0], l, level)
         + if |vs| == 1 then end else [COMMA] + (Indentation(l, level) + (DumpItems(vs[1..], l, level) + end))
  {
  }

  lemma FieldsShape(fs: seq<(bytes, WValue)>, l: Layout, level: nat, end: bytes)
    requires fs != []
    ensures DumpFields(fs, l, level) + end == DumpField(fs[0], l, level)
         + if |fs| == 1 then end else [COMMA] + (Indentation(l, level) + (DumpFields(fs[1..], l, level) + end))
  {
  }

  lemma ItemsStart(vs: seq<WValue>, l: Layout, level: nat, end: bytes)
    requires vs != []
    ensures var s := DumpItems(vs, l, level) + end; !IsSpace(First(s)) && First(s) != RIGHT_BRACKET
  {
    ItemsShape(vs, l, level, end);
    DumpStarts(vs[0], l, level,
      if |vs| == 1 then end else [COMMA] + (Indentation(l, level) + (DumpItems(vs[1..], l, level) + end)));
  }

  lemma FieldsStart(fs: seq<(bytes, WValue)>, l: Layout, level: nat, end: bytes)
    requires fs != []
    ensures First(DumpFields(fs, l, level) + end) == QUOTE
  {
  }

  lemma SkipTwo(l: Layout, level: nat, s: bytes)
    requires IsSpace(l.separator) && !IsSpace(First(s))
    ensures SkipWs(Indentation(l, level + 1) + (Indentation(l, level) + s)) == s
  {
    var ws := Indentation(l, level + 1) + Indentation(l, level);
    IndentationIsSpace(l, level + 1);
    IndentationIsSpace(l, level);
    assert ws + s == Indentation(l, level + 1) + (Indentation(l, level) + s);
    SkipSpaces(ws, s);
  }

  lemma AfterComma(l: Layout, level: nat, tail: bytes)
    requires IsSpace(l.separator) && !IsSpace(First(tail))
    ensures var more := [COMMA] + (Indentation(l, level) + tail);
      Stops(more) && First(more) == COMMA && SkipWs(more) == more && SkipWs(more[1..]) == tail
  {
    SkipIndentation(l, level, tail);
    assert ([COMMA] + (Indentation(l, level) + tail))[1..] == Indentation(l, level) + tail;
  }

  lemma AtEnd(l: Layout, level: nat, bracket: byte, rest: bytes)
    requires IsSpace(l.separator) && !IsSpace(bracket) && !IsNumberByte(bracket)
    ensures var end := Indentation(l, level) + ([bracket] + rest);
      Stops(end) && SkipWs(end) == [bracket] + rest && First([bracket] + rest) == bracket
          && ([bracket] + rest)[1..] == rest
  {
    SkipIndentation(l, level, [bracket] + rest);
  }

  lemma EmptyListParses(l: Layout, level: nat, rest: bytes, d: nat)
    requires IsSpace(l.separator)
    ensures var v := List([]);
      ParseValue(Dump(v, l, level) + rest, d) == if Fits(v, d) then Some((Loaded(v), rest)) else None
  {
    var s := Dump(List([]), l, level) + rest;
    ListShape([], l, level, rest);
    OpensList(s, d);
    AtEnd(l, level, RIGHT_BRACKET, rest);
    SkipTwo(l, level, [RIGHT_BRACKET] + rest);
    ListIs(s[1..], [RIGHT_BRACKET] + rest, d + 1);
  }

  lemma ListBody(items: seq<WValue>, l: Layout, level: nat, rest: bytes)
    requires IsSpace(l.separator) && items != []
    ensures var s := Dump(List(items), l, level) + rest;
      var body := DumpItems(items, l, level + 1) + (Indentation(l, level) + ([RIGHT_BRACKET] + rest));
      First(s) == LEFT_BRACKET && SkipWs(s[1..]) == body && First(body) != RIGHT_BRACKET
  {
    var end := Indentation(l, level) + ([RIGHT_BRACKET] + rest);
    ListShape(items, l, level, rest);
    ItemsStart(items, l, level + 1, end);
    SkipIndentation(l, level + 1, DumpItems(items, l, level + 1) + end);
  }

  lemma ListFromItems(s: bytes, body: bytes, d: nat, items: Option<(seq<RValue>, bytes)>)
    requires First(s) == LEFT_BRACKET && SkipWs(s[1..]) == body && First(body) != RIGHT_BRACKET
    requires ParseItems(body, d + 1) == items
    ensures ParseValue(s, d) ==
            if d + 1 <= MAX_DEPTH && items.Some? then Some((RList(items.value.0), items.value.1)) else None
  {
    OpensList(s, d);
    ListIs(s[1..], body, d + 1);
  }

  lemma {:induction false} ListParses(v: WValue, l: Layout, level: nat, rest: bytes, d: nat)
    requires IsSpace(l.separator) && Stops(rest) && v.List?
    ensures ParseValue(Dump(v, l, level) + rest, d) == if Fits(v, d) then Some((Loaded(v), rest)) else None
    decreases v, 1
  {
    var items := v.items;
    if items == [] {
      EmptyListParses(l, level, rest, d);
    } else {
      ItemsParse(items, l, level + 1, rest, d + 1);
      FullListParses(items, l, level, rest, d);
    }
  }

  lemma FullListParses(items: seq<WValue>, l: Layout, level: nat, rest: bytes, d: nat)
    requires IsSpace(l.separator) && items != []
    requires ParseItems(DumpItems(items, l, level + 1) + (Indentation(l, level) + ([RIGHT_BRACKET] + rest)), d + 1) ==
             if ItemsFit(items, d + 2) then Some((LoadedItems(items), rest)) else None
    ensures var v := List(items);
      ParseValue(Dump(v, l, level) + rest, d) == if Fits(v, d) then Some((Loaded(v), rest)) else None
  {
    var body := DumpItems(items, l, level + 1) + (Indentation(l, level) + ([RIGHT_BRACKET] + rest));
    ListBody(items, l, level, rest);
    ListFromItems(Dump(List(items), l, level) + rest, body, d,
                  if ItemsFit(items, d + 2) then Some((LoadedItems(items), rest)) else None);
  }

  /** The items of a list at parser depth `depth`, up to and including the bracket. */
  lemma {:induction false} ItemsParse(vs: seq<WValue>, l: Layout, level: nat, rest: bytes, depth: nat)
    requires IsSpace(l.separator) && vs != [] && level > 0
    ensures ParseItems(DumpItems(vs, l, level) + (Indentation(l, level - 1) + ([RIGHT_BRACKET] + rest)), depth) ==
            if ItemsFit(vs, depth + 1) then Some((LoadedItems(vs), rest)) else None
    decreases vs, 0
  {
    var v := vs[0];
    var end := Indentation(l, level - 1) + ([RIGHT_BRACKET] + rest);
    var s := DumpItems(vs, l, level) + end;
    AtEnd(l, level - 1, RIGHT_BRACKET, rest);
    ItemsShape(vs, l, level, end);
    assert v in vs;
    var item := if Fits(v, depth + 1) then Some((Loaded(v), if |vs| == 1 then end else
      [COMMA] + (Indentation(l, level) + (DumpItems(vs[1..], l, level) + end)))) else None;
    if |vs| == 1 {
      DumpParses(v, l, level, end, depth + 1);
      AfterItem(s, depth, item, [RIGHT_BRACKET] + rest);
      assert vs == [v] && LoadedItems(vs) == [Loaded(v)];
    } else {
      var tail := DumpItems(vs[1..], l, level) + end;
      var more := [COMMA] + (Indentation(l, level) + tail);
      ItemsStart(vs[1..], l, level, end);
      AfterComma(l, level, tail);
      DumpParses(v, l, level, more, depth + 1);
      AfterItem(s, depth, item, more);
      ItemsParse(vs[1..], l, level, rest, depth);
      assert vs == [v] + vs[1..];
    }
  }

  lemma EmptyObjectParses(l: Layout, level: nat, rest: bytes, d: nat)
    requires IsSpace(l.separator)
    ensures var v := Object([]);
      ParseValue(Dump(v, l, level) + rest, d) == if Fits(v, d) then Some((Loaded(v), rest)) else None
  {
    var s := Dump(Object([]), l, level) + rest;
    ObjectShape([], l, level, rest);
    OpensObject(s, d);
    AtEnd(l, level, RIGHT_BRACE, rest);
    SkipTwo(l, level, [RIGHT_BRACE] + rest);
    ObjectIs(s[1..], [RIGHT_BRACE] + rest, d + 1);
  }

  lemma ObjectBody(fields: seq<(bytes, WValue)>, l: Layout, level: nat, rest: bytes)
    requires IsSpace(l.separator) && fields != []
    ensures var s := Dump(Object(fields), l, level) + rest;
      var body := DumpFields(fields, l, level + 1) + (Indentation(l, level) + ([RIGHT_BRACE] + rest));
      First(s) == LEFT_BRACE && SkipWs(s[1..]) == body && First(body) != RIGHT_BRACE
  {
    var end := Indentation(l, level) + ([RIGHT_BRACE] + rest);
    ObjectShape(fields, l, level, rest);
    FieldsStart(fields, l, level + 1, end);
    SkipIndentation(l, level + 1, DumpFields(fields, l, level + 1) + end);
  }

  lemma ObjectFromFields(s: bytes, body: bytes, d: nat, fields: Option<(seq<(bytes, RValue)>, bytes)>)
    requires First(s) == LEFT_BRACE && SkipWs(s[1..]) == body && First(body) != RIGHT_BRACE
    requires ParseFields(body, d + 1) == fields
    ensures ParseValue(s, d) ==
            if d + 1 <= MAX_DEPTH && fields.Some? then Some((RObject(fields.value.0), fields.value.1)) else None
  {
    OpensObject(s, d);
    ObjectIs(s[1..], body, d + 1);
  }

  lemma {:induction false} ObjectParses(v: WValue, l: Layout, level: nat, rest: bytes, d: nat)
    requires IsSpace(l.separator) && Stops(rest) && v.Object?
    ensures ParseValue(Dump(v, l, level) + rest, d) == if Fits(v, d) then Some((Loaded(v), rest)) else None
    decreases v, 1
  {
    var fields := v.fields;
    if fields == [] {
      EmptyObjectParses(l, level, rest, d);
    } else {
      FieldsParse(fields, l, level + 1, rest, d + 1);
      FullObjectParses(fields, l, level, rest, d);
    }
  }

  lemma FullObjectParses(fields: seq<(bytes, WValue)>, l: Layout, level: nat, rest: bytes, d: nat)
    requires IsSpace(l.separator) && fields != []
    requires ParseFields(DumpFields(fields, l, level + 1) + (Indentation(l, level) + ([RIGHT_BRACE] + rest)), d + 1) ==
             if FieldsFit(fields, d + 2) then Some((LoadedFields(fields), rest)) else None
    ensures var v := Object(fields);
      ParseValue(Dump(v, l, level) + rest, d) == if Fits(v, d) then Some((Loaded(v), rest)) else None
  {
    var body := DumpFields(fields, l, level + 1) + (Indentation(l, level) + ([RIGHT_BRACE] + rest));
    ObjectBody(fields, l, level, rest);
    ObjectFromFields(Dump(Object(fields), l, level) + rest, body, d,
                     if FieldsFit(fields, d + 2) then Some((LoadedFields(fields), rest)) else None);
  }

  /** The space that a layout puts after a colon. */
  function Gap(l: Layout): bytes { if l.indent >= 0 then [SPACE] else [] }

  lemma GapIsSkipped(l: Layout, value: bytes)
    requires !IsSpace(First(value))
    ensures var s := [COLON] + (Gap(l) + value); SkipWs(s) == s && First(s) == COLON && SkipWs(s[1..]) == value
  {
    assert ([COLON] + (Gap(l) + value))[1..] == Gap(l) + value;
    SkipSpaces(Gap(l), value);
  }

  lemma FieldIsText(f: (bytes, WValue), l: Layout, level: nat, more: bytes)
    ensures DumpField(f, l, level) + more == StringText(f.0) + ([COLON] + (Gap(l) + (Dump(f.1, l, level) + more)))
  {
    ToTheRight(StringText(f.0), [COLON], Gap(l), Dump(f.1, l, level), more);
  }

  lemma ToTheRight(a: bytes, b: bytes, c: bytes, d: bytes, e: bytes)
    ensures a + b + c + d + e == a + (b + (c + (d + e)))
  {
  }

  /** One field, whatever follows it. */
  lemma {:induction false} FieldParses(f: (bytes, WValue), l: Layout, level: nat, more: bytes, depth: nat)
    requires IsSpace(l.separator) && Stops(more)
    ensures ParseField(DumpField(f, l, level) + more, depth) ==
            if Fits(f.1, depth + 1) then Some((LoadedField(f), more)) else None
    decreases f, 3
  {
    var value := Dump(f.1, l, level) + more;
    var s1 := [COLON] + (Gap(l) + value);
    FieldIsText(f, l, level, more);
    StringParses(f.0, s1);
    DumpStarts(f.1, l, level, more);
    GapIsSkipped(l, value);
    FieldIs(StringText(f.0) + s1, depth, Escape(f.0), s1, s1, value);
    DumpParses(f.1, l, level, more, depth + 1);
  }

  /** The last field and the brace. */
  lemma {:induction false} LastFieldParses(f: (bytes, WValue), l: Layout, level: nat, rest: bytes, depth: nat)
    requires IsSpace(l.separator) && level > 0
    ensures ParseFields(DumpField(f, l, level) + (Indentation(l, level - 1) + ([RIGHT_BRACE] + rest)), depth) ==
            if Fits(f.1, depth + 1) then Some(([LoadedField(f)], rest)) else None
    decreases f, 4
  {
    var end := Indentation(l, level - 1) + ([RIGHT_BRACE] + rest);
    AtEnd(l, level - 1, RIGHT_BRACE, rest);
    FieldParses(f, l, level, end, depth);
    AfterField(DumpField(f, l, level) + end, depth, if Fits(f.1, depth + 1) then Some((LoadedField(f), end)) else None,
               [RIGHT_BRACE] + rest);
  }

  /** A field and a comma. */
  lemma {:induction false} NextFieldParses(f: (bytes, WValue), l: Layout, level: nat, tail: bytes, depth: nat)
    requires IsSpace(l.separator) && !IsSpace(First(tail))
    ensures ParseFields(DumpField(f, l, level) + ([COMMA] + (Indentation(l, level) + tail)), depth) ==
            if Fits(f.1, depth + 1) then Cons(LoadedField(f), ParseFields(tail, depth)) else None
    decreases f, 4
  {
    var more := [COMMA] + (Indentation(l, level) + tail);
    AfterComma(l, level, tail);
    FieldParses(f, l, level, more, depth);
    AfterField(DumpField(f, l, level) + more, depth,
               if Fits(f.1, depth + 1) then Some((LoadedField(f), more)) else None, more);
  }

  lemma {:induction false} FieldsParse(fs: seq<(bytes, WValue)>, l: Layout, level: nat, rest: bytes, depth: nat)
    requires IsSpace(l.separator) && fs != [] && level > 0
    ensures ParseFields(DumpFields(fs, l, level) + (Indentation(l, level - 1) + ([RIGHT_BRACE] + rest)), depth) ==
            if FieldsFit(fs, depth + 1) then Some((LoadedFields(fs), rest)) else None
    decreases fs, 0
  {
    var end := Indentation(l, level - 1) + ([RIGHT_BRACE] + rest);
    FieldsShape(fs, l, level, end);
    assert fs[0] in fs;
    FieldsUnfold(fs, depth + 1);
    if |fs| == 1 {
      LastFieldParses(fs[0], l, level, rest, depth);
    } else {
      FieldsStart(fs[1..], l, level, end);
      NextFieldParses(fs[0], l, level, DumpFields(fs[1..], l, level) + end, depth);
      FieldsParse(fs[1..], l, level, rest, depth);
    }
  }

  lemma FieldsUnfold(fs: seq<(bytes, WValue)>, d: nat)
    requires fs != []
    ensures FieldsFit(fs, d) <==> Fits(fs[0].1, d) && FieldsFit(fs[1..], d)
    ensures LoadedFields(fs) == [LoadedField(fs[0])] + LoadedFields(fs[1..])
    ensures |fs| == 1 ==> FieldsFit(fs[1..], d) && LoadedFields(fs) == [LoadedField(fs[0])]
  {
  }

  // ----- The depth limit -----

  function Max(a: nat, b: nat): nat { if a < b then b else a }

  /** How deep containers are nested: 0 for a scalar. */
  function Nesting(v: WValue): nat {
    match v
    case List(items) => 1 + ItemsNesting(items)
    case Object(fields) => 1 + FieldsNesting(fields)
    case _ => 0
  }

  function ItemsNesting(vs: seq<WValue>): nat {
    if vs == [] then 0 else Max(Nesting(vs[0]), ItemsNesting(vs[1..]))
  }

  function FieldNesting(f: (bytes, WValue)): nat { Nesting(f.1) }

  function FieldsNesting(fs: seq<(bytes, WValue)>): nat {
    if fs == [] then 0 else Max(FieldNesting(fs[0]), FieldsNesting(fs[1..]))
  }

  /** Every nesting level costs the parser two depths. */
  lemma {:induction false} FitsIffShallow(v: WValue, d: nat)
    ensures Fits(v, d) <==> Nesting(v) == 0 || d + 2 * Nesting(v) - 1 <= MAX_DEPTH
    decreases v, 1
  {
    match v
    case List(items) => ItemsFitIffShallow(items, d + 2);
    case Object(fields) => FieldsFitIffShallow(fields, d + 2);
    case _ =>
  }

  lemma {:induction false} ItemsFitIffShallow(vs: seq<WValue>, d: nat)
    ensures ItemsFit(vs, d) <==> ItemsNesting(vs) == 0 || d + 2 * ItemsNesting(vs) - 1 <= MAX_DEPTH
    decreases vs, 0
  {
    if vs != [] {
      FitsIffShallow(vs[0], d);
      ItemsFitIffShallow(vs[1..], d);
    }
  }

  lemma {:induction false} FieldsFitIffShallow(fs: seq<(bytes, WValue)>, d: nat)
    ensures FieldsFit(fs, d) <==> FieldsNesting(fs) == 0 || d + 2 * FieldsNesting(fs) - 1 <= MAX_DEPTH
    decreases fs, 0
  {
    if fs != [] {
      FieldFitsIffShallow(fs[0], d);
      FieldsFitIffShallow(fs[1..], d);
    }
  }

  lemma {:induction false} FieldFitsIffShallow(f: (bytes, WValue), d: nat)
    ensures FieldFits(f, d) <==> FieldNesting(f) == 0 || d + 2 * FieldNesting(f) - 1 <= MAX_DEPTH
    decreases f, 2
  {
    FitsIffShallow(f.1, d);
  }

  /** Loading a dumped value gives that value exactly when its containers nest at most 5000
      deep, for every indentation whose separator is whitespace; otherwise loading fails. */
  lemma LoadDump(v: WValue, l: Layout)
    requires IsSpace(l.separator)
    ensures Load(Dump(v, l, 0)) == if Nesting(v) <= 5000 then Some(Loaded(v)) else None
  {
    var s := Dump(v, l, 0);
    DumpStarts(v, l, 0, []);
    DumpParses(v, l, 0, [], 0);
    FitsIffShallow(v, 0);
    assert s + [] == s;
    assert SkipWs(s) == s;
  }

  /** `n` lists, each in the one before. */
  function Nested(n: nat): WValue { if n == 0 then Null else List([Nested(n - 1)]) }

  lemma {:induction false} NestedNesting(n: nat)
    ensures Nesting(Nested(n)) == n
  {
    if n > 0 {
      NestedNesting(n - 1);
      var items := [Nested(n - 1)];
      assert ItemsNesting(items[1..]) == 0;
      assert ItemsNesting(items) == n - 1;
    }
  }

  /** 5001 lists are dumped, and cannot be loaded; 5000 can. */
  lemma TooDeepToLoad(l: Layout)
    requires IsSpace(l.separator)
    ensures Load(Dump(Nested(5001), l, 0)) == None && Load(Dump(Nested(5000), l, 0)) == Some(Loaded(Nested(5000)))
  {
    NestedNesting(5001);
    NestedNesting(5000);
    LoadDump(Nested(5001), l);
    LoadDump(Nested(5000), l);
  }

  // ----- Back to a writable value -----

  function DigitsValue(ds: bytes): nat
    requires forall c :: c in ds ==> IsDigit(c)
  {
    if ds == [] then 0
    else
      assert IsDigit(ds[|ds| - 1]);
      DigitsValue(ds[..|ds| - 1]) * 10 + (ds[|ds| - 1] - 48)
  }

  predicate AllDigits(ds: bytes) { ds != [] && forall c :: c in ds ==> IsDigit(c) }

  /** `wvalue(const rvalue&)` for a number. None: floating point, which is not part of this
      model. A value out of range is clamped, as reading from a stream does. */
  function FromNumber(text: bytes): Option<WValue> {
    if text != [] && text[0] == MINUS && AllDigits(text[1..]) then
      var m: int := DigitsValue(text[1..]);
      var n := -m;
      Some(Signed(if n < -0x8000_0000_0000_0000 then -0x8000_0000_0000_0000 else n))
    else if AllDigits(text) then
      var n := DigitsValue(text);
      Some(Unsigned(if n >= 0x1_0000_0000_0000_0000 then 0x1_0000_0000_0000_0000 - 1 else n))
    else None
  }

  /** `wvalue(const rvalue&)`: fields are emplaced, so a repeated key keeps its first value. */
  function FromRValue(r: RValue): Option<WValue> {
    match r
    case RNull => Some(Null)
    case RFalse => Some(False)
    case RTrue => Some(True)
    case RNumber(text) => FromNumber(text)
    case RString(s) => Some(String(s))
    case RList(items) => (match FromItems(items) case None => None case Some(vs) => Some(List(vs)))
    case RObject(fields) => (match FromFields(fields, []) case None => None case Some(fs) => Some(Object(fs)))
  }

  function FromItems(rs: seq<RValue>): Option<seq<WValue>> {
    if rs == [] then Some([])
    else
      match (FromRValue(rs[0]), FromItems(rs[1..]))
      case (Some(v), Some(vs)) => Some([v] + vs)
      case _ => None
  }

  function FromField(f: (bytes, RValue)): Option<WValue> { FromRValue(f.1) }

  predicate HasKey(fs: seq<(bytes, WValue)>, key: bytes) { exists i :: 0 <= i < |fs| && fs[i].0 == key }

  function FromFields(rs: seq<(bytes, RValue)>, done: seq<(bytes, WValue)>): Option<seq<(bytes, WValue)>> {
    if rs == [] then Some(done)
    else
      match FromField(rs[0])
      case None => None
      case Some(v) => FromFields(rs[1..], if HasKey(done, rs[0].0) then done else done + [(rs[0].0, v)])
  }

  predicate Distinct(fs: seq<(bytes, WValue)>) { forall i, j :: 0 <= i < j < |fs| ==> fs[i].0 != fs[j].0 }

  /** No object repeats a key, all the way down. */
  predicate DistinctKeys(v: WValue) {
    match v
    case List(items) => ItemsDistinct(items)
    case Object(fields) => Distinct(fields) && FieldsDistinct(fields)
    case _ => true
  }

  predicate ItemsDistinct(vs: seq<WValue>) { vs == [] || (DistinctKeys(vs[0]) && ItemsDistinct(vs[1..])) }

  predicate FieldDistinct(f: (bytes, WValue)) { DistinctKeys(f.1) }

  predicate FieldsDistinct(fs: seq<(bytes, WValue)>) { fs == [] || (FieldDistinct(fs[0]) && FieldsDistinct(fs[1..])) }

  /** A number without a minus sign comes back tagged unsigned. */
  function Normalized(v: WValue): WValue {
    match v
    case Signed(i) => if i < 0 then v else Unsigned(i)
    case List(items) => List(NormalizedItems(items))
    case Object(fields) => Object(NormalizedFields(fields))
    case _ => v
  }

  function NormalizedItems(vs: seq<WValue>): (r: seq<WValue>)
    ensures |r| == |vs|
  {
    if vs == [] then [] else [Normalized(vs[0])] + NormalizedItems(vs[1..])
  }

  function NormalizedField(f: (bytes, WValue)): (bytes, WValue) { (f.0, Normalized(f.1)) }

  function NormalizedFields(fs: seq<(bytes, WValue)>): (r: seq<(bytes, WValue)>)
    ensures |r| == |fs|
    ensures forall i :: 0 <= i < |fs| ==> r[i].0 == fs[i].0
  {
    if fs == [] then [] else [NormalizedField(fs[0])] + NormalizedFields(fs[1..])
  }

  lemma {:induction false} DigitsValueDecimal(n: nat)
    ensures AllDigits(Decimal(n)) && DigitsValue(Decimal(n)) == n
  {
    DecimalDigits(n);
    if n >= 10 {
      DigitsValueDecimal(n / 10);
      var ds := Decimal(n);
      assert ds[..|ds| - 1] == Decimal(n / 10);
    } else {
      assert DigitsValue([]) == 0 && [48 + n][..0] == [];
    }
  }

  lemma IntegerComesBack(v: WValue, n: int)
    requires (v.Signed? && v.i == n) || (v.Unsigned? && v.u == n)
    ensures FromNumber(IntegerText(n)) == Some(Normalized(v))
  {
    var text := IntegerText(n);
    if n < 0 {
      DigitsValueDecimal(-n);
      assert text[1..] == Decimal(-n);
    } else {
      DigitsValueDecimal(n);
      assert IsDigit(text[0]) by { assert text[0] in text; }
    }
  }

  lemma {:induction false} LoadedComesBack(v: WValue)
    requires DistinctKeys(v)
    ensures FromRValue(Loaded(v)) == Some(Normalized(v))
    decreases v, 1
  {
    match v
    case Signed(i) => IntegerComesBack(v, i);
    case Unsigned(u) => IntegerComesBack(v, u);
    case List(items) =>
      ItemsComeBack(items);
    case Object(fields) =>
      FieldsComeBack(fields, []);
      ObjectIsBack(fields);
    case _ =>
  }

  lemma ObjectIsBack(fields: seq<(bytes, WValue)>)
    requires FromFields(LoadedFields(fields), []) == Some([] + NormalizedFields(fields))
    ensures FromRValue(Loaded(Object(fields))) == Some(Normalized(Object(fields)))
  {
    assert [] + NormalizedFields(fields) == NormalizedFields(fields);
  }

  lemma {:induction false} ItemsComeBack(vs: seq<WValue>)
    requires ItemsDistinct(vs)
    ensures FromItems(LoadedItems(vs)) == Some(NormalizedItems(vs))
    decreases vs, 0
  {
    if vs != [] {
      LoadedComesBack(vs[0]);
      ItemsComeBack(vs[1..]);
      assert LoadedItems(vs)[1..] == LoadedItems(vs[1..]);
    }
  }

  lemma {:induction false} FieldComesBack(f: (bytes, WValue))
    requires FieldDistinct(f)
    ensures FromField(LoadedField(f)) == Some(NormalizedField(f).1)
    decreases f, 2
  {
    LoadedComesBack(f.1);
  }

  predicate Apart(done: seq<(bytes, WValue)>, fs: seq<(bytes, WValue)>) {
    forall i, j :: 0 <= i < |done| && 0 <= j < |fs| ==> done[i].0 != fs[j].0
  }

  lemma ApartStep(done: seq<(bytes, WValue)>, fs: seq<(bytes, WValue)>, v: WValue)
    requires fs != [] && Distinct(fs) && Apart(done, fs)
    ensures !HasKey(done, fs[0].0) && Distinct(fs[1..]) && Apart(done + [(fs[0].0, v)], fs[1..])
  {
    assert fs[1..] == [] || fs[1..][0] == fs[1];
    forall i, j | 0 <= i < |done| + 1 && 0 <= j < |fs| - 1 ensures (done + [(fs[0].0, v)])[i].0 != fs[1..][j].0 {
      assert fs[1..][j] == fs[j + 1];
    }
  }

  lemma FromFieldsStep(r: (bytes, RValue), rs: seq<(bytes, RValue)>, done: seq<(bytes, WValue)>, v: WValue)
    requires FromField(r) == Some(v) && !HasKey(done, r.0)
    ensures FromFields([r] + rs, done) == FromFields(rs, done + [(r.0, v)])
  {
    assert ([r] + rs)[1..] == rs;
  }

  lemma {:induction false} FieldsComeBack(fs: seq<(bytes, WValue)>, done: seq<(bytes, WValue)>)
    requires FieldsDistinct(fs) && Distinct(fs) && Apart(done, fs)
    ensures FromFields(LoadedFields(fs), done) == Some(done + NormalizedFields(fs))
    decreases fs, 0
  {
    if fs == [] {
      assert done + [] == done;
    } else {
      var g := NormalizedField(fs[0]);
      FieldComesBack(fs[0]);
      ApartStep(done, fs, g.1);
      FromFieldsStep(LoadedField(fs[0]), LoadedFields(fs[1..]), done, g.1);
      FieldsComeBack(fs[1..], done + [g]);
      NormalizedStep(fs, done);
    }
  }

  lemma NormalizedStep(fs: seq<(bytes, WValue)>, done: seq<(bytes, WValue)>)
    requires fs != []
    ensures done + [NormalizedField(fs[0])] + NormalizedFields(fs[1..]) == done + NormalizedFields(fs)
  {
  }

  /** The whole round trip: dump, load and convert back. */
  lemma RoundTrip(v: WValue, l: Layout)
    requires IsSpace(l.separator) && DistinctKeys(v) && Nesting(v) <= 5000
    ensures Load(Dump(v, l, 0)).Some? && FromRValue(Load(Dump(v, l, 0)).value) == Some(Normalized(v))
  {
    LoadDump(v, l);
    LoadedComesBack(v);
  }
}
