/**
 * The methods of `load_nocopy_internal::Parser` in crow/json.h, over one mutable buffer.
 * Each returns what the parser on text returns, as a node pointing into the buffer, and
 * writes only bytes it has already read.
 */
module JsonParser {

  import opened JsonBuffer
  import opened JsonText
  import opened JsonValue
  import opened Octets
  import opened Wrappers

  function Shift(n: nat, r: Option<nat>): Option<nat> {
    match r case None => None case Some(k) => Some(n + k)
  }

  function Append<T>(xs: seq<T>, r: Option<(seq<T>, bytes)>): Option<(seq<T>, bytes)> {
    match r case None => None case Some((ys, rest)) => Some((xs + ys, rest))
  }

  // The scanners by position, so that the loops need no subsequences.

  function UnitLengthAt(s: bytes, i: nat): (n: nat)
    requires i < |s|
    ensures i + n <= |s|
  {
    if s[i] == BACKSLASH then
      if i + 1 < |s| && IsSimpleEscape(s[i + 1]) then 2
      else if i + 5 < |s| && s[i + 1] == LOWER_U && IsHex(s[i + 2]) && IsHex(s[i + 3]) && IsHex(s[i + 4])
          && IsHex(s[i + 5]) then 6
      else 0
    else if s[i] == QUOTE || s[i] == 0 then 0
    else 1
  }

  function TextEndAt(s: bytes, i: nat): (r: Option<nat>)
    requires i <= |s|
    ensures r.Some? ==> i <= r.value < |s|
    decreases |s| - i
  {
    if i == |s| then None
    else if s[i] == QUOTE then Some(i)
    else if UnitLengthAt(s, i) == 0 then None
    else TextEndAt(s, i + UnitLengthAt(s, i))
  }

  lemma {:induction false} TextEndAtIs(s: bytes, i: nat)
    requires i <= |s|
    ensures TextEndAt(s, i) == Shift(i, TextEnd(s[i..]))
    decreases |s| - i
  {
    if i < |s| {
      var n := UnitLengthAt(s, i);
      if s[i] != QUOTE && n > 0 {
        TextEndAtIs(s, i + n);
        TextEndAtStep(s, i, n);
        TextEndStep(s, i, n);
        ShiftTwice(i, n, TextEnd(s[i + n..]));
      } else {
        NoUnit(s, i);
      }
    }
  }

  lemma NoUnit(s: bytes, i: nat)
    requires i < |s| && (s[i] == QUOTE || UnitLengthAt(s, i) == 0)
    ensures TextEndAt(s, i) == Shift(i, TextEnd(s[i..]))
  {
    UnitLengthAtIs(s, i);
  }

  lemma TextEndAtStep(s: bytes, i: nat, n: nat)
    requires i < |s| && s[i] != QUOTE && n == UnitLengthAt(s, i) > 0
    ensures TextEndAt(s, i) == TextEndAt(s, i + n)
  {
  }

  lemma TextEndStep(s: bytes, i: nat, n: nat)
    requires i < |s| && s[i] != QUOTE && n == UnitLengthAt(s, i) > 0
    ensures TextEnd(s[i..]) == Shift(n, TextEnd(s[i + n..]))
  {
    UnitLengthAtIs(s, i);
    TextEndAfterUnit(s[i..], n);
  }

  lemma ShiftTwice(i: nat, n: nat, r: Option<nat>)
    ensures Shift(i + n, r) == Shift(i, Shift(n, r))
  {
  }

  lemma UnitLengthAtIs(s: bytes, i: nat)
    requires i < |s|
    ensures UnitLength(s[i..]) == UnitLengthAt(s, i) && s[i..][UnitLengthAt(s, i)..] == s[i + UnitLengthAt(s, i)..]
  {
  }

  function NumberEndAt(st: NumberState, s: bytes, i: nat): Option<nat>
    requires i <= |s|
    decreases |s| - i
  {
    if st == Invalid then None
    else if i < |s| && IsNumberByte(s[i]) then NumberEndAt(NumberStep(st, s[i]), s, i + 1)
    else if Accepting(st) then Some(i)
    else None
  }

  lemma {:induction false} NumberEndAtIs(st: NumberState, s: bytes, i: nat)
    requires i <= |s|
    ensures NumberEndAt(st, s, i) == Shift(i, NumberEnd(st, s[i..]))
    decreases |s| - i
  {
    if i < |s| && st != Invalid && IsNumberByte(s[i]) {
      NumberEndAtIs(NumberStep(st, s[i]), s, i + 1);
      assert s[i..][1..] == s[i + 1..];
    }
  }

  function SkipWsAt(s: bytes, i: nat): (r: nat)
    requires i <= |s|
    ensures i <= r <= |s|
    decreases |s| - i
  {
    if i < |s| && IsSpace(s[i]) then SkipWsAt(s, i + 1) else i
  }

  lemma {:induction false} SkipWsAtIs(s: bytes, i: nat)
    requires i <= |s|
    ensures SkipWs(s[i..]) == s[SkipWsAt(s, i)..]
    decreases |s| - i
  {
    if i < |s| && IsSpace(s[i]) {
      SkipWsAtIs(s, i + 1);
      assert s[i..][1..] == s[i + 1..];
    }
  }

  class Parser {
    const buf: array<byte>
    ghost const text: bytes
    var data: nat

    /** The text from the cursor on is still as it was loaded. */
    ghost predicate Valid()
      reads this, buf
    {
      && data <= |text| && buf.Length == |text| + 1
      && buf[|text|] == 0
      && forall i :: data <= i < |text| ==> buf[i] == text[i]
    }

    ghost function Rest(): bytes
      requires Valid()
      reads this, buf
    {
      text[data..]
    }

    /** `load`: the text is copied and terminated. */
    constructor (s: bytes)
      ensures Valid() && text == s && data == 0 && fresh(buf)
    {
      buf := new byte[|s| + 1](i requires 0 <= i => if i < |s| then s[i] else 0);
      text, data := s, 0;
    }

    method SkipSpace()
      requires Valid()
      modifies this`data
      ensures Valid() && data == SkipWsAt(text, old(data))
    {
      while IsSpace(buf[data])
        invariant Valid()
        invariant SkipWsAt(text, data) == SkipWsAt(text, old(data))
        decreases |text| - data
      {
        data := data + 1;
      }
    }

    method Consume(c: byte) returns (ok: bool)
      requires Valid() && c != 0
      modifies this`data
      ensures Valid() && ok == (old(data) < |text| && text[old(data)] == c)
      ensures data == old(data) + if ok then 1 else 0
    {
      ok := buf[data] == c;
      if ok {
        data := data + 1;
      }
    }

    /** One unit of string text; `n` is 0 where the source gives up. */
    method UnitAt() returns (n: nat)
      requires Valid() && data < |text|
      ensures n == UnitLengthAt(text, data)
    {
      var c := buf[data];
      if c == QUOTE || c == 0 {
        return 0;
      }
      if c != BACKSLASH {
        return 1;
      }
      var e := buf[data + 1];
      if e == LOWER_U {
        if IsHex(buf[data + 2]) && IsHex(buf[data + 3]) && IsHex(buf[data + 4]) && IsHex(buf[data + 5]) {
          return 6;
        }
        return 0;
      }
      if IsSimpleEscape(e) {
        return 2;
      }
      return 0;
    }

    /** The scan to the closing quote; false where the source gives up. */
    method ScanText() returns (ok: bool, hasEscaping: byte)
      requires Valid()
      modifies this`data
      ensures ok <==> TextEndAt(text, old(data)).Some?
      ensures ok ==> Valid() && old(data) <= data < |text| && TextEndAt(text, old(data)) == Some(data)
      ensures ok && hasEscaping == 0 ==> forall i :: old(data) <= i < data ==> text[i] != BACKSLASH
    {
      var start := data;
      hasEscaping := 0;
      while buf[data] != QUOTE
        invariant Valid() && start <= data
        invariant TextEndAt(text, start) == TextEndAt(text, data)
        invariant hasEscaping == 0 ==> forall i :: start <= i < data ==> text[i] != BACKSLASH
        decreases |text| - data
      {
        if buf[data] == 0 {
          return false, hasEscaping;
        }
        var n := UnitAt();
        if n == 0 {
          return false, hasEscaping;
        }
        if buf[data] == BACKSLASH {
          hasEscaping := 1;
        }
        data := data + n;
      }
      return true, hasEscaping;
    }

    /** A string: the slice between the quotes. Its flag byte says whether it has escapes. */
    method DecodeString() returns (r: Option<Slice>)
      requires Valid()
      modifies this`data, buf
      ensures r.Some? <==> StringEndAt(text, old(data)).Some?
      ensures r.Some? ==>
        && Valid() && r == Some(Slice(old(data) + 1, StringEndAt(text, old(data)).value))
        && r.value.start <= r.value.end && r.value.end + 1 == data
        && ValidText(text[r.value.start..r.value.end])
        && buf[r.value.start..r.value.end] == text[r.value.start..r.value.end]
        && (buf[old(data)] == 0 ==> BACKSLASH !in buf[r.value.start..r.value.end])
      ensures forall i :: 0 <= i < old(data) ==> buf[i] == old(buf[i])
    {
      var ok := Consume(QUOTE);
      if !ok {
        return None;
      }
      ghost var start := data - 1;
      r := QuotedText();
      if r.Some? {
        StringIsValid(text, start);
      }
    }

    /** The text after the opening quote. */
    method QuotedText() returns (r: Option<Slice>)
      requires Valid() && data > 0
      modifies this`data, buf
      ensures r.Some? <==> TextEndAt(text, old(data)).Some?
      ensures r.Some? ==>
        && Valid() && r == Some(Slice(old(data), TextEndAt(text, old(data)).value))
        && r.value.start <= r.value.end && r.value.end + 1 == data
        && buf[r.value.start..r.value.end] == text[r.value.start..r.value.end]
        && (buf[old(data) - 1] == 0 ==> BACKSLASH !in buf[r.value.start..r.value.end])
      ensures forall i :: 0 <= i < old(data) - 1 ==> buf[i] == old(buf[i])
    {
      var start := data;
      var ok, hasEscaping := ScanText();
      if !ok {
        return None;
      }
      CloseString(start, hasEscaping);
      return Some(Slice(start, data - 1));
    }

    /** The closing quote becomes a NUL, the opening quote the flag. */
    method CloseString(start: nat, hasEscaping: byte)
      requires Valid() && 0 < start <= data < |text|
      requires forall i :: start <= i < data ==> buf[i] == text[i]
      modifies this`data, buf
      ensures Valid() && data == old(data) + 1 && buf[start - 1] == hasEscaping
      ensures buf[start..old(data)] == text[start..old(data)]
      ensures forall i :: 0 <= i < start - 1 ==> buf[i] == old(buf[i])
    {
      buf[data] := 0;
      buf[start - 1] := hasEscaping;
      data := data + 1;
    }

    /** The inner loop of `decode_number`: digits do not change the state after a digit. */
    method SkipDigits(st: NumberState)
      requires Valid() && data < |text|
      requires st == Digits || st == DigitsAfterPoints || st == DigitsAfterE || st == Invalid
      modifies this`data
      ensures Valid() && old(data) <= data < |text|
      ensures NumberEndAt(st, text, data + 1) == NumberEndAt(st, text, old(data) + 1)
    {
      while IsDigit(buf[data + 1])
        invariant Valid() && old(data) <= data < |text|
        invariant NumberEndAt(st, text, data + 1) == NumberEndAt(st, text, old(data) + 1)
        decreases |text| - data
      {
        data := data + 1;
      }
    }

    /** A number: the table-driven loop, with its inner loop that skips runs of digits. */
    method DecodeNumber() returns (r: Option<Slice>)
      requires Valid()
      modifies this`data
      ensures r.Some? <==> NumberEndAt(NMinus, text, old(data)).Some?
      ensures r.Some? ==> Valid() && r == Some(Slice(old(data), data)) && old(data) <= data
                          && NumberEndAt(NMinus, text, old(data)) == Some(data)
    {
      var start := data;
      var st := NMinus;
      while st != Invalid
        invariant Valid() && start <= data
        invariant NumberEndAt(st, text, data) == NumberEndAt(NMinus, text, start)
        decreases |text| - data
      {
        var c := buf[data];
        if !IsNumberByte(c) {
          return if Accepting(st) then Some(Slice(start, data)) else None;
        }
        st := NumberStep(st, c);
        if c != 48 && IsDigit(c) {
          SkipDigits(st);
        }
        data := data + 1;
      }
      return None;
    }

    method DecodeLiteral(word: bytes) returns (ok: bool)
      requires Valid() && (word == TRUE_TEXT || word == FALSE_TEXT || word == NULL_TEXT)
      modifies this`data
      ensures Valid() && ok == (word <= old(Rest())) && data == old(data) + if ok then |word| else 0
    {
      var k := 0;
      while k < |word|
        invariant k <= |word| && data + k <= |text| && word[..k] <= Rest()
      {
        if buf[data + k] != word[k] {
          assert data + k < |text| ==> Rest()[k] == buf[data + k];
          return false;
        }
        assert word[..k + 1] == word[..k] + [word[k]];
        assert Rest()[..k + 1] == Rest()[..k] + [word[k]];
        k := k + 1;
      }
      assert word[..k] == word;
      data := data + |word|;
      return true;
    }

    // ----- Values -----

    /** What a decoding method promises: the node, its part of the buffer and the cursor agree
        with what the parser on text returns. */
    ghost predicate Agrees(r: Option<RNode>, goal: Option<(RValue, bytes)>, lo: nat)
      reads this, buf
    {
      && (r.Some? <==> goal.Some?)
      && (r.Some? ==>
            && Valid() && lo <= data && text[data..] == goal.value.1
            && Means(buf[..], r.value, goal.value.0, lo, data))
    }

    method DecodeValue(depth: nat) returns (r: Option<RNode>)
      requires Valid()
      modifies this`data, buf
      ensures Agrees(r, ParseValue(text[old(data)..], depth), old(data))
      ensures forall i :: 0 <= i < old(data) ==> buf[i] == old(buf[i])
      decreases |text| - data, 1
    {
      var c := buf[data];
      if c == LEFT_BRACKET {
        OpensList(text[data..], depth);
        assert text[data..][1..] == text[data + 1..];
        r := DecodeList(depth + 1);
      } else if c == LEFT_BRACE {
        OpensObject(text[data..], depth);
        assert text[data..][1..] == text[data + 1..];
        r := DecodeObject(depth + 1);
      } else if c == QUOTE {
        r := DecodeStringValue(depth);
      } else if c == TRUE_TEXT[0] {
        var ok := DecodeLiteral(TRUE_TEXT);
        r := if ok then Some(NTrue) else None;
      } else if c == FALSE_TEXT[0] {
        var ok := DecodeLiteral(FALSE_TEXT);
        r := if ok then Some(NFalse) else None;
      } else if c == NULL_TEXT[0] {
        var ok := DecodeLiteral(NULL_TEXT);
        r := if ok then Some(NNull) else None;
      } else {
        r := DecodeNumberValue(depth);
      }
    }

    /** After the opening bracket has been seen. */
    method DecodeList(depth: nat) returns (r: Option<RNode>)
      requires Valid() && First(text[data..]) == LEFT_BRACKET
      modifies this`data, buf
      ensures Agrees(r, ParseList(text[old(data) + 1..], depth), old(data))
      ensures forall i :: 0 <= i < old(data) ==> buf[i] == old(buf[i])
      decreases |text| - data, 0
    {
      ghost var lo := data;
      if depth > MAX_DEPTH {
        return None;
      }
      var empty := Enter(LEFT_BRACKET, RIGHT_BRACKET);
      ListIs(text[lo + 1..], SkipWs(text[lo + 1..]), depth);
      if empty {
        return Some(NList([]));
      }
      var items := DecodeItems(depth, lo);
      return if items.None? then None else Some(NList(items.value));
    }

    /** The opening bracket, and the closing one when it follows at once. */
    method Enter(open: byte, close: byte) returns (empty: bool)
      requires Valid() && First(text[data..]) == open && open != 0 && close != 0
      modifies this`data
      ensures Valid() && old(data) < data
      ensures empty <==> First(SkipWs(text[old(data) + 1..])) == close
      ensures if empty then text[data..] == SkipWs(text[old(data) + 1..])[1..]
              else text[data..] == SkipWs(text[old(data) + 1..])
    {
      var ok := Consume(open);
      SkipWsAtIs(text, data);
      SkipSpace();
      empty := buf[data] == close;
      if empty {
        assert text[data..][1..] == text[data + 1..];
        data := data + 1;
      }
    }

    /** After an element: the closing character, or a comma and the white space after it. */
    method AfterElement(close: byte) returns (ok: bool, more: bool)
      requires Valid() && close != 0 && close != COMMA
      modifies this`data
      ensures Valid() && old(data) <= data
      ensures var d := SkipWsAt(text, old(data));
        && ok == (d < |text| && (text[d] == close || text[d] == COMMA))
        && more == (ok && text[d] == COMMA)
        && data == if !ok then d else if more then SkipWsAt(text, d + 1) else d + 1
    {
      SkipSpace();
      if buf[data] == close {
        data := data + 1;
        return true, false;
      }
      ok := Consume(COMMA);
      if ok {
        SkipSpace();
      }
      return ok, ok;
    }

    /** One turn of the loop over the items. None: the list is in error. */
    method NextItem(depth: nat) returns (r: Option<RNode>, more: bool, ghost v: RValue)
      requires Valid()
      modifies this`data, buf
      ensures r.None? ==> ParseItems(text[old(data)..], depth) == None
      ensures r.Some? ==> Valid() && old(data) < data && Means(buf[..], r.value, v, old(data), data)
      ensures r.Some? && !more ==> ParseItems(text[old(data)..], depth) == Some(([v], text[data..]))
      ensures r.Some? && more ==> ParseItems(text[old(data)..], depth) == Cons(v, ParseItems(text[data..], depth))
      ensures forall i :: 0 <= i < old(data) ==> buf[i] == old(buf[i])
      decreases |text| - data, 2
    {
      ghost var p := data;
      more, v := false, RNull;
      r := DecodeValue(depth + 1);
      if r.None? {
        NoItem(text[p..], depth);
        return;
      }
      v := ParseValue(text[p..], depth + 1).value.0;
      ghost var q := data;
      var ok;
      ok, more := AfterItem(depth, text[p..], v);
      if ok {
        MeansWiden(buf[..], r.value, v, p, q, p, data);
      } else {
        r := None;
      }
    }

    method AfterItem(depth: nat, ghost all: bytes, ghost v: RValue) returns (ok: bool, more: bool)
      requires Valid() && ParseValue(all, depth + 1) == Some((v, text[data..]))
      modifies this`data
      ensures Valid() && old(data) <= data
      ensures !ok ==> ParseItems(all, depth) == None
      ensures ok && !more ==> ParseItems(all, depth) == Some(([v], text[data..]))
      ensures ok && more ==> ParseItems(all, depth) == Cons(v, ParseItems(text[data..], depth))
    {
      ghost var q := data;
      ok, more := AfterElement(RIGHT_BRACKET);
      AfterItemMoved(text, all, depth, v, q, ok, more, data);
    }

    /** The loop over the items, up to and including the closing bracket. */
    method DecodeItems(depth: nat, ghost lo: nat) returns (r: Option<seq<RNode>>)
      requires Valid() && lo <= data
      modifies this`data, buf
      ensures r.Some? <==> ParseItems(text[old(data)..], depth).Some?
      ensures r.Some? ==> Valid() && lo <= data && text[data..] == ParseItems(text[old(data)..], depth).value.1
                          && ItemsMean(buf[..], r.value, ParseItems(text[old(data)..], depth).value.0, lo, data)
      ensures forall i :: 0 <= i < old(data) ==> buf[i] == old(buf[i])
      decreases |text| - data, 4
    {
      ghost var goal := ParseItems(text[data..], depth);
      r := Some([]);
      ghost var vs: seq<RValue> := [];
      AppendNothing(goal);
      var more := true;
      while more
        invariant r.Some? && Valid() && old(data) <= data && lo <= data
        invariant goal == if more then Append(vs, ParseItems(text[data..], depth)) else Some((vs, text[data..]))
        invariant ItemsMean(buf[..], r.value, vs, lo, data)
        invariant forall i :: 0 <= i < old(data) ==> buf[i] == old(buf[i])
        decreases |text| - data, more
      {
        r, more, vs := AddItem(depth, r.value, vs, lo);
        if r.None? {
          return;
        }
      }
    }

    /** One turn of the loop over the items. */
    method AddItem(depth: nat, items: seq<RNode>, ghost vs: seq<RValue>, ghost lo: nat)
      returns (r: Option<seq<RNode>>, more: bool, ghost vs': seq<RValue>)
      requires Valid() && lo <= data && ItemsMean(buf[..], items, vs, lo, data)
      modifies this`data, buf
      ensures r.None? ==> ParseItems(text[old(data)..], depth) == None
      ensures r.Some? ==> Valid() && old(data) < data && ItemsMean(buf[..], r.value, vs', lo, data)
      ensures r.Some? ==> Append(vs, ParseItems(text[old(data)..], depth)) ==
                          if more then Append(vs', ParseItems(text[data..], depth)) else Some((vs', text[data..]))
      ensures forall i :: 0 <= i < old(data) ==> buf[i] == old(buf[i])
      decreases |text| - data, 3
    {
      ghost var p, before := data, buf[..];
      var item;
      ghost var v;
      item, more, v := NextItem(depth);
      if item.None? {
        return None, more, vs;
      }
      vs' := vs + [v];
      if more {
        AppendOne(vs, v, ParseItems(text[data..], depth));
      }
      ItemsFrame(before, buf[..], items, vs, lo, p);
      ItemsSnoc(buf[..], items, vs, item.value, v, lo, p, data);
      r := Some(items + [item.value]);
    }

    /** A key up to its value: the string is read at once, so its slice is decoded in place. */
    method DecodeKey() returns (r: Option<Slice>, ghost key: bytes)
      requires Valid()
      modifies this`data, buf
      ensures r.Some? <==> FieldValueAt(text, old(data)).Some?
      ensures r.Some? ==>
        && Valid() && FieldValueAt(text, old(data)) == Some(data)
        && var raw := text[old(data) + 1..StringEndAt(text, old(data)).value];
        && ValidText(raw) && key == Decode(raw)
        && StringMeans(buf[..], r.value, key, old(data), data)
      ensures forall i :: 0 <= i < old(data) ==> buf[i] == old(buf[i])
    {
      key := [];
      var s := DecodeString();
      if s.None? {
        return None, key;
      }
      r, key := ReadUpToValue(s.value);
    }

    /** The colon after a key, the key itself and the white space before the value. */
    method ReadUpToValue(s: Slice) returns (r: Option<Slice>, ghost key: bytes)
      requires Valid() && 0 < s.start <= s.end && data == s.end + 1
      requires ValidText(text[s.start..s.end]) && buf[s.start..s.end] == text[s.start..s.end]
      requires buf[s.start - 1] == 0 ==> BACKSLASH !in buf[s.start..s.end]
      modifies this`data, buf
      ensures r.Some? <==> ColonAt(text, s.end + 1).Some?
      ensures r.Some? ==> Valid() && ColonAt(text, s.end + 1) == Some(data) && key == Decode(text[s.start..s.end])
                          && StringMeans(buf[..], r.value, key, s.start - 1, data)
      ensures forall i :: 0 <= i < s.start - 1 ==> buf[i] == old(buf[i])
    {
      key := [];
      var ok := SkipColon();
      if !ok {
        return None, key;
      }
      r, key := ReadKey(s, s.end + 1);
      StringWiden(buf[..], r.value, key, s.start - 1, s.end + 1, data);
      SkipSpace();
    }

    lemma StringWiden(b: bytes, s: Slice, key: bytes, lo: nat, hi: nat, hi': nat)
      requires StringMeans(b, s, key, lo, hi) && hi <= hi' <= |b|
      ensures StringMeans(b, s, key, lo, hi')
    {
    }

    method SkipColon() returns (ok: bool)
      requires Valid()
      modifies this`data
      ensures Valid() && old(data) <= data
      ensures ok <==> ColonAt(text, old(data)).Some?
      ensures ok ==> old(data) < data && ColonAt(text, old(data)) == Some(SkipWsAt(text, data))
    {
      SkipSpace();
      ok := Consume(COLON);
    }

    /** The slice of a string just scanned, read. */
    method ReadKey(s: Slice, ghost after: nat) returns (r: Option<Slice>, ghost key: bytes)
      requires Valid() && 0 < s.start <= s.end < after <= data
      requires ValidText(text[s.start..s.end]) && buf[s.start..s.end] == text[s.start..s.end]
      requires buf[s.start - 1] == 0 ==> BACKSLASH !in buf[s.start..s.end]
      modifies buf
      ensures Valid() && key == Decode(text[s.start..s.end])
      ensures r.Some? && StringMeans(buf[..], r.value, key, s.start - 1, after)
      ensures forall i :: 0 <= i < s.start - 1 ==> buf[i] == old(buf[i])
    {
      key := Decode(text[s.start..s.end]);
      StringIsMeant(buf[..], s, text[s.start..s.end]);
      var _, s' := ReadSlice(buf, s, key);
      return Some(s'), key;
    }

    /** One field. */
    method DecodeField(depth: nat) returns (r: Option<(Slice, RNode)>, ghost f: (bytes, RValue))
      requires Valid()
      modifies this`data, buf
      ensures r.Some? <==> ParseField(text[old(data)..], depth).Some?
      ensures r.Some? ==> Valid() && ParseField(text[old(data)..], depth) == Some((f, text[data..])) && old(data) < data
                          && FieldMeans(buf[..], r.value, f, old(data), data)
      ensures forall i :: 0 <= i < old(data) ==> buf[i] == old(buf[i])
      decreases |text| - data, 2
    {
      ghost var p := data;
      f := ([], RNull);
      FieldAt(text, p, depth);
      var name;
      ghost var key;
      name, key := DecodeKey();
      if name.None? {
        return None, f;
      }
      ghost var mid, before := data, buf[..];
      var v := DecodeValue(depth + 1);
      if v.None? {
        return None, f;
      }
      f := (key, ParseValue(text[mid..], depth + 1).value.0);
      StringFrame(before, buf[..], name.value, key, p, mid);
      FieldIsMeant(buf[..], (name.value, v.value), f, p, mid, data);
      return Some((name.value, v.value)), f;
    }

    method AfterField(depth: nat, ghost all: bytes, ghost f: (bytes, RValue)) returns (ok: bool, more: bool)
      requires Valid() && ParseField(all, depth) == Some((f, text[data..]))
      modifies this`data
      ensures Valid() && old(data) <= data
      ensures !ok ==> ParseFields(all, depth) == None
      ensures ok && !more ==> ParseFields(all, depth) == Some(([f], text[data..]))
      ensures ok && more ==> ParseFields(all, depth) == Cons(f, ParseFields(text[data..], depth))
    {
      ghost var q := data;
      ok, more := AfterElement(RIGHT_BRACE);
      AfterFieldMoved(text, all, depth, f, q, ok, more, data);
    }

    /** One turn of the loop over the fields. None: the object is in error. */
    method NextField(depth: nat) returns (r: Option<(Slice, RNode)>, more: bool, ghost f: (bytes, RValue))
      requires Valid()
      modifies this`data, buf
      ensures r.None? ==> ParseFields(text[old(data)..], depth) == None
      ensures r.Some? ==> Valid() && old(data) < data && FieldMeans(buf[..], r.value, f, old(data), data)
      ensures r.Some? && !more ==> ParseFields(text[old(data)..], depth) == Some(([f], text[data..]))
      ensures r.Some? && more ==> ParseFields(text[old(data)..], depth) == Cons(f, ParseFields(text[data..], depth))
      ensures forall i :: 0 <= i < old(data) ==> buf[i] == old(buf[i])
      decreases |text| - data, 3
    {
      ghost var p := data;
      more := false;
      r, f := DecodeField(depth);
      if r.None? {
        NoField(text[p..], depth);
        return;
      }
      ghost var q := data;
      var ok;
      ok, more := AfterField(depth, text[p..], f);
      if ok {
        FieldWiden(buf[..], r.value, f, p, q, p, data);
      } else {
        r := None;
      }
    }

    /** The loop over the fields, up to and including the closing brace. */
    method DecodeFields(depth: nat, ghost lo: nat) returns (r: Option<seq<(Slice, RNode)>>)
      requires Valid() && lo <= data
      modifies this`data, buf
      ensures r.Some? <==> ParseFields(text[old(data)..], depth).Some?
      ensures r.Some? ==> Valid() && lo <= data && text[data..] == ParseFields(text[old(data)..], depth).value.1
                          && FieldsMean(buf[..], r.value, ParseFields(text[old(data)..], depth).value.0, lo, data)
      ensures forall i :: 0 <= i < old(data) ==> buf[i] == old(buf[i])
      decreases |text| - data, 5
    {
      ghost var goal := ParseFields(text[data..], depth);
      r := Some([]);
      ghost var vs: seq<(bytes, RValue)> := [];
      AppendNothing(goal);
      var more := true;
      while more
        invariant r.Some? && Valid() && old(data) <= data && lo <= data
        invariant goal == if more then Append(vs, ParseFields(text[data..], depth)) else Some((vs, text[data..]))
        invariant FieldsMean(buf[..], r.value, vs, lo, data)
        invariant forall i :: 0 <= i < old(data) ==> buf[i] == old(buf[i])
        decreases |text| - data, more
      {
        r, more, vs := AddField(depth, r.value, vs, lo);
        if r.None? {
          return;
        }
      }
    }

    /** One turn of the loop over the fields. */
    method AddField(depth: nat, fields: seq<(Slice, RNode)>, ghost vs: seq<(bytes, RValue)>, ghost lo: nat)
      returns (r: Option<seq<(Slice, RNode)>>, more: bool, ghost vs': seq<(bytes, RValue)>)
      requires Valid() && lo <= data && FieldsMean(buf[..], fields, vs, lo, data)
      modifies this`data, buf
      ensures r.None? ==> ParseFields(text[old(data)..], depth) == None
      ensures r.Some? ==> Valid() && old(data) < data && FieldsMean(buf[..], r.value, vs', lo, data)
      ensures r.Some? ==> Append(vs, ParseFields(text[old(data)..], depth)) ==
                          if more then Append(vs', ParseFields(text[data..], depth)) else Some((vs', text[data..]))
      ensures forall i :: 0 <= i < old(data) ==> buf[i] == old(buf[i])
      decreases |text| - data, 4
    {
      ghost var p, before := data, buf[..];
      var field;
      ghost var f;
      field, more, f := NextField(depth);
      if field.None? {
        return None, more, vs;
      }
      vs' := vs + [f];
      if more {
        AppendOne(vs, f, ParseFields(text[data..], depth));
      }
      FieldsFrame(before, buf[..], fields, vs, lo, p);
      FieldsSnoc(buf[..], fields, vs, field.value, f, lo, p, data);
      r := Some(fields + [field.value]);
    }

    /** After the opening brace has been seen. */
    method DecodeObject(depth: nat) returns (r: Option<RNode>)
      requires Valid() && First(text[data..]) == LEFT_BRACE
      modifies this`data, buf
      ensures Agrees(r, ParseObject(text[old(data) + 1..], depth), old(data))
      ensures forall i :: 0 <= i < old(data) ==> buf[i] == old(buf[i])
      decreases |text| - data, 0
    {
      ghost var lo := data;
      if depth > MAX_DEPTH {
        return None;
      }
      var empty := Enter(LEFT_BRACE, RIGHT_BRACE);
      ObjectIs(text[lo + 1..], SkipWs(text[lo + 1..]), depth);
      if empty {
        return Some(NObject([]));
      }
      var fields := DecodeFields(depth, lo);
      return if fields.None? then None else Some(NObject(fields.value));
    }

    /** `parse`: the node means what loading the text gives, within the whole buffer. */
    method Parse() returns (r: Option<RNode>)
      requires Valid() && data == 0
      modifies this`data, buf
      ensures r.Some? <==> Load(text).Some?
      ensures r.Some? ==> Means(buf[..], r.value, Load(text).value, 0, buf.Length)
    {
      assert text[0..] == text;
      SkipWsAtIs(text, data);
      SkipSpace();
      ghost var start := data;
      r := DecodeValue(0);
      if r.None? {
        return;
      }
      ghost var end, v := data, ParseValue(text[start..], 0).value.0;
      SkipWsAtIs(text, data);
      SkipSpace();
      if buf[data] != 0 {
        return None;
      }
      MeansWiden(buf[..], r.value, v, start, end, 0, buf.Length);
    }

    method DecodeStringValue(depth: nat) returns (r: Option<RNode>)
      requires Valid() && First(text[data..]) == QUOTE
      modifies this`data, buf
      ensures Agrees(r, ParseValue(text[old(data)..], depth), old(data))
      ensures forall i :: 0 <= i < old(data) ==> buf[i] == old(buf[i])
    {
      var start := data;
      var s := DecodeString();
      ParseStringValueAt(text, start, depth);
      if s.None? {
        return None;
      }
      StringIsMeant(buf[..], s.value, text[s.value.start..s.value.end]);
      return Some(NString(s.value));
    }

    method DecodeNumberValue(depth: nat) returns (r: Option<RNode>)
      requires Valid() && IsNumberStart(First(text[data..]))
      modifies this`data
      ensures Agrees(r, ParseValue(text[old(data)..], depth), old(data))
      ensures forall i :: 0 <= i < old(data) ==> buf[i] == old(buf[i])
    {
      var start := data;
      var s := DecodeNumber();
      NumberEndAtIs(NMinus, text, start);
      if s.None? {
        return None;
      }
      assert text[start..][..data - start] == text[start..data] == buf[start..data];
      assert text[start..][data - start..] == text[data..];
      return Some(NNumber(s.value));
    }
  }

  lemma AppendNothing<T>(r: Option<(seq<T>, bytes)>)
    ensures Append([], r) == r
  {
    if r.Some? { assert [] + r.value.0 == r.value.0; }
  }

  lemma AppendOne<T>(xs: seq<T>, x: T, r: Option<(seq<T>, bytes)>)
    ensures Append(xs, Cons(x, r)) == Append(xs + [x], r)
  {
    if r.Some? { assert xs + ([x] + r.value.0) == xs + [x] + r.value.0; }
  }

  lemma NoItem(all: bytes, depth: nat)
    requires ParseValue(all, depth + 1) == None
    ensures ParseItems(all, depth) == None
  {
    AfterItem(all, depth, None, []);
  }

  /** After an item that ends at `q`: a bracket, a comma or an error. */
  lemma AfterItemAt(s: bytes, all: bytes, depth: nat, v: RValue, q: nat)
    requires q <= |s| && ParseValue(all, depth + 1) == Some((v, s[q..]))
    ensures var d := SkipWsAt(s, q);
      ParseItems(all, depth) ==
      if d < |s| && s[d] == RIGHT_BRACKET then Some(([v], s[d + 1..]))
      else if d < |s| && s[d] == COMMA then Cons(v, ParseItems(s[SkipWsAt(s, d + 1)..], depth))
      else None
  {
    AfterItem(all, depth, Some((v, s[q..])), SkipWs(s[q..]));
    NextAt(s, q);
  }

  /** The same, for where the cursor is afterwards. */
  lemma AfterItemMoved(s: bytes, all: bytes, depth: nat, v: RValue, q: nat, ok: bool, more: bool, end: nat)
    requires q <= |s| && ParseValue(all, depth + 1) == Some((v, s[q..]))
    requires var d := SkipWsAt(s, q);
      && ok == (d < |s| && (s[d] == RIGHT_BRACKET || s[d] == COMMA)) && more == (ok && s[d] == COMMA)
      && end == if !ok then d else if more then SkipWsAt(s, d + 1) else d + 1
    ensures ParseItems(all, depth) == if !ok then None else if more then Cons(v, ParseItems(s[end..], depth))
        else Some(([v], s[end..]))
  {
    AfterItemAt(s, all, depth, v, q);
  }

  /** The text after white space, and after one more character and the white space behind it. */
  lemma NextAt(s: bytes, q: nat)
    requires q <= |s|
    ensures var d := SkipWsAt(s, q); var next := SkipWs(s[q..]);
      && First(next) == (if d < |s| then s[d] else 0)
      && (d < |s| ==> next != [] && next[1..] == s[d + 1..] && SkipWs(next[1..]) == s[SkipWsAt(s, d + 1)..])
  {
    var d := SkipWsAt(s, q);
    SkipWsAtIs(s, q);
    assert SkipWs(s[q..]) == s[d..];
    if d < |s| {
      assert s[d..][0] == s[d] && s[d..][1..] == s[d + 1..];
      SkipWsAtIs(s, d + 1);
    }
  }

  /** From the end of a key over the colon to where the value starts. */
  function ColonAt(s: bytes, q: nat): (r: Option<nat>)
    requires q <= |s|
    ensures r.Some? ==> q < r.value <= |s|
  {
    var c := SkipWsAt(s, q);
    if c < |s| && s[c] == COLON then Some(SkipWsAt(s, c + 1)) else None
  }

  /** Where the closing quote of the string at `p` is. */
  function StringEndAt(s: bytes, p: nat): (r: Option<nat>)
    requires p <= |s|
    ensures r.Some? ==> p < r.value < |s|
  {
    if p < |s| && s[p] == QUOTE then TextEndAt(s, p + 1) else None
  }

  /** Where the value of the field at `p` starts. */
  function FieldValueAt(s: bytes, p: nat): (r: Option<nat>)
    requires p <= |s|
    ensures r.Some? ==> p < r.value <= |s|
  {
    if StringEndAt(s, p).Some? then ColonAt(s, StringEndAt(s, p).value + 1) else None
  }

  lemma FieldFromString(s: bytes, all: bytes, depth: nat, raw: bytes, q: nat)
    requires q <= |s| && ParseString(all) == Some((raw, s[q..]))
    ensures ColonAt(s, q).None? ==> ParseField(all, depth) == None
    ensures ColonAt(s, q).Some? ==>
              ParseField(all, depth) == WithKey(Decode(raw), ParseValue(s[ColonAt(s, q).value..], depth + 1))
  {
    NextAt(s, q);
    var d := SkipWsAt(s, q);
    FieldIs(all, depth, raw, s[q..], SkipWs(s[q..]), if d < |s| then s[SkipWsAt(s, d + 1)..] else []);
  }

  lemma NoStringNoField(s: bytes, depth: nat)
    requires ParseString(s) == None
    ensures ParseField(s, depth) == None
  {
  }

  lemma FieldAt(s: bytes, p: nat, depth: nat)
    requires p <= |s|
    ensures FieldValueAt(s, p).None? ==> ParseField(s[p..], depth) == None
    ensures FieldValueAt(s, p).Some? ==>
      var raw := s[p + 1..StringEndAt(s, p).value];
      ValidText(raw)
          && ParseField(s[p..], depth) == WithKey(Decode(raw), ParseValue(s[FieldValueAt(s, p).value..], depth + 1))
  {
    ParseStringAt(s, p);
    FieldFrom(s, s[p..], p, depth, StringEndAt(s, p));
  }

  lemma FieldIsMeant(b: bytes, f: (Slice, RNode), v: (bytes, RValue), lo: nat, mid: nat, hi: nat)
    requires lo <= mid <= hi && StringMeans(b, f.0, v.0, lo, mid) && Means(b, f.1, v.1, mid, hi)
    ensures FieldMeans(b, f, v, lo, hi)
  {
  }

  lemma FieldFrom(s: bytes, all: bytes, p: nat, depth: nat, end: Option<nat>)
    requires end.Some? ==> p < end.value < |s|
    requires ParseString(all) == if end.Some? then Some((s[p + 1..end.value], s[end.value + 1..])) else None
    ensures end.None? ==> ParseField(all, depth) == None
    ensures end.Some? ==>
      var value := ColonAt(s, end.value + 1);
      && ValidText(s[p + 1..end.value])
      && (value.None? ==> ParseField(all, depth) == None)
      && (value.Some? ==>
            ParseField(all, depth) == WithKey(Decode(s[p + 1..end.value]), ParseValue(s[value.value..], depth + 1)))
  {
    if end.Some? {
      FieldFromString(s, all, depth, s[p + 1..end.value], end.value + 1);
    } else {
      NoStringNoField(all, depth);
    }
  }

  lemma NoField(all: bytes, depth: nat)
    requires ParseField(all, depth) == None
    ensures ParseFields(all, depth) == None
  {
    AfterField(all, depth, None, []);
  }

  lemma AfterFieldAt(s: bytes, all: bytes, depth: nat, f: (bytes, RValue), q: nat)
    requires q <= |s| && ParseField(all, depth) == Some((f, s[q..]))
    ensures var d := SkipWsAt(s, q);
      ParseFields(all, depth) ==
      if d < |s| && s[d] == RIGHT_BRACE then Some(([f], s[d + 1..]))
      else if d < |s| && s[d] == COMMA then Cons(f, ParseFields(s[SkipWsAt(s, d + 1)..], depth))
      else None
  {
    AfterField(all, depth, Some((f, s[q..])), SkipWs(s[q..]));
    NextAt(s, q);
  }

  lemma AfterFieldMoved(s: bytes, all: bytes, depth: nat, f: (bytes, RValue), q: nat, ok: bool, more: bool, end: nat)
    requires q <= |s| && ParseField(all, depth) == Some((f, s[q..]))
    requires var d := SkipWsAt(s, q);
      && ok == (d < |s| && (s[d] == RIGHT_BRACE || s[d] == COMMA)) && more == (ok && s[d] == COMMA)
      && end == if !ok then d else if more then SkipWsAt(s, d + 1) else d + 1
    ensures ParseFields(all, depth) == if !ok then None else if more then Cons(f, ParseFields(s[end..], depth))
        else Some(([f], s[end..]))
  {
    AfterFieldAt(s, all, depth, f, q);
  }

  /** Bytes that send `decode_value` to its default case. */
  predicate IsNumberStart(c: byte) {
    c != LEFT_BRACKET && c != LEFT_BRACE && c != QUOTE && c != TRUE_TEXT[0] && c != FALSE_TEXT[0] && c != NULL_TEXT[0]
  }

  lemma ParseStringAt(s: bytes, i: nat)
    requires i <= |s|
    ensures ParseString(s[i..]) ==
            match StringEndAt(s, i) { case None => None case Some(e) => Some((s[i + 1..e], s[e + 1..])) }
  {
    if i < |s| && s[i] == QUOTE {
      TextEndAtIs(s, i + 1);
      assert s[i..][1..] == s[i + 1..];
      if TextEndAt(s, i + 1).Some? {
        var k := TextEnd(s[i + 1..]).value;
        assert s[i..][1..k + 1] == s[i + 1..i + 1 + k] && s[i..][k + 2..] == s[i + k + 2..];
      }
    }
  }

  lemma ParseStringValueAt(s: bytes, i: nat, depth: nat)
    requires i <= |s| && First(s[i..]) == QUOTE
    ensures match StringEndAt(s, i)
            case None => ParseValue(s[i..], depth) == None
            case Some(e) =>
              ValidText(s[i + 1..e]) && ParseValue(s[i..], depth) == Some((RString(Decode(s[i + 1..e])), s[e + 1..]))
  {
    ParseStringAt(s, i);
  }

  lemma StringIsValid(s: bytes, i: nat)
    requires i <= |s| && StringEndAt(s, i).Some?
    ensures ValidText(s[i + 1..StringEndAt(s, i).value])
  {
    ParseStringAt(s, i);
  }

  /** Right after the scan, the slice means the decoded text whatever the flag says. */
  lemma StringIsMeant(b: bytes, s: Slice, raw: bytes)
    requires 0 < s.start <= s.end < |b| && b[s.start..s.end] == raw && ValidText(raw)
    requires b[s.start - 1] == 0 ==> BACKSLASH !in raw
    ensures StringMeans(b, s, Decode(raw), s.start - 1, s.end + 1)
  {
    if b[s.start - 1] == 0 {
      DecodePlain(raw);
    }
  }
}
