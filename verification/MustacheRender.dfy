/**
 * Rendering in crow/mustache.h: `render_internal` over the flat action list with its stored
 * jump positions, against structural recursion over the section tree.
 */
module MustacheRender {

  import opened Wrappers
  import opened Mustache

  // ----- Contexts -----

  /** Innermost context first: the value of a name without dots, or "." for the top itself. */
  function FindContext(name: string, stack: seq<Json>): Option<Json> {
    if stack == [] then None
    else
      var top := stack[|stack| - 1];
      if name == "." then Some(top)
      else if top.Object? && name in top.fields then Some(top.fields[name])
      else FindContext(name, stack[..|stack| - 1])
  }

  function EscapeChar(c: char): string {
    if c == '&' then "&amp;" else if c == '<' then "&lt;" else if c == '>' then "&gt;"
    else if c == '"' then "&quot;" else if c == '\'' then "&#39;" else if c == '/' then "&#x2F;"
    else if c == '`' then "&#x60;" else if c == '=' then "&#x3D;" else [c]
  }

  function Escape(s: string): string {
    if s == "" then "" else EscapeChar(s[0]) + Escape(s[1..])
  }

  /** What a tag that opens no section prints. */
  function Print(t: TagType, name: string, stack: seq<Json>): Result<string, Error> {
    if t != Tag && t != UnescapeTag then Ok("")
    else
      match FindContext(name, stack)
      case None => Ok("")
      case Some(False) => Ok("false")
      case Some(True) => Ok("true")
      case Some(Number(repr)) => Ok(repr)
      case Some(String(s)) => Ok(if t == Tag then Escape(s) else s)
      case _ => Err(NOT_IMPLEMENTED)
  }

  // ----- The section tree -----

  /** The contexts a section's body is rendered with, one after another. */
  function Contexts(inverted: bool, name: string, stack: seq<Json>): seq<Json> {
    var falsy := match FindContext(name, stack)
      case None => true
      case Some(List(items)) => items == []
      case Some(v) => v == False || v == Null;
    if inverted then (if falsy then [Null] else [])
    else if falsy then []
    else
      var v := FindContext(name, stack).value;
      if v.List? then v.items else [v]
  }

  function Join(a: Result<string, Error>, b: Result<string, Error>): Result<string, Error> {
    if a.Err? then a else if b.Err? then b else Ok(a.value + b.value)
  }

  function RenderBody(b: Body, stack: seq<Json>): Result<string, Error>
    decreases b, 0, 0
  {
    Join(RenderElems(b.elems, stack), Ok(b.last))
  }

  function RenderElems(es: seq<Elem>, stack: seq<Json>): Result<string, Error>
    decreases es, 0, 0
  {
    if es == [] then Ok("") else Join(RenderElem(es[0], stack), RenderElems(es[1..], stack))
  }

  function RenderElem(e: Elem, stack: seq<Json>): Result<string, Error>
    decreases e, 0, 0
  {
    match e
    case Leaf(text, t, name) => Join(Ok(text), Print(t, name, stack))
    case Section(text, inverted, name, inner) =>
      Join(Ok(text), RenderEach(inner, Contexts(inverted, name, stack), stack))
  }

  function RenderEach(b: Body, cs: seq<Json>, stack: seq<Json>): Result<string, Error>
    decreases b, 1, |cs|
  {
    if cs == [] then Ok("") else Join(RenderBody(b, stack + [cs[0]]), RenderEach(b, cs[1..], stack))
  }

  // ----- The flat form -----

  datatype Template = Template(actions: seq<Action>, fragments: seq<string>)

  predicate Opening(a: Action) { a.t == OpenBlock || a.t == ElseBlock }

  /** One text before each action, and every jump goes forward. */
  predicate Runnable(t: Template) {
    && |t.fragments| == |t.actions|
    && forall i :: 0 <= i < |t.actions| && Opening(t.actions[i]) ==> i < t.actions[i].pos < |t.actions|
  }

  /** What one action does: print and go on with a stack, or run the body once per item. */
  datatype Effect = Goto(out: string, stack: seq<Json>, next: nat) | Each(items: seq<Json>) | Throw(error: Error)

  function Execute(a: Action, current: nat, stack: seq<Json>): Effect {
    match a.t
    case CloseBlock =>
      if stack == [] then Throw(UNDERFLOW) else Goto("", stack[..|stack| - 1], current + 1)
    case ElseBlock =>
      (match FindContext(a.name, stack)
       case None => Goto("", stack + [Null], current + 1)
       case Some(List(items)) =>
         if items != [] then Goto("", stack, a.pos + 1) else Goto("", stack + [Null], current + 1)
       case Some(False) => Goto("", stack + [Null], current + 1)
       case Some(Null) => Goto("", stack + [Null], current + 1)
       case _ => Goto("", stack, a.pos + 1))
    case OpenBlock =>
      (match FindContext(a.name, stack)
       case None => Goto("", stack, a.pos + 1)
       case Some(List(items)) => Each(items)
       case Some(False) => Goto("", stack, a.pos + 1)
       case Some(Null) => Goto("", stack, a.pos + 1)
       case Some(v) => Goto("", stack + [v], current + 1))
    case _ =>
      match Print(a.t, a.name, stack)
      case Err(e) => Throw(e)
      case Ok(s) => Goto(s, stack, current + 1)
  }

  type Outcome = Result<(string, seq<Json>), Error>

  function Prepend(s: string, o: Outcome): Outcome {
    if o.Err? then o else Ok((s + o.value.0, o.value.1))
  }

  /** `render_internal(current, end)`: the text it appends and the stack it leaves. */
  function Run(t: Template, current: nat, end: nat, stack: seq<Json>): Outcome
    requires Runnable(t) && end < |t.fragments|
    decreases if current < |t.actions| then |t.actions| - current else 0, 1
  {
    if current >= end then Ok((t.fragments[end], stack)) else Turn(t, current, end, stack)
  }

  /** One turn of its loop, and the turns after it. */
  function Turn(t: Template, current: nat, end: nat, stack: seq<Json>): Outcome
    requires Runnable(t) && current < end < |t.fragments|
    decreases |t.actions| - current, 0
  {
    match Execute(t.actions[current], current, stack)
    case Throw(e) => Err(e)
    case Goto(out, stack', next) => Prepend(t.fragments[current] + out, Run(t, next, end, stack'))
    case Each(items) =>
      var pos := t.actions[current].pos;
      match RunEach(t, items, current + 1, pos, stack)
      case Err(e) => Err(e)
      case Ok((s, stack')) => Prepend(t.fragments[current] + s, Run(t, pos + 1, end, stack'))
  }

  function RunEach(t: Template, items: seq<Json>, begin: nat, end: nat, stack: seq<Json>): Outcome
    requires Runnable(t) && end < |t.fragments|
    decreases if begin < |t.actions| then |t.actions| - begin else 0, 2 + |items|
  {
    if items == [] then Ok(("", stack))
    else
      match Run(t, begin, end, stack + [items[0]])
      case Err(e) => Err(e)
      case Ok((s, stack')) =>
        if stack' == [] then Err(UNDERFLOW)
        else Prepend(s, RunEach(t, items[1..], begin, end, stack'[..|stack'| - 1]))
  }

  // ----- The flat form of a tree means the tree -----

  function Texts(tags: seq<Scanned>): (r: seq<string>)
    ensures |r| == |tags|
  {
    seq(|tags|, i requires 0 <= i < |tags| => tags[i].text)
  }

  /** Tags and their actions sit in the template at `off`. */
  predicate At(t: Template, tags: seq<Scanned>, acts: seq<Action>, off: nat)
    requires |tags| == |acts|
  {
    && off + |tags| <= |t.actions| == |t.fragments|
    && forall i :: 0 <= i < |tags| ==> t.actions[off + i] == acts[i] && t.fragments[off + i] == tags[i].text
  }

  predicate Placed(t: Template, es: seq<Elem>, off: nat) { At(t, Tags(es), Actions(es, off), off) }

  predicate PlacedElem(t: Template, e: Elem, off: nat) { At(t, ElemTags(e), ElemActions(e, off), off) }

  lemma AtPart(t: Template, tags: seq<Scanned>, acts: seq<Action>, off: nat, pre: seq<Scanned>, preActs: seq<Action>,
               part: seq<Scanned>, partActs: seq<Action>, post: seq<Scanned>, postActs: seq<Action>)
    requires |tags| == |acts| && |pre| == |preActs| && |part| == |partActs|
    requires tags == pre + part + post && acts == preActs + partActs + postActs
    requires At(t, tags, acts, off)
    ensures At(t, part, partActs, off + |pre|)
  {
    forall i | 0 <= i < |part|
      ensures t.actions[off + |pre| + i] == partActs[i] && t.fragments[off + |pre| + i] == part[i].text
    {
      assert acts[|pre| + i] == partActs[i] && tags[|pre| + i] == part[i];
      assert t.actions[off + (|pre| + i)] == acts[|pre| + i];
    }
  }

  function Then(a: Result<string, Error>, o: Outcome): Outcome {
    if a.Err? then Err(a.error) else Prepend(a.value, o)
  }

  lemma ThenJoin(a: Result<string, Error>, b: Result<string, Error>, o: Outcome)
    ensures Then(Join(a, b), o) == Then(a, Then(b, o))
  {
    if a.Ok? && b.Ok? && o.Ok? {
      assert a.value + b.value + o.value.0 == a.value + (b.value + o.value.0);
    }
  }

  lemma PlacedCons(t: Template, es: seq<Elem>, off: nat)
    requires Placed(t, es, off) && es != []
    ensures PlacedElem(t, es[0], off) && Placed(t, es[1..], off + |ElemTags(es[0])|)
  {
    var head, tail := ElemTags(es[0]), Tags(es[1..]);
    var headActs, tailActs := ElemActions(es[0], off), Actions(es[1..], off + |head|);
    AtPart(t, Tags(es), Actions(es, off), off, [], [], head, headActs, tail, tailActs);
    AtPart(t, Tags(es), Actions(es, off), off, head, headActs, tail, tailActs, [], []);
  }

  lemma PlacedSection(t: Template, e: Elem, off: nat, end: nat)
    requires e.Section? && PlacedElem(t, e, off)
    requires Runnable(t) && off + |ElemTags(e)| <= end < |t.fragments|
    ensures SectionAt(t, e, off, end) && Placed(t, e.inner.elems, off + 1)
    ensures off + |ElemTags(e)| == off + 1 + |Tags(e.inner.elems)| + 1
  {
    PlacedBody(t, e, off);
    PlacedEnds(t, e, off, |Tags(e.inner.elems)|);
  }

  lemma PlacedBody(t: Template, e: Elem, off: nat)
    requires e.Section? && PlacedElem(t, e, off)
    ensures Placed(t, e.inner.elems, off + 1)
  {
    var inner, innerActs := Tags(e.inner.elems), Actions(e.inner.elems, off + 1);
    var tags, acts := ElemTags(e), ElemActions(e, off);
    var n := |inner|;
    AtPart(t, tags, acts, off, tags[..1], acts[..1], inner, innerActs, tags[n + 1..], acts[n + 1..]);
  }

  lemma PlacedEnds(t: Template, e: Elem, off: nat, n: nat)
    requires e.Section? && PlacedElem(t, e, off) && n == |Tags(e.inner.elems)|
    ensures |ElemTags(e)| == n + 2 && off + n + 1 < |t.actions| && off + n + 1 < |t.fragments|
    ensures t.actions[off] == Action(OpenTag(e.inverted), e.name, off + 1 + n, true) && t.fragments[off] == e.text
    ensures t.actions[off + n + 1].t == CloseBlock && t.fragments[off + n + 1] == e.inner.last
  {
    var tags, acts := ElemTags(e), ElemActions(e, off);
    assert t.actions[off + 0] == acts[0] && t.fragments[off + 0] == tags[0].text;
    assert t.actions[off + (n + 1)] == acts[n + 1] && t.fragments[off + (n + 1)] == tags[n + 1].text;
  }

  /** What both renderers read off a placed section. */
  ghost predicate SectionAt(t: Template, e: Elem, off: nat, end: nat) {
    && Runnable(t) && e.Section?
    && var pos := off + 1 + |Tags(e.inner.elems)|;
    && pos < end < |t.fragments|
    && t.actions[off] == Action(OpenTag(e.inverted), e.name, pos, true)
    && t.fragments[off] == e.text
    && t.actions[pos].t == CloseBlock && t.fragments[pos] == e.inner.last
  }

  /** One turn of the loop. */
  lemma RunUnfolds(t: Template, current: nat, end: nat, stack: seq<Json>)
    requires Runnable(t) && current < end < |t.fragments|
    ensures var x, a := Execute(t.actions[current], current, stack), t.actions[current];
      && (x.Throw? ==> Run(t, current, end, stack) == Err(x.error))
      && (x.Goto? ==>
            Run(t, current, end, stack) == Prepend(t.fragments[current] + x.out, Run(t, x.next, end, x.stack)))
      && (x.Each? ==> Opening(a) && var each := RunEach(t, x.items, current + 1, a.pos, stack);
            && (each.Err? ==> Run(t, current, end, stack) == Err(each.error))
            && (each.Ok? ==> Run(t, current, end, stack)
                             == Prepend(t.fragments[current] + each.value.0, Run(t, a.pos + 1, end, each.value.1))))
      && (x.Goto? ==> x.next > current)
  {
  }

  lemma RunEnds(t: Template, current: nat, end: nat, stack: seq<Json>)
    requires Runnable(t) && end <= current && end < |t.fragments|
    ensures Run(t, current, end, stack) == Ok((t.fragments[end], stack))
  {
  }

  /** `Run` as a value: what follows is proved about it without unfolding it. */
  type Runner = (Template, nat, nat, seq<Json>) -> Outcome

  ghost predicate IsRun(run: Runner, t: Template, current: nat, end: nat, stack: seq<Json>) {
    Runnable(t) && end < |t.fragments| ==> run(t, current, end, stack) == Run(t, current, end, stack)
  }

  ghost predicate RunsAs(run: Runner) {
    forall t, current, end, stack {:trigger IsRun(run, t, current, end, stack)} :: IsRun(run, t, current, end, stack)
  }

  ghost function TheRunner(): (run: Runner)
    ensures RunsAs(run)
  {
    (t: Template, current: nat, end: nat, stack: seq<Json>) =>
      if Runnable(t) && end < |t.fragments| then Run(t, current, end, stack) else Err(UNDERFLOW)
  }

  /** One turn of the loop, for a runner. */
  lemma TurnIs(t: Template, current: nat, end: nat, stack: seq<Json>, run: Runner)
    requires RunsAs(run) && Runnable(t) && current < end < |t.fragments|
    ensures var x, a := Execute(t.actions[current], current, stack), t.actions[current];
      && (x.Throw? ==> run(t, current, end, stack) == Err(x.error))
      && (x.Goto? ==> x.next > current)
      && (x.Goto? ==>
            run(t, current, end, stack) == Prepend(t.fragments[current] + x.out, run(t, x.next, end, x.stack)))
      && (x.Each? ==> Opening(a) && current < a.pos)
      && (x.Each? ==> var each := RunEach(t, x.items, current + 1, a.pos, stack);
            run(t, current, end, stack)
            == if each.Err? then Err(each.error)
               else Prepend(t.fragments[current] + each.value.0, run(t, a.pos + 1, end, each.value.1)))
  {
    RunUnfolds(t, current, end, stack);
    var x, a := Execute(t.actions[current], current, stack), t.actions[current];
    assert IsRun(run, t, current, end, stack);
    match x {
      case Throw(_) =>
      case Goto(out, stack', next) => assert IsRun(run, t, next, end, stack');
      case Each(items) =>
        var each := RunEach(t, items, current + 1, a.pos, stack);
        if each.Ok? {
          assert IsRun(run, t, a.pos + 1, end, each.value.1);
        }
    }
  }

  lemma RunnerEnds(run: Runner, t: Template, current: nat, end: nat, stack: seq<Json>)
    requires RunsAs(run) && Runnable(t) && end <= current && end < |t.fragments|
    ensures run(t, current, end, stack) == Ok((t.fragments[end], stack))
  {
    assert IsRun(run, t, current, end, stack);
    RunEnds(t, current, end, stack);
  }

  lemma {:induction false} RunElems(run: Runner, t: Template, es: seq<Elem>, off: nat, last: nat, end: nat,
      stack: seq<Json>)
    requires RunsAs(run) && Runnable(t) && ValidElems(es) && Placed(t, es, off)
        && last == off + |Tags(es)| <= end < |t.fragments|
    ensures run(t, off, end, stack) == Then(RenderElems(es, stack), run(t, last, end, stack))
    decreases es, 2, 0
  {
    if es == [] {
      PrependNothing(run(t, off, end, stack));
    } else {
      var next := off + |ElemTags(es[0])|;
      ValidRest(es);
      PlacedCons(t, es, off);
      TagsOfCons(es);
      RunElem(run, t, es[0], off, end, stack);
      RunElems(run, t, es[1..], next, last, end, stack);
      FirstThenRest(es, stack, run(t, off, end, stack), run(t, next, end, stack), run(t, last, end, stack));
    }
  }

  lemma TagsOfCons(es: seq<Elem>)
    requires es != []
    ensures |Tags(es)| == |ElemTags(es[0])| + |Tags(es[1..])|
  {
  }

  lemma FirstThenRest(es: seq<Elem>, stack: seq<Json>, run: Outcome, middle: Outcome, last: Outcome)
    requires es != [] && run == Then(RenderElem(es[0], stack), middle)
        && middle == Then(RenderElems(es[1..], stack), last)
    ensures run == Then(RenderElems(es, stack), last)
  {
    ThenJoin(RenderElem(es[0], stack), RenderElems(es[1..], stack), last);
  }

  lemma {:induction false} RunElem(run: Runner, t: Template, e: Elem, off: nat, end: nat, stack: seq<Json>)
    requires RunsAs(run) && Runnable(t) && ValidElem(e)
    requires PlacedElem(t, e, off) && off + |ElemTags(e)| <= end < |t.fragments|
    ensures run(t, off, end, stack) == Then(RenderElem(e, stack), run(t, off + |ElemTags(e)|, end, stack))
    decreases e, 1, 0
  {
    if e.Leaf? {
      RunLeaf(run, t, e, off, end, stack);
    } else {
      RunSection(run, t, e, off, end, stack);
    }
  }

  lemma RunLeaf(run: Runner, t: Template, e: Elem, off: nat, end: nat, stack: seq<Json>)
    requires RunsAs(run) && Runnable(t) && e.Leaf? && IsLeafTag(e.t)
    requires PlacedElem(t, e, off) && off + 1 <= end < |t.fragments|
    ensures run(t, off, end, stack) == Then(RenderElem(e, stack), run(t, off + 1, end, stack))
  {
    assert t.actions[off + 0] == ElemActions(e, off)[0] && t.fragments[off + 0] == ElemTags(e)[0].text;
    TurnIs(t, off, end, stack, run);
    assert e.text + "" == e.text;
  }

  lemma {:induction false} RunSection(run: Runner, t: Template, e: Elem, off: nat, end: nat, stack: seq<Json>)
    requires RunsAs(run) && Runnable(t) && ValidElem(e) && e.Section?
    requires PlacedElem(t, e, off) && off + |ElemTags(e)| <= end < |t.fragments|
    ensures run(t, off, end, stack) == Then(RenderElem(e, stack), run(t, off + |ElemTags(e)|, end, stack))
    decreases e, 0, 1
  {
    PlacedSection(t, e, off, end);
    SectionEffect(e, off + 1 + |Tags(e.inner.elems)|, off, stack);
    if Execute(t.actions[off], off, stack).Each? {
      RunItems(run, t, e.inner, off + 1, Execute(t.actions[off], off, stack).items, stack);
      RunListSection(run, t, e, off, end, stack);
    } else {
      RunInPlace(run, t, e, off, end, stack);
    }
  }

  lemma {:induction false} RunInPlace(run: Runner, t: Template, e: Elem, off: nat, end: nat, stack: seq<Json>)
    requires RunsAs(run) && ValidElem(e) && SectionAt(t, e, off, end) && Placed(t, e.inner.elems, off + 1)
    requires Execute(t.actions[off], off, stack).Goto?
    ensures run(t, off, end, stack) == Then(RenderElem(e, stack), run(t, off + |ElemTags(e)|, end, stack))
    decreases e, 0, 0
  {
    var cs := Contexts(e.inverted, e.name, stack);
    if cs == [] {
      RunSkipped(run, t, e, off, end, stack);
    } else {
      RunInline(run, t, e.inner, off + 1, end, stack, cs[0]);
      RunOnce(run, t, e, off, end, stack);
    }
  }

  /** The opening action and the tree agree on which contexts the body gets. */
  lemma SectionEffect(e: Elem, pos: nat, off: nat, stack: seq<Json>)
    requires e.Section?
    ensures var cs := Contexts(e.inverted, e.name, stack);
      var x := Execute(Action(OpenTag(e.inverted), e.name, pos, true), off, stack);
      match x
      case Each(items) => cs == items
      case Goto(out, stack', next) =>
        out == "" && if cs == [] then next == pos + 1 && stack' == stack
                     else next == off + 1 && |cs| == 1 && stack' == stack + [cs[0]]
      case Throw(_) => false
  {
  }

  lemma RunListSection(run: Runner, t: Template, e: Elem, off: nat, end: nat, stack: seq<Json>)
    requires RunsAs(run) && SectionAt(t, e, off, end) && Execute(t.actions[off], off, stack).Each?
    requires var pos, items := off + 1 + |Tags(e.inner.elems)|, Execute(t.actions[off], off, stack).items;
      RunEach(t, items, off + 1, pos, stack) == Then(RenderEach(e.inner, items, stack), Ok(("", stack)))
    ensures run(t, off, end, stack) == Then(RenderElem(e, stack), run(t, off + |ElemTags(e)|, end, stack))
  {
    var pos := off + 1 + |Tags(e.inner.elems)|;
    var r, after := RenderEach(e.inner, Contexts(e.inverted, e.name, stack), stack), run(t, pos + 1, end, stack);
    SectionEffect(e, pos, off, stack);
    TurnIs(t, off, end, stack, run);
    if r.Ok? {
      assert r.value + "" == r.value;
    }
    ThenJoin(Ok(e.text), r, after);
    PrependTwice(e.text, r, after);
  }

  lemma RunSkipped(run: Runner, t: Template, e: Elem, off: nat, end: nat, stack: seq<Json>)
    requires RunsAs(run) && SectionAt(t, e, off, end) && Contexts(e.inverted, e.name, stack) == []
    requires Execute(t.actions[off], off, stack).Goto?
    ensures run(t, off, end, stack) == Then(RenderElem(e, stack), run(t, off + |ElemTags(e)|, end, stack))
  {
    SectionEffect(e, off + 1 + |Tags(e.inner.elems)|, off, stack);
    TurnIs(t, off, end, stack, run);
    assert e.text + "" == e.text;
  }

  lemma RunOnce(run: Runner, t: Template, e: Elem, off: nat, end: nat, stack: seq<Json>)
    requires RunsAs(run) && SectionAt(t, e, off, end) && Contexts(e.inverted, e.name, stack) != []
    requires Execute(t.actions[off], off, stack).Goto?
    requires var c := Contexts(e.inverted, e.name, stack)[0];
      run(t, off + 1, end, stack + [c])
      == Then(RenderBody(e.inner, stack + [c]), run(t, off + |ElemTags(e)|, end, stack))
    ensures run(t, off, end, stack) == Then(RenderElem(e, stack), run(t, off + |ElemTags(e)|, end, stack))
  {
    var cs, after := Contexts(e.inverted, e.name, stack), run(t, off + |ElemTags(e)|, end, stack);
    SectionEffect(e, off + 1 + |Tags(e.inner.elems)|, off, stack);
    TurnIs(t, off, end, stack, run);
    assert e.text + "" == e.text && cs[1..] == [];
    var r := RenderBody(e.inner, stack + [cs[0]]);
    JoinEmpty(r);
    assert RenderEach(e.inner, cs, stack) == r;
    ThenJoin(Ok(e.text), r, after);
  }

  lemma JoinEmpty(a: Result<string, Error>)
    ensures Join(a, Ok("")) == a
  {
    if a.Ok? { assert a.value + "" == a.value; }
  }

  lemma PrependTwice(s: string, a: Result<string, Error>, o: Outcome)
    ensures Then(Ok(s), Then(a, o)) == if a.Err? then Err(a.error) else Prepend(s + a.value, o)
  {
    if a.Ok? && o.Ok? { assert s + (a.value + o.value.0) == s + a.value + o.value.0; }
  }

  /** A section with one context runs in place: push, body, pop. */
  lemma {:induction false} RunInline(run: Runner, t: Template, inner: Body, off: nat, end: nat, stack: seq<Json>,
      c: Json)
    requires RunsAs(run) && Runnable(t) && ValidElems(inner.elems) && Placed(t, inner.elems, off)
    requires var pos := off + |Tags(inner.elems)|;
      pos < end < |t.fragments| && t.actions[pos].t == CloseBlock && t.fragments[pos] == inner.last
    ensures run(t, off, end, stack + [c])
         == Then(RenderBody(inner, stack + [c]), run(t, off + |Tags(inner.elems)| + 1, end, stack))
    decreases inner, 0, 0
  {
    var pos := off + |Tags(inner.elems)|;
    RunElems(run, t, inner.elems, off, off + |Tags(inner.elems)|, end, stack + [c]);
    TurnIs(t, pos, end, stack + [c], run);
    assert (stack + [c])[..|stack|] == stack;
    assert inner.last + "" == inner.last;
    ThenJoin(RenderElems(inner.elems, stack + [c]), Ok(inner.last), run(t, pos + 1, end, stack));
  }

  /** A list section re-enters the renderer once per item and leaves the stack as it was. */
  lemma {:induction false} RunItems(run: Runner, t: Template, inner: Body, off: nat, items: seq<Json>, stack: seq<Json>)
    requires RunsAs(run) && Runnable(t) && ValidElems(inner.elems) && Placed(t, inner.elems, off)
    requires var pos := off + |Tags(inner.elems)|; pos < |t.fragments| && t.fragments[pos] == inner.last
    ensures RunEach(t, items, off, off + |Tags(inner.elems)|, stack) ==
        Then(RenderEach(inner, items, stack), Ok(("", stack)))
    decreases inner, 1, |items|
  {
    var pos := off + |Tags(inner.elems)|;
    if items == [] {
      assert "" + "" == "";
    } else {
      var st := stack + [items[0]];
      RunElems(run, t, inner.elems, off, off + |Tags(inner.elems)|, pos, st);
      RunnerEnds(run, t, pos, pos, st);
      assert IsRun(run, t, off, pos, st);
      RunItems(run, t, inner, off, items[1..], stack);
      assert st[..|st| - 1] == stack;
      ThenJoin(RenderBody(inner, st), RenderEach(inner, items[1..], stack), Ok(("", stack)));
    }
  }

  // ----- Whole templates -----

  /** What `parse` stores for a tree: its actions and a closing no-op, and one text before each. */
  function Compile(b: Body): Template {
    Template(Actions(b.elems, 0) + [Action(Ignore, "", 0, false)], Texts(Tags(b.elems)) + [b.last])
  }

  /** Jumps inside a piece of an action list go forward and stay inside. */
  predicate JumpsInside(acts: seq<Action>, off: nat) {
    forall i :: 0 <= i < |acts| && Opening(acts[i]) ==> off + i < acts[i].pos < off + |acts|
  }

  lemma JumpsConcat(a: seq<Action>, b: seq<Action>, off: nat)
    requires JumpsInside(a, off) && JumpsInside(b, off + |a|)
    ensures JumpsInside(a + b, off)
  {
    var all := a + b;
    forall i | 0 <= i < |all| && Opening(all[i]) ensures off + i < all[i].pos < off + |all| {
      if i < |a| {
        assert all[i] == a[i];
      } else {
        assert all[i] == b[i - |a|];
      }
    }
  }

  lemma {:induction false} JumpsForward(es: seq<Elem>, off: nat)
    requires ValidElems(es)
    ensures JumpsInside(Actions(es, off), off)
    decreases es, 1
  {
    if es != [] {
      var n := |ElemTags(es[0])|;
      ValidRest(es);
      ElemJumpsForward(es[0], off);
      JumpsForward(es[1..], off + n);
      JumpsConcat(ElemActions(es[0], off), Actions(es[1..], off + n), off);
    }
  }

  lemma {:induction false} ElemJumpsForward(e: Elem, off: nat)
    requires ValidElem(e)
    ensures JumpsInside(ElemActions(e, off), off)
    decreases e, 0
  {
    if e.Section? {
      JumpsForward(e.inner.elems, off + 1);
      var inner, all := Actions(e.inner.elems, off + 1), ElemActions(e, off);
      assert |all| == |inner| + 2 && all[0].pos == off + 1 + |inner|;
      forall i | 0 <= i < |all| && Opening(all[i]) ensures off + i < all[i].pos < off + |all| {
        if 1 <= i <= |inner| {
          assert all[i] == inner[i - 1];
        }
      }
    }
  }

  /** Running the flat list from start to end prints what structural recursion over the
      section tree prints, or throws where it throws, and restores the context stack. */
  lemma FlatMeansTree(b: Body, stack: seq<Json>)
    requires ValidElems(b.elems)
    ensures Runnable(Compile(b))
    ensures Run(Compile(b), 0, |Compile(b).fragments| - 1, stack) == Then(RenderBody(b, stack), Ok(("", stack)))
  {
    var t, n := Compile(b), |Tags(b.elems)|;
    JumpsForward(b.elems, 0);
    assert Placed(t, b.elems, 0);
    var run := TheRunner();
    RunElems(run, t, b.elems, 0, n, n, stack);
    RunnerEnds(run, t, n, n, stack);
    assert IsRun(run, t, 0, n, stack);
    ThenJoin(RenderElems(b.elems, stack), Ok(b.last), Ok(("", stack)));
    assert b.last + "" == b.last;
  }

  class Renderer {
    var stack: seq<Json>
    var out: string

    constructor (context: Json)
      ensures stack == [context] && out == ""
    {
      stack, out := [context], "";
    }

    /** `failure` stands for an exception; what was printed before it is discarded. */
    method RenderInternal(t: Template, begin: nat, end: nat, ghost run: Runner) returns (failure: Option<Error>)
      requires RunsAs(run) && Runnable(t) && end < |t.fragments|
      modifies this
      ensures match run(t, begin, end, old(stack))
              case Err(e) => failure == Some(e)
              case Ok((s, st)) => failure == None && out == old(out) + s && stack == st
      decreases if begin < |t.actions| then |t.actions| - begin else 0, 1
    {
      ghost var goal := run(t, begin, end, stack);
      ghost var out0 := out;
      ghost var printed := "";
      var current := begin;
      PrependNothing(goal);
      while current < end
        invariant begin <= current && out == out0 + printed
        invariant goal == Prepend(printed, run(t, current, end, stack))
        decreases if current < |t.actions| then |t.actions| - current else 0
      {
        ghost var text;
        failure, current, text := Turn(t, current, end, run);
        if failure.Some? {
          return;
        }
        PrependMore(printed, text, run(t, current, end, stack));
        printed := printed + text;
      }
      RunnerEnds(run, t, current, end, stack);
      out := out + t.fragments[end];
      assert out == out0 + (printed + t.fragments[end]);
      return None;
    }

    /** One turn of the loop: the fragment, then the action. */
    method Turn(t: Template, current: nat, end: nat, ghost run: Runner)
      returns (failure: Option<Error>, next: nat, ghost text: string)
      requires RunsAs(run) && Runnable(t) && current < end < |t.fragments|
      modifies this
      ensures failure.Some? ==> run(t, current, end, old(stack)) == Err(failure.value)
      ensures failure.None? ==> out == old(out) + text && next > current
                                && run(t, current, end, old(stack)) == Prepend(text, run(t, next, end, stack))
      decreases if current < |t.actions| then |t.actions| - current else 0, 0
    {
      var a := t.actions[current];
      TurnIs(t, current, end, stack, run);
      out := out + t.fragments[current];
      match Execute(a, current, stack) {
        case Throw(e) =>
          return Some(e), current, "";
        case Goto(s, stack', next') =>
          out, stack := out + s, stack';
          return None, next', t.fragments[current] + s;
        case Each(items) =>
          ghost var each := RunEach(t, items, current + 1, a.pos, stack);
          failure := RenderItems(t, items, current + 1, a.pos, run);
          if failure.Some? {
            return failure, current, "";
          }
          return None, a.pos + 1, t.fragments[current] + each.value.0;
      }
    }

    /** The loop over a list's items: push, re-enter, pop. */
    method RenderItems(t: Template, items: seq<Json>, begin: nat, end: nat, ghost run: Runner)
      returns (failure: Option<Error>)
      requires RunsAs(run) && Runnable(t) && end < |t.fragments|
      modifies this
      ensures match RunEach(t, items, begin, end, old(stack))
              case Err(e) => failure == Some(e)
              case Ok((s, st)) => failure == None && out == old(out) + s && stack == st
      decreases if begin < |t.actions| then |t.actions| - begin else 0, 2
    {
      ghost var goal := RunEach(t, items, begin, end, stack);
      ghost var out0 := out;
      ghost var printed := "";
      var i := 0;
      PrependNothing(goal);
      assert items[0..] == items;
      while i < |items|
        invariant i <= |items| && out == out0 + printed
        invariant goal == Prepend(printed, RunEach(t, items[i..], begin, end, stack))
      {
        assert items[i..][0] == items[i] && items[i..][1..] == items[i + 1..];
        ghost var stack0 := stack + [items[i]];
        stack := stack + [items[i]];
        assert IsRun(run, t, begin, end, stack);
        failure := RenderInternal(t, begin, end, run);
        if failure.Some? {
          return;
        }
        if stack == [] {
          return Some(UNDERFLOW);
        }
        stack := stack[..|stack| - 1];
        ghost var s := Run(t, begin, end, stack0).value.0;
        PrependMore(printed, s, RunEach(t, items[i + 1..], begin, end, stack));
        printed := printed + s;
        i := i + 1;
      }
      assert items[i..] == [];
      return None;
    }
  }

  lemma PrependNothing(o: Outcome)
    ensures Prepend("", o) == o
  {
    if o.Ok? { assert "" + o.value.0 == o.value.0; }
  }

  lemma PrependMore(a: string, b: string, o: Outcome)
    ensures Prepend(a, Prepend(b, o)) == Prepend(a + b, o)
  {
    if o.Ok? { assert a + (b + o.value.0) == a + b + o.value.0; }
  }

  /** From tags to text: `parse` then `render` is the meaning of the section tree. */
  method Render(tags: seq<Scanned>, last: string, context: Json) returns (r: Result<string, Error>)
    ensures match Tree(tags, last)
            case Err(e) => r == Err(e)
            case Ok(b) => r == RenderBody(b, [context])
  {
    var parsed := Parse(tags, last);
    if parsed.Err? {
      return Err(parsed.error);
    }
    ghost var b := Tree(tags, last).value;
    TreeIffWellNested(tags, last);
    FlatMeansTree(b, [context]);
    var t := Template(parsed.value, Texts(tags) + [last]);
    assert t == Compile(b);
    var renderer := new Renderer(context);
    ghost var run := TheRunner();
    assert IsRun(run, t, 0, |t.fragments| - 1, [context]);
    var failure := renderer.RenderInternal(t, 0, |t.fragments| - 1, run);
    if failure.Some? {
      return Err(failure.value);
    }
    ghost var text := RenderBody(b, [context]).value;
    assert text + "" == text && "" + text == text;
    return Ok(renderer.out);
  }
}
