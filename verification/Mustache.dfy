/**
 * Mustache templates of crow/mustache.h after tag scanning: `parse` stores jump positions in a
 * flat action list, `render_internal` runs that list.
 */
module Mustache {

  import opened Wrappers

  // `parse` matches section tags with a stack of positions. The section tree is the specification of
  // both methods. Partials, lambdas and dotted names are not part of this model.

  datatype Json =
    | Null | False | True
    | Number(repr: string)
    | String(s: string)
    | List(items: seq<Json>)
    | Object(fields: map<string, Json>)

  datatype TagType = Ignore | Tag | UnescapeTag | OpenBlock | ElseBlock | CloseBlock

  /** One scanned tag, with the text that stands before it. */
  datatype Scanned = Scanned(text: string, t: TagType, name: string)

  datatype Action = Action(t: TagType, name: string, pos: nat, hasEndMatch: bool)

  /** UNEXPECTED_CLOSING, NOT_MATCHED and UNCLOSED are invalid_template_exception;
      NOT_IMPLEMENTED is the runtime_error of a tag whose value cannot be printed;
      UNDERFLOW is popping an empty context stack. */
  datatype Error = UNEXPECTED_CLOSING | NOT_MATCHED | UNCLOSED | NOT_IMPLEMENTED | UNDERFLOW

  // ----- Section trees -----

  datatype Elem =
    | Leaf(text: string, t: TagType, name: string)
    | Section(text: string, inverted: bool, name: string, inner: Body)

  /** Elements, and the text after the last of them. */
  datatype Body = Body(elems: seq<Elem>, last: string)

  predicate IsLeafTag(t: TagType) { t == Ignore || t == Tag || t == UnescapeTag }

  /** Leaves carry leaf tags, all the way down. */
  predicate ValidElem(e: Elem) {
    match e
    case Leaf(_, t, _) => IsLeafTag(t)
    case Section(_, _, _, inner) => ValidElems(inner.elems)
  }

  predicate ValidElems(es: seq<Elem>) { forall e :: e in es ==> ValidElem(e) }

  function OpenTag(inverted: bool): TagType { if inverted then ElseBlock else OpenBlock }

  /** The tags of a tree in reading order. */
  function Tags(es: seq<Elem>): seq<Scanned> {
    if es == [] then [] else ElemTags(es[0]) + Tags(es[1..])
  }

  function ElemTags(e: Elem): seq<Scanned> {
    match e
    case Leaf(text, t, name) => [Scanned(text, t, name)]
    case Section(text, inverted, name, inner) =>
      [Scanned(text, OpenTag(inverted), name)] + Tags(inner.elems) + [Scanned(inner.last, CloseBlock, name)]
  }

  /** The actions of a tree placed at `off`: a section's opening action jumps to its closing one. */
  function Actions(es: seq<Elem>, off: nat): (r: seq<Action>)
    ensures |r| == |Tags(es)|
  {
    if es == [] then [] else ElemActions(es[0], off) + Actions(es[1..], off + |ElemTags(es[0])|)
  }

  function ElemActions(e: Elem, off: nat): (r: seq<Action>)
    ensures |r| == |ElemTags(e)| > 0
  {
    match e
    case Leaf(_, t, name) => [Action(t, name, 0, false)]
    case Section(_, inverted, name, inner) =>
      [Action(OpenTag(inverted), name, off + 1 + |Tags(inner.elems)|, true)]
      + Actions(inner.elems, off + 1)
      + [Action(CloseBlock, name, off, false)]
  }

  lemma {:induction false} TagsConcat(a: seq<Elem>, b: seq<Elem>)
    ensures Tags(a + b) == Tags(a) + Tags(b)
  {
    if a == [] {
      assert a + b == b;
    } else {
      assert (a + b)[1..] == a[1..] + b;
      TagsConcat(a[1..], b);
    }
  }

  lemma ActionsConcat(a: seq<Elem>, b: seq<Elem>, off: nat)
    ensures Actions(a + b, off) == Actions(a, off) + Actions(b, off + |Tags(a)|)
  {
    ActionsJoin(a, b, off, off + |Tags(a)|);
  }

  lemma {:induction false} ActionsJoin(a: seq<Elem>, b: seq<Elem>, off: nat, mid: nat)
    requires mid == off + |Tags(a)|
    ensures Actions(a + b, off) == Actions(a, off) + Actions(b, mid)
    decreases |a|
  {
    if a == [] {
      assert a + b == b;
    } else {
      var next := off + |ElemTags(a[0])|;
      FirstActions(a, off);
      FirstOfConcat(a, b, off);
      ActionsJoin(a[1..], b, next, mid);
      Associate(ElemActions(a[0], off), Actions(a[1..], next), Actions(b, mid));
    }
  }

  lemma FirstActions(es: seq<Elem>, off: nat)
    requires es != []
    ensures var n := |ElemTags(es[0])|;
      && Actions(es, off) == ElemActions(es[0], off) + Actions(es[1..], off + n) && |Tags(es)| == n + |Tags(es[1..])|
  {
  }

  lemma FirstOfConcat(a: seq<Elem>, b: seq<Elem>, off: nat)
    requires a != []
    ensures Actions(a + b, off) == ElemActions(a[0], off) + Actions(a[1..] + b, off + |ElemTags(a[0])|)
  {
    assert (a + b)[0] == a[0] && (a + b)[1..] == a[1..] + b;
  }

  lemma Associate<T>(a: seq<T>, b: seq<T>, c: seq<T>)
    ensures a + (b + c) == a + b + c
  {
  }

  // ----- Matching sections: the tree builder -----

  /** An open section: what stood before it, and its opening tag. */
  datatype Frame = Frame(before: seq<Elem>, text: string, inverted: bool, name: string)

  /** What one tag does to the open sections and the elements after the innermost of them. */
  function Shift(g: Scanned, frames: seq<Frame>, cur: seq<Elem>): Result<(seq<Frame>, seq<Elem>), Error> {
    match g.t
    case OpenBlock => Ok((frames + [Frame(cur, g.text, false, g.name)], []))
    case ElseBlock => Ok((frames + [Frame(cur, g.text, true, g.name)], []))
    case CloseBlock =>
      if frames == [] then Err(UNEXPECTED_CLOSING)
      else
        var f := frames[|frames| - 1];
        if f.name != g.name then Err(NOT_MATCHED)
        else Ok((frames[..|frames| - 1], f.before + [Section(f.text, f.inverted, f.name, Body(cur, g.text))]))
    case _ => Ok((frames, cur + [Leaf(g.text, g.t, g.name)]))
  }

  /** Builds the section tree tag by tag. */
  function Build(tags: seq<Scanned>, last: string, frames: seq<Frame>, cur: seq<Elem>): Result<Body, Error>
    decreases |tags|
  {
    if tags == [] then (if frames == [] then Ok(Body(cur, last)) else Err(UNCLOSED))
    else
      match Shift(tags[0], frames, cur)
      case Err(e) => Err(e)
      case Ok((frames', cur')) => Build(tags[1..], last, frames', cur')
  }

  function Tree(tags: seq<Scanned>, last: string): Result<Body, Error> { Build(tags, last, [], []) }

  function FramesTags(fs: seq<Frame>): seq<Scanned> {
    if fs == [] then []
    else
      var f := fs[|fs| - 1];
      FramesTags(fs[..|fs| - 1]) + Tags(f.before) + [Scanned(f.text, OpenTag(f.inverted), f.name)]
  }

  predicate ValidFrames(fs: seq<Frame>) { forall f :: f in fs ==> ValidElems(f.before) }

  lemma TagsSnoc(es: seq<Elem>, e: Elem)
    ensures Tags(es + [e]) == Tags(es) + ElemTags(e)
  {
    TagsConcat(es, [e]);
    assert [e][1..] == [];
    assert Tags([e]) == ElemTags(e);
  }

  lemma {:induction false} ShiftKeepsValid(g: Scanned, frames: seq<Frame>, cur: seq<Elem>)
    requires ValidFrames(frames) && ValidElems(cur) && Shift(g, frames, cur).Ok?
    ensures ValidFrames(Shift(g, frames, cur).value.0) && ValidElems(Shift(g, frames, cur).value.1)
  {
    if g.t == CloseBlock {
      assert frames[|frames| - 1] in frames;
    }
  }

  /** A tag is kept: it joins the tags already built. */
  lemma {:induction false} ShiftKeepsTags(g: Scanned, frames: seq<Frame>, cur: seq<Elem>)
    requires Shift(g, frames, cur).Ok?
    ensures var (frames', cur') := Shift(g, frames, cur).value;
      FramesTags(frames') + Tags(cur') == FramesTags(frames) + Tags(cur) + [g]
  {
    match g.t
    case OpenBlock => FramesTagsSnoc(frames, Frame(cur, g.text, false, g.name));
    case ElseBlock => FramesTagsSnoc(frames, Frame(cur, g.text, true, g.name));
    case CloseBlock =>
      assert frames == frames[..|frames| - 1] + [frames[|frames| - 1]];
      CloseKeepsTags(g, frames[..|frames| - 1], frames[|frames| - 1], cur);
    case _ => TagsSnoc(cur, Leaf(g.text, g.t, g.name));
  }

  lemma {:induction false} CloseKeepsTags(g: Scanned, frames: seq<Frame>, f: Frame, cur: seq<Elem>)
    requires g.t == CloseBlock && g.name == f.name
    ensures FramesTags(frames) + Tags(f.before + [Section(f.text, f.inverted, f.name, Body(cur, g.text))])
         == FramesTags(frames + [f]) + Tags(cur) + [g]
  {
    FramesTagsSnoc(frames, f);
    TagsSnoc(f.before, Section(f.text, f.inverted, f.name, Body(cur, g.text)));
    ClosedTags(FramesTags(frames), f, Tags(cur), g);
  }

  lemma {:induction false} FramesTagsSnoc(fs: seq<Frame>, f: Frame)
    ensures FramesTags(fs + [f]) == FramesTags(fs) + Tags(f.before) + [Scanned(f.text, OpenTag(f.inverted), f.name)]
  {
    assert (fs + [f])[..|fs|] == fs;
  }

  lemma ClosedTags(before: seq<Scanned>, f: Frame, inner: seq<Scanned>, g: Scanned)
    ensures var open := Scanned(f.text, OpenTag(f.inverted), f.name);
      before + Tags(f.before) + [open] + inner + [g] == before + (Tags(f.before) + ([open] + inner + [g]))
  {
  }

  /** A built tree reads back as exactly the tags it was built from. */
  lemma {:induction false} BuildSound(tags: seq<Scanned>, last: string, frames: seq<Frame>, cur: seq<Elem>)
    requires ValidFrames(frames) && ValidElems(cur)
    ensures var r := Build(tags, last, frames, cur);
      r.Ok? ==> ValidElems(r.value.elems) && r.value.last == last
                && Tags(r.value.elems) == FramesTags(frames) + Tags(cur) + tags
    decreases |tags|
  {
    if tags != [] && Shift(tags[0], frames, cur).Ok? {
      var (frames', cur') := Shift(tags[0], frames, cur).value;
      ShiftKeepsValid(tags[0], frames, cur);
      ShiftKeepsTags(tags[0], frames, cur);
      BuildSound(tags[1..], last, frames', cur');
      assert tags == [tags[0]] + tags[1..];
    }
  }

  lemma {:induction false} BuildShift(g: Scanned, rest: seq<Scanned>, last: string, frames: seq<Frame>, cur: seq<Elem>)
    ensures Build([g] + rest, last, frames, cur) ==
            match Shift(g, frames, cur) {
              case Err(e) => Err(e)
              case Ok((frames', cur')) => Build(rest, last, frames', cur')
            }
  {
    assert ([g] + rest)[1..] == rest;
  }

  /** Reading the tags of a tree builds that tree. */
  lemma {:induction false} BuildComplete(es: seq<Elem>, rest: seq<Scanned>, last: string, frames: seq<Frame>,
      cur: seq<Elem>)
    requires ValidElems(es)
    ensures Build(Tags(es) + rest, last, frames, cur) == Build(rest, last, frames, cur + es)
    decreases es, 1
  {
    if es == [] {
      assert Tags(es) + rest == rest && cur + [] == cur;
    } else {
      ValidRest(es);
      Associate(ElemTags(es[0]), Tags(es[1..]), rest);
      Rejoin(cur, es);
      BuildElem(es[0], Tags(es[1..]) + rest, last, frames, cur);
      BuildComplete(es[1..], rest, last, frames, cur + [es[0]]);
    }
  }

  lemma {:induction false} ValidRest(es: seq<Elem>)
    requires ValidElems(es) && es != []
    ensures ValidElem(es[0]) && ValidElems(es[1..])
  {
    assert es[0] in es && forall x :: x in es[1..] ==> x in es;
  }

  lemma Rejoin<T>(a: seq<T>, b: seq<T>)
    requires b != []
    ensures a + [b[0]] + b[1..] == a + b
  {
  }

  lemma {:induction false} BuildElem(e: Elem, rest: seq<Scanned>, last: string, frames: seq<Frame>, cur: seq<Elem>)
    requires ValidElem(e)
    ensures Build(ElemTags(e) + rest, last, frames, cur) == Build(rest, last, frames, cur + [e])
    decreases e, 0
  {
    match e
    case Leaf(text, t, name) =>
      BuildShift(Scanned(text, t, name), rest, last, frames, cur);
    case Section(text, inverted, name, inner) =>
      var f := Frame(cur, text, inverted, name);
      var open, close := Scanned(text, OpenTag(inverted), name), Scanned(inner.last, CloseBlock, name);
      assert ElemTags(e) + rest == [open] + (Tags(inner.elems) + ([close] + rest));
      BuildShift(open, Tags(inner.elems) + ([close] + rest), last, frames, cur);
      BuildComplete(inner.elems, [close] + rest, last, frames + [f], []);
      assert [] + inner.elems == inner.elems && Body(inner.elems, inner.last) == inner;
      BuildShift(close, rest, last, frames + [f], inner.elems);
      assert (frames + [f])[..|frames|] == frames;
  }

  /** `parse` accepts exactly the well-nested, name-matched tag lists, and the tree is unique. */
  lemma TreeIffWellNested(tags: seq<Scanned>, last: string)
    ensures Tree(tags, last).Ok? ==>
      ValidElems(Tree(tags, last).value.elems) && Tags(Tree(tags, last).value.elems) == tags
          && Tree(tags, last).value.last == last
    ensures forall b: Body :: ValidElems(b.elems) && Tags(b.elems) == tags && b.last == last ==>
        Tree(tags, last) == Ok(b)
  {
    BuildSound(tags, last, [], []);
    assert FramesTags([]) + Tags([]) + tags == tags;
    forall b: Body | ValidElems(b.elems) && Tags(b.elems) == tags && b.last == last ensures Tree(tags, last) == Ok(b) {
      BuildComplete(b.elems, [], last, [], []);
      assert Tags(b.elems) + [] == tags && [] + b.elems == b.elems;
    }
  }

  // ----- parse -----

  /** The actions pushed so far: closed elements, and opening actions not matched yet. */
  function FramesActions(fs: seq<Frame>): seq<Action> {
    if fs == [] then []
    else
      var f, before := fs[|fs| - 1], FramesActions(fs[..|fs| - 1]);
      before + Actions(f.before, |before|) + [Action(OpenTag(f.inverted), f.name, 0, false)]
  }

  /** `blockPositions`: where the open sections begin. */
  function Positions(fs: seq<Frame>): (r: seq<nat>)
    ensures |r| == |fs|
  {
    if fs == [] then []
    else Positions(fs[..|fs| - 1]) + [|FramesActions(fs)| - 1]
  }

  ghost predicate Represents(actions: seq<Action>, positions: seq<nat>, frames: seq<Frame>, cur: seq<Elem>) {
    && actions == FramesActions(frames) + Actions(cur, |FramesActions(frames)|)
    && positions == Positions(frames)
  }

  lemma ActionsSnoc(es: seq<Elem>, e: Elem, off: nat)
    ensures Actions(es + [e], off) == Actions(es, off) + ElemActions(e, off + |Tags(es)|)
  {
    ActionsConcat(es, [e], off);
    assert [e][1..] == [];
    assert Actions([e], off + |Tags(es)|) == ElemActions(e, off + |Tags(es)|);
  }

  predicate MissingEndPair(a: Action) { (a.t == OpenBlock || a.t == ElseBlock) && !a.hasEndMatch }

  ghost predicate AllMatched(acts: seq<Action>) { forall a :: a in acts ==> !MissingEndPair(a) }

  lemma MatchedConcat(a: seq<Action>, b: seq<Action>)
    requires AllMatched(a) && AllMatched(b)
    ensures AllMatched(a + b)
  {
  }

  lemma {:induction false} ClosedActions(es: seq<Elem>, off: nat)
    requires ValidElems(es)
    ensures AllMatched(Actions(es, off))
    decreases es, 1
  {
    if es != [] {
      ValidRest(es);
      ClosedElem(es[0], off);
      ClosedActions(es[1..], off + |ElemTags(es[0])|);
      MatchedConcat(ElemActions(es[0], off), Actions(es[1..], off + |ElemTags(es[0])|));
    }
  }

  lemma {:induction false} ClosedElem(e: Elem, off: nat)
    requires ValidElem(e)
    ensures AllMatched(ElemActions(e, off))
    decreases e, 0
  {
    if e.Section? {
      var inner := Actions(e.inner.elems, off + 1);
      ClosedActions(e.inner.elems, off + 1);
      MatchedConcat([Action(OpenTag(e.inverted), e.name, off + 1 + |inner|, true)], inner);
      MatchedConcat([Action(OpenTag(e.inverted), e.name, off + 1 + |inner|, true)] + inner,
          [Action(CloseBlock, e.name, off, false)]);
    }
  }

  /** One tag on the action list and the position stack. */
  function PushAction(g: Scanned, actions: seq<Action>, positions: seq<nat>): Result<(seq<Action>, seq<nat>), Error>
    requires forall k :: k in positions ==> k < |actions|
  {
    match g.t
    case OpenBlock => Ok((actions + [Action(OpenBlock, g.name, 0, false)], positions + [|actions|]))
    case ElseBlock => Ok((actions + [Action(ElseBlock, g.name, 0, false)], positions + [|actions|]))
    case CloseBlock =>
      if positions == [] then Err(UNEXPECTED_CLOSING)
      else
        var k := positions[|positions| - 1];
        assert k in positions;
        if actions[k].name != g.name then Err(NOT_MATCHED)
        else Ok((actions[k := actions[k].(pos := |actions|, hasEndMatch := true)]
            + [Action(CloseBlock, g.name, k, false)],
                 positions[..|positions| - 1]))
    case _ => Ok((actions + [Action(g.t, g.name, 0, false)], positions))
  }

  lemma {:induction false} PositionsInside(frames: seq<Frame>)
    ensures forall k :: k in Positions(frames) ==> k < |FramesActions(frames)|
  {
    if frames != [] {
      PositionsInside(frames[..|frames| - 1]);
    }
  }

  lemma {:induction false} Opened(g: Scanned, actions: seq<Action>, frames: seq<Frame>, cur: seq<Elem>)
    requires g.t == OpenBlock || g.t == ElseBlock
    requires Represents(actions, Positions(frames), frames, cur)
    ensures var (frames', cur') := Shift(g, frames, cur).value;
      Represents(actions + [Action(g.t, g.name, 0, false)], Positions(frames) + [|actions|], frames', cur')
  {
    var f := Frame(cur, g.text, g.t == ElseBlock, g.name);
    assert (frames + [f])[..|frames|] == frames;
    assert FramesActions(frames + [f]) + Actions([], |FramesActions(frames + [f])|) == FramesActions(frames + [f]);
  }

  /** The position on top of the stack is that of the innermost open section. */
  lemma {:induction false} MatchedAction(actions: seq<Action>, frames: seq<Frame>, cur: seq<Elem>)
    requires Represents(actions, Positions(frames), frames, cur) && frames != []
    ensures var k, f := Positions(frames)[|frames| - 1], frames[|frames| - 1];
      k < |actions| && actions[k] == Action(OpenTag(f.inverted), f.name, 0, false)
  {
  }

  /** Patching the opening action and pushing the closing one. */
  lemma PatchAndPush(actions: seq<Action>, all: seq<Action>, before: seq<Action>, own: seq<Action>, open: Action,
      inner: seq<Action>, close: Action, section: seq<Action>)
    requires all == before + own + [open] && actions == all + inner
    requires section == own + ([open.(pos := |actions|, hasEndMatch := true)] + inner + [close])
    ensures var k := |all| - 1;
      && k == |before| + |own| && actions[k] == open
      && actions[k := open.(pos := |actions|, hasEndMatch := true)] + [close] == before + section
  {
    var done := open.(pos := |actions|, hasEndMatch := true);
    assert actions[|before| + |own| := done] == before + own + [done] + inner;
  }

  lemma {:induction false} FramesActionsSnoc(frames: seq<Frame>, f: Frame)
    ensures var before := FramesActions(frames);
      FramesActions(frames + [f]) ==
          before + Actions(f.before, |before|) + [Action(OpenTag(f.inverted), f.name, 0, false)]
  {
    assert (frames + [f])[..|frames|] == frames;
  }

  lemma {:induction false} SectionActions(f: Frame, cur: seq<Elem>, text: string, off: nat)
    ensures ElemActions(Section(f.text, f.inverted, f.name, Body(cur, text)), off)
         == [Action(OpenTag(f.inverted), f.name, off + 1 + |Actions(cur, off + 1)|, true)]
            + Actions(cur, off + 1) + [Action(CloseBlock, f.name, off, false)]
  {
  }

  lemma {:induction false} Closed(g: Scanned, actions: seq<Action>, f: Frame, frames: seq<Frame>, cur: seq<Elem>)
    requires actions == FramesActions(frames + [f]) + Actions(cur, |FramesActions(frames + [f])|)
    ensures var k := |FramesActions(frames + [f])| - 1;
      && 0 <= k < |actions|
      && actions[k := actions[k].(pos := |actions|, hasEndMatch := true)] + [Action(CloseBlock, f.name, k, false)]
      == FramesActions(frames)
         + Actions(f.before + [Section(f.text, f.inverted, f.name, Body(cur, g.text))], |FramesActions(frames)|)
  {
    var before, all := FramesActions(frames), FramesActions(frames + [f]);
    var own := Actions(f.before, |before|);
    var k := |before| + |own|;
    FramesActionsSnoc(frames, f);
    SectionSnoc(f, cur, g.text, |before|);
    var open, inner, close := Action(OpenTag(f.inverted), f.name, 0, false), Actions(cur, k + 1),
                              Action(CloseBlock, f.name, k, false);
    var section := Actions(f.before + [Section(f.text, f.inverted, f.name, Body(cur, g.text))], |before|);
    assert all == before + own + [open] && |all| == k + 1;
    assert actions == all + inner && |actions| == k + 1 + |inner|;
    PatchAndPush(actions, all, before, own, open, inner, close, section);
  }

  lemma {:induction false} SectionSnoc(f: Frame, cur: seq<Elem>, text: string, off: nat)
    ensures var own := Actions(f.before, off); var k := off + |own|; var inner := Actions(cur, k + 1);
      Actions(f.before + [Section(f.text, f.inverted, f.name, Body(cur, text))], off)
      == own + ([Action(OpenTag(f.inverted), f.name, k + 1 + |inner|, true)] + inner
          + [Action(CloseBlock, f.name, k, false)])
  {
    SectionActions(f, cur, text, off + |Actions(f.before, off)|);
    ActionsSnoc(f.before, Section(f.text, f.inverted, f.name, Body(cur, text)), off);
  }

  lemma {:induction false} LeafStep(g: Scanned, actions: seq<Action>, frames: seq<Frame>, cur: seq<Elem>)
    requires Represents(actions, Positions(frames), frames, cur)
    ensures Represents(actions + [Action(g.t, g.name, 0, false)], Positions(frames), frames,
        cur + [Leaf(g.text, g.t, g.name)])
  {
    ActionsSnoc(cur, Leaf(g.text, g.t, g.name), |FramesActions(frames)|);
  }

  lemma {:induction false} CloseStep(g: Scanned, actions: seq<Action>, positions: seq<nat>, frames: seq<Frame>,
      cur: seq<Elem>)
    requires Represents(actions, positions, frames, cur) && frames != [] && g.t == CloseBlock
    requires forall k :: k in positions ==> k < |actions|
    ensures var r := PushAction(g, actions, positions);
      if frames[|frames| - 1].name != g.name then r == Err(NOT_MATCHED)
      else
        var f := frames[|frames| - 1];
        r.Ok? && Represents(r.value.0, r.value.1, frames[..|frames| - 1],
                            f.before + [Section(f.text, f.inverted, f.name, Body(cur, g.text))])
  {
    var n := |frames| - 1;
    MatchedAction(actions, frames, cur);
    assert frames == frames[..n] + [frames[n]];
    Closed(g, actions, frames[n], frames[..n], cur);
    assert positions[..n] == Positions(frames[..n]);
  }

  /** Pushing actions and building the tree go in step, and refuse the same tags. */
  lemma {:induction false} PushSimulates(g: Scanned, actions: seq<Action>, positions: seq<nat>, frames: seq<Frame>,
      cur: seq<Elem>)
    requires Represents(actions, positions, frames, cur)
    ensures forall k :: k in positions ==> k < |actions|
    ensures var r, s := PushAction(g, actions, positions), Shift(g, frames, cur);
      if s.Err? then r == Err(s.error) else r.Ok? && Represents(r.value.0, r.value.1, s.value.0, s.value.1)
  {
    PositionsInside(frames);
    match g.t
    case OpenBlock => Opened(g, actions, frames, cur);
    case ElseBlock => Opened(g, actions, frames, cur);
    case CloseBlock => if frames != [] { CloseStep(g, actions, positions, frames, cur); }
    case _ => LeafStep(g, actions, frames, cur);
  }

  /** At the end: an opening action without its end is left exactly when a section is open. */
  lemma {:induction false} EndsAgree(actions: seq<Action>, positions: seq<nat>, frames: seq<Frame>, cur: seq<Elem>)
    requires Represents(actions, positions, frames, cur) && ValidElems(cur)
    ensures frames == [] ==> actions == Actions(cur, 0) && forall a :: a in actions ==> !MissingEndPair(a)
    ensures frames != [] ==> exists k :: 0 <= k < |actions| && MissingEndPair(actions[k])
  {
    if frames == [] {
      ClosedActions(cur, 0);
      assert FramesActions(frames) + Actions(cur, 0) == Actions(cur, 0);
    } else {
      MatchedAction(actions, frames, cur);
    }
  }

  class Parser {
    var actions: seq<Action>
    var positions: seq<nat>
    ghost var frames: seq<Frame>
    ghost var cur: seq<Elem>

    ghost predicate Valid()
      reads this
    {
      Represents(actions, positions, frames, cur) && ValidFrames(frames) && ValidElems(cur)
    }

    constructor ()
      ensures Valid() && frames == [] && cur == []
    {
      actions, positions, frames, cur := [], [], [], [];
    }

    /** One iteration of the loop. */
    method Push(g: Scanned) returns (r: Option<Error>)
      requires Valid()
      modifies this
      ensures r.None? ==> Valid() && Shift(g, old(frames), old(cur)) == Ok((frames, cur))
      ensures r.Some? ==> Shift(g, old(frames), old(cur)) == Err(r.value)
    {
      PushSimulates(g, actions, positions, frames, cur);
      r := PushTag(g);
      if r.None? {
        ShiftKeepsValid(g, frames, cur);
        frames, cur := Shift(g, frames, cur).value.0, Shift(g, frames, cur).value.1;
      }
    }

    /** One tag on the two vectors: an opening tag remembers its place, a closing tag patches
        the action it closes. */
    method PushTag(g: Scanned) returns (r: Option<Error>)
      requires forall k :: k in positions ==> k < |actions|
      modifies this`actions, this`positions
      ensures PushAction(g, old(actions), old(positions)) == if r.Some? then Err(r.value) else Ok((actions, positions))
    {
      if g.t == OpenBlock || g.t == ElseBlock {
        positions := positions + [|actions|];
        actions := actions + [Action(g.t, g.name, 0, false)];
      } else if g.t == CloseBlock {
        if positions == [] {
          return Some(UNEXPECTED_CLOSING);
        }
        var k := positions[|positions| - 1];
        assert k in positions;
        if actions[k].name != g.name {
          return Some(NOT_MATCHED);
        }
        actions := actions[k := actions[k].(pos := |actions|, hasEndMatch := true)];
        actions := actions + [Action(CloseBlock, g.name, k, false)];
        positions := positions[..|positions| - 1];
      } else {
        actions := actions + [Action(g.t, g.name, 0, false)];
      }
      return None;
    }
  }

  /** `parse` fails where building the section tree fails, and otherwise yields the tree's
      actions followed by the closing no-op. */
  method Parse(tags: seq<Scanned>, ghost last: string) returns (r: Result<seq<Action>, Error>)
    ensures match Tree(tags, last)
            case Ok(b) => r == Ok(Actions(b.elems, 0) + [Action(Ignore, "", 0, false)])
            case Err(e) => r == Err(e)
  {
    var parser := new Parser();
    var i := 0;
    while i < |tags|
      invariant i <= |tags|
      invariant fresh(parser) && parser.Valid()
      invariant Build(tags[i..], last, parser.frames, parser.cur) == Tree(tags, last)
    {
      assert tags[i..][1..] == tags[i + 1..];
      var failure := parser.Push(tags[i]);
      if failure.Some? {
        return Err(failure.value);
      }
      i := i + 1;
    }
    assert tags[i..] == [];
    EndsAgree(parser.actions, parser.positions, parser.frames, parser.cur);
    var all := parser.actions + [Action(Ignore, "", 0, false)];
    assert parser.frames != [] ==> exists k :: 0 <= k < |all| && MissingEndPair(all[k]) by {
      if parser.frames != [] {
        var k :| 0 <= k < |parser.actions| && MissingEndPair(parser.actions[k]);
        assert MissingEndPair(all[k]);
      }
    }
    r := CheckEnds(all);
  }

  /** The closing loop of `parse`: no opening tag may lack its end. */
  method CheckEnds(actions: seq<Action>) returns (r: Result<seq<Action>, Error>)
    ensures r == if exists k :: 0 <= k < |actions| && MissingEndPair(actions[k]) then Err(UNCLOSED) else Ok(actions)
  {
    var j := 0;
    while j < |actions|
      invariant j <= |actions|
      invariant forall k :: 0 <= k < j ==> !MissingEndPair(actions[k])
    {
      if MissingEndPair(actions[j]) {
        return Err(UNCLOSED);
      }
      j := j + 1;
    }
    return Ok(actions);
  }
}
