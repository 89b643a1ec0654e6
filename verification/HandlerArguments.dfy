/**
 * From matched parameters to handler arguments: the tag of a pattern (crow/utility.h) and the
 * `call<>` templates of crow/routing.h.
 */
module HandlerArguments {

  import opened Wrappers
  import opened Patterns

  // The base-6 tag decodes to the argument types; each argument is drawn from the vector of its type.

  /** int64_t, uint64_t, double and std::string. */
  datatype ArgType = I64 | U64 | F64 | Str

  function ArgTypeOf(v: Value): ArgType {
    match v
    case IntV(_) => I64
    case UintV(_) => U64
    case DoubleV(_) => F64
    case StringV(_) => Str
  }

  function ArgTypesOf(vs: seq<Value>): (r: seq<ArgType>)
    ensures |r| == |vs|
  {
    if vs == [] then [] else [ArgTypeOf(vs[0])] + ArgTypesOf(vs[1..])
  }

  // ----- call<F, NInt, NUint, NDouble, NString, ...> -----

  /** `call_pair`: a type and a position in the vector of that type. */
  datatype CallPair = CallPair(t: ArgType, pos: nat)

  /** The pairs pushed while the argument types are consumed, one counter per type. */
  function CallPairs(ts: seq<ArgType>, ni: nat, nu: nat, nd: nat, ns: nat): seq<CallPair> {
    if ts == [] then []
    else
      match ts[0]
      case I64 => [CallPair(I64, ni)] + CallPairs(ts[1..], ni + 1, nu, nd, ns)
      case U64 => [CallPair(U64, nu)] + CallPairs(ts[1..], ni, nu + 1, nd, ns)
      case F64 => [CallPair(F64, nd)] + CallPairs(ts[1..], ni, nu, nd + 1, ns)
      case Str => [CallPair(Str, ns)] + CallPairs(ts[1..], ni, nu, nd, ns + 1)
  }

  predicate InRange(p: CallPair, ps: Params) {
    match p.t
    case I64 => p.pos < |ps.ints|
    case U64 => p.pos < |ps.uints|
    case F64 => p.pos < |ps.doubles|
    case Str => p.pos < |ps.strings|
  }

  /** `params.get<type>(pos)` */
  function Get(p: CallPair, ps: Params): Value
    requires InRange(p, ps)
  {
    match p.t
    case I64 => IntV(ps.ints[p.pos])
    case U64 => UintV(ps.uints[p.pos])
    case F64 => DoubleV(ps.doubles[p.pos])
    case Str => StringV(ps.strings[p.pos])
  }

  /** `a` extends `b` in each of the four vectors. */
  predicate Extends(a: Params, b: Params) {
    b.ints <= a.ints && b.uints <= a.uints && b.doubles <= a.doubles && b.strings <= a.strings
  }

  lemma {:induction false} PushAllExtends(ps: Params, vs: seq<Value>)
    ensures Extends(PushAll(ps, vs), ps)
    decreases |vs|
  {
    if vs != [] {
      PushAllExtends(Push(ps, vs[0]), vs[1..]);
      assert Extends(Push(ps, vs[0]), ps);
    }
  }

  /** Splitting values over the four vectors and drawing them back by per-type counters
      gives the values in their original order. */
  lemma {:induction false} CallRestoresOrder(vs: seq<Value>, before: Params)
    ensures var pairs := CallPairs(ArgTypesOf(vs), |before.ints|, |before.uints|, |before.doubles|, |before.strings|);
      && |pairs| == |vs|
      && forall k :: 0 <= k < |vs| ==>
            InRange(pairs[k], PushAll(before, vs)) && Get(pairs[k], PushAll(before, vs)) == vs[k]
    decreases |vs|
  {
    if vs != [] {
      var mid := Push(before, vs[0]);
      CallRestoresOrder(vs[1..], mid);
      PushAllExtends(mid, vs[1..]);
      var rest := CallPairs(ArgTypesOf(vs[1..]), |mid.ints|, |mid.uints|, |mid.doubles|, |mid.strings|);
      var pairs := FirstCall(vs, before, rest);
      FirstAndRest(pairs, rest, vs, PushAll(before, vs));
    }
  }

  /** The first draw takes what the first push put there. */
  lemma FirstCall(vs: seq<Value>, before: Params, rest: seq<CallPair>) returns (pairs: seq<CallPair>)
    requires vs != []
    requires var mid := Push(before, vs[0]);
      && rest == CallPairs(ArgTypesOf(vs[1..]), |mid.ints|, |mid.uints|, |mid.doubles|, |mid.strings|)
      && Extends(PushAll(before, vs), mid)
    ensures pairs == CallPairs(ArgTypesOf(vs), |before.ints|, |before.uints|, |before.doubles|, |before.strings|)
    ensures |pairs| == 1 + |rest| && pairs[1..] == rest
    ensures InRange(pairs[0], PushAll(before, vs)) && Get(pairs[0], PushAll(before, vs)) == vs[0]
  {
    assert ArgTypesOf(vs)[1..] == ArgTypesOf(vs[1..]);
    pairs := CallPairs(ArgTypesOf(vs), |before.ints|, |before.uints|, |before.doubles|, |before.strings|);
    assert pairs[1..] == rest;
    assert InRange(pairs[0], Push(before, vs[0])) && Get(pairs[0], Push(before, vs[0])) == vs[0];
  }

  lemma FirstAndRest(pairs: seq<CallPair>, rest: seq<CallPair>, vs: seq<Value>, ps: Params)
    requires |pairs| == |vs| > 0 && pairs[1..] == rest
    requires InRange(pairs[0], ps) && Get(pairs[0], ps) == vs[0]
    requires forall k :: 0 <= k < |rest| ==> InRange(rest[k], ps) && Get(rest[k], ps) == vs[1..][k]
    ensures forall k :: 0 <= k < |vs| ==> InRange(pairs[k], ps) && Get(pairs[k], ps) == vs[k]
  {
    forall k | 0 < k < |vs| ensures InRange(pairs[k], ps) && Get(pairs[k], ps) == vs[k] {
      assert pairs[k] == rest[k - 1] && vs[1..][k - 1] == vs[k];
    }
  }

  // ----- get_parameter_tag and arguments<Tag> -----

  const TWO_64: nat := 0x1_0000_0000_0000_0000

  function TagDigit(t: ParamType): (d: nat)
    requires t != MAX
    ensures 1 <= d <= 5
  {
    match t
    case INT => 1
    case UINT => 2
    case DOUBLE => 3
    case STRING => 4
    case PATH => 5
  }

  /** `find_closing_tag` on a placeholder that is known to close. */
  function ClosingTag(s: string, p: nat): (r: Option<nat>)
    requires p <= |s|
    ensures r.Some? ==> p <= r.value < |s| && s[r.value] == '>'
    decreases |s| - p
  {
    if p == |s| then None else if s[p] == '>' then Some(p) else ClosingTag(s, p + 1)
  }

  /** `get_parameter_tag`, in 64-bit unsigned arithmetic; None stands for its exceptions. */
  function ParameterTag(s: string, p: nat): Option<nat>
    requires p <= |s|
    decreases |s| - p
  {
    if p == |s| then Some(0)
    else if s[p] == '<' then
      match (PlaceholderAt(s, p), ClosingTag(s, p))
      case (Some((t, _)), Some(q)) =>
        (match ParameterTag(s, q)
         case None => None
         case Some(sub) => Some((sub * 6 + TagDigit(t)) % TWO_64))
      case _ => None
    else ParameterTag(s, p + 1)
  }

  /** `single_tag_to_type` */
  function TypeOfDigit(d: nat): ArgType
    requires 1 <= d <= 5
  {
    if d == 1 then I64 else if d == 2 then U64 else if d == 3 then F64 else Str
  }

  /** `arguments<Tag>`; None where no type is defined for a digit. */
  function ArgumentsOfTag(tag: nat): Option<seq<ArgType>>
  {
    if tag == 0 then Some([])
    else
      match ArgumentsOfTag(tag / 6)
      case None => None
      case Some(sub) => if tag % 6 == 0 then None else Some([TypeOfDigit(tag % 6)] + sub)
  }

  /** The parameter types of a pattern, in order. */
  function ParamsOf(ts: seq<Token>): seq<ParamType>
  {
    if ts == [] then [] else (if ts[0].Par? then [ts[0].t] else []) + ParamsOf(ts[1..])
  }

  function ArgTypeOfParam(t: ParamType): ArgType
    requires t != MAX
  {
    match t
    case INT => I64
    case UINT => U64
    case DOUBLE => F64
    case _ => Str
  }

  predicate NoMax(ps: seq<ParamType>) { MAX !in ps }

  function ArgTypesOfParams(ps: seq<ParamType>): seq<ArgType>
    requires NoMax(ps)
  {
    if ps == [] then [] else [ArgTypeOfParam(ps[0])] + ArgTypesOfParams(ps[1..])
  }

  /** The tag before any wrap-around: the digits in base 6, first parameter lowest. */
  function ExactTag(ps: seq<ParamType>): nat
    requires NoMax(ps)
  {
    if ps == [] then 0 else ExactTag(ps[1..]) * 6 + TagDigit(ps[0])
  }

  function Pow6(n: nat): nat { if n == 0 then 1 else 6 * Pow6(n - 1) }

  lemma {:induction false} ExactTagBound(ps: seq<ParamType>)
    requires NoMax(ps)
    ensures ExactTag(ps) < Pow6(|ps|)
  {
    if ps != [] {
      ExactTagBound(ps[1..]);
    }
  }

  lemma {:induction false} Pow6Monotone(m: nat, n: nat)
    requires m <= n
    ensures Pow6(m) <= Pow6(n)
  {
    if m < n {
      Pow6Monotone(m, n - 1);
    }
  }

  /** Decoding the exact tag gives the parameter types back, in pattern order. */
  lemma {:induction false} TagDecodes(ps: seq<ParamType>)
    requires NoMax(ps)
    ensures ArgumentsOfTag(ExactTag(ps)) == Some(ArgTypesOfParams(ps))
  {
    if ps != [] {
      TagDecodes(ps[1..]);
      var tag := ExactTag(ps);
      assert tag / 6 == ExactTag(ps[1..]) && tag % 6 == TagDigit(ps[0]);
    }
  }

  // ----- The computed tag -----

  lemma WrappedDigit(x: nat, d: nat)
    ensures (x % TWO_64 * 6 + d) % TWO_64 == (x * 6 + d) % TWO_64
  {
    var q := x / TWO_64;
    assert x * 6 + d == (x % TWO_64 * 6 + d) + (6 * q) * TWO_64;
    AddMultiple(x % TWO_64 * 6 + d, 6 * q);
  }

  lemma {:induction false} AddMultiple(a: nat, k: nat)
    ensures (a + k * TWO_64) % TWO_64 == a % TWO_64
    decreases k
  {
    if k > 0 {
      AddMultiple(a, k - 1);
      var b := a + (k - 1) * TWO_64;
      assert (b + TWO_64) % TWO_64 == b % TWO_64;
      assert a + k * TWO_64 == b + TWO_64;
    }
  }

  /** A placeholder closes at its own last character. */
  lemma ClosesAtEnd(s: string, p: nat)
    requires p <= |s| && PlaceholderAt(s, p).Some?
    ensures var n := PlaceholderAt(s, p).value.1;
      && ClosingTag(s, p) == Some(p + n - 1)
      && forall k :: p <= k < p + n ==> s[k] != '\0'
  {
    var n := PlaceholderAt(s, p).value.1;
    TableIsValid();
    assert PlaceholderIn(PLACEHOLDERS, s, p) == PlaceholderAt(s, p);
    ClosingTagIs(s, p, p + n - 1);
  }

  lemma {:induction false} ClosingTagIs(s: string, p: nat, q: nat)
    requires p <= q < |s| && s[q] == '>' && forall k :: p <= k < q ==> s[k] != '>'
    ensures ClosingTag(s, p) == Some(q)
    decreases q - p
  {
    if p < q {
      ClosingTagIs(s, p + 1, q);
    }
  }

  lemma TagSkipsPlaceholder(s: string, p: nat)
    requires p < |s| && s[p] == '<' && PlaceholderAt(s, p).Some?
    ensures var (t, n) := PlaceholderAt(s, p).value;
      && '\0' !in s[p..p + n]
      && ParameterTag(s, p) ==
         match ParameterTag(s, p + n) {
           case None => None
           case Some(sub) => Some((sub * 6 + TagDigit(t)) % TWO_64)
         }
  {
    var n := PlaceholderAt(s, p).value.1;
    ClosesAtEnd(s, p);
    assert ParameterTag(s, p + n - 1) == ParameterTag(s, p + n);
  }

  /** The tag computation succeeds exactly on the patterns `add` can read (NUL aside). */
  lemma {:induction false} TagDefined(s: string, p: nat)
    requires p <= |s|
    ensures ValidFrom(s, p) <==> ParameterTag(s, p).Some? && '\0' !in s[p..]
    decreases |s| - p
  {
    if p < |s| {
      var n := if s[p] != '<' then 1 else if PlaceholderAt(s, p).Some? then PlaceholderAt(s, p).value.1 else 0;
      if n > 0 {
        if s[p] == '<' {
          TagSkipsPlaceholder(s, p);
        }
        TagDefined(s, p + n);
        assert s[p..] == s[p..p + n] + s[p + n..];
      }
    }
  }

  lemma ParamsOfCons(t: Token, ts: seq<Token>)
    ensures ParamsOf([t] + ts) == (if t.Par? then [t.t] else []) + ParamsOf(ts)
  {
    assert ([t] + ts)[1..] == ts;
  }

  /** One more digit in front, reduced to 64 bits. */
  lemma TagOfCons(t: ParamType, ps: seq<ParamType>)
    requires t != MAX && NoMax(ps)
    ensures NoMax([t] + ps)
    ensures (ExactTag(ps) % TWO_64 * 6 + TagDigit(t)) % TWO_64 == ExactTag([t] + ps) % TWO_64
  {
    assert ([t] + ps)[1..] == ps;
    WrappedDigit(ExactTag(ps), TagDigit(t));
  }

  lemma TagOfPlaceholder(s: string, p: nat, t: ParamType, n: nat, x: nat)
    requires p < |s| && s[p] == '<' && PlaceholderAt(s, p) == Some((t, n)) && ParameterTag(s, p + n) == Some(x)
    ensures ParameterTag(s, p) == Some((x * 6 + TagDigit(t)) % TWO_64)
  {
    TagSkipsPlaceholder(s, p);
  }

  lemma TokenIs(s: string, p: nat)
    requires p < |s| && ValidFrom(s, p)
    ensures var (t, next) := TokenAt(s, p);
      if s[p] == '<' then t.Par? && PlaceholderAt(s, p) == Some((t.t, next - p)) else t == Lit(s[p]) && next == p + 1
  {
  }

  /** The tag with one more token in front: a placeholder adds a digit, a literal nothing. */
  function TagWith(t: Token, x: nat): nat
    requires t.Par? ==> t.t != MAX
  {
    if t.Par? then (x * 6 + TagDigit(t.t)) % TWO_64 else x
  }

  lemma TagStep(s: string, p: nat, x: nat)
    requires p < |s| && ValidFrom(s, p) && ParameterTag(s, TokenAt(s, p).1) == Some(x)
    ensures ParameterTag(s, p) == Some(TagWith(TokenAt(s, p).0, x))
  {
    TokenIs(s, p);
    TagStepAt(s, p, TokenAt(s, p).0, TokenAt(s, p).1, x);
  }

  lemma TagStepAt(s: string, p: nat, t: Token, next: nat, x: nat)
    requires p < next <= |s| && ParameterTag(s, next) == Some(x)
    requires if s[p] == '<' then t.Par? && PlaceholderAt(s, p) == Some((t.t, next - p)) else t.Lit? && next == p + 1
    ensures ParameterTag(s, p) == Some(TagWith(t, x))
  {
    if s[p] == '<' {
      TagOfPlaceholder(s, p, t.t, next - p, x);
    }
  }

  lemma TokensCons(s: string, p: nat)
    requires p < |s| && ValidFrom(s, p)
    ensures TokensFrom(s, p) == [TokenAt(s, p).0] + TokensFrom(s, TokenAt(s, p).1)
  {
  }

  lemma TagOfTokens(tag: nat, t: Token, ts: seq<Token>, all: seq<Token>)
    requires NoMax(ParamsOf(ts)) && (t.Par? ==> t.t != MAX) && all == [t] + ts
    requires tag == TagWith(t, ExactTag(ParamsOf(ts)) % TWO_64)
    ensures NoMax(ParamsOf(all)) && tag == ExactTag(ParamsOf(all)) % TWO_64
  {
    ParamsOfCons(t, ts);
    if t.Par? {
      TagOfCons(t.t, ParamsOf(ts));
    } else {
      assert [] + ParamsOf(ts) == ParamsOf(ts);
    }
  }

  /** It yields the base-6 number of the parameter types, reduced to 64 bits. */
  lemma {:induction false} TagOfPattern(s: string, p: nat)
    requires p <= |s| && ValidFrom(s, p)
    ensures NoMax(ParamsOf(TokensFrom(s, p)))
    ensures ParameterTag(s, p) == Some(ExactTag(ParamsOf(TokensFrom(s, p))) % TWO_64)
    decreases |s| - p
  {
    if p < |s| {
      var next := TokenAt(s, p).1;
      TagOfPattern(s, next);
      TagStep(s, p, ParameterTag(s, next).value);
      TokensCons(s, p);
      TagOfTokens(ParameterTag(s, p).value, TokenAt(s, p).0, TokensFrom(s, next), TokensFrom(s, p));
    }
  }

  lemma {:induction false} CapturedTypes(ts: seq<Token>, url: string, pos: nat, strtod: Strtod)
    requires pos <= |url| && NoMax(ParamsOf(ts)) && Captured(ts, url, pos, strtod).Some?
    ensures ArgTypesOf(Captured(ts, url, pos, strtod).value) == ArgTypesOfParams(ParamsOf(ts))
    decreases |ts|
  {
    if ts != [] {
      match ts[0]
      case Lit(c) =>
        assert ParamsOf(ts) == ParamsOf(ts[1..]);
        CapturedTypes(ts[1..], url, pos + 1, strtod);
      case Par(t) =>
        assert ParamsOf(ts) == [t] + ParamsOf(ts[1..]);
        assert ParamsOf(ts)[1..] == ParamsOf(ts[1..]);
        var (v, e) := Capture(t, url, pos, strtod).value;
        CapturedTypes(ts[1..], url, e, strtod);
        var vs := Captured(ts[1..], url, e, strtod).value;
        assert ([v] + vs)[1..] == vs;
    }
  }

  /** The arguments a handler registered for `pattern` is called with. */
  function HandlerArgs(tag: nat, ps: Params): Option<seq<Value>> {
    match ArgumentsOfTag(tag)
    case None => None
    case Some(types) => GetAll(CallPairs(types, 0, 0, 0, 0), ps)
  }

  function GetAll(pairs: seq<CallPair>, ps: Params): Option<seq<Value>> {
    if pairs == [] then Some([])
    else if !InRange(pairs[0], ps) then None
    else
      match GetAll(pairs[1..], ps)
      case None => None
      case Some(vs) => Some([Get(pairs[0], ps)] + vs)
  }

  lemma {:induction false} GetAllPointwise(pairs: seq<CallPair>, ps: Params, vs: seq<Value>)
    requires |pairs| == |vs|
    requires forall k :: 0 <= k < |vs| ==> InRange(pairs[k], ps) && Get(pairs[k], ps) == vs[k]
    ensures GetAll(pairs, ps) == Some(vs)
  {
    if pairs != [] {
      GetAllPointwise(pairs[1..], ps, vs[1..]);
      assert vs == [vs[0]] + vs[1..];
    }
  }

  lemma PowersOfSix()
    ensures Pow6(24) == 4738381338321616896
    ensures Pow6(25) == 28430288029929701376
  {
    assert Pow6(8) == 1679616;
    assert Pow6(16) == 2821109907456;
  }

  lemma TagFits(ps: seq<ParamType>)
    requires NoMax(ps) && |ps| <= 24
    ensures ExactTag(ps) < TWO_64
  {
    ExactTagBound(ps);
    Pow6Monotone(|ps|, 24);
    PowersOfSix();
  }

  // ----- Beyond 24 parameters -----

  lemma {:induction false} DecodedLength(tag: nat)
    ensures var r := ArgumentsOfTag(tag); r.Some? && r.value != [] ==> Pow6(|r.value| - 1) <= tag
  {
    if tag != 0 {
      DecodedLength(tag / 6);
    }
  }

  /** The last decoded type comes from the leading base-6 digit. */
  lemma {:induction false} DecodedLast(tag: nat, n: nat) returns (d: nat)
    requires var r := ArgumentsOfTag(tag); r.Some? && |r.value| == n + 1
    ensures 1 <= d <= 5
    ensures d * Pow6(n) <= tag < (d + 1) * Pow6(n)
    ensures ArgumentsOfTag(tag).value[n] == TypeOfDigit(d)
    decreases n
  {
    if n > 0 {
      d := DecodedLast(tag / 6, n - 1);
      var p := Pow6(n - 1);
      assert Pow6(n) == 6 * p;
      assert d * (6 * p) == 6 * (d * p);
      assert (d + 1) * (6 * p) == 6 * ((d + 1) * p);
    } else {
      assert ArgumentsOfTag(tag / 6).value == [];
      DecodedEmpty(tag / 6);
      d := tag % 6;
    }
  }

  lemma DecodedEmpty(tag: nat)
    requires ArgumentsOfTag(tag) == Some([])
    ensures tag == 0
  {
  }

  lemma {:induction false} TypesLength(ps: seq<ParamType>)
    requires NoMax(ps)
    ensures |ArgTypesOfParams(ps)| == |ps|
  {
    if ps != [] {
      TypesLength(ps[1..]);
    }
  }

  lemma LeadingDigits(e: nat, dw: nat, de: nat)
    requires TWO_64 <= e < Pow6(25)
    requires 1 <= dw <= 5 && dw * Pow6(24) <= e - TWO_64
    requires 1 <= de <= 5 && e < (de + 1) * Pow6(24)
    ensures TypeOfDigit(dw) != TypeOfDigit(de)
  {
    PowersOfSix();
  }

  /** 25 parameters: the wrapped tag has a smaller leading digit. */
  lemma WrappedTagDiffers(e: nat, ps: seq<ParamType>)
    requires NoMax(ps) && |ps| == 25 && ExactTag(ps) == e && TWO_64 <= e
    ensures ArgumentsOfTag(e - TWO_64) != Some(ArgTypesOfParams(ps))
  {
    ExactTagBound(ps);
    TypesLength(ps);
    TagDecodes(ps);
    if ArgumentsOfTag(e - TWO_64) == Some(ArgTypesOfParams(ps)) {
      var dw := DecodedLast(e - TWO_64, 24);
      var de := DecodedLast(e, 24);
      LeadingDigits(e, dw, de);
      assert false;
    }
  }

  /** More than 25 parameters: a 64-bit tag has too few digits. */
  lemma TooManyDigits(w: nat, ps: seq<ParamType>)
    requires w < TWO_64 && NoMax(ps) && |ps| > 25
    ensures ArgumentsOfTag(w) != Some(ArgTypesOfParams(ps))
  {
    DecodedLength(w);
    TypesLength(ps);
    Pow6Monotone(25, |ps| - 1);
    PowersOfSix();
  }

  lemma WrapsOnce(e: nat)
    requires TWO_64 <= e < 2 * TWO_64
    ensures e % TWO_64 == e - TWO_64
  {
  }

  /** The 64-bit tag decodes to the pattern's types exactly when it did not wrap. */
  lemma TagDecodesIffItFits(ps: seq<ParamType>)
    requires NoMax(ps)
    ensures ArgumentsOfTag(ExactTag(ps) % TWO_64) == Some(ArgTypesOfParams(ps)) <==> ExactTag(ps) < TWO_64
  {
    var e := ExactTag(ps);
    if e < TWO_64 {
      TagDecodes(ps);
    } else {
      WrappedTagFails(e, ps);
    }
  }

  lemma WrappedTagFails(e: nat, ps: seq<ParamType>)
    requires NoMax(ps) && ExactTag(ps) == e && TWO_64 <= e
    ensures ArgumentsOfTag(e % TWO_64) != Some(ArgTypesOfParams(ps))
  {
    if |ps| > 25 {
      TooManyDigits(e % TWO_64, ps);
    } else {
      ExactlyTwentyFive(ps);
      WrapsOnce(e);
      WrappedTagDiffers(e, ps);
    }
  }

  lemma ExactlyTwentyFive(ps: seq<ParamType>)
    requires NoMax(ps) && TWO_64 <= ExactTag(ps) && |ps| <= 25
    ensures |ps| == 25 && ExactTag(ps) < 2 * TWO_64
  {
    if |ps| < 25 {
      TagFits(ps);
    } else {
      ExactTagBound(ps);
      PowersOfSix();
    }
  }

  // ----- The handler's arguments -----

  lemma {:induction false} GetAllTypes(types: seq<ArgType>, ni: nat, nu: nat, nd: nat, ns: nat, ps: Params)
    requires GetAll(CallPairs(types, ni, nu, nd, ns), ps).Some?
    ensures ArgTypesOf(GetAll(CallPairs(types, ni, nu, nd, ns), ps).value) == types
    decreases |types|
  {
    if types != [] {
      var pairs := CallPairs(types, ni, nu, nd, ns);
      var vs := GetAll(pairs, ps).value;
      var (i, u, d, n) := match types[0]
        case I64 => (ni + 1, nu, nd, ns)
        case U64 => (ni, nu + 1, nd, ns)
        case F64 => (ni, nu, nd + 1, ns)
        case Str => (ni, nu, nd, ns + 1);
      assert pairs[1..] == CallPairs(types[1..], i, u, d, n);
      GetAllTypes(types[1..], i, u, d, n, ps);
      assert vs[1..] == GetAll(pairs[1..], ps).value;
    }
  }

  /** A tag that decodes to the types of some values draws exactly them, and no other tag does. */
  lemma ArgsOfValues(tag: nat, vs: seq<Value>)
    ensures HandlerArgs(tag, PushAll(NO_PARAMS, vs)) == Some(vs) <==> ArgumentsOfTag(tag) == Some(ArgTypesOf(vs))
  {
    var ps := PushAll(NO_PARAMS, vs);
    if ArgumentsOfTag(tag) == Some(ArgTypesOf(vs)) {
      CallRestoresOrder(vs, NO_PARAMS);
      GetAllPointwise(CallPairs(ArgTypesOf(vs), 0, 0, 0, 0), ps, vs);
    }
    if HandlerArgs(tag, ps) == Some(vs) {
      GetAllTypes(ArgumentsOfTag(tag).value, 0, 0, 0, 0, ps);
    }
  }

  /** A handler is called with the values its pattern takes from the URL, each of its own type,
      in URL order, exactly when the pattern's tag fits 64 bits. */
  lemma HandlerGetsUrlOrder(pattern: string, url: string, strtod: Strtod)
    requires ValidPattern(pattern) && Captured(Tokens(pattern), url, 0, strtod).Some?
    ensures ParameterTag(pattern, 0).Some? && NoMax(ParamsOf(Tokens(pattern)))
    ensures var vs := Captured(Tokens(pattern), url, 0, strtod).value;
      HandlerArgs(ParameterTag(pattern, 0).value, PushAll(NO_PARAMS, vs)) == Some(vs)
      <==> ExactTag(ParamsOf(Tokens(pattern))) < TWO_64
  {
    var ts := Tokens(pattern);
    TagOfPattern(pattern, 0);
    CapturedTypes(ts, url, 0, strtod);
    TagDecodesIffItFits(ParamsOf(ts));
    ArgsOfValues(ParameterTag(pattern, 0).value, Captured(ts, url, 0, strtod).value);
  }

  /** It always does up to 24 parameters. */
  lemma TwentyFourFit(pattern: string)
    requires ValidPattern(pattern) && |ParamsOf(Tokens(pattern))| <= 24
    ensures NoMax(ParamsOf(Tokens(pattern))) && ExactTag(ParamsOf(Tokens(pattern))) < TWO_64
  {
    TagOfPattern(pattern, 0);
    TagFits(ParamsOf(Tokens(pattern)));
  }

  function Paths(n: nat): (ps: seq<ParamType>)
    ensures |ps| == n && NoMax(ps)
  {
    if n == 0 then [] else [PATH] + Paths(n - 1)
  }

  lemma {:induction false} PathsTag(n: nat)
    ensures ExactTag(Paths(n)) == Pow6(n) - 1
  {
    if n > 0 {
      PathsTag(n - 1);
      assert Paths(n)[1..] == Paths(n - 1);
    }
  }

  /** 25 `<path>` parameters do not: their tag wraps and decodes to other types. */
  lemma TwentyFivePathsWrap()
    ensures ExactTag(Paths(25)) >= TWO_64
    ensures ArgumentsOfTag(ExactTag(Paths(25)) % TWO_64) != Some(ArgTypesOfParams(Paths(25)))
  {
    PathsTag(25);
    PowersOfSix();
    TagDecodesIffItFits(Paths(25));
  }
}
