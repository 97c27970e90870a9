/**
 * RDDL expressions. The parser hands over nested tagged tuples such as
 * `('+', (e1, e2))` or `('pvar_expr', ('move', ['?x']))`; an Expression wraps
 * one such node and classifies it by its leading tag. Nodes are modelled as
 * the Python values they are (strings, tuples and lists, nested Expression
 * objects, literals, None), since the scope walk depends on their layout.
 */
module Expr {
  import opened Wrappers
  import opened Strings

  /** A literal payload of a `number` or `boolean` node; a float is kept as a real and never computed on. */
  datatype Literal = BoolVal(b: bool) | IntVal(i: int) | FloatVal(f: real)

  datatype SeqKind = TupleKind | ListKind

  /** A Python value occurring in a parse tree. */
  datatype Raw =
    | Str(s: string)
    | Seq(kind: SeqKind, items: seq<Raw>)
    | Wrap(e: Expression)
    | Lit(v: Literal)
    | Null

  /** The ValueError raised by the guarded accessors. */
  datatype Error = ValueError(msg: string)

  datatype Result<T> = Ok(value: T) | Err(error: Error)

  /** `etype`: a (category, subtype) pair; the subtype is a payload value for four tags. */
  datatype EType = EType(category: string, subtype: Raw)

  const PVAR_TAG := "pvar_expr"
  /** The category and subtype of an unrecognised tag, spelled as the source spells it. */
  const UNKNOWN := "UNKOWN"
  const CONSTANT_TAGS := ["number", "boolean"]
  /** Tags whose etype subtype is the first element of the payload. */
  const PAYLOAD_HEAD_TAGS := ["pvar_expr", "penum_expr", "randomvar", "func"]
  const ARITHMETIC_TAGS := ["+", "-", "*", "/"]
  const BOOLEAN_TAGS := ["^", "&", "|", "~", "=>", "<=>"]
  const RELATIONAL_TAGS := [">=", "<=", "<", ">", "==", "~="]
  const AGGREGATION_TAGS := ["sum", "prod", "avg", "max", "min", "forall", "exists"]
  const VOCABULARY := CONSTANT_TAGS + PAYLOAD_HEAD_TAGS + ARITHMETIC_TAGS + BOOLEAN_TAGS
                      + RELATIONAL_TAGS + AGGREGATION_TAGS + ["if"]

  /** Values that support `x[i]` and iteration: str, tuple, list, and Expression (via `__getitem__`). */
  predicate Indexable(r: Raw)
  {
    match r
    case Str(_) => true
    case Seq(_, _) => true
    case Wrap(e) => Indexable(e.expr)
    case _ => false
  }

  /** The elements `x[0], x[1], ...`; a str yields its one-character strings. */
  function Items(r: Raw): (xs: seq<Raw>)
    requires Indexable(r)
    ensures forall a :: a in xs ==> a.Str? || a < r
  {
    match r
    case Str(s) => seq(|s|, i requires 0 <= i < |s| => Str([s[i]]))
    case Seq(_, ys) => ys
    case Wrap(e) => Items(e.expr)
  }

  /** Values that support `len(x)` (an Expression does not). */
  predicate HasLen(r: Raw)
  {
    r.Str? || r.Seq?
  }

  /** `len(params) if params is not None else 0` */
  function ParamCount(params: Raw): nat
    requires params.Null? || HasLen(params)
  {
    if params.Null? then 0 else |Items(params)|
  }

  /** `str(type(x))` */
  function TypeName(r: Raw): string
  {
    match r
    case Str(_) => "<class 'str'>"
    case Seq(TupleKind, _) => "<class 'tuple'>"
    case Seq(ListKind, _) => "<class 'list'>"
    case Wrap(_) => "<class 'pyrddl.expr.Expression'>"
    case Lit(BoolVal(_)) => "<class 'bool'>"
    case Lit(IntVal(_)) => "<class 'int'>"
    case Lit(FloatVal(_)) => "<class 'float'>"
    case Null => "<class 'NoneType'>"
  }

  /** A `(functor, params)` pair that `_pvar_to_name` can format. */
  predicate PvarPairNameable(pair: Raw)
  {
    && Indexable(pair) && 2 <= |Items(pair)|
    && Items(pair)[0].Str?
    && (Items(pair)[1].Null? || HasLen(Items(pair)[1]))
  }

  /** `_pvar_to_name`: the `functor/arity` name of a `(functor, params)` pair. */
  function PvarToName(pair: Raw): (name: string)
    requires PvarPairNameable(pair)
    ensures ParseFluentName(name) == Some((Items(pair)[0].s, ParamCount(Items(pair)[1])))
  {
    FluentNameRoundTrip(Items(pair)[0].s, ParamCount(Items(pair)[1]));
    FluentName(Items(pair)[0].s, ParamCount(Items(pair)[1]))
  }

  datatype Expression = Expression(expr: Raw) {

    predicate HasTag()
    {
      Indexable(expr) && 1 <= |Items(expr)|
    }

    /** `self._expr[0]` */
    function Tag(): Raw
      requires HasTag()
    {
      Items(expr)[0]
    }

    /** `self._expr[0] == t` (a non-string never equals a string). */
    predicate TagIs(t: string)
      requires HasTag()
    {
      Tag() == Str(t)
    }

    /** `self._expr[0] in ts` */
    predicate TagIn(ts: seq<string>)
      requires HasTag()
    {
      Tag().Str? && Tag().s in ts
    }

    predicate HasPayload()
    {
      HasTag() && 2 <= |Items(expr)|
    }

    /** `self._expr[1]` */
    function Payload(): Raw
      requires HasPayload()
    {
      Items(expr)[1]
    }

    /** `self._expr[1][n - 1]` exists. */
    predicate PayloadHas(n: nat)
    {
      HasPayload() && Indexable(Payload()) && n <= |Items(Payload())|
    }

    /** `etype` evaluates without an IndexError or TypeError. */
    predicate EtypeDefined()
    {
      && HasTag()
      && (TagIn(CONSTANT_TAGS) ==> HasPayload())
      && (TagIn(PAYLOAD_HEAD_TAGS) ==> PayloadHas(1))
    }

    /** `etype`: total over the tag; an unrecognised tag is reported, never raised. */
    function Etype(): (r: EType)
      requires EtypeDefined()
      ensures r.category == UNKNOWN <==> !TagIn(VOCABULARY)
    {
      if TagIn(CONSTANT_TAGS) then EType("constant", Str(TypeName(Payload())))
      else if TagIs("pvar_expr") then EType("pvar", Items(Payload())[0])
      else if TagIs("penum_expr") then EType("penum", Items(Payload())[0])
      else if TagIs("randomvar") then EType("randomvar", Items(Payload())[0])
      else if TagIn(ARITHMETIC_TAGS) then EType("arithmetic", Tag())
      else if TagIn(BOOLEAN_TAGS) then EType("boolean", Tag())
      else if TagIn(RELATIONAL_TAGS) then EType("relational", Tag())
      else if TagIs("func") then EType("func", Items(Payload())[0])
      else if TagIs("sum") then EType("aggregation", Str("sum"))
      else if TagIs("prod") then EType("aggregation", Str("prod"))
      else if TagIs("avg") then EType("aggregation", Str("avg"))
      else if TagIs("max") then EType("aggregation", Str("maximum"))
      else if TagIs("min") then EType("aggregation", Str("minimum"))
      else if TagIs("forall") then EType("aggregation", Str("forall"))
      else if TagIs("exists") then EType("aggregation", Str("exists"))
      else if TagIs("if") then EType("control", Str("if"))
      else EType(UNKNOWN, Str(UNKNOWN))
    }

    /** `args` evaluates without an IndexError or TypeError. */
    predicate ArgsDefined()
    {
      && HasTag()
      && (TagIn(VOCABULARY) ==> HasPayload())
      && (TagIn(["randomvar", "func"]) ==> PayloadHas(2))
    }

    /** `args`: the payload, its second element for randomvar and func, `[]` for an unknown tag. */
    function Args(): (r: Raw)
      requires ArgsDefined()
      ensures TagIn(["randomvar", "func"]) ==> r == Items(Payload())[1]
      ensures TagIn(VOCABULARY) && !TagIn(["randomvar", "func"]) ==> r == Payload()
      ensures !TagIn(VOCABULARY) ==> r == Seq(ListKind, [])
    {
      if TagIn(CONSTANT_TAGS) then Payload()
      else if TagIs("pvar_expr") then Payload()
      else if TagIs("penum_expr") then Payload()
      else if TagIs("randomvar") then Items(Payload())[1]
      else if TagIn(ARITHMETIC_TAGS) then Payload()
      else if TagIn(BOOLEAN_TAGS) then Payload()
      else if TagIn(RELATIONAL_TAGS) then Payload()
      else if TagIs("func") then Items(Payload())[1]
      else if TagIn(AGGREGATION_TAGS) then Payload()
      else if TagIs("if") then Payload()
      else Seq(ListKind, [])
    }

    /** `is_constant_expression()` */
    predicate IsConstantExpression()
      requires EtypeDefined()
      ensures IsConstantExpression() <==> TagIn(CONSTANT_TAGS)
    {
      Etype().category == "constant"
    }

    /** `is_pvariable_expression()` */
    predicate IsPvariableExpression()
      requires EtypeDefined()
      ensures IsPvariableExpression() <==> TagIs(PVAR_TAG)
    {
      Etype().category == "pvar"
    }

    /** `name` evaluates without an error other than its own ValueError. */
    predicate NameDefined()
    {
      EtypeDefined() && (IsPvariableExpression() ==> PvarPairNameable(Payload()))
    }

    /** `name`: the `functor/arity` of a pvariable expression; ValueError on any other. */
    function Name(): (r: Result<string>)
      requires NameDefined()
      ensures r.Err? <==> !TagIs(PVAR_TAG)
      ensures r.Err? ==> r.error == ValueError("Expression is not a pvariable.")
      ensures r.Ok? ==> ParseFluentName(r.value) == Some((Items(Payload())[0].s, ParamCount(Items(Payload())[1])))
    {
      if !IsPvariableExpression() then Err(ValueError("Expression is not a pvariable."))
      else Ok(PvarToName(Args()))
    }

    /** `scope` evaluates without an error. */
    predicate ScopeDefined()
    {
      WalkOk(expr)
    }

    /**
     * `scope`: the names of the pvariables the walk of this node finds, that
     * is the scopes of the nested nodes before the first 'pvar_expr' string
     * and the name of the pair after it.
     */
    function Scope(): (r: set<string>)
      requires ScopeDefined()
      ensures forall x :: x in r <==> FoundBefore(Items(expr), 0, PvarTagFrom(expr, 0), x) || x in StopNames(expr, 0)
    {
      ScopeOfCharacterized(expr);
      ScopeOf(expr)
    }

    /** `value`: the literal of a constant expression, unchanged; ValueError on any other. */
    function Value(): (r: Result<Raw>)
      requires EtypeDefined()
      ensures r.Ok? <==> TagIn(CONSTANT_TAGS)
      ensures r.Ok? ==> r.value == Items(expr)[1]
      ensures r.Err? ==> r.error == ValueError("Expression is not a number.")
    {
      if !IsConstantExpression() then Err(ValueError("Expression is not a number."))
      else Ok(Args())
    }
  }

  /** The subtype reported for each aggregation tag: `max` and `min` are spelled out. */
  const AGGREGATION_SUBTYPES: map<string, string> := map[
    "sum" := "sum", "prod" := "prod", "avg" := "avg", "max" := "maximum", "min" := "minimum",
    "forall" := "forall", "exists" := "exists"]

  /** The category of each tag whose subtype is read from the payload. */
  const PAYLOAD_HEAD_CATEGORIES: map<string, string> := map[
    "pvar_expr" := "pvar", "penum_expr" := "penum", "randomvar" := "randomvar", "func" := "func"]

  /** An arithmetic operator is classified under its own symbol. */
  lemma EtypeOfArithmetic(e: Expression)
    requires e.EtypeDefined() && e.TagIn(ARITHMETIC_TAGS)
    ensures e.Etype() == EType("arithmetic", e.Tag())
  {
    assert !e.TagIn(CONSTANT_TAGS) && !e.TagIn(PAYLOAD_HEAD_TAGS);
  }

  /** A boolean connective is classified under its own symbol. */
  lemma EtypeOfBoolean(e: Expression)
    requires e.EtypeDefined() && e.TagIn(BOOLEAN_TAGS)
    ensures e.Etype() == EType("boolean", e.Tag())
  {
    assert !e.TagIn(CONSTANT_TAGS) && !e.TagIn(PAYLOAD_HEAD_TAGS) && !e.TagIn(ARITHMETIC_TAGS);
  }

  /** A relational operator is classified under its own symbol. */
  lemma EtypeOfRelational(e: Expression)
    requires e.EtypeDefined() && e.TagIn(RELATIONAL_TAGS)
    ensures e.Etype() == EType("relational", e.Tag())
  {
    assert !e.TagIn(CONSTANT_TAGS) && !e.TagIn(PAYLOAD_HEAD_TAGS) && !e.TagIn(ARITHMETIC_TAGS) && !e.TagIn(BOOLEAN_TAGS);
  }

  /** An aggregation is classified under its subtype in this table. */
  lemma EtypeOfAggregation(e: Expression)
    requires e.EtypeDefined() && e.TagIn(AGGREGATION_TAGS)
    ensures e.Etype() == EType("aggregation", Str(AGGREGATION_SUBTYPES[e.Tag().s]))
  {
    assert !e.TagIn(CONSTANT_TAGS) && !e.TagIn(PAYLOAD_HEAD_TAGS) && !e.TagIn(ARITHMETIC_TAGS);
    assert !e.TagIn(BOOLEAN_TAGS) && !e.TagIn(RELATIONAL_TAGS);
  }

  /** `if` is the only control expression. */
  lemma EtypeOfIf(e: Expression)
    requires e.EtypeDefined() && e.TagIs("if")
    ensures e.Etype() == EType("control", Str("if"))
  {
    assert !e.TagIn(CONSTANT_TAGS) && !e.TagIn(PAYLOAD_HEAD_TAGS) && !e.TagIn(ARITHMETIC_TAGS);
    assert !e.TagIn(BOOLEAN_TAGS) && !e.TagIn(RELATIONAL_TAGS) && !e.TagIn(AGGREGATION_TAGS);
  }

  /** For pvar, penum, randomvar and func the subtype is the head of the payload. */
  lemma EtypePayloadTable(e: Expression)
    requires e.EtypeDefined() && e.Tag().Str? && e.Tag().s in PAYLOAD_HEAD_CATEGORIES
    ensures e.Etype() == EType(PAYLOAD_HEAD_CATEGORIES[e.Tag().s], Items(e.Payload())[0])
  {
  }

  /** A constant's subtype is the Python type name of its literal. */
  lemma EtypeConstant(e: Expression)
    requires e.EtypeDefined() && e.TagIn(CONSTANT_TAGS)
    ensures e.Etype() == EType("constant", Str(TypeName(e.Payload())))
  {
  }

  /** Any other leading value, string or not, is classified ('UNKOWN', 'UNKOWN'). */
  lemma EtypeUnknown(e: Expression)
    requires e.EtypeDefined() && !e.TagIn(VOCABULARY)
    ensures e.Etype() == EType(UNKNOWN, Str(UNKNOWN))
  {
  }

  // ---------------------------------------------------------------------
  // scope: the `functor/arity` names found by the walk of `__get_scope`
  // ---------------------------------------------------------------------

  /** `functor, params = pair` unpacks (exactly two values) and the name can be formatted. */
  predicate ScopePairOk(pair: Raw)
  {
    PvarPairNameable(pair) && |Items(pair)| == 2
  }

  /** The walk of `__get_scope(r)` raises nothing, here and in every node it descends into. */
  predicate WalkOk(r: Raw)
    decreases r, 1
  {
    Indexable(r) && WalkOkFrom(r, 0)
  }

  /** The walk raises nothing from position `i` of `r` on. */
  predicate WalkOkFrom(r: Raw, i: nat)
    requires Indexable(r)
    decreases r, 0, |Items(r)| - i
  {
    var xs := Items(r);
    if i >= |xs| then true
    else if xs[i] == Str(PVAR_TAG) then i + 1 < |xs| && ScopePairOk(xs[i + 1])
    else if xs[i].Wrap? then assert xs[i] in xs; WalkOk(xs[i].e.expr) && WalkOkFrom(r, i + 1)
    else if xs[i].Seq? then assert xs[i] in xs; WalkOk(xs[i]) && WalkOkFrom(r, i + 1)
    else WalkOkFrom(r, i + 1)
  }

  /** The names the walk of `r` collects from position `i` on. */
  function ScopeFrom(r: Raw, i: nat): set<string>
    requires Indexable(r) && WalkOkFrom(r, i)
    decreases r, 0, |Items(r)| - i
  {
    var xs := Items(r);
    if i >= |xs| then {}
    else if xs[i] == Str(PVAR_TAG) then {PvarToName(xs[i + 1])}
    else if xs[i].Wrap? then assert xs[i] in xs; ScopeOf(xs[i].e.expr) + ScopeFrom(r, i + 1)
    else if xs[i].Seq? then assert xs[i] in xs; ScopeOf(xs[i]) + ScopeFrom(r, i + 1)
    else ScopeFrom(r, i + 1)
  }

  /** The scope of a node: what `__get_scope(r)` returns. */
  function ScopeOf(r: Raw): set<string>
    requires WalkOk(r)
    decreases r, 1
  {
    ScopeFrom(r, 0)
  }

  /**
   * `__get_scope`: walks the positions of `r` in order, descending into nested
   * Expressions, tuples and lists; at a 'pvar_expr' string it records the name
   * of the next position and stops scanning `r`.
   */
  method GetScope(r: Raw) returns (scope: set<string>)
    requires WalkOk(r)
    ensures scope == ScopeOf(r)
    decreases r
  {
    var xs := Items(r);
    scope := {};
    var i := 0;
    while i < |xs|
      invariant i <= |xs|
      invariant WalkOkFrom(r, i)
      invariant scope + ScopeFrom(r, i) == ScopeOf(r)
    {
      match xs[i] {
        case Wrap(e) =>
          assert xs[i] in xs;
          var inner := GetScope(e.expr);
          scope := scope + inner;
        case Seq(_, _) =>
          assert xs[i] in xs;
          var inner := GetScope(xs[i]);
          scope := scope + inner;
        case Str(s) =>
          if s == PVAR_TAG {
            scope := scope + {PvarToName(xs[i + 1])};
            break;
          }
        case _ =>
      }
      i := i + 1;
    }
  }

  /** What evaluating `scope` gives: None where the walk raises. */
  function ScopeOutcome(e: Expression): Option<set<string>>
  {
    if e.ScopeDefined() then Some(e.Scope()) else None
  }

  /** The scope a single position contributes when the walk descends into it. */
  function AtomScope(a: Raw): set<string>
  {
    match a
    case Wrap(e) => if WalkOk(e.expr) then ScopeOf(e.expr) else {}
    case Seq(_, _) => if WalkOk(a) then ScopeOf(a) else {}
    case _ => {}
  }

  /** The name recorded for the pair after a 'pvar_expr' string. */
  function PairNames(pair: Raw): set<string>
  {
    if ScopePairOk(pair) then {PvarToName(pair)} else {}
  }

  /** The first position at or after `i` that holds the string 'pvar_expr', or the end. */
  function PvarTagFrom(r: Raw, i: nat): (stop: nat)
    requires Indexable(r)
    ensures i <= stop && (i <= |Items(r)| ==> stop <= |Items(r)|)
    ensures forall j :: i <= j < stop && j < |Items(r)| ==> Items(r)[j] != Str(PVAR_TAG)
    ensures stop < |Items(r)| ==> Items(r)[stop] == Str(PVAR_TAG)
    decreases |Items(r)| - i
  {
    if i >= |Items(r)| then i
    else if Items(r)[i] == Str(PVAR_TAG) then i
    else PvarTagFrom(r, i + 1)
  }

  /** `x` is in the scope of some position of `xs[i..stop]` that the walk descends into. */
  predicate FoundBefore(xs: seq<Raw>, i: nat, stop: nat, x: string)
  {
    exists j :: i <= j < stop && j < |xs| && x in AtomScope(xs[j])
  }

  lemma FoundBeforeStep(xs: seq<Raw>, i: nat, stop: nat, x: string)
    requires i < stop && i < |xs|
    ensures FoundBefore(xs, i, stop, x) <==> x in AtomScope(xs[i]) || FoundBefore(xs, i + 1, stop, x)
  {
    if FoundBefore(xs, i, stop, x) {
      var j :| i <= j < stop && j < |xs| && x in AtomScope(xs[j]);
      assert j == i || (i + 1 <= j < stop && j < |xs| && x in AtomScope(xs[j]));
    }
    if x in AtomScope(xs[i]) {
      assert i <= i < stop && i < |xs| && x in AtomScope(xs[i]);
    }
  }

  /** One step of the walk past a position that is not the string 'pvar_expr'. */
  lemma ScopeFromStep(r: Raw, i: nat)
    requires Indexable(r) && WalkOkFrom(r, i) && i < |Items(r)| && Items(r)[i] != Str(PVAR_TAG)
    ensures WalkOkFrom(r, i + 1)
    ensures ScopeFrom(r, i) == AtomScope(Items(r)[i]) + ScopeFrom(r, i + 1)
  {
  }

  /** The name recorded where the walk of `r` from position `i` stops, if any. */
  function StopNames(r: Raw, i: nat): set<string>
    requires Indexable(r)
  {
    var stop := PvarTagFrom(r, i);
    if stop + 1 < |Items(r)| then PairNames(Items(r)[stop + 1]) else {}
  }

  /** Past a position that is not the string 'pvar_expr', the walk stops where it would have from the next. */
  lemma StopStep(r: Raw, i: nat)
    requires Indexable(r) && i < |Items(r)| && Items(r)[i] != Str(PVAR_TAG)
    ensures i < PvarTagFrom(r, i) == PvarTagFrom(r, i + 1)
    ensures StopNames(r, i) == StopNames(r, i + 1)
  {
  }

  /** Where the walk stops: the end of `r`, or a 'pvar_expr' string and the pair after it. */
  lemma ScopeFromAtStop(r: Raw, i: nat)
    requires Indexable(r) && WalkOkFrom(r, i) && (i >= |Items(r)| || Items(r)[i] == Str(PVAR_TAG))
    ensures PvarTagFrom(r, i) == i
    ensures ScopeFrom(r, i) == StopNames(r, i)
  {
  }

  /**
   * The walk from position `i` collects exactly the scopes of the nested
   * nodes before the first 'pvar_expr' string, plus the name recorded there.
   */
  lemma {:induction false} ScopeFromCharacterized(r: Raw, i: nat, x: string)
    requires Indexable(r) && WalkOkFrom(r, i)
    ensures x in ScopeFrom(r, i) <==> FoundBefore(Items(r), i, PvarTagFrom(r, i), x) || x in StopNames(r, i)
    decreases |Items(r)| - i
  {
    var xs := Items(r);
    if i < |xs| && xs[i] != Str(PVAR_TAG) {
      ScopeFromStep(r, i);
      ScopeFromCharacterized(r, i + 1, x);
      StopStep(r, i);
      FoundBeforeStep(xs, i, PvarTagFrom(r, i), x);
    } else {
      ScopeFromAtStop(r, i);
      assert !FoundBefore(xs, i, i, x);
    }
  }

  lemma ScopeOfCharacterized(r: Raw)
    requires WalkOk(r)
    ensures forall x :: x in ScopeOf(r) <==> FoundBefore(Items(r), 0, PvarTagFrom(r, 0), x) || x in StopNames(r, 0)
  {
    forall x ensures x in ScopeOf(r) <==> FoundBefore(Items(r), 0, PvarTagFrom(r, 0), x) || x in StopNames(r, 0) {
      ScopeFromCharacterized(r, 0, x);
    }
  }

  /** The scope of a pvariable expression is its own name alone. */
  lemma PvarExpressionScope(e: Expression)
    requires e.HasPayload() && e.TagIs(PVAR_TAG) && ScopePairOk(e.Payload())
    ensures e.NameDefined() && e.Name().Ok?
    ensures WalkOk(e.expr) && ScopeOf(e.expr) == {e.Name().value}
  {
    assert WalkOkFrom(e.expr, 0);
  }

  /**
   * What follows a 'pvar_expr' pair in the same sequence is never scanned,
   * even a further pvariable.
   */
  lemma PvarTagEndsWalk(k: SeqKind, pair: Raw, rest: seq<Raw>)
    requires ScopePairOk(pair)
    ensures WalkOk(Seq(k, [Str(PVAR_TAG), pair] + rest))
    ensures ScopeOf(Seq(k, [Str(PVAR_TAG), pair] + rest)) == {PvarToName(pair)}
  {
  }

  function Wraps(operands: seq<Expression>): (rs: seq<Raw>)
    ensures |rs| == |operands| && forall k :: 0 <= k < |operands| ==> rs[k] == Wrap(operands[k])
  {
    if operands == [] then [] else [Wrap(operands[0])] + Wraps(operands[1..])
  }

  /** The union of the scopes of `operands[i..]`. */
  function UnionOfScopes(operands: seq<Expression>, i: nat): set<string>
    requires forall k :: 0 <= k < |operands| ==> WalkOk(operands[k].expr)
    decreases |operands| - i
  {
    if i >= |operands| then {} else ScopeOf(operands[i].expr) + UnionOfScopes(operands, i + 1)
  }

  /** The node `(tag, (o1, ..., on))` that the parser builds for an operator. */
  function Node(tag: string, operands: seq<Expression>): Expression
  {
    Expression(Seq(TupleKind, [Str(tag), Seq(TupleKind, Wraps(operands))]))
  }

  lemma {:induction false} OperandsScopeFrom(operands: seq<Expression>, i: nat)
    requires forall k :: 0 <= k < |operands| ==> WalkOk(operands[k].expr)
    ensures WalkOkFrom(Seq(TupleKind, Wraps(operands)), i)
    ensures ScopeFrom(Seq(TupleKind, Wraps(operands)), i) == UnionOfScopes(operands, i)
    decreases |operands| - i
  {
    if i < |operands| {
      OperandsScopeFrom(operands, i + 1);
    }
  }

  /**
   * The scope of an operator node (any tag but 'pvar_expr') is the union of
   * its operands' scopes, however deeply they nest.
   */
  lemma {:induction false} OperatorScope(tag: string, operands: seq<Expression>)
    requires tag != PVAR_TAG
    requires forall k :: 0 <= k < |operands| ==> WalkOk(operands[k].expr)
    ensures ScopeOutcome(Node(tag, operands)) == Some(UnionOfScopes(operands, 0))
  {
    OperandsScopeFrom(operands, 0);
    var r := Node(tag, operands).expr;
    var p := Seq(TupleKind, Wraps(operands));
    assert Items(r) == [Str(tag), p];
    assert WalkOkFrom(r, 2) && ScopeFrom(r, 2) == {};
    assert WalkOk(p) && ScopeOf(p) == UnionOfScopes(operands, 0);
    assert WalkOkFrom(r, 1) && ScopeFrom(r, 1) == UnionOfScopes(operands, 0);
    assert WalkOkFrom(r, 0) && ScopeFrom(r, 0) == UnionOfScopes(operands, 0);
  }
}
