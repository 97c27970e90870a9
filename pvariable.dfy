/**
 * Parameterized variables: the declared fluents of a domain. A PVariable is
 * built once by the parser and never updated, so it is a value here; its
 * role is read off the `fluent_type` string.
 */
module PVariables {
  import opened Wrappers
  import opened Strings
  import opened Expr

  const NON_FLUENT := "non-fluent"
  const STATE_FLUENT := "state-fluent"
  const ACTION_FLUENT := "action-fluent"
  const INTERM_FLUENT := "interm-fluent"
  const OBSERV_FLUENT := "observ-fluent"

  /** The five roles a declaration can have; any other `fluent_type` has none. */
  datatype Role = NonFluent | StateFluent | ActionFluent | IntermFluent | ObservFluent

  /**
   * A declaration. The last three fields are optional and absent unless
   * given, and the constructor stores every argument as it is.
   */
  datatype PVariable = PVariable(
    name: string,
    fluentType: string,
    range: string,
    paramTypes: Option<seq<string>> := None,
    default: Option<Literal> := None,
    level: Option<int> := None)
  {
    /** `arity`: the number of parameter types, 0 when there are none. */
    function Arity(): (n: nat)
      ensures n == 0 <==> paramTypes.None? || paramTypes.value == []
      ensures paramTypes.Some? ==> n == |paramTypes.value|
    {
      if paramTypes.Some? then |paramTypes.value| else 0
    }

    /** The parameter types, an absent list read as empty. */
    function Params(): (ps: seq<string>)
      ensures |ps| == Arity()
    {
      paramTypes.GetOr([])
    }

    predicate IsNonFluent()
    {
      fluentType == NON_FLUENT
    }

    predicate IsFluent()
      ensures IsFluent() <==> !IsNonFluent()
    {
      fluentType != NON_FLUENT
    }

    predicate IsStateFluent()
    {
      fluentType == STATE_FLUENT
    }

    predicate IsActionFluent()
    {
      fluentType == ACTION_FLUENT
    }

    predicate IsIntermediateFluent()
    {
      fluentType == INTERM_FLUENT
    }

    predicate IsObservFluent()
    {
      fluentType == OBSERV_FLUENT
    }

    /** The role predicate of `role`, as the domain's partitions select it. */
    predicate HasRole(role: Role)
    {
      match role
      case NonFluent => IsNonFluent()
      case StateFluent => IsStateFluent()
      case ActionFluent => IsActionFluent()
      case IntermFluent => IsIntermediateFluent()
      case ObservFluent => IsObservFluent()
    }

    /** The role this declaration has, if any: at most one role predicate holds. */
    function RoleOf(): (r: Option<Role>)
      ensures forall role :: HasRole(role) <==> r == Some(role)
    {
      if IsNonFluent() then Some(NonFluent)
      else if IsStateFluent() then Some(StateFluent)
      else if IsActionFluent() then Some(ActionFluent)
      else if IsIntermediateFluent() then Some(IntermFluent)
      else if IsObservFluent() then Some(ObservFluent)
      else None
    }

    /** `str(pvar)`: `name/arity`, from which the name and the arity can be read back. */
    function Str(): (s: string)
      ensures ParseFluentName(s) == Some((name, Arity()))
    {
      FluentNameRoundTrip(name, Arity());
      FluentName(name, Arity())
    }

    /** `repr(pvar)`: the bare name, or `name(t1,...,tn)` with the parameter types. */
    function Repr(): (s: string)
      ensures s == name <==> Arity() == 0
      ensures Arity() > 0 ==> |s| > |name| + 1 && s[..|name|] == name && s[|name|] == '(' && s[|s| - 1] == ')'
    {
      if Arity() == 0 then name else name + "(" + Join(paramTypes.value, ",") + ")"
    }
  }

  /** The constructor stores its arguments as given, and the optional ones default to None. */
  lemma DeclarationDefaults(name: string, fluentType: string, range: string)
    ensures var v := PVariable(name, fluentType, range);
      && v.name == name && v.fluentType == fluentType && v.range == range
      && v.paramTypes.None? && v.default.None? && v.level.None?
      && v.Arity() == 0 && v.Str() == name + "/0" && v.Repr() == name
  {
  }

  /** Two declarations print alike under `str` exactly when they agree on name and arity. */
  lemma StrInjective(v: PVariable, w: PVariable)
    ensures v.Str() == w.Str() <==> v.name == w.name && v.Arity() == w.Arity()
  {
    if v.Str() == w.Str() {
      FluentNameInjective(v.name, v.Arity(), w.name, w.Arity());
    }
  }

  /** The position of the first occurrence of `c` in `s`, if any. */
  function FindChar(s: string, c: char): (r: Option<nat>)
    ensures r.None? <==> c !in s
    ensures r.Some? ==> r.value < |s| && s[r.value] == c && c !in s[..r.value]
  {
    if s == [] then None
    else if s[0] == c then Some(0)
    else
      var r := FindChar(s[1..], c);
      if r.None? then None
      else
        assert s[..r.value + 1] == [s[0]] + s[1..][..r.value];
        Some(r.value + 1)
  }

  /** Reads a `repr` back: the name, and the parameter types between the parentheses. */
  function ParseRepr(s: string): (string, seq<string>)
  {
    match FindChar(s, '(')
    case None => (s, [])
    case Some(i) =>
      if 0 < |s| && s[|s| - 1] == ')' && i < |s| - 1 then (s[..i], Split(s[i + 1..|s| - 1], ',')) else (s, [])
  }

  /**
   * `repr` loses nothing when the name has no parenthesis and no parameter
   * type holds a comma: the name and the parameter list read back from it.
   */
  lemma ReprRoundTrip(v: PVariable)
    requires '(' !in v.name
    requires forall i :: 0 <= i < |v.Params()| ==> ',' !in v.Params()[i]
    ensures ParseRepr(v.Repr()) == (v.name, v.Params())
  {
    if v.Arity() > 0 {
      var s := v.Repr();
      var inner := Join(v.paramTypes.value, ",");
      assert s == v.name + "(" + inner + ")";
      assert s[..|v.name|] == v.name;
      assert s[|v.name|] == '(';
      assert FindChar(s, '(') == Some(|v.name|);
      assert s[|v.name| + 1..|s| - 1] == inner;
      assert v.Params() == v.paramTypes.value;
      SplitJoin(v.paramTypes.value, ',');
    }
  }

  /** The pvariable node the parser builds for `name(?p1, ..., ?pn)`. */
  function PvarNode(functor: string, args: seq<string>): Expression
  {
    Expression(Seq(TupleKind, [Str(PVAR_TAG), Seq(TupleKind, [Str(functor), Seq(ListKind, seq(|args|, i requires 0 <= i < |args| => Str(args[i])))])]))
  }

  /**
   * `str(pvar)` is the name a pvariable expression over the same fluent
   * reports: both are the functor and the argument count.
   */
  lemma StrAgreesWithExpressionName(v: PVariable, args: seq<string>)
    requires |args| == v.Arity()
    ensures PvarNode(v.name, args).NameDefined()
    ensures PvarNode(v.name, args).Name() == Ok(v.Str())
  {
    var e := PvarNode(v.name, args);
    var pair := Items(e.expr)[1];
    assert e.IsPvariableExpression();
    assert PvarPairNameable(pair);
  }
}
