/**
 * Action bound constraints: reading `lower <= a`, `a <= upper` and their
 * mirror images off the relational preconditions of an action, and the two
 * tables the domain keeps of them.
 */
module Bounds {
  import opened Wrappers
  import opened Dicts
  import opened Expr

  const LESS_OPS := [Str("<="), Str("<")]
  const GREATER_OPS := [Str(">="), Str(">")]

  /** An operand that is an Expression whose `is_pvariable_expression()` and `name` evaluate. */
  predicate OperandOk(a: Raw)
  {
    a.Wrap? && a.e.NameDefined()
  }

  /** `args[i]` exists and is such an operand. */
  predicate OperandAt(args: Raw, i: nat)
  {
    Indexable(args) && i < |Items(args)| && OperandOk(Items(args)[i])
  }

  /** `args[i].is_pvariable_expression() and args[i].name == name` */
  predicate NamedAt(args: Raw, i: nat, name: string)
    requires OperandAt(args, i)
  {
    IsPvarNamed(Items(args)[i].e, name)
  }

  /** `_extract_lower_bound(name, e)` raises nothing. */
  predicate LowerDefined(name: string, e: Expression)
  {
    && e.EtypeDefined() && e.ArgsDefined()
    && (e.Etype().subtype in LESS_OPS ==> OperandAt(e.Args(), 1))
    && (e.Etype().subtype in GREATER_OPS ==>
          OperandAt(e.Args(), 0) && (NamedAt(e.Args(), 0, name) ==> 1 < |Items(e.Args())|))
  }

  /** `_extract_upper_bound(name, e)` raises nothing. */
  predicate UpperDefined(name: string, e: Expression)
  {
    && e.EtypeDefined() && e.ArgsDefined()
    && (e.Etype().subtype in LESS_OPS ==>
          OperandAt(e.Args(), 0) && (NamedAt(e.Args(), 0, name) ==> 1 < |Items(e.Args())|))
    && (e.Etype().subtype in GREATER_OPS ==> OperandAt(e.Args(), 1))
  }

  /**
   * `_extract_lower_bound`: for `x <= a` or `x < a` the left operand, for
   * `a >= x` or `a > x` the right one, where `a` is the pvariable `name`.
   */
  function ExtractLowerBound(name: string, e: Expression): (r: Option<Raw>)
    requires LowerDefined(name, e)
    ensures r.Some? <==>
      || (e.Etype().subtype in LESS_OPS && NamedAt(e.Args(), 1, name))
      || (e.Etype().subtype in GREATER_OPS && NamedAt(e.Args(), 0, name))
  {
    var sub, args := e.Etype().subtype, e.Args();
    if sub in LESS_OPS then
      if NamedAt(args, 1, name) then Some(Items(args)[0]) else None
    else if sub in GREATER_OPS then
      if NamedAt(args, 0, name) then Some(Items(args)[1]) else None
    else None
  }

  /**
   * `_extract_upper_bound`: for `a <= x` or `a < x` the right operand, for
   * `x >= a` or `x > a` the left one, where `a` is the pvariable `name`.
   */
  function ExtractUpperBound(name: string, e: Expression): (r: Option<Raw>)
    requires UpperDefined(name, e)
    ensures r.Some? <==>
      || (e.Etype().subtype in LESS_OPS && NamedAt(e.Args(), 0, name))
      || (e.Etype().subtype in GREATER_OPS && NamedAt(e.Args(), 1, name))
  {
    var sub, args := e.Etype().subtype, e.Args();
    if sub in LESS_OPS then
      if NamedAt(args, 0, name) then Some(Items(args)[1]) else None
    else if sub in GREATER_OPS then
      if NamedAt(args, 1, name) then Some(Items(args)[0]) else None
    else None
  }

  // ---------------------------------------------------------------------
  // the rules on relations as the parser builds them
  // ---------------------------------------------------------------------

  /** The node `(op, (l, r))` of a relation. */
  function Relation(op: string, l: Expression, r: Expression): Expression
  {
    Node(op, [l, r])
  }

  /** `e` is the pvariable `name`. */
  predicate IsPvarNamed(e: Expression, name: string)
    requires e.NameDefined()
  {
    e.IsPvariableExpression() && e.Name() == Ok(name)
  }

  /** The relation with its operands swapped reads the same: `a <= b` is `b >= a`. */
  function Flip(op: string): string
  {
    match op
    case "<=" => ">="
    case "<" => ">"
    case ">=" => "<="
    case ">" => "<"
    case _ => op
  }

  lemma RelationShape(op: string, l: Expression, r: Expression)
    requires op in RELATIONAL_TAGS && l.NameDefined() && r.NameDefined()
    ensures var e := Relation(op, l, r);
      && e.EtypeDefined() && e.ArgsDefined()
      && e.Etype() == EType("relational", Str(op))
      && Items(e.Args()) == [Wrap(l), Wrap(r)]
      && OperandAt(e.Args(), 0) && OperandAt(e.Args(), 1)
  {
    assert Wraps([l, r]) == [Wrap(l), Wrap(r)];
    EtypeOfRelational(Relation(op, l, r));
  }

  /** Both extractions are defined on every relation between expressions that have names. */
  lemma RelationDefined(name: string, op: string, l: Expression, r: Expression)
    requires op in RELATIONAL_TAGS && l.NameDefined() && r.NameDefined()
    ensures LowerDefined(name, Relation(op, l, r)) && UpperDefined(name, Relation(op, l, r))
  {
    RelationShape(op, l, r);
  }

  /** The lower-bound rule, read on a relation `l op r`. */
  lemma LowerBoundOfRelation(name: string, op: string, l: Expression, r: Expression)
    requires op in RELATIONAL_TAGS && l.NameDefined() && r.NameDefined()
    ensures LowerDefined(name, Relation(op, l, r))
    ensures ExtractLowerBound(name, Relation(op, l, r)) ==
      if op in ["<=", "<"] && IsPvarNamed(r, name) then Some(Wrap(l))
      else if op in [">=", ">"] && IsPvarNamed(l, name) then Some(Wrap(r))
      else None
  {
    RelationShape(op, l, r);
  }

  /** The upper-bound rule, read on a relation `l op r`. */
  lemma UpperBoundOfRelation(name: string, op: string, l: Expression, r: Expression)
    requires op in RELATIONAL_TAGS && l.NameDefined() && r.NameDefined()
    ensures UpperDefined(name, Relation(op, l, r))
    ensures ExtractUpperBound(name, Relation(op, l, r)) ==
      if op in ["<=", "<"] && IsPvarNamed(l, name) then Some(Wrap(r))
      else if op in [">=", ">"] && IsPvarNamed(r, name) then Some(Wrap(l))
      else None
  {
    RelationShape(op, l, r);
  }

  lemma FlipFacts(op: string)
    requires op in RELATIONAL_TAGS
    ensures Flip(op) in RELATIONAL_TAGS && Flip(Flip(op)) == op
    ensures Flip(op) in ["<=", "<"] <==> op in [">=", ">"]
    ensures Flip(op) in [">=", ">"] <==> op in ["<=", "<"]
  {
  }

  /** The upper-bound rule is the lower-bound rule with the operator reversed: `a <= x` bounds `a` as `a >= x` would from below. */
  lemma UpperIsLowerOfReversed(name: string, op: string, l: Expression, r: Expression)
    requires op in RELATIONAL_TAGS && l.NameDefined() && r.NameDefined()
    ensures Flip(op) in RELATIONAL_TAGS
    ensures LowerDefined(name, Relation(Flip(op), l, r)) && UpperDefined(name, Relation(op, l, r))
    ensures ExtractUpperBound(name, Relation(op, l, r)) == ExtractLowerBound(name, Relation(Flip(op), l, r))
  {
    FlipFacts(op);
    UpperBoundOfRelation(name, op, l, r);
    LowerBoundOfRelation(name, Flip(op), l, r);
  }

  /** Both rules read `l op r` and the same relation written `r op' l` alike. */
  lemma BoundsRespectConverse(name: string, op: string, l: Expression, r: Expression)
    requires op in RELATIONAL_TAGS && l.NameDefined() && r.NameDefined()
    ensures Flip(op) in RELATIONAL_TAGS
    ensures LowerDefined(name, Relation(op, l, r)) && LowerDefined(name, Relation(Flip(op), r, l))
    ensures UpperDefined(name, Relation(op, l, r)) && UpperDefined(name, Relation(Flip(op), r, l))
    ensures ExtractLowerBound(name, Relation(op, l, r)) == ExtractLowerBound(name, Relation(Flip(op), r, l))
    ensures ExtractUpperBound(name, Relation(op, l, r)) == ExtractUpperBound(name, Relation(Flip(op), r, l))
  {
    FlipFacts(op);
    LowerBoundOfRelation(name, op, l, r);
    LowerBoundOfRelation(name, Flip(op), r, l);
    UpperBoundOfRelation(name, op, l, r);
    UpperBoundOfRelation(name, Flip(op), r, l);
  }

  /** An equation or a disequation bounds nothing. */
  lemma EqualityGivesNoBound(name: string, op: string, l: Expression, r: Expression)
    requires op in ["==", "~="] && l.NameDefined() && r.NameDefined()
    ensures LowerDefined(name, Relation(op, l, r)) && UpperDefined(name, Relation(op, l, r))
    ensures ExtractLowerBound(name, Relation(op, l, r)).None?
    ensures ExtractUpperBound(name, Relation(op, l, r)).None?
  {
    assert op in RELATIONAL_TAGS && op !in ["<=", "<"] && op !in [">=", ">"];
    LowerBoundOfRelation(name, op, l, r);
    UpperBoundOfRelation(name, op, l, r);
  }

  /**
   * An inequality with the action on exactly one side bounds it on exactly
   * one side, by the other operand.
   */
  lemma InequalityBoundsOneSide(name: string, op: string, l: Expression, r: Expression)
    requires op in ["<=", "<", ">=", ">"] && l.NameDefined() && r.NameDefined()
    requires IsPvarNamed(l, name) != IsPvarNamed(r, name)
    ensures LowerDefined(name, Relation(op, l, r)) && UpperDefined(name, Relation(op, l, r))
    ensures var lo, up := ExtractLowerBound(name, Relation(op, l, r)), ExtractUpperBound(name, Relation(op, l, r));
      && lo.Some? != up.Some?
      && (lo.Some? ==> lo.value == Wrap(if IsPvarNamed(l, name) then r else l))
      && (up.Some? ==> up.value == Wrap(if IsPvarNamed(l, name) then r else l))
  {
    LowerBoundOfRelation(name, op, l, r);
    UpperBoundOfRelation(name, op, l, r);
  }

  // ---------------------------------------------------------------------
  // the candidate of a precondition and what it contributes
  // ---------------------------------------------------------------------

  /** `precond.etype == ('aggregation', 'forall')` */
  predicate IsForall(p: Expression)
    requires p.EtypeDefined()
  {
    p.Etype() == EType("aggregation", Str("forall"))
  }

  /** `precond.etype`, `precond.args` and, for a `forall`, `args[1].etype` evaluate. */
  predicate CandidateDefined(p: Expression)
  {
    && p.EtypeDefined() && p.ArgsDefined()
    && (IsForall(p) ==>
          && Indexable(p.Args()) && 1 < |Items(p.Args())|
          && Items(p.Args())[1].Wrap? && Items(p.Args())[1].e.EtypeDefined())
  }

  /** The body `args[1]` of a `forall` precondition. */
  function Body(p: Expression): Expression
    requires CandidateDefined(p) && IsForall(p)
  {
    Items(p.Args())[1].e
  }

  /**
   * The expression bounds are read from: the precondition itself when it is
   * relational, the body of a `forall` whose body is relational, else none.
   */
  function BoundsCandidate(p: Expression): (c: Option<Expression>)
    requires CandidateDefined(p)
    ensures c.Some? ==> c.value.EtypeDefined() && c.value.Etype().category == "relational"
    ensures c.Some? <==> if IsForall(p) then Body(p).Etype().category == "relational" else p.Etype().category == "relational"
  {
    if IsForall(p) then
      if Body(p).Etype().category == "relational" then Some(Body(p)) else None
    else if p.Etype().category == "relational" then Some(p)
    else None
  }

  /**
   * The first half of the loop body of `_build_action_bound_constraints_table`:
   * the body of a `forall` precondition when it is relational, else the
   * precondition itself when it is relational.
   */
  method FindBoundsExpression(precond: Expression) returns (boundsExpr: Option<Expression>)
    requires CandidateDefined(precond)
    ensures boundsExpr == BoundsCandidate(precond)
  {
    var exprType := precond.Etype();
    var exprArgs := precond.Args();
    boundsExpr := None;
    if exprType == EType("aggregation", Str("forall")) {
      assert IsForall(precond);
      var innerExpr := Items(exprArgs)[1].e;
      assert innerExpr == Body(precond);
      if innerExpr.Etype().category == "relational" {
        boundsExpr := Some(innerExpr);
      }
    } else if exprType.category == "relational" {
      boundsExpr := Some(precond);
    }
  }

  /** Only the six relational tags are classified relational. */
  lemma RelationalByTag(e: Expression)
    requires e.EtypeDefined()
    ensures e.Etype().category == "relational" <==> e.TagIn(RELATIONAL_TAGS)
  {
    if e.TagIn(RELATIONAL_TAGS) {
      EtypeOfRelational(e);
    }
  }

  /** Only the tag `forall` is classified `('aggregation', 'forall')`. */
  lemma ForallByTag(e: Expression)
    requires e.EtypeDefined()
    ensures IsForall(e) <==> e.TagIs("forall")
  {
  }

  /**
   * Which preconditions are looked at for bounds, read on their tags: a
   * relational one, or a `forall` whose body is relational.
   */
  lemma CandidateByTag(p: Expression)
    requires CandidateDefined(p)
    ensures BoundsCandidate(p).Some? <==>
      if p.TagIs("forall") then Body(p).TagIn(RELATIONAL_TAGS) else p.TagIn(RELATIONAL_TAGS)
    ensures BoundsCandidate(p).Some? ==> BoundsCandidate(p).value == if p.TagIs("forall") then Body(p) else p
  {
    ForallByTag(p);
    RelationalByTag(p);
    if IsForall(p) {
      RelationalByTag(Body(p));
    }
  }

  /** What one precondition of action `name` adds: a lower bound, else an upper bound, else nothing. */
  datatype Contribution = NoBound | LowerBound(bound: Raw) | UpperBound(bound: Raw)

  /** The bound extraction for one precondition of action `name` raises nothing. */
  predicate StepDefined(name: string, p: Expression)
  {
    && CandidateDefined(p)
    && (BoundsCandidate(p).Some? ==>
          && LowerDefined(name, BoundsCandidate(p).value)
          && (ExtractLowerBound(name, BoundsCandidate(p).value).None? ==> UpperDefined(name, BoundsCandidate(p).value)))
  }

  /** The contribution of one precondition: upper extraction is tried only when lower extraction found nothing. */
  function ContributionOf(name: string, p: Expression): (c: Contribution)
    requires StepDefined(name, p)
    ensures c.LowerBound? <==> BoundsCandidate(p).Some? && ExtractLowerBound(name, BoundsCandidate(p).value).Some?
    ensures c.UpperBound? <==>
      && BoundsCandidate(p).Some?
      && ExtractLowerBound(name, BoundsCandidate(p).value).None?
      && ExtractUpperBound(name, BoundsCandidate(p).value).Some?
    ensures c.LowerBound? ==> Some(c.bound) == ExtractLowerBound(name, BoundsCandidate(p).value)
    ensures c.UpperBound? ==> Some(c.bound) == ExtractUpperBound(name, BoundsCandidate(p).value)
  {
    match BoundsCandidate(p)
    case None => NoBound
    case Some(e) =>
      match ExtractLowerBound(name, e)
      case Some(b) => LowerBound(b)
      case None =>
        match ExtractUpperBound(name, e)
        case Some(b) => UpperBound(b)
        case None => NoBound
  }

  // ---------------------------------------------------------------------
  // the tables
  // ---------------------------------------------------------------------

  /** `action_lower_bound_constraints` and `action_upper_bound_constraints` */
  datatype BoundTables = BoundTables(lower: Dict<Raw>, upper: Dict<Raw>)

  /** `d[name] = bound` in the table the contribution names. */
  function Record(t: BoundTables, name: string, c: Contribution): BoundTables
  {
    match c
    case NoBound => t
    case LowerBound(b) => t.(lower := Put(t.lower, name, b))
    case UpperBound(b) => t.(upper := Put(t.upper, name, b))
  }

  /** Every precondition in the local table can be examined for bounds. */
  predicate AllStepsDefined(items: Dict<seq<Expression>>)
  {
    forall i, j :: 0 <= i < |items| && 0 <= j < |items[i].1| ==> StepDefined(items[i].0, items[i].1[j])
  }

  /** The tables after the preconditions `ps` of action `name` are examined in order, starting from `t`. */
  function BoundsOfList(name: string, ps: seq<Expression>, t: BoundTables): BoundTables
    requires forall j :: 0 <= j < |ps| ==> StepDefined(name, ps[j])
  {
    if ps == [] then t
    else Record(BoundsOfList(name, ps[..|ps| - 1], t), name, ContributionOf(name, ps[|ps| - 1]))
  }

  lemma AllStepsDefinedPrefix(items: Dict<seq<Expression>>, n: nat)
    requires AllStepsDefined(items) && n <= |items|
    ensures AllStepsDefined(items[..n])
    ensures n < |items| ==> forall j :: 0 <= j < |items[n].1| ==> StepDefined(items[n].0, items[n].1[j])
  {
    assert forall i :: 0 <= i < n ==> items[..n][i] == items[i];
  }

  /** In a dict without repeated keys, the last key does not occur before it. */
  lemma LastKeyFresh<V>(d: Dict<V>)
    requires Valid(d) && d != []
    ensures Get(d[..|d| - 1], d[|d| - 1].0).None?
  {
    var init := d[..|d| - 1];
    forall i | 0 <= i < |init| ensures Keys(init)[i] != d[|d| - 1].0 {
      assert init[i] == d[i];
    }
    GetSomeIffKey(init, d[|d| - 1].0);
  }

  /** The tables after every action's preconditions are examined, in table order, starting empty. */
  function BoundsOfItems(items: Dict<seq<Expression>>): BoundTables
    requires AllStepsDefined(items)
  {
    if items == [] then BoundTables([], [])
    else
      AllStepsDefinedPrefix(items, |items| - 1);
      var last := items[|items| - 1];
      BoundsOfList(last.0, last.1, BoundsOfItems(items[..|items| - 1]))
  }

  /** The bound of the last precondition in `ps` that yields a lower bound for `name`. */
  function LastLower(name: string, ps: seq<Expression>): Option<Raw>
    requires forall j :: 0 <= j < |ps| ==> StepDefined(name, ps[j])
  {
    if ps == [] then None
    else match ContributionOf(name, ps[|ps| - 1])
      case LowerBound(b) => Some(b)
      case _ => LastLower(name, ps[..|ps| - 1])
  }

  /** The bound of the last precondition in `ps` that yields an upper bound for `name`. */
  function LastUpper(name: string, ps: seq<Expression>): Option<Raw>
    requires forall j :: 0 <= j < |ps| ==> StepDefined(name, ps[j])
  {
    if ps == [] then None
    else match ContributionOf(name, ps[|ps| - 1])
      case UpperBound(b) => Some(b)
      case _ => LastUpper(name, ps[..|ps| - 1])
  }

  /** Examining one action's preconditions overwrites only its own entries, with the last bound found. */
  lemma {:induction false} BoundsOfListLookup(name: string, ps: seq<Expression>, t: BoundTables, k: string)
    requires forall j :: 0 <= j < |ps| ==> StepDefined(name, ps[j])
    ensures Get(BoundsOfList(name, ps, t).lower, k) ==
      if k == name && LastLower(name, ps).Some? then LastLower(name, ps) else Get(t.lower, k)
    ensures Get(BoundsOfList(name, ps, t).upper, k) ==
      if k == name && LastUpper(name, ps).Some? then LastUpper(name, ps) else Get(t.upper, k)
  {
    if ps != [] {
      var init := ps[..|ps| - 1];
      BoundsOfListLookup(name, init, t, k);
      var before := BoundsOfList(name, init, t);
      match ContributionOf(name, ps[|ps| - 1])
      case NoBound =>
      case LowerBound(b) =>
        GetPut(before.lower, name, b, k);
      case UpperBound(b) =>
        GetPut(before.upper, name, b, k);
    }
  }

  /**
   * Last wins: each action's entry in either table is the bound of its last
   * precondition that yields one, and an action with none has no entry.
   */
  lemma {:induction false} BoundsLastWins(items: Dict<seq<Expression>>, k: string)
    requires Valid(items) && AllStepsDefined(items)
    ensures Get(BoundsOfItems(items).lower, k) == match Get(items, k) case Some(ps) => LastLower(k, ps) case None => None
    ensures Get(BoundsOfItems(items).upper, k) == match Get(items, k) case Some(ps) => LastUpper(k, ps) case None => None
  {
    if items != [] {
      var init, last := items[..|items| - 1], items[|items| - 1];
      assert items == init + [last];
      assert Valid(init);
      AllStepsDefinedPrefix(items, |items| - 1);
      BoundsLastWins(init, k);
      BoundsOfListLookup(last.0, last.1, BoundsOfItems(init), k);
      GetAppend(init, last.0, last.1, k);
      LastKeyFresh(items);
    }
  }

  /** Recording a contribution keeps both tables free of repeated keys. */
  lemma RecordValid(t: BoundTables, name: string, c: Contribution)
    requires Valid(t.lower) && Valid(t.upper)
    ensures Valid(Record(t, name, c).lower) && Valid(Record(t, name, c).upper)
  {
    match c
    case NoBound =>
    case LowerBound(b) => PutValid(t.lower, name, b);
    case UpperBound(b) => PutValid(t.upper, name, b);
  }

  lemma {:induction false} BoundsOfListValid(name: string, ps: seq<Expression>, t: BoundTables)
    requires forall j :: 0 <= j < |ps| ==> StepDefined(name, ps[j])
    requires Valid(t.lower) && Valid(t.upper)
    ensures Valid(BoundsOfList(name, ps, t).lower) && Valid(BoundsOfList(name, ps, t).upper)
  {
    if ps != [] {
      BoundsOfListValid(name, ps[..|ps| - 1], t);
      RecordValid(BoundsOfList(name, ps[..|ps| - 1], t), name, ContributionOf(name, ps[|ps| - 1]));
    }
  }

  /** Like a Python dict, neither bound table ever holds an action twice. */
  lemma {:induction false} BoundsOfItemsValid(items: Dict<seq<Expression>>)
    requires AllStepsDefined(items)
    ensures Valid(BoundsOfItems(items).lower) && Valid(BoundsOfItems(items).upper)
  {
    if items != [] {
      AllStepsDefinedPrefix(items, |items| - 1);
      BoundsOfItemsValid(items[..|items| - 1]);
      var last := items[|items| - 1];
      BoundsOfListValid(last.0, last.1, BoundsOfItems(items[..|items| - 1]));
    }
  }

  /** Every key of either bound table is an action with local preconditions. */
  lemma BoundKeysAreLocal(items: Dict<seq<Expression>>, k: string)
    requires Valid(items) && AllStepsDefined(items)
    ensures k in Keys(BoundsOfItems(items).lower) ==> k in Keys(items)
    ensures k in Keys(BoundsOfItems(items).upper) ==> k in Keys(items)
  {
    BoundsLastWins(items, k);
    GetSomeIffKey(BoundsOfItems(items).lower, k);
    GetSomeIffKey(BoundsOfItems(items).upper, k);
    GetSomeIffKey(items, k);
  }
}
