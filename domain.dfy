/**
 * An RDDL domain: its declarations, CPFs and action preconditions, the views
 * derived from them, and the tables `build()` fills in.
 */
module Domains {
  import opened Wrappers
  import opened Strings
  import opened Dicts
  import opened Sorting
  import opened Expr
  import opened PVariables
  import opened Fluents
  import opened Preconditions
  import opened Bounds

  /** `[cpf.name for cpf in cs]` */
  function CpfNames(cs: seq<Cpf>): (names: seq<string>)
    ensures |names| == |cs| && forall i :: 0 <= i < |cs| ==> names[i] == cs[i].name
  {
    seq(|cs|, i requires 0 <= i < |cs| => cs[i].name)
  }

  class Domain {
    const name: string
    const pvariables: seq<PVariable>
    /** The `cpfs` section: its header and the CPFs in declaration order. */
    const cpfs: (string, seq<Cpf>)
    const preconds: seq<Expression>

    var localActionPreconditions: Dict<seq<Expression>>
    var globalActionPreconditions: seq<Expression>
    var actionLowerBoundConstraints: Dict<Raw>
    var actionUpperBoundConstraints: Dict<Raw>

    /** Stores the sections as given; a domain without preconditions has none. */
    constructor(name: string, pvariables: seq<PVariable>, cpfs: (string, seq<Cpf>), preconds: Option<seq<Expression>>)
      ensures this.name == name && this.pvariables == pvariables && this.cpfs == cpfs
      ensures this.preconds == preconds.GetOr([])
      ensures localActionPreconditions == [] && globalActionPreconditions == []
      ensures actionLowerBoundConstraints == [] && actionUpperBoundConstraints == []
    {
      this.name := name;
      this.pvariables := pvariables;
      this.cpfs := cpfs;
      this.preconds := preconds.GetOr([]);
      localActionPreconditions := [];
      globalActionPreconditions := [];
      actionLowerBoundConstraints := [];
      actionUpperBoundConstraints := [];
    }

    // -------------------------------------------------------------------
    // role mappings and orderings
    // -------------------------------------------------------------------

    function NonFluents(): (d: Dict<PVariable>)
      ensures Valid(d)
      ensures forall i :: 0 <= i < |d| ==> d[i].1.HasRole(NonFluent) && d[i].0 == d[i].1.Str()
      ensures forall k :: k in Keys(d) <==> Declares(pvariables, NonFluent, k)
      ensures forall k :: Get(d, k) == LastDeclared(pvariables, NonFluent, k)
    {
      FluentsOfSpec(pvariables, NonFluent);
      FluentsOf(pvariables, NonFluent)
    }

    function StateFluents(): (d: Dict<PVariable>)
      ensures Valid(d)
      ensures forall i :: 0 <= i < |d| ==> d[i].1.HasRole(StateFluent) && d[i].0 == d[i].1.Str()
      ensures forall k :: k in Keys(d) <==> Declares(pvariables, StateFluent, k)
      ensures forall k :: Get(d, k) == LastDeclared(pvariables, StateFluent, k)
    {
      FluentsOfSpec(pvariables, StateFluent);
      FluentsOf(pvariables, StateFluent)
    }

    function ActionFluents(): (d: Dict<PVariable>)
      ensures Valid(d)
      ensures forall i :: 0 <= i < |d| ==> d[i].1.HasRole(ActionFluent) && d[i].0 == d[i].1.Str()
      ensures forall k :: k in Keys(d) <==> Declares(pvariables, ActionFluent, k)
      ensures forall k :: Get(d, k) == LastDeclared(pvariables, ActionFluent, k)
    {
      FluentsOfSpec(pvariables, ActionFluent);
      FluentsOf(pvariables, ActionFluent)
    }

    function IntermediateFluents(): (d: Dict<PVariable>)
      ensures Valid(d)
      ensures forall i :: 0 <= i < |d| ==> d[i].1.HasRole(IntermFluent) && d[i].0 == d[i].1.Str()
      ensures forall k :: k in Keys(d) <==> Declares(pvariables, IntermFluent, k)
      ensures forall k :: Get(d, k) == LastDeclared(pvariables, IntermFluent, k)
    {
      FluentsOfSpec(pvariables, IntermFluent);
      FluentsOf(pvariables, IntermFluent)
    }

    function ObservFluents(): (d: Dict<PVariable>)
      ensures Valid(d)
      ensures forall i :: 0 <= i < |d| ==> d[i].1.HasRole(ObservFluent) && d[i].0 == d[i].1.Str()
      ensures forall k :: k in Keys(d) <==> Declares(pvariables, ObservFluent, k)
      ensures forall k :: Get(d, k) == LastDeclared(pvariables, ObservFluent, k)
    {
      FluentsOfSpec(pvariables, ObservFluent);
      FluentsOf(pvariables, ObservFluent)
    }

    /** The names `action in action_fluents` tests against. */
    function ActionNames(): set<string>
    {
      set k | k in Keys(ActionFluents())
    }

    function NonFluentOrdering(): (names: seq<string>)
      ensures StrictlyIncreasing(names)
      ensures forall k :: k in names <==> Declares(pvariables, NonFluent, k)
    {
      FluentOrderingSpec(pvariables, NonFluent);
      FluentOrdering(pvariables, NonFluent)
    }

    function StateFluentOrdering(): (names: seq<string>)
      ensures StrictlyIncreasing(names)
      ensures forall k :: k in names <==> Declares(pvariables, StateFluent, k)
    {
      FluentOrderingSpec(pvariables, StateFluent);
      FluentOrdering(pvariables, StateFluent)
    }

    function ActionFluentOrdering(): (names: seq<string>)
      ensures StrictlyIncreasing(names)
      ensures forall k :: k in names <==> Declares(pvariables, ActionFluent, k)
    {
      FluentOrderingSpec(pvariables, ActionFluent);
      FluentOrdering(pvariables, ActionFluent)
    }

    function ObservFluentOrdering(): (names: seq<string>)
      ensures StrictlyIncreasing(names)
      ensures forall k :: k in names <==> Declares(pvariables, ObservFluent, k)
    {
      FluentOrderingSpec(pvariables, ObservFluent);
      FluentOrdering(pvariables, ObservFluent)
    }

    /** The intermediate fluents' names, ordered by `(level, name)`. */
    function IntermFluentOrdering(): (names: seq<string>)
      ensures |names| == |IntermediateFluents()|
      ensures forall i :: 0 <= i < |names| ==> names[i] == IntermFluentsSorted(pvariables)[i].Str()
      ensures SortedBy(IntermFluentsSorted(pvariables), LevelKey)
      ensures multiset(IntermFluentsSorted(pvariables)) == multiset(Values(IntermediateFluents()))
    {
      IntermFluentOrderingSpec(pvariables);
      Fluents.IntermFluentOrdering(pvariables)
    }

    // -------------------------------------------------------------------
    // CPF partitions
    // -------------------------------------------------------------------

    function IntermediateCpfs(): (cs: seq<Cpf>)
      ensures SortedBy(cs, CpfLevelKey(IntermediateFluents()))
      ensures forall c :: c in cs <==> c in cpfs.1 && Declares(pvariables, IntermFluent, c.name)
      ensures forall c :: multiset(cs)[c] == if Declares(pvariables, IntermFluent, c.name) then multiset(cpfs.1)[c] else 0
    {
      IntermediateCpfsSpec(pvariables, cpfs.1);
      Fluents.IntermediateCpfs(pvariables, cpfs.1)
    }

    function ObservCpfs(): (cs: seq<Cpf>)
      ensures SortedBy(cs, NameKey)
      ensures forall c :: c in cs <==> c in cpfs.1 && Declares(pvariables, ObservFluent, c.name)
      ensures forall c :: multiset(cs)[c] == if Declares(pvariables, ObservFluent, c.name) then multiset(cpfs.1)[c] else 0
    {
      ObservCpfsSpec(pvariables, cpfs.1);
      Fluents.ObservCpfs(pvariables, cpfs.1)
    }

    /** `state_cpfs`, with `deprime` standing for the renaming of a next-state fluent to its state fluent. */
    method StateCpfs(deprime: string -> string) returns (cs: seq<Cpf>)
      ensures cs == StateCpfsOf(pvariables, cpfs.1, deprime)
      ensures SortedBy(cs, NameKey)
      ensures forall c :: c in cs <==> c in cpfs.1 && Declares(pvariables, StateFluent, deprime(c.name))
      ensures forall c :: multiset(cs)[c] == if Declares(pvariables, StateFluent, deprime(c.name)) then multiset(cpfs.1)[c] else 0
    {
      var stateFluents := Keys(StateFluents());
      var selected := [];
      for i := 0 to |cpfs.1|
        invariant selected == Select(cpfs.1[..i], deprime, stateFluents)
      {
        var cpf := cpfs.1[i];
        var fluent := deprime(cpf.name);
        if fluent in stateFluents {
          selected := selected + [cpf];
        }
        assert cpfs.1[..i + 1][..i] == cpfs.1[..i];
      }
      assert cpfs.1[..|cpfs.1|] == cpfs.1;
      cs := SortBy(selected, NameKey);
      StateCpfsSpec(pvariables, cpfs.1, deprime);
    }

    /**
     * `next_state_fluent_ordering`: the names of the state CPFs; sorting them
     * again by name changes nothing.
     */
    function NextStateFluentOrdering(deprime: string -> string): (names: seq<string>)
      ensures names == CpfNames(StateCpfsOf(pvariables, cpfs.1, deprime))
      ensures forall i, j :: 0 <= i < j < |names| ==> !StrLt(names[j], names[i])
    {
      var state := StateCpfsOf(pvariables, cpfs.1, deprime);
      StateCpfsSpec(pvariables, cpfs.1, deprime);
      SortBySortedIdentity(state, NameKey);
      CpfNames(SortBy(state, NameKey))
    }

    /** `get_intermediate_cpf`: the first intermediate CPF, in level order, called `name`. */
    method GetIntermediateCpf(cpfName: string) returns (r: Option<Cpf>)
      ensures r.None? <==> forall c :: c in IntermediateCpfs() ==> c.name != cpfName
      ensures r.Some? ==> r.value.name == cpfName
      ensures r.Some? ==> exists i :: (0 <= i < |IntermediateCpfs()| && IntermediateCpfs()[i] == r.value
                                       && forall j :: 0 <= j < i ==> IntermediateCpfs()[j].name != cpfName)
      ensures r.Some? ==> r.value in cpfs.1 && Declares(pvariables, IntermFluent, cpfName)
    {
      var cs := IntermediateCpfs();
      r := FindCpf(cs, cpfName);
    }

    // -------------------------------------------------------------------
    // build
    // -------------------------------------------------------------------

    /** `_build_preconditions_table`: files each precondition under its one action fluent, or as global. */
    method BuildPreconditionsTable()
      requires ScopesDefined(preconds)
      modifies this
      ensures Tables(localActionPreconditions, globalActionPreconditions) == PreconditionsTable(ActionNames(), preconds)
      ensures actionLowerBoundConstraints == old(actionLowerBoundConstraints)
      ensures actionUpperBoundConstraints == old(actionUpperBoundConstraints)
    {
      localActionPreconditions := [];
      globalActionPreconditions := [];
      var actionFluents := ActionNames();
      for i := 0 to |preconds|
        invariant ScopesDefined(preconds[..i])
        invariant Tables(localActionPreconditions, globalActionPreconditions) == PreconditionsTable(actionFluents, preconds[..i])
        invariant actionLowerBoundConstraints == old(actionLowerBoundConstraints)
        invariant actionUpperBoundConstraints == old(actionUpperBoundConstraints)
      {
        var precond := preconds[i];
        var scope := GetScope(precond.expr);
        var actionScope := scope * actionFluents;
        assert preconds[..i + 1][..i] == preconds[..i];
        if |actionScope| == 1 {
          var action :| action in actionScope;
          SingletonElement(actionScope, action);
          localActionPreconditions := Put(localActionPreconditions, action,
            Get(localActionPreconditions, action).GetOr([]) + [precond]);
        } else {
          globalActionPreconditions := globalActionPreconditions + [precond];
        }
      }
      assert preconds[..|preconds|] == preconds;
    }

    /**
     * The body of the inner loop of `_build_action_bound_constraints_table`:
     * finds the relational candidate of one precondition of `action` and
     * records its lower bound, or else its upper bound.
     */
    method RecordBound(action: string, precond: Expression)
      requires StepDefined(action, precond)
      modifies this
      ensures localActionPreconditions == old(localActionPreconditions)
      ensures globalActionPreconditions == old(globalActionPreconditions)
      ensures BoundTables(actionLowerBoundConstraints, actionUpperBoundConstraints)
           == Record(old(BoundTables(actionLowerBoundConstraints, actionUpperBoundConstraints)), action, ContributionOf(action, precond))
    {
      var boundsExpr := FindBoundsExpression(precond);
      ghost var contribution := ContributionOf(action, precond);
      if boundsExpr.Some? {
        var bound := ExtractLowerBound(action, boundsExpr.value);
        if bound.Some? {
          assert contribution == LowerBound(bound.value);
          actionLowerBoundConstraints := Put(actionLowerBoundConstraints, action, bound.value);
        } else {
          bound := ExtractUpperBound(action, boundsExpr.value);
          if bound.Some? {
            assert contribution == UpperBound(bound.value);
            actionUpperBoundConstraints := Put(actionUpperBoundConstraints, action, bound.value);
          } else {
            assert contribution == NoBound;
          }
        }
      } else {
        assert contribution == NoBound;
      }
    }

    /** The inner loop of `_build_action_bound_constraints_table`: the preconditions `ps` of `action`, in order. */
    method RecordBounds(action: string, ps: seq<Expression>)
      requires forall j :: 0 <= j < |ps| ==> StepDefined(action, ps[j])
      modifies this
      ensures localActionPreconditions == old(localActionPreconditions)
      ensures globalActionPreconditions == old(globalActionPreconditions)
      ensures BoundTables(actionLowerBoundConstraints, actionUpperBoundConstraints)
           == BoundsOfList(action, ps, old(BoundTables(actionLowerBoundConstraints, actionUpperBoundConstraints)))
    {
      ghost var before := BoundTables(actionLowerBoundConstraints, actionUpperBoundConstraints);
      for j := 0 to |ps|
        invariant BoundTables(actionLowerBoundConstraints, actionUpperBoundConstraints) == BoundsOfList(action, ps[..j], before)
        invariant localActionPreconditions == old(localActionPreconditions)
        invariant globalActionPreconditions == old(globalActionPreconditions)
      {
        assert ps[..j + 1][..j] == ps[..j];
        RecordBound(action, ps[j]);
      }
      assert ps[..|ps|] == ps;
    }

    /**
     * `_build_action_bound_constraints_table`: reads a bound off each local
     * precondition, lower first, the later overwriting the earlier.
     */
    method BuildActionBoundConstraintsTable()
      requires AllStepsDefined(localActionPreconditions)
      modifies this
      ensures localActionPreconditions == old(localActionPreconditions)
      ensures globalActionPreconditions == old(globalActionPreconditions)
      ensures BoundTables(actionLowerBoundConstraints, actionUpperBoundConstraints) == BoundsOfItems(localActionPreconditions)
      ensures Valid(actionLowerBoundConstraints) && Valid(actionUpperBoundConstraints)
    {
      actionLowerBoundConstraints := [];
      actionUpperBoundConstraints := [];
      var items := localActionPreconditions;
      for i := 0 to |items|
        invariant AllStepsDefined(items[..i])
        invariant BoundTables(actionLowerBoundConstraints, actionUpperBoundConstraints) == BoundsOfItems(items[..i])
        invariant localActionPreconditions == items
        invariant globalActionPreconditions == old(globalActionPreconditions)
      {
        AllStepsDefinedPrefix(items, i + 1);
        assert items[..i + 1][..i] == items[..i];
        RecordBounds(items[i].0, items[i].1);
      }
      assert items[..|items|] == items;
      BoundsOfItemsValid(items);
    }

    /**
     * `build`: fills the precondition tables, then the bound tables from the
     * local preconditions. Every action with a local precondition or a bound
     * is a declared action fluent.
     */
    method Build()
      requires ScopesDefined(preconds)
      requires AllStepsDefined(PreconditionsTable(ActionNames(), preconds).local)
      modifies this
      ensures Tables(localActionPreconditions, globalActionPreconditions) == PreconditionsTable(ActionNames(), preconds)
      ensures BoundTables(actionLowerBoundConstraints, actionUpperBoundConstraints) == BoundsOfItems(localActionPreconditions)
      ensures Valid(localActionPreconditions)
      ensures Valid(actionLowerBoundConstraints) && Valid(actionUpperBoundConstraints)
      ensures forall k :: k in Keys(localActionPreconditions) ==> k in ActionNames()
      ensures forall k :: k in Keys(actionLowerBoundConstraints) ==> k in Keys(localActionPreconditions)
      ensures forall k :: k in Keys(actionUpperBoundConstraints) ==> k in Keys(localActionPreconditions)
    {
      BuildPreconditionsTable();
      BuildActionBoundConstraintsTable();
      LocalTableKeys(ActionNames(), preconds);
      forall k | k in Keys(actionLowerBoundConstraints) || k in Keys(actionUpperBoundConstraints)
        ensures k in Keys(localActionPreconditions)
      {
        BoundKeysAreLocal(localActionPreconditions, k);
      }
    }
  }
}
