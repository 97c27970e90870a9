/**
 * What a domain derives from its declarations without changing anything:
 * the role mappings keyed by `str(pvar)`, their canonical orderings, and the
 * partitions of the conditional probability functions (CPFs) by role.
 */
module Fluents {
  import opened Wrappers
  import opened Strings
  import opened Dicts
  import opened Sorting
  import opened Expr
  import opened PVariables

  /** A conditional probability function: the fluent it defines and its expression. */
  datatype Cpf = Cpf(name: string, expr: Expression)

  // ---------------------------------------------------------------------
  // role mappings
  // ---------------------------------------------------------------------

  /**
   * `{ str(pvar): pvar for pvar in pvs if <role predicate> }`: declarations
   * are visited in order, so a repeated key keeps its first position and
   * its last value.
   */
  function FluentsOf(pvs: seq<PVariable>, role: Role): Dict<PVariable>
  {
    if pvs == [] then []
    else
      var d := FluentsOf(pvs[..|pvs| - 1], role);
      var p := pvs[|pvs| - 1];
      if p.HasRole(role) then Put(d, p.Str(), p) else d
  }

  /** The last declaration with the role whose `str` is `k`. */
  function LastDeclared(pvs: seq<PVariable>, role: Role, k: string): (r: Option<PVariable>)
    ensures r.Some? ==> r.value in pvs && r.value.HasRole(role) && r.value.Str() == k
  {
    if pvs == [] then None
    else
      var p := pvs[|pvs| - 1];
      if p.HasRole(role) && p.Str() == k then Some(p) else LastDeclared(pvs[..|pvs| - 1], role, k)
  }

  /** `p` has the role and prints as `k`. */
  predicate Matches(p: PVariable, role: Role, k: string)
  {
    p.HasRole(role) && p.Str() == k
  }

  /** Some declaration in `pvs` has the role and prints as `k`. */
  predicate Declares(pvs: seq<PVariable>, role: Role, k: string)
  {
    exists i :: 0 <= i < |pvs| && Matches(pvs[i], role, k)
  }

  /** A declaration in `pvs` is one in all but the last, or the last. */
  lemma DeclaresSnoc(pvs: seq<PVariable>, role: Role, k: string)
    requires pvs != []
    ensures Declares(pvs, role, k) <==> Declares(pvs[..|pvs| - 1], role, k) || Matches(pvs[|pvs| - 1], role, k)
  {
    var init, n := pvs[..|pvs| - 1], |pvs| - 1;
    if Declares(pvs, role, k) {
      var i :| 0 <= i < |pvs| && Matches(pvs[i], role, k);
      if i < n {
        assert init[i] == pvs[i];
      }
    }
    if Declares(init, role, k) {
      var i :| 0 <= i < |init| && Matches(init[i], role, k);
      assert pvs[i] == init[i];
    }
  }

  lemma {:induction false} LastDeclaredExists(pvs: seq<PVariable>, role: Role, k: string)
    ensures LastDeclared(pvs, role, k).Some? <==> Declares(pvs, role, k)
  {
    if pvs != [] {
      LastDeclaredExists(pvs[..|pvs| - 1], role, k);
      DeclaresSnoc(pvs, role, k);
    }
  }

  /** A role mapping holds, under each key, the last declaration of that role printing as the key. */
  lemma {:induction false} FluentsOfLookup(pvs: seq<PVariable>, role: Role, k: string)
    ensures Get(FluentsOf(pvs, role), k) == LastDeclared(pvs, role, k)
  {
    if pvs != [] {
      var p := pvs[|pvs| - 1];
      FluentsOfLookup(pvs[..|pvs| - 1], role, k);
      if p.HasRole(role) {
        GetPut(FluentsOf(pvs[..|pvs| - 1], role), p.Str(), p, k);
      }
    }
  }

  /** The keys of a role mapping are exactly the `str` of the declarations with that role. */
  lemma FluentsOfKeys(pvs: seq<PVariable>, role: Role)
    ensures forall k :: k in Keys(FluentsOf(pvs, role)) <==> Declares(pvs, role, k)
  {
    forall k ensures k in Keys(FluentsOf(pvs, role)) <==> Declares(pvs, role, k) {
      GetSomeIffKey(FluentsOf(pvs, role), k);
      FluentsOfLookup(pvs, role, k);
      LastDeclaredExists(pvs, role, k);
    }
  }

  /**
   * The role mapping in full: no repeated key, each entry a declaration of
   * the role filed under its own `str`, the keys exactly the declared names,
   * and under each the last such declaration.
   */
  lemma FluentsOfSpec(pvs: seq<PVariable>, role: Role)
    ensures var d := FluentsOf(pvs, role);
      && Valid(d)
      && (forall i :: 0 <= i < |d| ==> d[i].1.HasRole(role) && d[i].0 == d[i].1.Str())
      && (forall k :: k in Keys(d) <==> Declares(pvs, role, k))
      && (forall k :: Get(d, k) == LastDeclared(pvs, role, k))
  {
    FluentsOfEntries(pvs, role);
    FluentsOfKeys(pvs, role);
    forall k ensures Get(FluentsOf(pvs, role), k) == LastDeclared(pvs, role, k) {
      FluentsOfLookup(pvs, role, k);
    }
  }

  /** A role mapping never repeats a key, and each entry is a declaration of that role filed under its own `str`. */
  lemma {:induction false} FluentsOfEntries(pvs: seq<PVariable>, role: Role)
    ensures Valid(FluentsOf(pvs, role))
    ensures forall i :: 0 <= i < |FluentsOf(pvs, role)| ==>
      FluentsOf(pvs, role)[i].1.HasRole(role) && FluentsOf(pvs, role)[i].0 == FluentsOf(pvs, role)[i].1.Str()
  {
    if pvs != [] {
      var d := FluentsOf(pvs[..|pvs| - 1], role);
      var p := pvs[|pvs| - 1];
      FluentsOfEntries(pvs[..|pvs| - 1], role);
      if p.HasRole(role) {
        PutValid(d, p.Str(), p);
        PutEntries(d, p.Str(), p, role);
      }
    }
  }

  lemma {:induction false} PutEntries(d: Dict<PVariable>, k: string, p: PVariable, role: Role)
    requires forall i :: 0 <= i < |d| ==> d[i].1.HasRole(role) && d[i].0 == d[i].1.Str()
    requires p.HasRole(role) && k == p.Str()
    ensures forall i :: 0 <= i < |Put(d, k, p)| ==> Put(d, k, p)[i].1.HasRole(role) && Put(d, k, p)[i].0 == Put(d, k, p)[i].1.Str()
  {
    if d != [] && d[0].0 != k {
      PutEntries(d[1..], k, p, role);
      assert Put(d, k, p) == [d[0]] + Put(d[1..], k, p);
    }
  }

  // ---------------------------------------------------------------------
  // orderings
  // ---------------------------------------------------------------------

  /** `sorted(mapping)` for the non-fluent, state, action and observation roles. */
  function FluentOrdering(pvs: seq<PVariable>, role: Role): seq<string>
  {
    SortStrings(Keys(FluentsOf(pvs, role)))
  }

  /** The canonical ordering lists each name of the role exactly once, in ascending order. */
  lemma FluentOrderingSpec(pvs: seq<PVariable>, role: Role)
    ensures StrictlyIncreasing(FluentOrdering(pvs, role))
    ensures forall k :: k in FluentOrdering(pvs, role) <==> Declares(pvs, role, k)
  {
    var d := FluentsOf(pvs, role);
    FluentsOfEntries(pvs, role);
    assert Distinct(Keys(d));
    SortStringsStrict(Keys(d));
    FluentsOfKeys(pvs, role);
  }

  /** The sort key `(pvar.level, pvar.name)` of an intermediate fluent; a missing level sorts as 0. */
  function LevelKey(p: PVariable): Key
  {
    (p.level.GetOr(0), p.name)
  }

  /** The intermediate fluents sorted by `(level, name)`. */
  function IntermFluentsSorted(pvs: seq<PVariable>): seq<PVariable>
  {
    SortBy(Values(FluentsOf(pvs, IntermFluent)), LevelKey)
  }

  /** `[str(pvar) for pvar in ps]` */
  function StrOfAll(ps: seq<PVariable>): (names: seq<string>)
    ensures |names| == |ps| && forall i :: 0 <= i < |ps| ==> names[i] == ps[i].Str()
  {
    seq(|ps|, i requires 0 <= i < |ps| => ps[i].Str())
  }

  /** `interm_fluent_ordering` */
  function IntermFluentOrdering(pvs: seq<PVariable>): seq<string>
  {
    StrOfAll(IntermFluentsSorted(pvs))
  }

  /**
   * The intermediate ordering is the intermediate mapping's values, each
   * listed once, ordered by `(level, name)`, and printed with `str`.
   */
  lemma IntermFluentOrderingSpec(pvs: seq<PVariable>)
    ensures SortedBy(IntermFluentsSorted(pvs), LevelKey)
    ensures multiset(IntermFluentsSorted(pvs)) == multiset(Values(FluentsOf(pvs, IntermFluent)))
    ensures forall p :: p in IntermFluentsSorted(pvs) ==> InMapping(FluentsOf(pvs, IntermFluent), p)
  {
    var d := FluentsOf(pvs, IntermFluent);
    var sorted := IntermFluentsSorted(pvs);
    SortBySorted(Values(d), LevelKey);
    FluentsOfEntries(pvs, IntermFluent);
    forall p | p in sorted ensures InMapping(d, p) {
      ValueInMapping(d, p);
    }
  }

  /** `p` is an intermediate fluent and the mapping files it under its own `str`. */
  predicate InMapping(d: Dict<PVariable>, p: PVariable)
  {
    p.IsIntermediateFluent() && Get(d, p.Str()) == Some(p)
  }

  lemma ValueInMapping(d: Dict<PVariable>, p: PVariable)
    requires Valid(d)
    requires forall i :: 0 <= i < |d| ==> d[i].1.HasRole(IntermFluent) && d[i].0 == d[i].1.Str()
    requires p in multiset(Values(d))
    ensures InMapping(d, p)
  {
    var j :| 0 <= j < |d| && Values(d)[j] == p;
    GetEntry(d, j);
    assert d[j].1.HasRole(IntermFluent);
  }

  // ---------------------------------------------------------------------
  // CPF partitions
  // ---------------------------------------------------------------------

  /** The CPFs whose name, after `rename`, is one of `names`, in their original order. */
  function Select(cpfs: seq<Cpf>, rename: string -> string, names: seq<string>): (r: seq<Cpf>)
    ensures forall c :: c in r <==> c in cpfs && rename(c.name) in names
  {
    if cpfs == [] then []
    else
      var c := cpfs[|cpfs| - 1];
      assert cpfs == cpfs[..|cpfs| - 1] + [c];
      Select(cpfs[..|cpfs| - 1], rename, names) + (if rename(c.name) in names then [c] else [])
  }

  /** Each selected CPF is kept as often as it occurs, every other one not at all. */
  lemma {:induction false} SelectCount(cpfs: seq<Cpf>, rename: string -> string, names: seq<string>, c: Cpf)
    ensures multiset(Select(cpfs, rename, names))[c] == if rename(c.name) in names then multiset(cpfs)[c] else 0
  {
    if cpfs != [] {
      var init := cpfs[..|cpfs| - 1];
      assert cpfs == init + [cpfs[|cpfs| - 1]];
      SelectCount(init, rename, names, c);
    }
  }

  function Unchanged(n: string): string
  {
    n
  }

  /** The sort key `cpf.name`. */
  function NameKey(c: Cpf): Key
  {
    (0, c.name)
  }

  /** The level of the intermediate fluent called `n` (0 when there is none). */
  function LevelOf(interm: Dict<PVariable>, n: string): int
  {
    match Get(interm, n)
    case Some(p) => p.level.GetOr(0)
    case None => 0
  }

  /** The sort key `(intermediate_fluents[cpf.name].level, cpf.name)`. */
  function CpfLevelKey(interm: Dict<PVariable>): Cpf -> Key
  {
    (c: Cpf) => (LevelOf(interm, c.name), c.name)
  }

  /** `intermediate_cpfs` */
  function IntermediateCpfs(pvs: seq<PVariable>, cpfs: seq<Cpf>): seq<Cpf>
  {
    var interm := FluentsOf(pvs, IntermFluent);
    SortBy(Select(cpfs, Unchanged, Keys(interm)), CpfLevelKey(interm))
  }

  /** `observ_cpfs` */
  function ObservCpfs(pvs: seq<PVariable>, cpfs: seq<Cpf>): seq<Cpf>
  {
    SortBy(Select(cpfs, Unchanged, Keys(FluentsOf(pvs, ObservFluent))), NameKey)
  }

  /** What `state_cpfs` returns for the de-priming function `deprime`. */
  function StateCpfsOf(pvs: seq<PVariable>, cpfs: seq<Cpf>, deprime: string -> string): seq<Cpf>
  {
    SortBy(Select(cpfs, deprime, Keys(FluentsOf(pvs, StateFluent))), NameKey)
  }

  /** A CPF partition keeps exactly the CPFs of its role, each as often as before, in sorted order. */
  lemma PartitionSpec(cpfs: seq<Cpf>, rename: string -> string, names: seq<string>, key: Cpf -> Key)
    ensures var r := SortBy(Select(cpfs, rename, names), key);
      && SortedBy(r, key)
      && multiset(r) == multiset(Select(cpfs, rename, names))
      && (forall c :: c in r <==> c in cpfs && rename(c.name) in names)
      && (forall c :: multiset(r)[c] == if rename(c.name) in names then multiset(cpfs)[c] else 0)
  {
    var s := Select(cpfs, rename, names);
    SortBySorted(s, key);
    forall c ensures multiset(SortBy(s, key))[c] == if rename(c.name) in names then multiset(cpfs)[c] else 0 {
      SelectCount(cpfs, rename, names, c);
    }
    forall c: Cpf ensures c in SortBy(s, key) <==> c in s {
      assert c in SortBy(s, key) <==> c in multiset(SortBy(s, key));
      assert c in s <==> c in multiset(s);
    }
  }

  /** `intermediate_cpfs` holds the CPFs of intermediate fluents, ordered by `(level, name)`. */
  lemma IntermediateCpfsSpec(pvs: seq<PVariable>, cpfs: seq<Cpf>)
    ensures SortedBy(IntermediateCpfs(pvs, cpfs), CpfLevelKey(FluentsOf(pvs, IntermFluent)))
    ensures forall c :: c in IntermediateCpfs(pvs, cpfs) <==> c in cpfs && Declares(pvs, IntermFluent, c.name)
    ensures forall c :: multiset(IntermediateCpfs(pvs, cpfs))[c] == if Declares(pvs, IntermFluent, c.name) then multiset(cpfs)[c] else 0
  {
    var interm := FluentsOf(pvs, IntermFluent);
    PartitionSpec(cpfs, Unchanged, Keys(interm), CpfLevelKey(interm));
    FluentsOfKeys(pvs, IntermFluent);
  }

  /** `observ_cpfs` holds the CPFs of observation fluents, ordered by name. */
  lemma ObservCpfsSpec(pvs: seq<PVariable>, cpfs: seq<Cpf>)
    ensures SortedBy(ObservCpfs(pvs, cpfs), NameKey)
    ensures forall c :: c in ObservCpfs(pvs, cpfs) <==> c in cpfs && Declares(pvs, ObservFluent, c.name)
    ensures forall c :: multiset(ObservCpfs(pvs, cpfs))[c] == if Declares(pvs, ObservFluent, c.name) then multiset(cpfs)[c] else 0
  {
    var observ := FluentsOf(pvs, ObservFluent);
    PartitionSpec(cpfs, Unchanged, Keys(observ), NameKey);
    FluentsOfKeys(pvs, ObservFluent);
  }

  /** `state_cpfs` holds the CPFs whose de-primed name is a state fluent, ordered by name. */
  lemma StateCpfsSpec(pvs: seq<PVariable>, cpfs: seq<Cpf>, deprime: string -> string)
    ensures SortedBy(StateCpfsOf(pvs, cpfs, deprime), NameKey)
    ensures forall c :: c in StateCpfsOf(pvs, cpfs, deprime) <==> c in cpfs && Declares(pvs, StateFluent, deprime(c.name))
    ensures forall c :: multiset(StateCpfsOf(pvs, cpfs, deprime))[c] == if Declares(pvs, StateFluent, deprime(c.name)) then multiset(cpfs)[c] else 0
  {
    var state := FluentsOf(pvs, StateFluent);
    PartitionSpec(cpfs, deprime, Keys(state), NameKey);
    FluentsOfKeys(pvs, StateFluent);
  }

  /** The loop of `get_intermediate_cpf`: the first CPF of `cs` called `name`, if any. */
  method FindCpf(cs: seq<Cpf>, name: string) returns (r: Option<Cpf>)
    ensures r.None? <==> forall c :: c in cs ==> c.name != name
    ensures r.Some? ==> r.value.name == name
    ensures r.Some? ==> exists i :: 0 <= i < |cs| && cs[i] == r.value && forall j :: 0 <= j < i ==> cs[j].name != name
  {
    for i := 0 to |cs|
      invariant forall j :: 0 <= j < i ==> cs[j].name != name
    {
      if cs[i].name == name {
        return Some(cs[i]);
      }
    }
    return None;
  }
}
