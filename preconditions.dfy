/**
 * The action precondition tables: a precondition whose scope mentions
 * exactly one action fluent is local to that action, every other one is
 * global. Lists keep the order in which the preconditions are declared.
 */
module Preconditions {
  import opened Wrappers
  import opened Dicts
  import opened Expr

  /** Every precondition's scope evaluates. */
  predicate ScopesDefined(ps: seq<Expression>)
  {
    forall j :: 0 <= j < |ps| ==> ps[j].ScopeDefined()
  }

  /** `[action for action in precond.scope if action in action_fluents]`, as a set. */
  function ActionScope(p: Expression, actions: set<string>): set<string>
    requires p.ScopeDefined()
  {
    p.Scope() * actions
  }

  /** The precondition constrains exactly one action fluent. */
  predicate IsLocal(p: Expression, actions: set<string>)
    requires p.ScopeDefined()
  {
    |ActionScope(p, actions)| == 1
  }

  /** The one element of a singleton, `action_scope[0]`. */
  ghost function TheElement(s: set<string>): string
    requires |s| == 1
  {
    var x :| x in s; x
  }

  lemma SingletonElement(s: set<string>, x: string)
    requires |s| == 1 && x in s
    ensures s == {x} && TheElement(s) == x
  {
    assert |s - {x}| == |s| - 1;
    assert s == {x};
  }

  /** `local_action_preconditions` and `global_action_preconditions` */
  datatype Tables = Tables(local: Dict<seq<Expression>>, global: seq<Expression>)

  /** The tables after the preconditions `ps` are examined in order, starting empty. */
  ghost function PreconditionsTable(actions: set<string>, ps: seq<Expression>): Tables
    requires ScopesDefined(ps)
  {
    if ps == [] then Tables([], [])
    else
      var t := PreconditionsTable(actions, ps[..|ps| - 1]);
      var p := ps[|ps| - 1];
      if IsLocal(p, actions) then
        var a := TheElement(ActionScope(p, actions));
        Tables(Put(t.local, a, Get(t.local, a).GetOr([]) + [p]), t.global)
      else Tables(t.local, t.global + [p])
  }

  /** The preconditions in `ps` whose only action fluent is `a`, in order. */
  ghost function LocalFor(actions: set<string>, ps: seq<Expression>, a: string): seq<Expression>
    requires ScopesDefined(ps)
  {
    if ps == [] then []
    else
      var p := ps[|ps| - 1];
      LocalFor(actions, ps[..|ps| - 1], a) + if ActionScope(p, actions) == {a} then [p] else []
  }

  /** The preconditions in `ps` that mention no action fluent or more than one, in order. */
  ghost function GlobalOf(actions: set<string>, ps: seq<Expression>): seq<Expression>
    requires ScopesDefined(ps)
  {
    if ps == [] then []
    else
      var p := ps[|ps| - 1];
      GlobalOf(actions, ps[..|ps| - 1]) + if IsLocal(p, actions) then [] else [p]
  }

  /**
   * After the build, each action's local list holds exactly the preconditions
   * whose only action fluent it is, in declaration order, and an action with
   * none has no entry.
   */
  lemma {:induction false} LocalTable(actions: set<string>, ps: seq<Expression>, a: string)
    requires ScopesDefined(ps)
    ensures Get(PreconditionsTable(actions, ps).local, a) ==
      if LocalFor(actions, ps, a) == [] then None else Some(LocalFor(actions, ps, a))
  {
    if ps != [] {
      var init, p := ps[..|ps| - 1], ps[|ps| - 1];
      LocalTable(actions, init, a);
      var t := PreconditionsTable(actions, init);
      if IsLocal(p, actions) {
        var b := TheElement(ActionScope(p, actions));
        SingletonElement(ActionScope(p, actions), b);
        GetPut(t.local, b, Get(t.local, b).GetOr([]) + [p], a);
        if a == b {
          assert LocalFor(actions, ps, a) == LocalFor(actions, init, a) + [p];
        } else {
          assert LocalFor(actions, ps, a) == LocalFor(actions, init, a);
        }
      } else {
        assert ActionScope(p, actions) != {a};
        assert LocalFor(actions, ps, a) == LocalFor(actions, init, a);
      }
    }
  }

  /** After the build, the global list holds exactly the other preconditions, in declaration order. */
  lemma {:induction false} GlobalTable(actions: set<string>, ps: seq<Expression>)
    requires ScopesDefined(ps)
    ensures PreconditionsTable(actions, ps).global == GlobalOf(actions, ps)
  {
    if ps != [] {
      GlobalTable(actions, ps[..|ps| - 1]);
    }
  }

  /** The local table never repeats an action, and is keyed by action fluents only. */
  lemma {:induction false} LocalTableKeys(actions: set<string>, ps: seq<Expression>)
    requires ScopesDefined(ps)
    ensures Valid(PreconditionsTable(actions, ps).local)
    ensures forall k :: k in Keys(PreconditionsTable(actions, ps).local) ==> k in actions
  {
    if ps != [] {
      var init, p := ps[..|ps| - 1], ps[|ps| - 1];
      LocalTableKeys(actions, init);
      var t := PreconditionsTable(actions, init);
      if IsLocal(p, actions) {
        var b := TheElement(ActionScope(p, actions));
        SingletonElement(ActionScope(p, actions), b);
        PutValid(t.local, b, Get(t.local, b).GetOr([]) + [p]);
        KeysPut(t.local, b, Get(t.local, b).GetOr([]) + [p]);
      }
    }
  }

  /**
   * Every precondition is placed exactly once, as often as it is declared:
   * in the list of its one action fluent if it has one, else in the global list.
   */
  lemma {:induction false} PlacedOnce(actions: set<string>, ps: seq<Expression>, x: Expression, a: string)
    requires ScopesDefined(ps) && x.ScopeDefined()
    ensures multiset(LocalFor(actions, ps, a))[x] == if ActionScope(x, actions) == {a} then multiset(ps)[x] else 0
    ensures multiset(GlobalOf(actions, ps))[x] == if IsLocal(x, actions) then 0 else multiset(ps)[x]
  {
    if ps != [] {
      var init, p := ps[..|ps| - 1], ps[|ps| - 1];
      assert ps == init + [p];
      PlacedOnce(actions, init, x, a);
    }
  }
}
