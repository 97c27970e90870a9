# pyrddl object model in Dafny

This project models the core of pyrddl's object model for RDDL (Relational
Dynamic influence Diagram Language) domains:

- **Expressions** (`expr.dfy`, module `Expr`). The parser hands over nested
  tagged tuples such as `('+', (e1, e2))` or `('pvar_expr', ('move', ['?x']))`.
  An `Expression` wraps one such node and reads it:
  - `etype` classifies the node by its leading tag;
  - `args` extracts its payload;
  - `name` and `value` are accessors guarded by a `ValueError`;
  - `scope` collects the `functor/arity` names of the pvariables a node
    mentions, by the depth-first walk of `__get_scope`. That walk stops
    scanning a sequence at the first `'pvar_expr'` string it meets.

  Nodes are kept as the Python values they are (`Raw`: strings, tuples and
  lists, nested Expression objects, literals, `None`), because the walk depends
  on their positional layout.
- **Parameterized variables** (`pvariable.dfy`, module `PVariables`):
  - the declaration record, its `arity` and its five role predicates;
  - `str`, which prints `name/arity`, and `repr`.

  The constructor's optional arguments default to `None`, as the datatype's
  default parameter values.
- **Domains**:
  - `domain.dfy`, module `Domains`, holds the `Domain` class. Its `Build`
    method fills the four tables in place.
  - The pure views it reads live in three modules:
    - `fluents.dfy` (`Fluents`): the role mappings keyed by `str(pvar)`, their
      canonical orderings, and the CPF (conditional probability function)
      partitions;
    - `preconditions.dfy` (`Preconditions`): the local and global action
      precondition tables;
    - `bounds.dfy` (`Bounds`): the lower and upper action bound tables.

Python's `dict` is `Dicts.Dict`, an insertion-ordered association list in
which assigning to a present key replaces its value in place. Python's
`sorted` is `Sorting.SortBy`, a stable sort on `(int, string)` keys. Strings
are compared by code point, as Python compares them. Because the sort is
stable and the order total, its result is the one Python's own stable sort
gives.

## Model

| member | source | states |
|---|---|---|
| Expr.PvarToName | pyrddl/expr.py:196-205 | the name reads back as the functor and the arity, which is `len(params)`, or 0 when params is None |
| Expr.Expression.Etype | pyrddl/expr.py:40-76 | `etype` is total: the category is `'UNKOWN'` exactly when the leading tag is outside the RDDL vocabulary |
| Expr.EtypeConstant | pyrddl/expr.py:43-44 | `number` and `boolean` nodes are constants whose subtype is the Python type name of the payload |
| Expr.EtypePayloadTable | pyrddl/expr.py:45-58 | pvar, penum, randomvar and func nodes take the first element of the payload as subtype |
| Expr.EtypeOfArithmetic | pyrddl/expr.py:51-52 | `+ - * /` classify as `('arithmetic', tag)` |
| Expr.EtypeOfBoolean | pyrddl/expr.py:53-54 | the six boolean connectives classify as `('boolean', tag)` |
| Expr.EtypeOfRelational | pyrddl/expr.py:55-56 | `>= <= < > == ~=` classify as `('relational', tag)` |
| Expr.EtypeOfAggregation | pyrddl/expr.py:59-72 | aggregations classify as `('aggregation', subtype)`, with `max` and `min` spelled `maximum` and `minimum` |
| Expr.EtypeOfIf | pyrddl/expr.py:73-74 | `if` classifies as `('control', 'if')` |
| Expr.EtypeUnknown | pyrddl/expr.py:75-76 | any other leading value classifies as `('UNKOWN', 'UNKOWN')` |
| Expr.Expression.Args | pyrddl/expr.py:78-102 | `args` is `node[1][1]` for randomvar and func, `node[1]` for every other known tag, and `[]` for an unknown one |
| Expr.Expression.IsConstantExpression | pyrddl/expr.py:104-106 | holds exactly when the tag is `number` or `boolean` |
| Expr.Expression.IsPvariableExpression | pyrddl/expr.py:108-110 | holds exactly when the tag is `pvar_expr` |
| Expr.Expression.Name | pyrddl/expr.py:112-124 | raises `ValueError('Expression is not a pvariable.')` exactly for non-pvariables; otherwise it is the `functor/arity` of the payload |
| Expr.Expression.Value | pyrddl/expr.py:126-138 | returns `node[1]` unchanged exactly for constants; otherwise raises `ValueError('Expression is not a number.')` |
| Expr.GetScope | pyrddl/expr.py:171-194 | the loop with its early `break` computes the scope of the node |
| Expr.Expression.Scope | pyrddl/expr.py:162-169 | `scope` is the walk of the node: a name is in it exactly when a nested node before the first `'pvar_expr'` string has it in its scope, or it is the name of the pair after that string |
| Expr.ScopeOfCharacterized | pyrddl/expr.py:171-194 | the same characterisation for the walk of any well-formed node |
| Expr.ScopeFromCharacterized | pyrddl/expr.py:182-194 | a name is in the scope exactly when a nested node before the first `'pvar_expr'` string has it in its scope, or it is the name of the pair after that string |
| Expr.PvarExpressionScope | pyrddl/expr.py:162-193 | the scope of a pvariable expression is its own name alone |
| Expr.PvarTagEndsWalk | pyrddl/expr.py:188-193 | nothing after a `'pvar_expr'` pair is scanned, not even a further pvariable |
| Expr.OperatorScope | pyrddl/expr.py:183-187 | the scope of an operator node is the union of its operands' scopes |
| PVariables.DeclarationDefaults | pyrddl/pvariable.py:46-58 | a declaration given only a name, a fluent type and a range stores them and leaves the parameter types, default and level None; it then has arity 0, prints as `name/0` and its `repr` is the bare name |
| PVariables.PVariable.Arity | pyrddl/pvariable.py:60-63 | the number of parameter types, and 0 when there are none |
| PVariables.PVariable.IsFluent | pyrddl/pvariable.py:65-71 | `is_fluent()` is `not is_non_fluent()` |
| PVariables.PVariable.RoleOf | pyrddl/pvariable.py:65-87 | at most one of the five role predicates holds, and it is the one `RoleOf` names |
| PVariables.PVariable.Str | pyrddl/pvariable.py:89-91 | `str(pvar)` reads back as the name and the arity |
| PVariables.StrInjective | pyrddl/pvariable.py:89-91 | two declarations print alike exactly when they agree on name and arity |
| PVariables.StrAgreesWithExpressionName | pyrddl/pvariable.py:89-91 | `str(pvar)` is the `name` of a pvariable expression over the same functor with as many arguments |
| PVariables.PVariable.Repr | pyrddl/pvariable.py:93-95 | the bare name exactly when the arity is 0; otherwise the name followed by a parenthesised list |
| PVariables.ReprRoundTrip | pyrddl/pvariable.py:93-95 | the name and the parameter types read back from `repr`, given no `(` in the name and no comma in a type |
| Strings.FluentNameRoundTrip | pyrddl/expr.py:203-205 | `'{}/{}'.format(functor, arity)` reads back as the functor and the arity |
| Strings.ParseFluentNameExact | pyrddl/expr.py:203-205 | a string reads back as a functor and an arity exactly when it is `'{}/{}'.format(functor, arity)`; a numeral with a leading zero is not read back |
| Strings.NatToStringParseNat | pyrddl/expr.py:205 | a decimal numeral without leading zeros is the printing of the number it denotes |
| Strings.FluentNameInjective | pyrddl/expr.py:203-205 | distinct (functor, arity) pairs print as distinct names |
| Strings.SplitJoin | pyrddl/pvariable.py:95 | splitting `','.join(types)` at commas gives the types back when none holds a comma |
| Dicts.GetPut | pyrddl/domain.py:78-79 | after `d[k] = v`, looking up `k` finds `v` and every other key finds what it found before |
| Dicts.KeysPut | pyrddl/domain.py:78-79 | assigning keeps the key order and appends only a new key |
| Sorting.SortBySorted | pyrddl/domain.py:168 | `sorted` returns a permutation ordered by the key |
| Sorting.SortByStable | pyrddl/domain.py:168 | `sorted` keeps the input order among elements with equal keys |
| Sorting.SortBySortedIdentity | pyrddl/domain.py:250-251 | sorting an already sorted list changes nothing |
| Sorting.SortStringsStrict | pyrddl/domain.py:203 | sorting distinct strings gives a strictly increasing list of the same strings |
| Fluents.FluentsOfSpec | pyrddl/domain.py:138-161 | a role mapping repeats no key; each value has the role and is filed under its own `str`; its keys are exactly the `str` of the declarations of that role; each key holds the last such declaration |
| Fluents.FluentsOfLookup | pyrddl/domain.py:138-161 | a role mapping files under each key the last declaration of that role printing as the key |
| Fluents.FluentsOfKeys | pyrddl/domain.py:138-161 | the keys of a role mapping are exactly the `str` of the declarations with that role |
| Fluents.FluentsOfEntries | pyrddl/domain.py:138-161 | a role mapping repeats no key, and each value has the role and is filed under its own `str` |
| Fluents.FluentOrderingSpec | pyrddl/domain.py:196-241 | the non-fluent, state, action and observation orderings list each name of the role once, in ascending order |
| Fluents.IntermFluentOrderingSpec | pyrddl/domain.py:223-232 | the intermediate ordering is the intermediate mapping's values, each once, ordered by `(level, name)`, each one an intermediate fluent filed under its `str` |
| Fluents.Select | pyrddl/domain.py:166-167 | a CPF is kept exactly when its (renamed) name is among the role's names |
| Fluents.SelectCount | pyrddl/domain.py:166-167 | the filter keeps each CPF of the role as often as it occurs, and no other CPF |
| Fluents.PartitionSpec | pyrddl/domain.py:163-194 | a CPF partition keeps exactly the CPFs of its role, each as often as before, sorted by its key |
| Fluents.IntermediateCpfsSpec | pyrddl/domain.py:163-169 | `intermediate_cpfs` holds exactly the CPFs of declared intermediate fluents, each as often as declared, ordered by `(level, name)` |
| Fluents.ObservCpfsSpec | pyrddl/domain.py:188-194 | `observ_cpfs` holds exactly the CPFs of declared observation fluents, each as often as declared, ordered by name |
| Fluents.StateCpfsSpec | pyrddl/domain.py:176-186 | `state_cpfs` holds exactly the CPFs whose de-primed name is a declared state fluent, each as often as declared, ordered by name |
| Fluents.FindCpf | pyrddl/domain.py:171-174 | the loop of `get_intermediate_cpf` returns the first CPF of the list with the name; None exactly when no CPF has it |
| Domains.Domain.constructor | pyrddl/domain.py:51-62 | stores the name, pvariables and CPFs as given; missing preconditions read as an empty list |
| Domains.Domain.NonFluents | pyrddl/domain.py:138-141 | `non_fluents` repeats no key, holds only non-fluents each under its own `str`, has as keys exactly the `str` of the declared non-fluents, and holds under each the last one so printing |
| Domains.Domain.StateFluents | pyrddl/domain.py:143-146 | the same for `state_fluents` and the state fluents |
| Domains.Domain.ActionFluents | pyrddl/domain.py:148-151 | the same for `action_fluents` and the action fluents |
| Domains.Domain.IntermediateFluents | pyrddl/domain.py:153-156 | the same for `intermediate_fluents` and the intermediate fluents |
| Domains.Domain.ObservFluents | pyrddl/domain.py:158-161 | the same for `observ_fluents` and the observation fluents |
| Domains.Domain.NonFluentOrdering | pyrddl/domain.py:196-203 | strictly ascending, and lists exactly the declared non-fluent names |
| Domains.Domain.StateFluentOrdering | pyrddl/domain.py:205-212 | strictly ascending, and lists exactly the declared state-fluent names |
| Domains.Domain.ActionFluentOrdering | pyrddl/domain.py:214-221 | strictly ascending, and lists exactly the declared action-fluent names |
| Domains.Domain.IntermFluentOrdering | pyrddl/domain.py:223-232 | the `str` of the intermediate fluents sorted by `(level, name)`, one per mapping entry |
| Domains.Domain.ObservFluentOrdering | pyrddl/domain.py:234-241 | strictly ascending, and lists exactly the declared observation-fluent names |
| Domains.Domain.IntermediateCpfs | pyrddl/domain.py:163-169 | ordered by `(level, name)`, and holds exactly the CPFs of declared intermediate fluents, each as often as it occurs among the CPFs |
| Domains.Domain.GetIntermediateCpf | pyrddl/domain.py:171-174 | the first intermediate CPF with the name, in level order; None exactly when there is none |
| Domains.Domain.StateCpfs | pyrddl/domain.py:176-186 | the loop selects the CPFs whose de-primed name is a state fluent; the result is sorted by name and holds exactly those, each as often as it occurs among the CPFs |
| Domains.Domain.ObservCpfs | pyrddl/domain.py:188-194 | ordered by name, and holds exactly the CPFs of declared observation fluents, each as often as it occurs among the CPFs |
| Domains.Domain.NextStateFluentOrdering | pyrddl/domain.py:243-251 | the names of the state CPFs, already in order, so the second sort changes nothing |
| Domains.Domain.BuildPreconditionsTable | pyrddl/domain.py:68-81 | the loop leaves the local and global tables the declaration-order fold describes, and touches nothing else |
| Domains.Domain.RecordBound | pyrddl/domain.py:90-111 | one precondition updates the lower table, or else the upper table, by its contribution |
| Domains.Domain.RecordBounds | pyrddl/domain.py:90-111 | the preconditions of one action, in order, leave the tables the fold over them describes |
| Domains.Domain.BuildActionBoundConstraintsTable | pyrddl/domain.py:83-111 | the nested loops leave the bound tables the fold over the local table describes, and touch neither precondition table; neither bound table repeats a key |
| Domains.Domain.Build | pyrddl/domain.py:64-66 | after `build`, the local table repeats no action and is keyed by action fluents, every bound table key is a local table key, and neither bound table repeats a key |
| Preconditions.SingletonElement | pyrddl/domain.py:76-77 | `action_scope[0]` of a one-element action scope is its only element |
| Preconditions.LocalTable | pyrddl/domain.py:73-79 | each action's local list is exactly the preconditions whose action scope is that action alone, in declaration order; an action with none has no entry |
| Preconditions.GlobalTable | pyrddl/domain.py:80-81 | the global list is exactly the other preconditions, in declaration order |
| Preconditions.LocalTableKeys | pyrddl/domain.py:75-79 | the local table repeats no action, and every key is an action fluent |
| Preconditions.PlacedOnce | pyrddl/domain.py:73-81 | every precondition lands in exactly one place, as often as it is declared |
| Bounds.ExtractLowerBound | pyrddl/domain.py:114-124 | a bound is found exactly for `x <= a` or `x < a` with `a` the named pvariable on the right, or for `a >= x` or `a > x` with it on the left |
| Bounds.ExtractUpperBound | pyrddl/domain.py:126-136 | the mirror image: `a <= x` or `a < x` with it on the left, or `x >= a` or `x > a` with it on the right |
| Bounds.RelationShape | pyrddl/expr.py:93-94 | a relation node classifies as relational with its two operands as `args` |
| Bounds.RelationDefined | pyrddl/domain.py:114-136 | both extractions evaluate on every relation between nameable expressions |
| Bounds.LowerBoundOfRelation | pyrddl/domain.py:114-124 | the lower-bound rule read on a relation `l op r`: the operand on the other side of the action |
| Bounds.UpperBoundOfRelation | pyrddl/domain.py:126-136 | the upper-bound rule read on a relation `l op r` |
| Bounds.UpperIsLowerOfReversed | pyrddl/domain.py:114-136 | the upper-bound rule is the lower-bound rule with the operator reversed |
| Bounds.BoundsRespectConverse | pyrddl/domain.py:114-136 | both rules read `l <= r` and `r >= l` (and the strict forms) alike |
| Bounds.EqualityGivesNoBound | pyrddl/domain.py:114-136 | `==` and `~=` give no bound |
| Bounds.InequalityBoundsOneSide | pyrddl/domain.py:114-136 | an inequality with the action on one side only bounds it on exactly one side, by the other operand |
| Bounds.FindBoundsExpression | pyrddl/domain.py:91-102 | the Python computation of `bounds_expr` gives the candidate `BoundsCandidate` describes |
| Bounds.BoundsCandidate | pyrddl/domain.py:94-102 | a candidate exists exactly for a relational precondition or a `forall` whose body is relational, and it is relational |
| Bounds.RelationalByTag | pyrddl/expr.py:55-56 | only the six relational tags classify as relational |
| Bounds.ForallByTag | pyrddl/expr.py:69-70 | only the `forall` tag classifies as `('aggregation', 'forall')` |
| Bounds.CandidateByTag | pyrddl/domain.py:94-102 | the candidate read on tags: the body of a `forall` or the precondition itself, when its tag is relational |
| Bounds.ContributionOf | pyrddl/domain.py:103-111 | a precondition contributes a lower bound, or else an upper bound, never both; upper extraction is tried only when lower extraction found nothing |
| Bounds.BoundsOfListLookup | pyrddl/domain.py:90-111 | one action's preconditions overwrite only that action's entries, with the last bound found |
| Bounds.BoundsLastWins | pyrddl/domain.py:88-111 | each action's entry in either table is the bound of its last precondition yielding one; an action without one has no entry |
| Bounds.BoundsOfItemsValid | pyrddl/domain.py:83-111 | neither bound table built from a local table repeats a key |
| Bounds.BoundKeysAreLocal | pyrddl/domain.py:88-111 | every key of either bound table is an action with local preconditions |

## Left out

- `Expression.__str__` (pyrddl/expr.py:140-160) is not modelled. It is debug rendering through Python's `str` of tuples and objects.
- `Expression.__getitem__` is a pass-through. Indexing an `Expression` is folded into `Expr.Items`.
- Expr.EtypeConstant: the constant subtype `str(type(x))` is modelled as a fixed class-name string per kind of payload value. A float payload is an uninterpreted real, and nothing computes on it.
- Exceptions other than the two `ValueError`s of `name` and `value` are not results. A malformed node would raise an IndexError, a TypeError or an AttributeError: a missing payload, or a non-Expression operand. The unpacking `functor, params = expr[i+1]` of `__get_scope` (pyrddl/expr.py:189) raises a ValueError when the pair does not have exactly two elements. The source lets all of these propagate, so their absence is a precondition (`EtypeDefined`, `ArgsDefined`, `NameDefined`, `WalkOk`, `StepDefined`).
- Expr.PvarToName and Expr.Expression.Name: the functor is assumed to be a string, as the parser supplies an identifier there (`PvarPairNameable`). Python would format any value with `'{}/{}'.format`, and the model does not cover a non-string functor.
- `utils.rename_next_state_fluent` is not part of this model. Domains.Domain.StateCpfs and Domains.Domain.NextStateFluentOrdering take it as the parameter `deprime`.
- The `CPF` class is not part of this model. A CPF is reduced to its name and its expression.
- The sections `requirements`, `types`, `reward`, `invariants` and `constraints` are stored and never read by this core, so they are not modelled. Nor is the `sections` dictionary itself; the constructor takes the sections it reads as parameters.
- Domains.Domain.constructor: the four tables start empty. In Python they do not exist until `build` creates them.
- Fluents.IntermFluentOrderingSpec: a missing `level` sorts as 0. Python compares two missing levels as equal, which is the same order. It raises TypeError when a missing level meets a present one, and the model orders it as 0 instead.
- Fluents.IntermediateCpfsSpec, Domains.Domain.IntermediateCpfs, Domains.Domain.IntermFluentOrdering: the same reading of a missing level applies to these sort keys.
- The parser and lexer that build the tuples, and the compilers downstream, are not part of this model.
- The test `if bounds_expr:` (pyrddl/domain.py:103) is modelled as "not None". `Expression` defines neither `__bool__` nor `__len__`, so every Expression is true.
- Preconditions.PreconditionsTable and its two filters are ghost specification functions. The action scope, a list comprehension over a set, is modelled as a set. The source only takes its length and, when that is 1, its one element, so the order of its elements does not matter.
