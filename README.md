# Constrained Horn Clause database — a Dafny model

This project models the bookkeeping layer for Constrained Horn Clauses (CHCs)
of CBMC's `cprover` back end, as declared and implemented in
`src/cprover/chc_db.h`. It has three parts:

- `horn_clauset`, a wrapper around one universally quantified formula. It
  splits the formula at a top-level implication into body and head, classifies
  the clause as a fact (no function application in the body) or a query (an
  implication whose head has no function application), and extracts the
  registered relations and the registered relation applications of its body.
- `chc_dbt`, the clause database. It holds the registered relations (state
  predicates) and an insertion-ordered, duplicate-free sequence of clauses. It
  also holds two indices from a relation to the positions of the clauses that
  use it in a body or define it in a head. Lookups in these indices fail open:
  an unknown key gives the empty set.
- `chc_grapht`, the relation dependency graph. It holds outgoing and incoming
  adjacency maps with fail-open lookups, and an entry relation that starts
  absent.

Files:

- `wrappers.dfy` (module `Wrappers`): `Option`, standing for a pointer that may be null.
- `exprs.dfy` (module `Exprs`): the expression substrate. It has an expression
  datatype with structural equality, the pre-order walk that `visit_pre`
  performs (sibling order aside), `find_symbols`, and the order in which a `std::set` of symbols is
  traversed. Each walk-based definition has a structural reference definition
  and a lemma proving the two agree: `VisitsApp` and `HasApp`, `AppNodes` and
  `AppsOf`, `FindSymbols` and `Occurs`.
- `chc.dfy` (module `Chc`): `HornClause` (a datatype, because the source never
  changes a clause), and the classes `ChcDb` and `ChcGraph`. The methods of
  `ChcDb` update its `seq`/`set`/`map` fields in place, as the C++ does.
  `ChcGraph` has no method that changes it: only its constructor sets its
  fields, because `build_graph`, the one operation that fills the graph, is
  not modelled.
- `example.dfy` (module `ChcExample`): a client of the model. It builds the
  counter system with relation `Inv` (one fact, one transition and one query)
  and proves how each clause is classified and what the database holds.

Modelling decisions:

- Expressions are the datatype `Expr`, with the constructors `True`, `Sym`,
  `App` (function application), `Implies`, `Forall` and `Op` (every other
  operator, labelled by name). The function of an `App` is a `Symbol` by
  construction. A symbol is identified by its name only.
- `visit_pre` is `Exprs.PreOrder`: every node of the tree, each node before
  the nodes below it. The order in which sibling operands are met is not
  modelled. It does not matter here, because every consumer only sets a flag
  (`is_fact`, `is_query`) or fills a set (`used_func_app`, `find_symbols`).
  The function of an application and the variables of a quantifier appear as
  symbol nodes of their own. Tuple nodes of the expression library are not
  represented, because none of them is an application or a symbol.
- `find_symbols` is `Exprs.FindSymbols`: every symbol node the walk meets. This
  includes application functions and the variables of nested quantifiers.
  `Exprs.FindSymbolsIsOccurs` proves it equal to a structural definition.
- `std::set<symbol_exprt>` is traversed in ascending order. The expression
  library's ordering is not part of this model, so the lexicographic order on
  names (`Exprs.SymbolLess`) stands in for it. The proofs only use the facts
  that it is a strict total order.
- `exprt::is_true` is modelled as "is the constant `true`". `add_clause`
  applies it to the whole quantified formula, and a quantified formula is never
  that constant (`Exprs.QuantifiedIsNeverTrue`). So in the model that test
  never rejects anything: `forall x. true` is stored like any other clause.
  The model keeps the test as written.
- The bodies of `build_indices`, `reset_indices` and `build_graph` are not in
  `chc_db.h`. `ResetIndices` clears both index maps; this is an assumption.
  No operation fills the indices or the graph, so they are only ever empty in
  this model. The invariants they must keep (indices hold positions of stored
  clauses; every edge is recorded in both adjacency maps) are stated as
  `Valid()` and established by the constructors.

Behaviour the model takes from the code, where a general account of CHCs
might suggest otherwise:

- `is_fact` and `is_query` test for any function application, registered or
  not (`chc_db.h:66`, `:81`). They do not test only for applications of
  registered relations.
- `used_relations` filters every symbol `find_symbols` returns, not only the
  free ones (`chc_db.h:192-197`).
- `is_query` on a formula that is not an implication returns `false`
  (`chc_db.h:86`). Calling it on such a formula is not an error.
- The trivially-true rejection tests the quantified formula itself (see above).

## Model

| member | source | states |
|---|---|---|
| Exprs.QuantifiedIsNeverTrue | src/cprover/chc_db.h:164-167 | the `true` test applied to a quantified formula never holds |
| Exprs.PreOrder | src/cprover/chc_db.h:64-70 | the pre-order walk meets the node itself first |
| Exprs.HasAppIffVisitsApp | src/cprover/chc_db.h:64-70 | a visitor over all nodes finds an application exactly when some subterm is an application |
| Exprs.AppNodesIsAppsOf | src/cprover/chc_db.h:208-215 | the application nodes the walk collects are exactly the application subterms of the tree, arguments of applications included |
| Exprs.AppNodesEmptyIff | src/cprover/chc_db.h:208-215 | the set of application nodes the walk collects is empty exactly when no subterm is an application |
| Exprs.FindSymbolsIsOccurs | src/cprover/chc_db.h:192 | the symbols collected by the walk are exactly the symbols occurring in the tree |
| Exprs.AppFunctionIsFound | src/cprover/chc_db.h:192-220 | the function of every collected application is among the collected symbols |
| Exprs.SymbolLessTrichotomy | src/cprover/chc_db.h:192-195 | the symbol order is strict and total: two symbols are equal exactly when neither precedes the other, and never does each precede the other |
| Exprs.LeastExists | src/cprover/chc_db.h:195 | every nonempty symbol set has a least element, so ascending traversal is defined |
| Chc.HornClause.Body | src/cprover/chc_db.h:45-51 | the body is a node of the quantified formula, and is the whole formula exactly when that formula is not an implication |
| Chc.HornClause.Head | src/cprover/chc_db.h:45-59 | the head is present exactly for an implication; then the formula is `Body() ==> head`, otherwise the body is the whole formula |
| Chc.HornClause.IsFact | src/cprover/chc_db.h:61-72 | a fact exactly when no subterm of the body is a function application, registered or not |
| Chc.HornClause.IsQuery | src/cprover/chc_db.h:74-87 | a query exactly when there is a head and no subterm of it is a function application; never a query without an implication |
| Chc.HornClause.UsedRelations | src/cprover/chc_db.h:187-200 | emits, strictly ascending and so each once, exactly the registered symbols among the body's symbols |
| Chc.HornClause.UsedFuncApp | src/cprover/chc_db.h:202-223 | yields exactly the body's application nodes whose function is registered, which are exactly its registered application subterms; each such function is among the body's symbols |
| Chc.ClauseEqualityIsFormulaEquality | src/cprover/chc_db.h:89-97 | two clauses are equal exactly when their quantified formulas are |
| Chc.Inserted | src/cprover/chc_db.h:164-171 | after insertion the clause is stored, earlier clauses keep their positions, and at most one clause is added |
| Chc.InsertedKeepsNoDuplicates | src/cprover/chc_db.h:168-171 | insertion keeps the clause sequence free of duplicates |
| Chc.InsertedIdempotent | src/cprover/chc_db.h:168-170 | inserting the same formula a second time changes nothing |
| Chc.InsertedAllSpec | src/cprover/chc_db.h:164-171 | any run of insertions keeps a prefix, adds each formula once, adds nothing else and creates no duplicates |
| Chc.ChcDb.constructor | src/cprover/chc_db.h:141 | a new database has no clauses, no relations and empty indices |
| Chc.ChcDb.AddStatePred | src/cprover/chc_db.h:143 | adds the relation to the registered set (idempotent), after which it is registered; nothing else changes |
| Chc.ChcDb.HasStatePred | src/cprover/chc_db.h:145 | true exactly for registered relations; it is also the filter of the `is_state_pred` functor (lines 118-123) that `used_relations` and `used_func_app` call |
| Chc.ChcDb.ResetIndices | src/cprover/chc_db.h:148 | both indices become empty; clauses and relations are unchanged and the database stays consistent (assumed behaviour) |
| Chc.ChcDb.Use | src/cprover/chc_db.h:150-155 | the body-use set for a present key, the empty set otherwise; every position in it is a stored clause's |
| Chc.ChcDb.Def | src/cprover/chc_db.h:157-162 | the head-definition set for a present key, the empty set otherwise; every position in it is a stored clause's |
| Chc.ChcDb.AddClause | src/cprover/chc_db.h:164-173 | a `true` or already stored formula leaves the whole state unchanged; otherwise the clause is appended and both indices are cleared; no duplicates ever; right after an append every `Use`/`Def` lookup is empty until the indices are rebuilt |
| Chc.ChcDb.GetClause | src/cprover/chc_db.h:175-179 | for an in-range position, the stored clause at that position, held at no other position |
| Chc.UnbuiltIndicesFindNothing | src/cprover/chc_db.h:150-162 | with cleared indices every `use` and `def` lookup is empty; `AddClause` uses it to promise empty lookups right after an appending insertion |
| Chc.ChcGraph.constructor | src/cprover/chc_db.h:242 | a new graph refers to its database, has no edges and no entry |
| Chc.ChcGraph.HasEntry | src/cprover/chc_db.h:246 | true exactly when an entry relation is set |
| Chc.ChcGraph.Entry | src/cprover/chc_db.h:247-249 | the entry relation, callable only when one is set |
| Chc.ChcGraph.Outgoing | src/cprover/chc_db.h:251-256 | the outgoing set of the relation's symbol if present, the empty set otherwise |
| Chc.ChcGraph.Incoming | src/cprover/chc_db.h:258-263 | the incoming set of the relation's symbol if present, the empty set otherwise |
| Chc.GraphSymmetry | src/cprover/chc_db.h:226-235 | in a consistent graph, `s` is outgoing from `r` exactly when `r` is incoming to `s` |
| ChcExample.InsertedCounterSystem | src/cprover/chc_db.h:164-171 | inserting the counter system's fact, transition and query appends each in turn; inserting the transition again is rejected |
| ChcExample.InitIsFact | src/cprover/chc_db.h:61-87 | the counter system's fact is a fact and not a query |
| ChcExample.StepIsNeither | src/cprover/chc_db.h:61-87 | the counter system's transition is neither a fact nor a query |
| ChcExample.SafetyIsQuery | src/cprover/chc_db.h:61-87 | the counter system's query is a query and not a fact |
| ChcExample.ExampleUsedRelations | src/cprover/chc_db.h:187-200 | with only `Inv` registered, the transition clause's used relations are exactly `[Inv]` |
| ChcExample.ExampleStore | src/cprover/chc_db.h:143-171 | registering `Inv` and inserting the fact, the transition and the query gives a database whose only relation is `Inv`, whose clauses are exactly those three in insertion order, and whose indices are empty |
| ChcExample.ExampleDatabase | src/cprover/chc_db.h:143-200 | inserting the transition a second time then leaves exactly the three clauses in insertion order and `Inv` as the only relation; the transition's used relations are `[Inv]`; every `Use`/`Def` lookup, for any key, is empty |

## Left out

- `build_indices`, `reset_indices` and `build_graph` (`chc_db.h:147-148`, `:244`): only their declarations are in the modelled file, so their bodies and the choice of entry relation are not modelled. `ResetIndices` clears both maps as an assumption.
- `horn_clauset::operator<` (`chc_db.h:99-102`): it is the expression library's ordering, which is not part of this model.
- The expression library itself: hash-consing, `irep_hash`, types of symbols, the implementation of `find_symbols` and `visit_pre`. These are replaced by the datatype of `Exprs` and its walk.
- Chc.GraphSymmetry: symmetry of the adjacency maps is only an invariant (`ChcGraph.Valid`) that the constructor establishes on the empty graph. `build_graph` is not modelled, so no graph with edges is shown to have it, and the lemma only restates that invariant through the `Outgoing` and `Incoming` lookups.
- Chc.HornClause.UsedRelations: its order is the lexicographic order on names, standing in for the expression library's own order on symbols.
- Iteration order of `std::unordered_set` (`used_func_app`'s result, `chc_sett`, the adjacency sets): modelled as Dafny sets.
- The `body == nullptr` tests (`chc_db.h:191`, `:206`): they can never succeed, because `body()` always returns an operand, so they are not modelled.
- `to_symbol_expr(f.function())` failing on a function that is not a symbol (`chc_db.h:219`): the function of an `App` is a symbol by construction.
- C++ plumbing: `get_chc` (the field `chc`), `get_state_preds` (the field `statePreds`), `begin`/`end` (the field `clauses`), the second `horn_clauset` constructor (it is `HornClause(ForallExpr(vars, clause))`), the `is_state_pred` functor (`HasStatePred`), the static empty-set objects, the output-iterator template and the `friend` declaration.
- Index width: clause positions are unbounded `nat`s rather than `std::size_t`; no stored sequence reaches that bound.
