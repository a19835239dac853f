/**
 * A client of the clause database: the counter system with relation `Inv`,
 * a fact `forall x. x = 0 ==> Inv(x)`, a transition
 * `forall x, y. Inv(x) && y = x + 1 ==> Inv(y)` and a query
 * `forall x. Inv(x) && x < 0 ==> false`.
 */
module ChcExample {
  import opened Exprs
  import opened Chc

  const Inv := Symbol("Inv")
  const X := Symbol("x")
  const Y := Symbol("y")

  function Zero(): Expr { Op("0", []) }

  function InitClause(): ForallExpr
  {
    ForallExpr([X], Implies(Op("=", [Sym(X), Zero()]), App(Inv, [Sym(X)])))
  }

  function StepClause(): ForallExpr
  {
    ForallExpr([X, Y],
      Implies(Op("and", [App(Inv, [Sym(X)]), Op("=", [Sym(Y), Op("+", [Sym(X), Op("1", [])])])]),
              App(Inv, [Sym(Y)])))
  }

  function SafetyClause(): ForallExpr
  {
    ForallExpr([X], Implies(Op("and", [App(Inv, [Sym(X)]), Op("<", [Sym(X), Zero()])]), Op("false", [])))
  }

  /** The three clauses of the counter system are pairwise different. */
  lemma ExampleClausesDistinct()
    ensures HornClause(InitClause()) != HornClause(StepClause())
    ensures HornClause(InitClause()) != HornClause(SafetyClause())
    ensures HornClause(StepClause()) != HornClause(SafetyClause())
  {
    assert |InitClause().vars| != |StepClause().vars|;
    assert InitClause().where.rhs.App? && !SafetyClause().where.rhs.App?;
    assert |StepClause().vars| != |SafetyClause().vars|;
  }

  /**
   * Inserting the fact, the transition and the query appends each in turn;
   * inserting the transition again is rejected.
   */
  lemma InsertedCounterSystem()
    ensures Inserted([], InitClause()) == [HornClause(InitClause())]
    ensures Inserted([HornClause(InitClause())], StepClause())
      == [HornClause(InitClause()), HornClause(StepClause())]
    ensures Inserted([HornClause(InitClause()), HornClause(StepClause())], SafetyClause())
      == [HornClause(InitClause()), HornClause(StepClause()), HornClause(SafetyClause())]
    ensures Inserted([HornClause(InitClause()), HornClause(StepClause()), HornClause(SafetyClause())], StepClause())
      == [HornClause(InitClause()), HornClause(StepClause()), HornClause(SafetyClause())]
  {
    ExampleClausesDistinct();
    assert HornClause(StepClause()) in [HornClause(InitClause()), HornClause(StepClause()), HornClause(SafetyClause())];
  }

  /** The fact is a fact and not a query. */
  lemma InitIsFact()
    ensures HornClause(InitClause()).IsFact() && !HornClause(InitClause()).IsQuery()
  {
  }

  /** The transition is neither a fact nor a query. */
  lemma StepIsNeither()
    ensures !HornClause(StepClause()).IsFact() && !HornClause(StepClause()).IsQuery()
  {
  }

  /** The query is a query and not a fact. */
  lemma SafetyIsQuery()
    ensures !HornClause(SafetyClause()).IsFact() && HornClause(SafetyClause()).IsQuery()
  {
  }

  /** With only `Inv` registered, the transition's used relations are `[Inv]`. */
  method ExampleUsedRelations(db: ChcDb) returns (rels: seq<Symbol>)
    requires db.statePreds == {Inv}
    ensures rels == [Inv]
  {
    rels := HornClause(StepClause()).UsedRelations(db);
    FindSymbolsIsOccurs(HornClause(StepClause()).Body());
    assert Inv in rels;
    assert forall s :: s in rels ==> s == Inv;
    if |rels| > 1 {
      assert rels[0] in rels && rels[1] in rels;
      NameLessIrreflexive(Inv.name);
    }
  }

  /**
   * Registering `Inv` and inserting the three clauses stores them in
   * insertion order, with both indices cleared.
   */
  method ExampleStore() returns (db: ChcDb)
    ensures fresh(db) && db.Valid() && db.statePreds == {Inv}
    ensures db.clauses == [HornClause(InitClause()), HornClause(StepClause()), HornClause(SafetyClause())]
    ensures db.bodyIdx == map[] && db.headIdx == map[]
  {
    InsertedCounterSystem();
    db := new ChcDb();
    db.AddStatePred(Inv);
    db.AddClause(InitClause());
    assert db.clauses == [HornClause(InitClause())];
    db.AddClause(StepClause());
    assert db.clauses == [HornClause(InitClause()), HornClause(StepClause())];
    db.AddClause(SafetyClause());
  }

  /**
   * Inserting the transition a second time into the stored counter system
   * changes nothing: the three clauses stay in insertion order; the
   * transition's used relations are just `Inv`; the indices, never built,
   * find nothing for any key.
   */
  method ExampleDatabase() returns (db: ChcDb, rels: seq<Symbol>)
    ensures db.Valid() && db.statePreds == {Inv}
    ensures db.clauses == [HornClause(InitClause()), HornClause(StepClause()), HornClause(SafetyClause())]
    ensures rels == [Inv]
    ensures forall state :: db.Use(state) == {} && db.Def(state) == {}
  {
    db := ExampleStore();
    InsertedCounterSystem();
    db.AddClause(StepClause());
    forall state
      ensures db.Use(state) == {} && db.Def(state) == {}
    {
      UnbuiltIndicesFindNothing(db, state);
    }
    rels := ExampleUsedRelations(db);
  }
}
