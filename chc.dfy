/**
 * Bookkeeping for Constrained Horn Clauses: a clause wrapper that splits a
 * quantified formula into body and head and classifies it, a database of
 * registered relations and duplicate-free clauses with two relation indices,
 * and the relation dependency graph with its optional entry relation.
 */
module Chc {
  import opened Wrappers
  import opened Exprs

  // ---------------------------------------------------------------------
  // Horn clauses
  // ---------------------------------------------------------------------

  /** A Horn clause: one universally quantified formula. */
  datatype HornClause = HornClause(chc: ForallExpr) {

    /**
     * The premise of the quantified implication, or the whole formula: a
     * node of the formula, and the formula itself exactly when it is not an
     * implication.
     */
    function Body(): (b: Expr)
      ensures b in PreOrder(chc.where)
      ensures b == chc.where <==> !chc.where.Implies?
    {
      if chc.where.Implies? then chc.where.lhs else chc.where
    }

    /**
     * The conclusion of the quantified implication; absent when the
     * quantified formula is not an implication. Body and head together give
     * back the quantified formula.
     */
    function Head(): (h: Option<Expr>)
      ensures h.Some? <==> chc.where.Implies?
      ensures h.Some? ==> chc.where == Implies(Body(), h.value)
      ensures h.None? ==> chc.where == Body()
    {
      if chc.where.Implies? then Some(chc.where.rhs) else None
    }

    /**
     * A fact: the pre-order walk of the body meets no function application,
     * whether or not its function is a registered relation.
     */
    function IsFact(): (r: bool)
      ensures r <==> !HasApp(Body())
    {
      HasAppIffVisitsApp(Body());
      !VisitsApp(Body())
    }

    /**
     * A query: the quantified formula is an implication and the pre-order
     * walk of its head meets no function application. A formula that is not
     * an implication is never a query, whatever its body holds.
     */
    function IsQuery(): (r: bool)
      ensures r <==> Head().Some? && !HasApp(Head().value)
      ensures !chc.where.Implies? ==> !r
    {
      if chc.where.Implies? then
        HasAppIffVisitsApp(chc.where.rhs);
        !VisitsApp(chc.where.rhs)
      else
        false
    }

    /**
     * The registered relations among the symbols of the body, each once and
     * in the ascending order in which the collected symbol set is traversed.
     */
    method UsedRelations(db: ChcDb) returns (out: seq<Symbol>)
      ensures StrictlyAscending(out)
      ensures forall s :: s in out <==> s in FindSymbols(Body()) && db.HasStatePred(s)
    {
      var symbols := FindSymbols(Body());
      var rest := symbols;
      out := [];
      while rest != {}
        invariant rest <= symbols
        invariant StrictlyAscending(out)
        invariant forall s :: s in out <==> s in symbols - rest && s in db.statePreds
        invariant forall i, y :: 0 <= i < |out| && y in rest ==> SymbolLess(out[i], y)
        decreases |rest|
      {
        LeastExists(rest);
        var m :| m in rest && forall y :: y in rest ==> !SymbolLess(y, m);
        forall y | y in rest - {m}
          ensures SymbolLess(m, y)
        {
          SymbolLessTrichotomy(m, y);
        }
        if db.HasStatePred(m) {
          out := out + [m];
        }
        rest := rest - {m};
      }
    }

    /**
     * The distinct application nodes of the body whose function is a
     * registered relation (the instantiations, arguments included).
     */
    method UsedFuncApp(db: ChcDb) returns (apps: set<Expr>)
      ensures forall a :: a in apps <==> a in AppNodes(Body()) && db.HasStatePred(a.fn)
      ensures forall a :: a in apps <==> a in AppsOf(Body()) && db.HasStatePred(a.fn)
      ensures forall a :: a in apps ==> a.fn in FindSymbols(Body())
    {
      var nodes := PreOrder(Body());
      var funcs: set<Expr> := {};
      for i := 0 to |nodes|
        invariant forall n :: n in funcs <==> n in nodes[..i] && n.App?
      {
        if nodes[i].App? {
          funcs := funcs + {nodes[i]};
        }
      }
      assert nodes[..|nodes|] == nodes;
      apps := {};
      var rest := funcs;
      while rest != {}
        invariant rest <= funcs
        invariant forall a :: a in apps <==> a in funcs - rest && a.fn in db.statePreds
        decreases |rest|
      {
        var f :| f in rest;
        if db.HasStatePred(f.fn) {
          apps := apps + {f};
        }
        rest := rest - {f};
      }
      forall a | a in apps
        ensures a.fn in FindSymbols(Body())
      {
        AppFunctionIsFound(Body(), a);
      }
      AppNodesIsAppsOf(Body());
    }
  }

  /** Two clauses are the same exactly when their quantified formulas are. */
  lemma ClauseEqualityIsFormulaEquality(c: HornClause, d: HornClause)
    ensures c == d <==> c.chc == d.chc
  {
  }

  // ---------------------------------------------------------------------
  // The clause sequence
  // ---------------------------------------------------------------------

  /** No two positions of the clause sequence hold the same clause. */
  ghost predicate NoDuplicates(cs: seq<HornClause>)
  {
    forall i, j :: 0 <= i < j < |cs| ==> cs[i] != cs[j]
  }

  /** Every clause index stored in an index map is a position of the sequence. */
  ghost predicate IndexInRange(idx: map<Expr, set<nat>>, n: nat)
  {
    forall k, i :: k in idx && i in idx[k] ==> i < n
  }

  /**
   * The clause sequence after inserting `f`: unchanged when `f` is the
   * constant `true` or already stored, `f` appended otherwise.
   */
  function Inserted(cs: seq<HornClause>, f: ForallExpr): (r: seq<HornClause>)
    ensures HornClause(f) in r
    ensures |cs| <= |r| <= |cs| + 1 && r[..|cs|] == cs
  {
    QuantifiedIsNeverTrue(f);
    if IsTrue(f.AsExpr()) || HornClause(f) in cs then cs else cs + [HornClause(f)]
  }

  /** Inserting keeps the sequence free of duplicates. */
  lemma InsertedKeepsNoDuplicates(cs: seq<HornClause>, f: ForallExpr)
    requires NoDuplicates(cs)
    ensures NoDuplicates(Inserted(cs, f))
  {
  }

  /** Inserting the same formula a second time changes nothing. */
  lemma InsertedIdempotent(cs: seq<HornClause>, f: ForallExpr)
    ensures Inserted(Inserted(cs, f), f) == Inserted(cs, f)
  {
  }

  /** The clause sequence after inserting each formula of `fs` in turn. */
  function InsertedAll(cs: seq<HornClause>, fs: seq<ForallExpr>): seq<HornClause>
    decreases |fs|
  {
    if fs == [] then cs else InsertedAll(Inserted(cs, fs[0]), fs[1..])
  }

  /**
   * Any run of insertions keeps earlier clauses at their positions, stores
   * every inserted formula exactly once, adds nothing else and never creates
   * a duplicate.
   */
  lemma {:induction false} InsertedAllSpec(cs: seq<HornClause>, fs: seq<ForallExpr>)
    requires NoDuplicates(cs)
    ensures var r := InsertedAll(cs, fs);
      && NoDuplicates(r)
      && |cs| <= |r| <= |cs| + |fs|
      && r[..|cs|] == cs
      && forall c :: c in r <==> c in cs || c.chc in fs
    decreases |fs|
  {
    if fs != [] {
      var cs' := Inserted(cs, fs[0]);
      InsertedKeepsNoDuplicates(cs, fs[0]);
      InsertedAllSpec(cs', fs[1..]);
      var r := InsertedAll(cs', fs[1..]);
      assert r[..|cs|] == r[..|cs'|][..|cs|];
      forall c
        ensures c in r <==> c in cs || c.chc in fs
      {
        assert c in cs' <==> c in cs || c == HornClause(fs[0]);
        assert c.chc in fs <==> c.chc == fs[0] || c.chc in fs[1..];
      }
    }
  }

  // ---------------------------------------------------------------------
  // The clause database
  // ---------------------------------------------------------------------

  /**
   * A database of Horn clauses: the registered relations (state predicates),
   * the clauses in insertion order, and the body-use and head-definition
   * indices from a relation to the positions of the clauses that use or
   * define it.
   */
  class ChcDb {
    var clauses: seq<HornClause>
    var statePreds: set<Symbol>
    var bodyIdx: map<Expr, set<nat>>
    var headIdx: map<Expr, set<nat>>

    ghost predicate Valid()
      reads this
    {
      && NoDuplicates(clauses)
      && IndexInRange(bodyIdx, |clauses|)
      && IndexInRange(headIdx, |clauses|)
    }

    constructor ()
      ensures Valid()
      ensures clauses == [] && statePreds == {} && bodyIdx == map[] && headIdx == map[]
    {
      clauses := [];
      statePreds := {};
      bodyIdx := map[];
      headIdx := map[];
    }

    /** Registers a relation; registering it again changes nothing. */
    method AddStatePred(state: Symbol)
      requires Valid()
      modifies this
      ensures Valid()
      ensures statePreds == old(statePreds) + {state}
      ensures HasStatePred(state)
      ensures clauses == old(clauses) && bodyIdx == old(bodyIdx) && headIdx == old(headIdx)
    {
      statePreds := statePreds + {state};
    }

    /** Whether a symbol is a registered relation. */
    function HasStatePred(state: Symbol): (r: bool)
      reads this
      ensures r <==> state in statePreds
    {
      state in statePreds
    }

    /**
     * Clears both indices. The body of this operation is not part of the
     * model's source; clearing both maps is the modelling assumption.
     */
    method ResetIndices()
      requires Valid()
      modifies this
      ensures Valid()
      ensures bodyIdx == map[] && headIdx == map[]
      ensures clauses == old(clauses) && statePreds == old(statePreds)
    {
      bodyIdx := map[];
      headIdx := map[];
    }

    /** The positions of the clauses whose body uses `state`; empty when unindexed. */
    function Use(state: Expr): (r: set<nat>)
      reads this
      ensures state in bodyIdx ==> r == bodyIdx[state]
      ensures state !in bodyIdx ==> r == {}
      ensures Valid() ==> forall i :: i in r ==> i < |clauses|
    {
      if state in bodyIdx then bodyIdx[state] else {}
    }

    /** The positions of the clauses whose head defines `state`; empty when unindexed. */
    function Def(state: Expr): (r: set<nat>)
      reads this
      ensures state in headIdx ==> r == headIdx[state]
      ensures state !in headIdx ==> r == {}
      ensures Valid() ==> forall i :: i in r ==> i < |clauses|
    {
      if state in headIdx then headIdx[state] else {}
    }

    /**
     * Adds the clause `f` unless it is the constant `true` or already
     * stored; an added clause goes at the end and invalidates both indices.
     */
    method AddClause(f: ForallExpr)
      requires Valid()
      modifies this
      ensures Valid()
      ensures clauses == Inserted(old(clauses), f)
      ensures statePreds == old(statePreds)
      ensures IsTrue(f.AsExpr()) || HornClause(f) in old(clauses) ==>
        clauses == old(clauses) && bodyIdx == old(bodyIdx) && headIdx == old(headIdx)
      ensures !IsTrue(f.AsExpr()) && HornClause(f) !in old(clauses) ==>
        clauses == old(clauses) + [HornClause(f)] && bodyIdx == map[] && headIdx == map[]
      ensures |clauses| > |old(clauses)| ==> forall state :: Use(state) == {} && Def(state) == {}
    {
      if IsTrue(f.AsExpr()) {
        return;
      }
      for i := 0 to |clauses|
        invariant forall j :: 0 <= j < i ==> clauses[j].chc != f
      {
        if clauses[i].chc == f {
          return;
        }
      }
      clauses := clauses + [HornClause(f)];
      ResetIndices();
      forall state
        ensures Use(state) == {} && Def(state) == {}
      {
        UnbuiltIndicesFindNothing(this, state);
      }
    }

    /** The clause at position `idx`; no other position holds it. */
    function GetClause(idx: nat): (c: HornClause)
      reads this
      requires idx < |clauses|
      ensures c in clauses
      ensures Valid() ==> forall j :: 0 <= j < |clauses| && clauses[j] == c ==> j == idx
    {
      clauses[idx]
    }
  }

  /**
   * With cleared indices, as every appending insertion leaves them, every
   * lookup finds nothing until the indices are rebuilt.
   */
  lemma UnbuiltIndicesFindNothing(db: ChcDb, state: Expr)
    requires db.bodyIdx == map[] && db.headIdx == map[]
    ensures db.Use(state) == {} && db.Def(state) == {}
  {
  }

  // ---------------------------------------------------------------------
  // The dependency graph
  // ---------------------------------------------------------------------

  /**
   * The dependency graph over the relations of a database: an edge from
   * each relation used in a clause body to the relation its head defines,
   * kept as outgoing and incoming adjacency maps, and an optional entry
   * relation.
   */
  class ChcGraph {
    const db: ChcDb
    var incoming: map<Expr, set<Expr>>
    var outgoing: map<Expr, set<Expr>>
    var entry: Option<Symbol>

    /** Every edge is recorded at both of its ends. */
    ghost predicate Valid()
      reads this
    {
      && (forall r, s :: r in outgoing && s in outgoing[r] ==> s in incoming && r in incoming[s])
      && (forall r, s :: s in incoming && r in incoming[s] ==> r in outgoing && s in outgoing[r])
    }

    /** A graph not yet built: no edges and no entry relation. */
    constructor (db: ChcDb)
      ensures Valid()
      ensures this.db == db
      ensures incoming == map[] && outgoing == map[]
      ensures !HasEntry()
    {
      this.db := db;
      incoming := map[];
      outgoing := map[];
      entry := None;
    }

    /** Whether an entry relation has been determined. */
    function HasEntry(): (r: bool)
      reads this
      ensures r <==> entry.Some?
    {
      entry.Some?
    }

    /** The entry relation; only callable when there is one. */
    function Entry(): (r: Symbol)
      reads this
      requires HasEntry()
      ensures entry == Some(r)
    {
      entry.value
    }

    /** The relations `state` has an edge to; empty when it has none. */
    function Outgoing(state: Symbol): (r: set<Expr>)
      reads this
      ensures Sym(state) in outgoing ==> r == outgoing[Sym(state)]
      ensures Sym(state) !in outgoing ==> r == {}
    {
      if Sym(state) in outgoing then outgoing[Sym(state)] else {}
    }

    /** The relations that have an edge to `state`; empty when there are none. */
    function Incoming(state: Symbol): (r: set<Expr>)
      reads this
      ensures Sym(state) in incoming ==> r == incoming[Sym(state)]
      ensures Sym(state) !in incoming ==> r == {}
    {
      if Sym(state) in incoming then incoming[Sym(state)] else {}
    }
  }

  /** In a consistent graph the two adjacency lookups mirror each other. */
  lemma GraphSymmetry(g: ChcGraph, r: Symbol, s: Symbol)
    requires g.Valid()
    ensures Sym(s) in g.Outgoing(r) <==> Sym(r) in g.Incoming(s)
  {
  }
}
