/**
 * The expression substrate the Horn-clause database works on: immutable
 * expression trees with structural equality, a pre-order walk (the
 * `visit_pre` of the expression library), symbol collection (`find_symbols`)
 * and a strict total order on symbols (the order of a `std::set<symbol_exprt>`).
 */
module Exprs {

  /** A symbol expression: a variable, a constant or a relation name. */
  datatype Symbol = Symbol(name: string)

  /**
   * Expression trees, distinguished by the node kinds the clause database
   * inspects. `App` is a function application whose function is a symbol by
   * construction; `Op` stands for every other operator (equality, `+`, `<`,
   * conjunction, constants other than `true`, ...), labelled by its operator.
   */
  datatype Expr =
    | True
    | Sym(sym: Symbol)
    | App(fn: Symbol, args: seq<Expr>)
    | Implies(lhs: Expr, rhs: Expr)
    | Forall(vars: seq<Symbol>, where: Expr)
    | Op(op: string, operands: seq<Expr>)

  /** A universally quantified formula `forall vars. where`. */
  datatype ForallExpr = ForallExpr(vars: seq<Symbol>, where: Expr) {

    /** The quantified formula viewed as a plain expression. */
    function AsExpr(): (e: Expr)
      ensures e.Forall? && e.vars == vars && e.where == where
    {
      Forall(vars, where)
    }
  }

  /** The test for the constant `true`. */
  predicate IsTrue(e: Expr)
  {
    e == True
  }

  /** A quantified formula is never the constant `true`. */
  lemma QuantifiedIsNeverTrue(f: ForallExpr)
    ensures !IsTrue(f.AsExpr())
  {
  }

  // ---------------------------------------------------------------------
  // Pre-order traversal
  // ---------------------------------------------------------------------

  /** The symbol nodes that stand for a list of bound variables. */
  function VarNodes(vs: seq<Symbol>): (r: seq<Expr>)
    ensures |r| == |vs|
    ensures forall i :: 0 <= i < |vs| ==> r[i] == Sym(vs[i])
  {
    seq(|vs|, i requires 0 <= i < |vs| => Sym(vs[i]))
  }

  /**
   * Every node of `e`, each node before the nodes below it. The order in
   * which a visitor meets sibling operands is not modelled: every consumer
   * only sets a flag or fills a set, so it does not matter. The function of
   * an application and the variables of a quantifier are symbol nodes of
   * their own, as they are in the expression library.
   */
  function PreOrder(e: Expr): (r: seq<Expr>)
    ensures |r| >= 1 && r[0] == e
    decreases e, 1
  {
    match e
    case True => [e]
    case Sym(_) => [e]
    case App(fn, args) => [e, Sym(fn)] + PreOrderAll(args)
    case Implies(a, b) => [e] + PreOrder(a) + PreOrder(b)
    case Forall(vs, w) => [e] + VarNodes(vs) + PreOrder(w)
    case Op(_, xs) => [e] + PreOrderAll(xs)
  }

  /** The pre-order walks of a list of operands, one after the other. */
  function PreOrderAll(es: seq<Expr>): seq<Expr>
    decreases es, 0
  {
    if es == [] then [] else PreOrder(es[0]) + PreOrderAll(es[1..])
  }

  lemma {:induction false} InPreOrderAll(es: seq<Expr>, n: Expr)
    ensures n in PreOrderAll(es) <==> exists i :: 0 <= i < |es| && n in PreOrder(es[i])
    decreases es
  {
    if es != [] {
      InPreOrderAll(es[1..], n);
      assert PreOrderAll(es) == PreOrder(es[0]) + PreOrderAll(es[1..]);
      if n in PreOrderAll(es[1..]) {
        var i :| 0 <= i < |es[1..]| && n in PreOrder(es[1..][i]);
        assert es[i + 1] == es[1..][i];
      }
      if exists i :: 0 <= i < |es| && n in PreOrder(es[i]) {
        var i :| 0 <= i < |es| && n in PreOrder(es[i]);
        if i > 0 {
          assert es[1..][i - 1] == es[i];
        }
      }
    }
  }

  /** The nodes met walking an application: itself, its function, its arguments' nodes. */
  lemma InPreOrderApp(e: Expr, n: Expr)
    requires e.App?
    ensures n in PreOrder(e) <==> n == e || n == Sym(e.fn) || n in PreOrderAll(e.args)
  {
    assert PreOrder(e) == [e, Sym(e.fn)] + PreOrderAll(e.args);
  }

  /** The nodes met walking an implication: itself, then those of its two sides. */
  lemma InPreOrderImplies(e: Expr, n: Expr)
    requires e.Implies?
    ensures n in PreOrder(e) <==> n == e || n in PreOrder(e.lhs) || n in PreOrder(e.rhs)
  {
    assert PreOrder(e) == [e] + PreOrder(e.lhs) + PreOrder(e.rhs);
  }

  /** The nodes met walking a quantifier: itself, its variables, then those of its body. */
  lemma InPreOrderForall(e: Expr, n: Expr)
    requires e.Forall?
    ensures n in PreOrder(e) <==> n == e || n in VarNodes(e.vars) || n in PreOrder(e.where)
  {
    assert PreOrder(e) == [e] + VarNodes(e.vars) + PreOrder(e.where);
  }

  /** The nodes met walking an operator node: itself, then those of its operands. */
  lemma InPreOrderOp(e: Expr, n: Expr)
    requires e.Op?
    ensures n in PreOrder(e) <==> n == e || n in PreOrderAll(e.operands)
  {
    assert PreOrder(e) == [e] + PreOrderAll(e.operands);
  }

  /** The nodes met walking a list of operands: those of its first, then of the rest. */
  lemma InPreOrderCons(es: seq<Expr>, n: Expr)
    requires es != []
    ensures n in PreOrderAll(es) <==> n in PreOrder(es[0]) || n in PreOrderAll(es[1..])
  {
  }

  // ---------------------------------------------------------------------
  // Function applications
  // ---------------------------------------------------------------------

  /** Structural reference: some subterm of `e` is a function application. */
  predicate HasApp(e: Expr)
    decreases e
  {
    match e
    case True => false
    case Sym(_) => false
    case App(_, _) => true
    case Implies(a, b) => HasApp(a) || HasApp(b)
    case Forall(_, w) => HasApp(w)
    case Op(_, xs) => exists i :: 0 <= i < |xs| && HasApp(xs[i])
  }

  /** The application nodes a pre-order visitor meets in `e`. */
  function AppNodes(e: Expr): (r: set<Expr>)
    ensures forall n :: n in r ==> n.App?
  {
    set n | n in PreOrder(e) && n.App?
  }

  /** Some node a pre-order visitor meets in `e` is an application. */
  predicate VisitsApp(e: Expr)
  {
    exists n :: n in PreOrder(e) && n.App?
  }

  /**
   * A visitor that looks at every node finds an application exactly when
   * the tree has one somewhere.
   */
  lemma {:induction false} HasAppIffVisitsApp(e: Expr)
    ensures HasApp(e) <==> VisitsApp(e)
    decreases e
  {
    match e
    case True =>
    case Sym(_) =>
    case App(_, _) =>
      assert PreOrder(e)[0] == e;
    case Implies(a, b) =>
      HasAppIffVisitsApp(a);
      HasAppIffVisitsApp(b);
      VisitsAppImplies(e);
    case Forall(vs, w) =>
      HasAppIffVisitsApp(w);
      VisitsAppForall(e);
    case Op(_, xs) =>
      forall i | 0 <= i < |xs| {
        HasAppIffVisitsApp(xs[i]);
      }
      VisitsAppOperands(e, xs);
  }

  /** An implication is visited as a non-application node, then its two sides. */
  lemma VisitsAppImplies(e: Expr)
    requires e.Implies?
    ensures VisitsApp(e) <==> VisitsApp(e.lhs) || VisitsApp(e.rhs)
  {
    assert PreOrder(e) == [e] + PreOrder(e.lhs) + PreOrder(e.rhs);
  }

  /** A quantifier is visited as a non-application node, its variables, then its body. */
  lemma VisitsAppForall(e: Expr)
    requires e.Forall?
    ensures VisitsApp(e) <==> VisitsApp(e.where)
  {
    assert PreOrder(e) == [e] + VarNodes(e.vars) + PreOrder(e.where);
  }

  /** An operator node is visited as a non-application node, then its operands. */
  lemma VisitsAppOperands(e: Expr, xs: seq<Expr>)
    requires e.Op? && e.operands == xs
    ensures VisitsApp(e) <==> exists i :: 0 <= i < |xs| && VisitsApp(xs[i])
  {
    assert PreOrder(e) == [e] + PreOrderAll(xs);
    if VisitsApp(e) {
      var n :| n in PreOrder(e) && n.App?;
      InPreOrderAll(xs, n);
    }
    if exists i :: 0 <= i < |xs| && VisitsApp(xs[i]) {
      var i :| 0 <= i < |xs| && VisitsApp(xs[i]);
      var n :| n in PreOrder(xs[i]) && n.App?;
      InPreOrderAll(xs, n);
    }
  }

  /**
   * Structural reference: the application subterms of `e`, arguments of
   * applications included.
   */
  function AppsOf(e: Expr): (r: set<Expr>)
    ensures forall n :: n in r ==> n.App?
    decreases e, 1
  {
    match e
    case True => {}
    case Sym(_) => {}
    case App(_, args) => {e} + AppsOfAll(args)
    case Implies(a, b) => AppsOf(a) + AppsOf(b)
    case Forall(_, w) => AppsOf(w)
    case Op(_, xs) => AppsOfAll(xs)
  }

  function AppsOfAll(es: seq<Expr>): (r: set<Expr>)
    ensures forall n :: n in r ==> n.App?
    decreases es, 0
  {
    if es == [] then {} else AppsOf(es[0]) + AppsOfAll(es[1..])
  }

  lemma {:induction false} AppNodeIffAppsOf(e: Expr, n: Expr)
    requires n.App?
    ensures n in PreOrder(e) <==> n in AppsOf(e)
    decreases e, 1
  {
    match e
    case True =>
    case Sym(_) =>
    case App(_, args) =>
      InPreOrderApp(e, n);
      AppNodeIffAppsOfAll(args, n);
    case Implies(a, b) =>
      InPreOrderImplies(e, n);
      AppNodeIffAppsOf(a, n);
      AppNodeIffAppsOf(b, n);
    case Forall(vs, w) =>
      InPreOrderForall(e, n);
      AppNodeIffAppsOf(w, n);
      assert n !in VarNodes(vs);
    case Op(_, xs) =>
      InPreOrderOp(e, n);
      AppNodeIffAppsOfAll(xs, n);
  }

  lemma {:induction false} AppNodeIffAppsOfAll(es: seq<Expr>, n: Expr)
    requires n.App?
    ensures n in PreOrderAll(es) <==> n in AppsOfAll(es)
    decreases es, 0
  {
    if es != [] {
      InPreOrderCons(es, n);
      AppNodeIffAppsOf(es[0], n);
      AppNodeIffAppsOfAll(es[1..], n);
    }
  }

  /** The application nodes the visitor meets are exactly the application subterms. */
  lemma AppNodesIsAppsOf(e: Expr)
    ensures AppNodes(e) == AppsOf(e)
  {
    forall n | n in AppsOf(e)
      ensures n in AppNodes(e)
    {
      AppNodeIffAppsOf(e, n);
    }
    forall n | n in AppNodes(e)
      ensures n in AppsOf(e)
    {
      AppNodeIffAppsOf(e, n);
    }
  }

  /** The application nodes are empty exactly when the visitor meets none. */
  lemma AppNodesEmptyIff(e: Expr)
    ensures AppNodes(e) == {} <==> !HasApp(e)
  {
    HasAppIffVisitsApp(e);
    if VisitsApp(e) {
      var n :| n in PreOrder(e) && n.App?;
      assert n in AppNodes(e);
    }
  }

  // ---------------------------------------------------------------------
  // Symbols
  // ---------------------------------------------------------------------

  /** `find_symbols`: every symbol whose node a pre-order visitor meets in `e`. */
  function FindSymbols(e: Expr): set<Symbol>
  {
    set n | n in PreOrder(e) && n.Sym? :: n.sym
  }

  /**
   * Structural reference: the symbols occurring in `e`, including the
   * function of every application and the variables of nested quantifiers.
   */
  function Occurs(e: Expr): set<Symbol>
    decreases e, 1
  {
    match e
    case True => {}
    case Sym(s) => {s}
    case App(fn, args) => {fn} + OccursAll(args)
    case Implies(a, b) => Occurs(a) + Occurs(b)
    case Forall(vs, w) => (set v | v in vs) + Occurs(w)
    case Op(_, xs) => OccursAll(xs)
  }

  function OccursAll(es: seq<Expr>): set<Symbol>
    decreases es, 0
  {
    if es == [] then {} else Occurs(es[0]) + OccursAll(es[1..])
  }

  lemma {:induction false} SymNodeIffOccurs(e: Expr, s: Symbol)
    ensures Sym(s) in PreOrder(e) <==> s in Occurs(e)
    decreases e, 1
  {
    match e
    case True =>
    case Sym(_) =>
    case App(_, args) =>
      InPreOrderApp(e, Sym(s));
      SymNodeIffOccursAll(args, s);
    case Implies(a, b) =>
      InPreOrderImplies(e, Sym(s));
      SymNodeIffOccurs(a, s);
      SymNodeIffOccurs(b, s);
    case Forall(vs, w) =>
      InPreOrderForall(e, Sym(s));
      SymNodeIffOccurs(w, s);
      SymNodeIffVar(vs, s);
    case Op(_, xs) =>
      InPreOrderOp(e, Sym(s));
      SymNodeIffOccursAll(xs, s);
  }

  lemma {:induction false} SymNodeIffOccursAll(es: seq<Expr>, s: Symbol)
    ensures Sym(s) in PreOrderAll(es) <==> s in OccursAll(es)
    decreases es, 0
  {
    if es != [] {
      InPreOrderCons(es, Sym(s));
      SymNodeIffOccurs(es[0], s);
      SymNodeIffOccursAll(es[1..], s);
    }
  }

  /** The symbol nodes of a variable list are exactly its variables. */
  lemma SymNodeIffVar(vs: seq<Symbol>, s: Symbol)
    ensures Sym(s) in VarNodes(vs) <==> s in vs
  {
    if s in vs {
      var i :| 0 <= i < |vs| && vs[i] == s;
      assert VarNodes(vs)[i] == Sym(s);
    }
  }

  /** `find_symbols` collects exactly the symbols that occur in the tree. */
  lemma FindSymbolsIsOccurs(e: Expr)
    ensures FindSymbols(e) == Occurs(e)
  {
    forall s | s in Occurs(e)
      ensures s in FindSymbols(e)
    {
      SymNodeIffOccurs(e, s);
    }
    forall s | s in FindSymbols(e)
      ensures s in Occurs(e)
    {
      SymNodeIffOccurs(e, s);
    }
  }

  /** Walking any node the walk of `e` meets meets only nodes of `e`. */
  lemma {:induction false} PreOrderClosed(e: Expr, n: Expr, m: Expr)
    requires n in PreOrder(e) && m in PreOrder(n)
    ensures m in PreOrder(e)
    decreases e, 1
  {
    if n != e {
      match e
      case True =>
      case Sym(_) =>
      case App(fn, args) =>
        if n != Sym(fn) {
          PreOrderClosedAll(args, n, m);
        }
      case Implies(a, b) =>
        if n in PreOrder(a) {
          PreOrderClosed(a, n, m);
        } else {
          PreOrderClosed(b, n, m);
        }
      case Forall(vs, w) =>
        if n in PreOrder(w) {
          PreOrderClosed(w, n, m);
        }
      case Op(_, xs) =>
        PreOrderClosedAll(xs, n, m);
    }
  }

  lemma {:induction false} PreOrderClosedAll(es: seq<Expr>, n: Expr, m: Expr)
    requires n in PreOrderAll(es) && m in PreOrder(n)
    ensures m in PreOrderAll(es)
    decreases es, 0
  {
    if n in PreOrder(es[0]) {
      PreOrderClosed(es[0], n, m);
    } else {
      PreOrderClosedAll(es[1..], n, m);
    }
  }

  /** The function of every application node is among the symbols found. */
  lemma AppFunctionIsFound(e: Expr, a: Expr)
    requires a in AppNodes(e)
    ensures a.fn in FindSymbols(e)
  {
    assert PreOrder(a)[1] == Sym(a.fn);
    PreOrderClosed(e, a, Sym(a.fn));
  }

  // ---------------------------------------------------------------------
  // The order of symbols in a std::set
  // ---------------------------------------------------------------------

  /** Lexicographic order on names. */
  predicate NameLess(a: string, b: string)
    decreases |a|
  {
    if |a| == 0 then |b| > 0
    else if |b| == 0 then false
    else if a[0] != b[0] then a[0] < b[0]
    else NameLess(a[1..], b[1..])
  }

  /** The strict order in which a set of symbols is traversed. */
  predicate SymbolLess(a: Symbol, b: Symbol)
  {
    NameLess(a.name, b.name)
  }

  lemma {:induction false} NameLessIrreflexive(a: string)
    ensures !NameLess(a, a)
    decreases |a|
  {
    if |a| > 0 {
      NameLessIrreflexive(a[1..]);
    }
  }

  lemma {:induction false} NameLessTransitive(a: string, b: string, c: string)
    ensures NameLess(a, b) && NameLess(b, c) ==> NameLess(a, c)
    decreases |a|
  {
    if |a| > 0 && |b| > 0 && |c| > 0 && a[0] == b[0] && b[0] == c[0] {
      NameLessTransitive(a[1..], b[1..], c[1..]);
    }
  }

  lemma {:induction false} NameLessTotal(a: string, b: string)
    requires a != b
    ensures NameLess(a, b) || NameLess(b, a)
    decreases |a|
  {
    if |a| > 0 && |b| > 0 && a[0] == b[0] {
      assert a == [a[0]] + a[1..] && b == [b[0]] + b[1..];
      NameLessTotal(a[1..], b[1..]);
    }
  }

  /** Two distinct symbols are ordered one way, never both. */
  lemma SymbolLessTrichotomy(a: Symbol, b: Symbol)
    ensures a == b <==> !SymbolLess(a, b) && !SymbolLess(b, a)
    ensures !(SymbolLess(a, b) && SymbolLess(b, a))
  {
    if a == b {
      NameLessIrreflexive(a.name);
    } else {
      NameLessTotal(a.name, b.name);
      if SymbolLess(a, b) && SymbolLess(b, a) {
        NameLessTransitive(a.name, b.name, a.name);
        NameLessIrreflexive(a.name);
      }
    }
  }

  /** A sequence of symbols in strictly ascending order (hence without repeats). */
  predicate StrictlyAscending(s: seq<Symbol>)
  {
    forall i, j :: 0 <= i < j < |s| ==> SymbolLess(s[i], s[j])
  }

  /** Every nonempty set of symbols has a least element. */
  lemma {:induction false} LeastExists(s: set<Symbol>)
    requires s != {}
    ensures exists m :: m in s && forall y :: y in s ==> !SymbolLess(y, m)
    decreases |s|
  {
    var x :| x in s;
    if s != {x} {
      var rest := s - {x};
      LeastExists(rest);
      var m :| m in rest && forall y :: y in rest ==> !SymbolLess(y, m);
      if SymbolLess(x, m) {
        BelowLeastIsLeast(s, m, x);
        assert x in s && forall y :: y in s ==> !SymbolLess(y, x);
      } else {
        assert m in s && forall y :: y in s ==> !SymbolLess(y, m);
      }
    } else {
      NameLessIrreflexive(x.name);
      assert x in s && forall y :: y in s ==> !SymbolLess(y, x);
    }
  }

  /** A symbol of a set below the least of its other elements is least in it. */
  lemma BelowLeastIsLeast(s: set<Symbol>, m: Symbol, x: Symbol)
    requires x in s && SymbolLess(x, m)
    requires forall y :: y in s && y != x ==> !SymbolLess(y, m)
    ensures forall y :: y in s ==> !SymbolLess(y, x)
  {
    forall y | y in s
      ensures !SymbolLess(y, x)
    {
      if y == x {
        NameLessIrreflexive(x.name);
      } else {
        NameLessTransitive(y.name, x.name, m.name);
      }
    }
  }
}
