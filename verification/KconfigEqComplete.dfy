/**
  expr_eq recognises every expression as equal to itself, although it decides equality by
  striking operands from two copies; and what expr_eliminate_dups leaves behind: no two operands of a
  level that are the same up to order and grouping, and no two tests of a symbol that one test replaces.
 */
module KconfigEqComplete {
  import opened Common
  import opened KconfigExpr
  import opened KconfigEq
  import opened KconfigEqExact
  import opened KconfigSlots
  import opened KconfigDups

  /** The level with every operand struck; y and n are never struck. */
  function Blank(op: Conn, e: Expr): Expr {
    if IsNode(op, e) then Bin(op, Blank(op, e.l), Blank(op, e.r))
    else if IsYn(e) then e
    else Sym(Unit(op))
  }

  /** The level with the operands left of the slot p struck. */
  function BlankBefore(op: Conn, e: Expr, p: Path): Expr
    requires InLevel(op, e, p)
  {
    if p == [] then e
    else if p[0] == L then Bin(op, BlankBefore(op, e.l, p[1..]), e.r)
    else Bin(op, Blank(op, e.l), BlankBefore(op, e.r, p[1..]))
  }

  /** The level with the operands left of and below the slot p struck. */
  function BlankThrough(op: Conn, e: Expr, p: Path): Expr
    requires InLevel(op, e, p)
  {
    if p == [] then Blank(op, e)
    else if p[0] == L then Bin(op, BlankThrough(op, e.l, p[1..]), e.r)
    else Bin(op, Blank(op, e.l), BlankThrough(op, e.r, p[1..]))
  }

  lemma {:induction false} BlankStep(op: Conn, e: Expr, p: Path)
    requires InLevel(op, e, p) && IsNode(op, At(e, p))
    requires InLevel(op, e, p + [L]) && InLevel(op, e, p + [R])
    ensures BlankBefore(op, e, p + [L]) == BlankBefore(op, e, p)
    ensures BlankBefore(op, e, p + [R]) == BlankThrough(op, e, p + [L])
    ensures BlankThrough(op, e, p + [R]) == BlankThrough(op, e, p)
  {
    if p == [] {
      assert [] + [L] == [L] && [] + [R] == [R] && [L][1..] == [] && [R][1..] == [];
    } else {
      assert (p + [L])[1..] == p[1..] + [L] && (p + [R])[1..] == p[1..] + [R];
      BlankStep(op, Child(e, p[0]), p[1..]);
    }
  }

  /** A literal y or n strikes nothing. */
  lemma {:induction false} YnQuiet(op: Conn, c: Expr, e: Expr)
    requires IsYn(c)
    ensures StrikeEq(op, c, e) == (c, e)
    decreases e
  {
    if IsNode(op, e) {
      YnQuiet(op, c, e.l);
      YnQuiet(op, c, e.r);
    }
  }

  /** A struck level offers no match. */
  lemma {:induction false} BlankQuiet(op: Conn, x: Expr, e: Expr)
    requires !IsNode(op, x)
    ensures StrikeEq(op, x, Blank(op, e)) == (x, Blank(op, e))
    decreases e
  {
    if IsNode(op, e) {
      BlankQuiet(op, x, e.l);
      BlankQuiet(op, x, e.r);
    }
  }

  /** With everything left of it struck, an operand is matched by its own copy. */
  lemma {:induction false} StrikeSelf(op: Conn, e: Expr, p: Path)
    requires IsOperand(op, e, p) && Eq(At(e, p), At(e, p))
    ensures StrikeEq(op, At(e, p), BlankBefore(op, e, p)) == (Blank(op, At(e, p)), BlankThrough(op, e, p))
    decreases e
  {
    if p != [] {
      var x := At(e, p);
      StrikeSelf(op, Child(e, p[0]), p[1..]);
      if p[0] == L {
        YnQuiet(op, Blank(op, x), e.r);
      } else {
        BlankQuiet(op, x, e.l);
      }
    }
  }

  lemma {:induction false} StrikeCopy(op: Conn, e: Expr, p: Path)
    requires InLevel(op, e, p)
    requires forall x: Expr :: Nodes(x) < Nodes(e) || (x == e && !IsNode(op, e)) ==> Eq(x, x)
    ensures StrikeEq(op, At(e, p), BlankBefore(op, e, p)) == (Blank(op, At(e, p)), BlankThrough(op, e, p))
    decreases At(e, p)
  {
    if IsNode(op, At(e, p)) {
      InLevelStep(op, e, p, L);
      InLevelStep(op, e, p, R);
      BlankStep(op, e, p);
      StrikeCopy(op, e, p + [L]);
      StrikeCopy(op, e, p + [R]);
    } else {
      PutOperand(op, e, p, Sym(No));
      assert p == [] ==> At(e, p) == e;
      StrikeSelf(op, e, p);
    }
  }

  lemma {:induction false} BlankYn(op: Conn, e: Expr)
    ensures IsYn(EliminateYn(Blank(op, e)))
  {
    if IsNode(op, e) {
      BlankYn(op, e.l);
      BlankYn(op, e.r);
    }
  }

  /** expr_eq is reflexive. */
  lemma {:induction false} EqReflexive(e: Expr)
    ensures Eq(e, e)
    decreases Nodes(e)
  {
    match e
    case Sym(_) =>
    case Cmp(_, _, _) =>
    case Not(x) => EqReflexive(x);
    case Bin(op, l, r) =>
      forall x: Expr | Nodes(x) < Nodes(e) || (x == e && !IsNode(op, e))
        ensures Eq(x, x)
      {
        EqReflexive(x);
      }
      StrikeCopy(op, e, []);
      BlankYn(op, e);
  }

  /** No operand occurs twice at a level of a deduplicated expression. */
  lemma NoDuplicateOperands(e: Expr, op: Conn, p: Path, q: Path)
    requires IsNode(op, EliminateDups(e))
    requires IsOperand(op, EliminateDups(e), p) && IsOperand(op, EliminateDups(e), q) && p != q
    ensures At(EliminateDups(e), p) != At(EliminateDups(e), q)
  {
    EliminateDupsComplete(e, op, p, q);
    EqReflexive(At(EliminateDups(e), p));
  }

  // ---------------------------------------------------------------- what deduplication leaves

  lemma {:induction false} NormalNoYn(e: Expr)
    requires Normal(e) && ConstantFree(e)
    ensures NoYn(e)
  {
    if e.Bin? {
      NormalNoYn(e.l);
      NormalNoYn(e.r);
    }
  }

  /** Negations stay in front of symbols, and no y or n operand comes in. */
  lemma {:induction false} EliminateDupsForm(e: Expr)
    requires Normal(e) && ConstantFree(e)
    ensures Normal(EliminateDups(e)) && ConstantFree(EliminateDups(e))
    decreases Nodes(e)
  {
    if e.Bin? {
      var any := Env(_ => 0, (_, _) => 0);
      var r := Dups1(e.op, e, [], []);
      Dups1Correct(e.op, e, [], [], any);
      if r.1 != 0 {
        ProductivePassShrinks(e);
        EliminateYnClean(r.0, any);
        EliminateYnComplete(r.0);
        EliminateDupsForm(EliminateYn(r.0));
      }
    }
  }

  lemma {:induction false} OperandForm(op: Conn, e: Expr, p: Path)
    requires IsOperand(op, e, p) && Normal(e) && ConstantFree(e)
    ensures Normal(At(e, p)) && ConstantFree(At(e, p))
  {
    if p != [] {
      OperandForm(op, Child(e, p[0]), p[1..]);
    }
  }

  /** At a level where no pass joins anything, no operand is another one in different order or grouping. */
  lemma StableDistinct(e: Expr, op: Conn, p: Path, q: Path)
    requires Stable(e) && Normal(e) && ConstantFree(e)
    requires IsNode(op, e) && IsOperand(op, e, p) && IsOperand(op, e, q) && p != q
    ensures CanonOf(At(e, p)) != CanonOf(At(e, q))
    ensures Stable(At(e, p)) && Normal(At(e, p)) && ConstantFree(At(e, p))
  {
    Dups1Quiet(op, e, [], [], p, q);
    OperandForm(op, e, p);
    OperandForm(op, e, q);
    NormalNoYn(At(e, p));
    NormalNoYn(At(e, q));
    EqExact(At(e, p), At(e, q));
  }

  /** No two operands of a level of the result are the same up to order and grouping; so inside operands. */
  lemma NoPermutedOperands(e: Expr, op: Conn, p: Path, q: Path)
    requires Normal(e) && ConstantFree(e) && IsNode(op, EliminateDups(e))
    requires IsOperand(op, EliminateDups(e), p) && IsOperand(op, EliminateDups(e), q) && p != q
    ensures var d := EliminateDups(e);
            && CanonOf(At(d, p)) != CanonOf(At(d, q))
            && Stable(At(d, p)) && Normal(At(d, p)) && ConstantFree(At(d, p))
  {
    EliminateDupsForm(e);
    EliminateDupsStable(e);
    StableDistinct(EliminateDups(e), op, p, q);
  }

  /** A test of a for (in)equality with y, m or n. */
  predicate TestOf(e: Expr, a: Symbol) {
    e.Cmp? && (e.cmp == Equal || e.cmp == Unequal) && e.lhs == a && IsTri(e.rhs)
  }

  /** Two such tests are joined exactly if both are equalities of an OR, or one is an inequality of an AND. */
  lemma TestsJoin(op: Conn, a: Symbol, x: Expr, y: Expr)
    requires TypeOf(a) == Tristate && TestOf(x, a) && TestOf(y, a) && x != y
    ensures Join(op, x, y).Some? <==>
              if op == Or then x.cmp == Equal && y.cmp == Equal else x.cmp == Unequal || y.cmp == Unequal
    ensures Join(op, x, y).Some? ==> TestOf(Join(op, x, y).value, a) || Join(op, x, y).value == Sym(No)
  {
  }

  /** The symbol itself absorbs a test, or is absorbed by it, in an AND, unless that is `a=m`, `a=n` or `a!=y`. */
  lemma SymbolJoin(a: Symbol, y: Expr)
    requires (TypeOf(a) == Boolean || TypeOf(a) == Tristate) && TestOf(y, a)
    ensures Join(And, Sym(a), y).Some? <==>
              y == Cmp(Equal, a, Yes) || y == Cmp(Unequal, a, Mod) || y == Cmp(Unequal, a, No)
    ensures Join(And, y, Sym(a)) == Join(And, Sym(a), y)
    ensures Join(Or, Sym(a), y) == None && Join(Or, y, Sym(a)) == None
  {
  }

  /** A symbol and its negation are joined to y in an OR exactly if the symbol is bool. */
  lemma NegationJoin(a: Symbol)
    ensures Join(Or, Sym(a), Not(Sym(a))) == if TypeOf(a) == Boolean then Some(Sym(Yes)) else None
    ensures Join(Or, Not(Sym(a)), Sym(a)) == Join(Or, Sym(a), Not(Sym(a)))
    ensures Join(And, Sym(a), Not(Sym(a))) == None
  {
  }

  /** Only operands about the same symbol are joined, other than by expr_eq. */
  lemma JoinAbout(op: Conn, x: Expr, y: Expr)
    requires Join(op, x, y).Some? && !Eq(x, y)
    ensures exists a :: (TypeOf(a) == Boolean || TypeOf(a) == Tristate) && About(x, a) && About(y, a)
  {
    assert About(x, Subject(x, y).value);
  }

  /** A symbol, its negation, or an (in)equality test of it. */
  predicate About(e: Expr, a: Symbol) {
    || e == Sym(a) || e == Not(Sym(a))
    || (e.Cmp? && (e.cmp == Equal || e.cmp == Unequal) && e.lhs == a)
  }

  /** In the result of deduplication, no two tests of a tristate symbol stand side by side that one test replaces. */
  lemma NoJoinableTests(e: Expr, op: Conn, p: Path, q: Path, a: Symbol)
    requires IsNode(op, EliminateDups(e)) && TypeOf(a) == Tristate
    requires IsOperand(op, EliminateDups(e), p) && IsOperand(op, EliminateDups(e), q) && p != q
    requires TestOf(At(EliminateDups(e), p), a) && TestOf(At(EliminateDups(e), q), a)
    ensures var x, y := At(EliminateDups(e), p), At(EliminateDups(e), q);
            && x != y && (op == Or ==> x.cmp == Unequal || y.cmp == Unequal)
            && (op == And ==> x.cmp == Equal && y.cmp == Equal)
  {
    NoDuplicateOperands(e, op, p, q);
    EliminateDupsComplete(e, op, p, q);
    TestsJoin(op, a, At(EliminateDups(e), p), At(EliminateDups(e), q));
  }
}
