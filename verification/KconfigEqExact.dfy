/**
  What expr_eq and expr_eliminate_eq decide, for expressions without literal y and n operands: equality
  up to the order and the grouping of operands at every level, and which operands two levels share.
 */
module KconfigEqExact {
  import opened KconfigExpr
  import opened KconfigEq
  import opened KconfigTransform

  /** An expression up to order and grouping: a level is the bag of its operands. */
  datatype Canon = Atom(e: Expr) | Neg(c: Canon) | Level(op: Conn, parts: multiset<Canon>)

  function CanonOf(e: Expr): Canon
    decreases e, 1
  {
    match e
    case Not(x) => Neg(CanonOf(x))
    case Bin(op, _, _) => Level(op, Parts(op, e))
    case _ => Atom(e)
  }

  /** The operands of the level op, however they are grouped. */
  function Parts(op: Conn, e: Expr): multiset<Canon>
    decreases e, if IsNode(op, e) then 0 else 2
  {
    if IsNode(op, e) then Parts(op, e.l) + Parts(op, e.r) else multiset{CanonOf(e)}
  }

  predicate IsYn(e: Expr) { e == Sym(Yes) || e == Sym(No) }

  /** Nowhere is y or n an operand. */
  predicate NoYn(e: Expr) {
    match e
    case Not(x) => NoYn(x)
    case Bin(_, l, r) => NoYn(l) && NoYn(r) && !IsYn(l) && !IsYn(r)
    case _ => true
  }

  /** A level of which some operands have been struck. */
  predicate Half(op: Conn, e: Expr) {
    if IsNode(op, e) then Half(op, e.l) && Half(op, e.r)
    else e == Sym(Unit(op)) || (NoYn(e) && !IsYn(e))
  }

  /** The operands that have not been struck. */
  function Left(op: Conn, e: Expr): multiset<Canon> {
    if IsNode(op, e) then Left(op, e.l) + Left(op, e.r)
    else if e == Sym(Unit(op)) then multiset{}
    else multiset{CanonOf(e)}
  }

  /** Before anything is struck, these are all operands. */
  lemma {:induction false} WholeLevel(op: Conn, e: Expr)
    requires NoYn(e) && !IsYn(e)
    ensures Half(op, e) && Left(op, e) == Parts(op, e)
  {
    if IsNode(op, e) {
      WholeLevel(op, e.l);
      WholeLevel(op, e.r);
    }
  }

  lemma {:induction false} NoYnStays(e: Expr)
    requires NoYn(e)
    ensures EliminateYn(e) == e
  {
    if e.Bin? {
      NoYnStays(e.l);
      NoYnStays(e.r);
    }
  }

  /** What is left of a level once the struck operands are gone. */
  lemma {:induction false} LeftOver(op: Conn, e: Expr)
    requires Half(op, e)
    ensures EliminateYn(e) != Sym(Absorb(op))
    ensures EliminateYn(e) == Sym(Unit(op)) <==> Left(op, e) == multiset{}
    ensures EliminateYn(e).Sym? && Left(op, e) != multiset{} ==> Left(op, e) == multiset{Atom(EliminateYn(e))}
  {
    if IsNode(op, e) {
      LeftOver(op, e.l);
      LeftOver(op, e.r);
    } else if e != Sym(Unit(op)) {
      NoYnStays(e);
      assert CanonOf(e) in Left(op, e);
    }
  }

  /** Striking x against both halves of a level is striking it against the whole. */
  lemma Differences(a: multiset<Canon>, b: multiset<Canon>, m: multiset<Canon>)
    ensures (a - m) + (b - (m - a)) == (a + b) - m
    ensures (m - a) - b == m - (a + b)
  {
    forall c
      ensures ((a - m) + (b - (m - a)))[c] == ((a + b) - m)[c]
    {
    }
  }

  /** expr_eq is equality up to order and grouping. */
  lemma {:induction false} EqExact(e1: Expr, e2: Expr)
    requires NoYn(e1) && NoYn(e2)
    ensures Eq(e1, e2) <==> CanonOf(e1) == CanonOf(e2)
    decreases Nodes(e1) + Nodes(e2), 1
  {
    match e1
    case Sym(_) =>
    case Cmp(_, _, _) =>
    case Not(x) =>
      if e2.Not? {
        EqExact(x, e2.e);
      }
    case Bin(op, _, _) =>
      if IsNode(op, e2) {
        LevelsExact(op, e1, e2);
      }
  }

  lemma {:induction false} LevelsExact(op: Conn, e1: Expr, e2: Expr)
    requires NoYn(e1) && NoYn(e2) && IsNode(op, e1) && IsNode(op, e2)
    ensures Eq(e1, e2) <==> Parts(op, e1) == Parts(op, e2)
    decreases Nodes(e1) + Nodes(e2), 0, 1
  {
    WholeLevel(op, e1);
    WholeLevel(op, e2);
    StrikeExact(op, e1, e2);
    var p := StrikeEq(op, e1, e2);
    LeftOver(op, p.0);
    LeftOver(op, p.1);
    Antisymmetric(Parts(op, e1), Parts(op, e2));
    Disjoint(Parts(op, e1), Parts(op, e2), EliminateYn(p.0));
  }

  lemma Antisymmetric(a: multiset<Canon>, b: multiset<Canon>)
    ensures a - b == multiset{} && b - a == multiset{} <==> a == b
  {
    if a - b == multiset{} && b - a == multiset{} {
      forall c
        ensures a[c] == b[c]
      {
        assert (a - b)[c] == 0 && (b - a)[c] == 0;
      }
    }
  }

  lemma Disjoint(a: multiset<Canon>, b: multiset<Canon>, e: Expr)
    ensures !(a - b == multiset{Atom(e)} && b - a == multiset{Atom(e)})
  {
    assert (a - b)[Atom(e)] == 0 || (b - a)[Atom(e)] == 0;
  }

  /** Of each level is left what the other one lacks. */
  predicate Rest(op: Conn, e1: Expr, e2: Expr, p: (Expr, Expr)) {
    && Half(op, p.0) && Half(op, p.1)
    && Left(op, p.0) == Left(op, e1) - Left(op, e2) && Left(op, p.1) == Left(op, e2) - Left(op, e1)
  }

  lemma RestFirst(op: Conn, l: Expr, r: Expr, e2: Expr, a: (Expr, Expr), b: (Expr, Expr))
    requires Rest(op, l, e2, a) && Rest(op, r, a.1, b)
    ensures Rest(op, Bin(op, l, r), e2, (Bin(op, a.0, b.0), b.1))
  {
    var x, y, m := Left(op, l), Left(op, r), Left(op, e2);
    Differences(x, y, m);
    assert Left(op, Bin(op, l, r)) == x + y && Left(op, Bin(op, a.0, b.0)) == (x - m) + (y - (m - x));
  }

  lemma RestSecond(op: Conn, e1: Expr, l: Expr, r: Expr, a: (Expr, Expr), b: (Expr, Expr))
    requires Rest(op, e1, l, a) && Rest(op, a.0, r, b)
    ensures Rest(op, e1, Bin(op, l, r), (b.0, Bin(op, a.1, b.1)))
  {
    var x, y, m := Left(op, l), Left(op, r), Left(op, e1);
    Differences(x, y, m);
    assert Left(op, Bin(op, l, r)) == x + y && Left(op, Bin(op, a.1, b.1)) == (x - m) + (y - (m - x));
  }

  lemma {:induction false} StrikeExact(op: Conn, e1: Expr, e2: Expr)
    requires Half(op, e1) && Half(op, e2)
    ensures Rest(op, e1, e2, StrikeEq(op, e1, e2))
    decreases Nodes(e1) + Nodes(e2), if IsNode(op, e1) || IsNode(op, e2) then 0 else 3, 0
  {
    if IsNode(op, e1) {
      var a := StrikeEq(op, e1.l, e2);
      StrikeExact(op, e1.l, e2);
      StrikeExact(op, e1.r, a.1);
      RestFirst(op, e1.l, e1.r, e2, a, StrikeEq(op, e1.r, a.1));
    } else if IsNode(op, e2) {
      var a := StrikeEq(op, e1, e2.l);
      StrikeExact(op, e1, e2.l);
      StrikeExact(op, a.0, e2.r);
      RestSecond(op, e1, e2.l, e2.r, a, StrikeEq(op, a.0, e2.r));
    } else {
      OperandsExact(op, e1, e2);
    }
  }

  /** A struck operand strikes nothing. */
  lemma UnitQuiet(op: Conn, e1: Expr, e2: Expr)
    requires !IsNode(op, e1) && !IsNode(op, e2) && (e1 == Sym(Unit(op)) || e2 == Sym(Unit(op)))
    ensures StrikeEq(op, e1, e2) == (e1, e2)
  {
  }

  lemma Singles(c: Canon, d: Canon)
    ensures multiset{c} - multiset{d} == if c == d then multiset{} else multiset{c}
  {
  }

  lemma PairRest(op: Conn, e1: Expr, e2: Expr)
    requires Half(op, e1) && Half(op, e2) && !IsNode(op, e1) && !IsNode(op, e2)
    requires e1 != Sym(Unit(op)) && e2 != Sym(Unit(op))
    ensures var u := Sym(Unit(op));
            Rest(op, e1, e2, if CanonOf(e1) == CanonOf(e2) then (u, u) else (e1, e2))
  {
    Singles(CanonOf(e1), CanonOf(e2));
    Singles(CanonOf(e2), CanonOf(e1));
  }

  lemma {:induction false} OperandsExact(op: Conn, e1: Expr, e2: Expr)
    requires Half(op, e1) && Half(op, e2) && !IsNode(op, e1) && !IsNode(op, e2)
    ensures Rest(op, e1, e2, StrikeEq(op, e1, e2))
    decreases Nodes(e1) + Nodes(e2), 2, 0
  {
    var u := Sym(Unit(op));
    if e1 == u || e2 == u {
      UnitQuiet(op, e1, e2);
    } else {
      EqExact(e1, e2);
      assert StrikeEq(op, e1, e2) == if CanonOf(e1) == CanonOf(e2) then (u, u) else (e1, e2);
      PairRest(op, e1, e2);
    }
  }

  // ---------------------------------------------------------------- consequences

  /** expr_depends_symbol: the symbol itself, or a test that is n where it is n, is an operand of the conjunction. */
  lemma {:induction false} DependsSymbolExact(e: Expr, s: Symbol)
    ensures DependsSymbol(e, s) <==>
              || Atom(Sym(s)) in Parts(And, e) || Atom(Cmp(Equal, s, Yes)) in Parts(And, e)
              || Atom(Cmp(Equal, s, Mod)) in Parts(And, e) || Atom(Cmp(Unequal, s, No)) in Parts(And, e)
    decreases e
  {
    if IsNode(And, e) {
      DependsSymbolExact(e.l, s);
      DependsSymbolExact(e.r, s);
    } else {
      assert Parts(And, e) == multiset{CanonOf(e)};
    }
  }

  /** Operands may be exchanged and regrouped. */
  lemma EqSwapped(op: Conn, a: Expr, b: Expr)
    requires NoYn(Bin(op, a, b))
    ensures Eq(Bin(op, a, b), Bin(op, b, a))
  {
    LevelsExact(op, Bin(op, a, b), Bin(op, b, a));
  }

  lemma EqRegrouped(op: Conn, a: Expr, b: Expr, c: Expr)
    requires NoYn(Bin(op, a, Bin(op, b, c)))
    ensures Eq(Bin(op, a, Bin(op, b, c)), Bin(op, Bin(op, a, b), c))
  {
    var x, y, z := Parts(op, a), Parts(op, b), Parts(op, c);
    assert Parts(op, Bin(op, a, Bin(op, b, c))) == x + (y + z) by {
      assert Parts(op, Bin(op, b, c)) == y + z;
    }
    assert Parts(op, Bin(op, Bin(op, a, b), c)) == (x + y) + z by {
      assert Parts(op, Bin(op, a, b)) == x + y;
    }
    LevelsExact(op, Bin(op, a, Bin(op, b, c)), Bin(op, Bin(op, a, b), c));
  }

  /** The comment above expr_eq: every operand of one level is an operand of the other. */
  ghost predicate Described(op: Conn, e1: Expr, e2: Expr) {
    forall c :: c in Parts(op, e1) <==> c in Parts(op, e2)
  }

  /** expr_eq also counts: it says what the comment says exactly if no operand occurs more often on one side. */
  lemma DescribedExact(op: Conn, e1: Expr, e2: Expr)
    requires NoYn(e1) && NoYn(e2) && IsNode(op, e1) && IsNode(op, e2)
    ensures (Eq(e1, e2) <==> Described(op, e1, e2)) <==>
              (Described(op, e1, e2) ==> forall c :: Parts(op, e1)[c] == Parts(op, e2)[c])
  {
    LevelsExact(op, e1, e2);
    assert Parts(op, e1) == Parts(op, e2) ==> Described(op, e1, e2);
    assert (forall c :: Parts(op, e1)[c] == Parts(op, e2)[c]) ==> Parts(op, e1) == Parts(op, e2);
  }

  /** So an operand that is written twice makes a difference: A && A && B is not equal to A && B. */
  lemma RepetitionCounts(op: Conn, a: Expr, b: Expr)
    requires NoYn(Bin(op, a, b))
    ensures var twice, once := Bin(op, Bin(op, a, a), b), Bin(op, a, b);
            Described(op, twice, once) && !Eq(twice, once)
  {
    var x, y := Parts(op, a), Parts(op, b);
    var twice := Bin(op, Bin(op, a, a), b);
    assert Parts(op, twice) == (x + x) + y by {
      assert Parts(op, Bin(op, a, a)) == x + x;
    }
    SomePart(op, a);
    LevelsExact(op, twice, Bin(op, a, b));
    assert |(x + x) + y| == |x + y| + |x|;
  }

  lemma {:induction false} SomePart(op: Conn, e: Expr)
    ensures |Parts(op, e)| > 0
  {
    if IsNode(op, e) {
      SomePart(op, e.l);
    }
  }

  lemma {:induction false} StrikeHalf(op: Conn, x: Expr, e: Expr)
    requires Half(op, e)
    ensures Half(op, StrikeEq(op, x, e).1)
    decreases Nodes(x) + Nodes(e)
  {
    if IsNode(op, x) {
      StrikeHalf(op, x.l, e);
      StrikeHalf(op, x.r, StrikeEq(op, x.l, e).1);
    } else if IsNode(op, e) {
      StrikeHalf(op, x, e.l);
      StrikeHalf(op, StrikeEq(op, x, e.l).0, e.r);
    }
  }

  /**
    The superset test on two conditions: it passes exactly if the first is a conjunction that has every
    operand of the second among its own, as often, up to order and grouping.
   */
  lemma SupersetOperands(e1: Expr, e2: Expr)
    requires NoYn(e1) && NoYn(e2) && !IsYn(e1) && !IsYn(e2)
    ensures EliminateEq(e1, e2).1 == Sym(Yes) <==> IsNode(And, e1) && Parts(And, e2) <= Parts(And, e1)
  {
    if IsNode(And, e1) {
      ConjunctionOperands(e1, e2);
    } else {
      OthersFail(e1, e2);
    }
  }

  lemma ConjunctionOperands(e1: Expr, e2: Expr)
    requires NoYn(e1) && NoYn(e2) && !IsYn(e1) && !IsYn(e2) && IsNode(And, e1)
    ensures EliminateEq(e1, e2).1 == Sym(Yes) <==> Parts(And, e2) <= Parts(And, e1)
  {
    WholeLevel(And, e1);
    WholeLevel(And, e2);
    StrikeExact(And, e1, e2);
    var p := StrikeEq(And, e1, e2);
    LeftOver(And, p.1);
    NothingLeft(Parts(And, e2), Parts(And, e1));
    if p.1.Bin? && p.1.op == Or {
      NoYnStays(p.1);
      DisjunctionStays(p.0, p.1);
    }
  }

  /** A disjunction is never reduced to y. */
  lemma DisjunctionStays(x: Expr, e: Expr)
    requires IsNode(Or, e) && NoYn(e)
    ensures EliminateYn(StrikeEq(Or, x, e).1) != Sym(Yes)
  {
    WholeLevel(Or, e);
    StrikeHalf(Or, x, e);
    LeftOver(Or, StrikeEq(Or, x, e).1);
  }

  lemma NothingLeft(a: multiset<Canon>, b: multiset<Canon>)
    ensures a - b == multiset{} <==> a <= b
  {
    if a - b == multiset{} {
      forall c
        ensures a[c] <= b[c]
      {
        assert (a - b)[c] == 0;
      }
    }
  }

  /** One operand on its own strikes at most one operand. */
  lemma {:induction false} OneStruck(op: Conn, x: Expr, e: Expr)
    requires !IsNode(op, x) && Half(op, e)
    ensures var p := StrikeEq(op, x, e);
            || p == (x, e)
            || (p.0 == Sym(Unit(op)) && Half(op, p.1) && |Left(op, p.1)| + 1 >= |Left(op, e)|)
    decreases e
  {
    if IsNode(op, e) {
      OneStruck(op, x, e.l);
      OneStruck(op, StrikeEq(op, x, e.l).0, e.r);
      UnitStays(op, e.r);
    }
  }

  lemma {:induction false} UnitStays(op: Conn, e: Expr)
    requires Half(op, e)
    ensures StrikeEq(op, Sym(Unit(op)), e) == (Sym(Unit(op)), e)
  {
    if IsNode(op, e) {
      UnitStays(op, e.l);
      UnitStays(op, e.r);
    }
  }

  /** An operand stays or is struck, whatever strikes it. */
  lemma {:induction false} OperandStruck(op: Conn, e: Expr, x: Expr)
    requires !IsNode(op, x)
    ensures StrikeEq(op, e, x).1 == x || StrikeEq(op, e, x).1 == Sym(Unit(op))
    decreases Nodes(e) + Nodes(x)
  {
    if IsNode(op, e) {
      OperandStruck(op, e.l, x);
      OperandStruck(op, e.r, StrikeEq(op, e.l, x).1);
    }
  }

  lemma {:induction false} PartsMany(op: Conn, e: Expr)
    ensures |Parts(op, e)| >= if IsNode(op, e) then 2 else 1
    decreases e
  {
    if IsNode(op, e) {
      PartsMany(op, e.l);
      PartsMany(op, e.r);
    }
  }

  /** A level struck by one operand is never y. */
  lemma StruckOnce(x: Expr, e: Expr)
    requires e.Bin? && NoYn(e) && !IsNode(e.op, x)
    ensures EliminateYn(StrikeEq(e.op, x, e).1) != Sym(Yes)
  {
    WholeLevel(e.op, e);
    PartsMany(e.op, e);
    OneStruck(e.op, x, e);
    LeftOver(e.op, StrikeEq(e.op, x, e).1);
  }

  lemma OthersFail(e1: Expr, e2: Expr)
    requires NoYn(e1) && NoYn(e2) && !IsYn(e1) && !IsYn(e2) && !IsNode(And, e1)
    ensures EliminateEq(e1, e2).1 != Sym(Yes)
  {
    NoYnStays(e2);
    if !e1.Bin? {
      if e2.Bin? {
        StruckOnce(e1, e2);
      }
    } else {
      var p := StrikeEq(Or, e1, e2);
      if IsNode(Or, e2) {
        WholeLevel(Or, e1);
        WholeLevel(Or, e2);
        StrikeExact(Or, e1, e2);
        LeftOver(Or, p.1);
      } else {
        OperandStruck(Or, e1, e2);
        if p.1.Bin? {
          StruckOnce(p.0, e2);
        }
      }
    }
  }
}
