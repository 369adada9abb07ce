/**
  Structural equality modulo reordering (expr_eq) and the removal of common operands
  (expr_eliminate_eq and its helper), which call each other in expr.c.
 */
module KconfigEq {
  import opened KconfigExpr

  predicate IsNode(op: Conn, e: Expr) { e.Bin? && e.op == op }

  /** expr_eq, on non-NULL arguments. */
  predicate Eq(e1: Expr, e2: Expr)
    decreases Nodes(e1) + Nodes(e2), 2
  {
    match e1
    case Sym(_) => e1 == e2
    case Cmp(_, _, _) => e1 == e2
    case Not(x) => e2.Not? && Eq(x, e2.e)
    case Bin(op, _, _) =>
      IsNode(op, e2) &&
      var p := EliminateEq(e1, e2);
      p.0.Sym? && p.1.Sym? && p.0.sym == p.1.sym
  }

  /** expr_eliminate_eq: the two rewritten slots. */
  function EliminateEq(e1: Expr, e2: Expr): (Expr, Expr)
    decreases Nodes(e1) + Nodes(e2), 1
  {
    var p := if e1.Bin? then StrikeEq(e1.op, e1, e2) else (e1, e2);
    var q := if p.1.Bin? && !IsNode(p.1.op, p.0) then StrikeEq(p.1.op, p.0, p.1) else p;
    (EliminateYn(q.0), EliminateYn(q.1))
  }

  /** __expr_eliminate_eq: every pair of equal operands at the level op is replaced by the unit. */
  function StrikeEq(op: Conn, e1: Expr, e2: Expr): (p: (Expr, Expr))
    ensures Nodes(p.0) <= Nodes(e1) && Nodes(p.1) <= Nodes(e2)
    ensures (IsNode(op, e1) ==> IsNode(op, p.0)) && (IsNode(op, e2) ==> IsNode(op, p.1))
    decreases Nodes(e1) + Nodes(e2), if IsNode(op, e1) || IsNode(op, e2) then 0 else 3
  {
    if IsNode(op, e1) then
      var a := StrikeEq(op, e1.l, e2);
      var b := StrikeEq(op, e1.r, a.1);
      (Bin(op, a.0, b.0), b.1)
    else if IsNode(op, e2) then
      var a := StrikeEq(op, e1, e2.l);
      var b := StrikeEq(op, a.0, e2.r);
      (b.0, Bin(op, a.1, b.1))
    else if e1 == e2 && (e1 == Sym(Yes) || e1 == Sym(No)) then (e1, e2)
    else if !Eq(e1, e2) then (e1, e2)
    else (Sym(Unit(op)), Sym(Unit(op)))
  }

  /** expr_eq is sound: equal expressions have the same value everywhere. */
  lemma {:induction false} EqSound(e1: Expr, e2: Expr, v: Env)
    requires Proper(v) && Eq(e1, e2)
    ensures Val(e1, v) == Val(e2, v)
    decreases Nodes(e1) + Nodes(e2), 2
  {
    match e1
    case Sym(_) =>
    case Cmp(_, _, _) =>
    case Not(x) => EqSound(x, e2.e, v);
    case Bin(op, _, _) =>
      var p := StrikeEq(op, e1, e2);
      var c := StrikeEqFactor(op, e1, e2, v);
      EliminateYnValue(p.0, v);
      EliminateYnValue(p.1, v);
  }

  lemma ApplyShuffle(op: Conn, a: Tri, b: Tri, c: Tri, d: Tri)
    ensures Apply(op, Apply(op, a, b), Apply(op, c, d)) == Apply(op, Apply(op, a, c), Apply(op, b, d))
    ensures Apply(op, a, Apply(op, b, c)) == Apply(op, Apply(op, a, b), c)
  {}

  /** What is struck from both sides is one common operand c. */
  lemma {:induction false} StrikeEqFactor(op: Conn, e1: Expr, e2: Expr, v: Env) returns (c: Tri)
    requires Proper(v)
    ensures var p := StrikeEq(op, e1, e2);
            && Val(e1, v) == Apply(op, c, Val(p.0, v))
            && Val(e2, v) == Apply(op, c, Val(p.1, v))
    decreases Nodes(e1) + Nodes(e2), if IsNode(op, e1) || IsNode(op, e2) then 0 else 3
  {
    if IsNode(op, e1) {
      var a := StrikeEq(op, e1.l, e2);
      var b := StrikeEq(op, e1.r, a.1);
      var c1 := StrikeEqFactor(op, e1.l, e2, v);
      var c2 := StrikeEqFactor(op, e1.r, a.1, v);
      c := Apply(op, c1, c2);
      ApplyShuffle(op, c1, Val(a.0, v), c2, Val(b.0, v));
      ApplyShuffle(op, c1, c2, Val(b.1, v), 0);
    } else if IsNode(op, e2) {
      var a := StrikeEq(op, e1, e2.l);
      var b := StrikeEq(op, a.0, e2.r);
      var c1 := StrikeEqFactor(op, e1, e2.l, v);
      var c2 := StrikeEqFactor(op, a.0, e2.r, v);
      c := Apply(op, c1, c2);
      ApplyShuffle(op, c1, Val(a.1, v), c2, Val(b.1, v));
      ApplyShuffle(op, c1, c2, Val(b.0, v), 0);
    } else {
      c := v.tri(Unit(op));
      if StrikeEq(op, e1, e2) != (e1, e2) {
        EqSound(e1, e2, v);
        c := Val(e1, v);
      }
    }
  }

  /** Striking common operands keeps the order of the two sides. */
  lemma StrikeEqOrder(op: Conn, e1: Expr, e2: Expr, v: Env)
    requires Proper(v)
    requires var p := StrikeEq(op, e1, e2); Val(p.0, v) <= Val(p.1, v) || Val(p.1, v) == 2
    ensures Val(e1, v) <= Val(e2, v)
  {
    var c := StrikeEqFactor(op, e1, e2, v);
  }

  /**
    If removing the common operands leaves the second expression as y, then the first
    was never above the second: the "superset" test of menu_finalize is sound.
   */
  lemma EliminateEqImplies(e1: Expr, e2: Expr, v: Env)
    requires Proper(v) && EliminateEq(e1, e2).1 == Sym(Yes)
    ensures Val(e1, v) <= Val(e2, v)
  {
    var p := if e1.Bin? then StrikeEq(e1.op, e1, e2) else (e1, e2);
    assert Val(p.0, v) <= Val(p.1, v) by {
      if p.1.Bin? && !IsNode(p.1.op, p.0) {
        EliminateYnValue(StrikeEq(p.1.op, p.0, p.1).1, v);
        StrikeEqOrder(p.1.op, p.0, p.1, v);
      } else {
        EliminateYnValue(p.1, v);
      }
    }
    if e1.Bin? {
      StrikeEqOrder(e1.op, e1, e2, v);
    }
  }
}
