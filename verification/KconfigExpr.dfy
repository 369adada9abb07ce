/**
  Dependency expressions of the Kconfig language (expr.h, expr.c): their syntax,
  the three-valued meaning given by expr_calc_value, and expr_eliminate_yn.
 */
module KconfigExpr {
  import opened Common

  /** The tristate enumeration of expr.h: no, mod, yes. */
  type Tri = t: int | 0 <= t <= 2

  datatype SymType = Unknown | Boolean | Tristate | Int | Hex | Str

  /**
    A symbol is identified by its address in the original.  Yes, Mod and No are the
    predefined constants; Constant is any other SYMBOL_CONST symbol, with the number its
    text denotes when strtoll accepts all of it; Config is a configuration symbol.
   */
  datatype Symbol =
    | Yes | Mod | No
    | Constant(text: string, reading: Option<int>)
    | Config(id: nat, stype: SymType)

  predicate IsConst(s: Symbol) { !s.Config? }

  predicate IsTri(s: Symbol) { s == Yes || s == Mod || s == No }

  function TypeOf(s: Symbol): SymType { if s.Config? then s.stype else Unknown }

  /** The tristate value a constant is equal to in a comparison with a bool or tristate symbol. */
  function Reading(c: Symbol): Option<int>
    requires IsConst(c)
  {
    match c
    case Yes => Some(2)
    case Mod => Some(1)
    case No => Some(0)
    case Constant(_, r) => r
  }

  datatype CmpOp = Equal | Unequal | Lth | Leq | Gth | Geq

  datatype Conn = And | Or

  datatype Expr =
    | Sym(sym: Symbol)
    | Cmp(cmp: CmpOp, lhs: Symbol, rhs: Symbol)
    | Not(e: Expr)
    | Bin(op: Conn, l: Expr, r: Expr)

  /** What evaluation reads: every symbol's tristate value and the sign of every comparison. */
  datatype Env = Env(tri: Symbol -> Tri, cmp: (Symbol, Symbol) -> int)

  ghost predicate Proper(v: Env) {
    && v.tri(Yes) == 2 && v.tri(Mod) == 1 && v.tri(No) == 0
    && (forall i :: v.tri(Config(i, Boolean)) != 1)
    && (forall s, c {:trigger v.cmp(s, c)} ::
          (TypeOf(s) == Boolean || TypeOf(s) == Tristate) && IsConst(c) ==>
            (v.cmp(s, c) == 0 <==> Reading(c) == Some(v.tri(s))))
    && (forall s, c {:trigger v.cmp(s, c)} :: IsTri(s) && IsTri(c) ==> (v.cmp(s, c) == 0 <==> s == c))
  }

  function Apply(op: Conn, a: Tri, b: Tri): Tri {
    match op
    case And => if a < b then a else b
    case Or => if a > b then a else b
  }

  predicate Holds(op: CmpOp, res: int) {
    match op
    case Equal => res == 0
    case Unequal => res != 0
    case Lth => res < 0
    case Leq => res <= 0
    case Gth => res > 0
    case Geq => res >= 0
  }

  /** expr_calc_value. */
  function Val(e: Expr, v: Env): Tri {
    match e
    case Sym(s) => v.tri(s)
    case Cmp(op, s, t) => if Holds(op, v.cmp(s, t)) then 2 else 0
    case Not(x) => 2 - Val(x, v)
    case Bin(op, l, r) => Apply(op, Val(l, v), Val(r, v))
  }

  ghost predicate SameMeaning(a: Expr, b: Expr) {
    forall v :: Proper(v) ==> Val(a, v) == Val(b, v)
  }

  function Nodes(e: Expr): (n: nat)
    ensures n >= 1
  {
    match e
    case Sym(_) => 1
    case Cmp(_, _, _) => 1
    case Not(x) => 1 + Nodes(x)
    case Bin(_, l, r) => 1 + Nodes(l) + Nodes(r)
  }

  /** y for an AND level and n for an OR level: the operand that changes nothing. */
  function Unit(op: Conn): Symbol { if op == And then Yes else No }

  /** n for an AND level and y for an OR level: the operand that decides everything. */
  function Absorb(op: Conn): Symbol { if op == And then No else Yes }

  /** expr_eliminate_yn. */
  function EliminateYn(e: Expr): Expr {
    match e
    case Bin(op, l, r) =>
      var l', r' := EliminateYn(l), EliminateYn(r);
      if l' == Sym(Absorb(op)) then Sym(Absorb(op))
      else if l' == Sym(Unit(op)) then r'
      else if r' == Sym(Absorb(op)) then Sym(Absorb(op))
      else if r' == Sym(Unit(op)) then l'
      else Bin(op, l', r')
    case _ => e
  }

  /** Some AND node has a literal y operand or some OR node a literal n operand. */
  predicate HasUnit(e: Expr) {
    e.Bin? && (e.l == Sym(Unit(e.op)) || e.r == Sym(Unit(e.op)) || HasUnit(e.l) || HasUnit(e.r))
  }

  lemma {:induction false} EliminateYnValue(e: Expr, v: Env)
    requires Proper(v)
    ensures Val(EliminateYn(e), v) == Val(e, v)
  {
    if e.Bin? {
      EliminateYnValue(e.l, v);
      EliminateYnValue(e.r, v);
    }
  }

  /** The result never grows, and shrinks whenever there was something to remove. */
  lemma {:induction false} EliminateYnShrinks(e: Expr)
    ensures Nodes(EliminateYn(e)) <= Nodes(e)
    ensures HasUnit(e) ==> Nodes(EliminateYn(e)) < Nodes(e)
  {
    if e.Bin? {
      EliminateYnShrinks(e.l);
      EliminateYnShrinks(e.r);
    }
  }

  /** No y or n operand of an AND or OR is left. */
  predicate ConstantFree(e: Expr) {
    e.Bin? ==>
      && ConstantFree(e.l) && ConstantFree(e.r)
      && e.l != Sym(Yes) && e.l != Sym(No) && e.r != Sym(Yes) && e.r != Sym(No)
  }

  lemma {:induction false} EliminateYnComplete(e: Expr)
    ensures ConstantFree(EliminateYn(e))
  {
    if e.Bin? {
      EliminateYnComplete(e.l);
      EliminateYnComplete(e.r);
    }
  }

  /** A test of a bool symbol against y, m or n, which a plain symbol or its negation replaces. */
  predicate BoolTest(e: Expr) {
    e.Cmp? && (e.cmp == Equal || e.cmp == Unequal) && TypeOf(e.lhs) == Boolean && IsTri(e.rhs)
  }

  /** The form expr_transform produces: negation only over symbols other than y, m and n. */
  predicate Normal(e: Expr) {
    match e
    case Sym(_) => true
    case Cmp(_, _, _) => !BoolTest(e)
    case Not(x) => x.Sym? && !IsTri(x.sym)
    case Bin(_, l, r) => Normal(l) && Normal(r)
  }
}
