/**
  The rewriting passes expr_transform, expr_trans_bool and expr_trans_compare of expr.c, and
  the tests expr_contains_symbol and expr_depends_symbol.
 */
module KconfigTransform {
  import opened Common
  import opened KconfigExpr

  /** The total size found below negations, counted once per negation above it. */
  function Negated(e: Expr): nat {
    match e
    case Sym(_) => 0
    case Cmp(_, _, _) => 0
    case Not(x) => Nodes(x) + Negated(x)
    case Bin(_, l, r) => Negated(l) + Negated(r)
  }

  /** Operands in normal form, each under at most one extra negation. */
  predicate NearlyNormal(e: Expr) {
    match e
    case Sym(_) => true
    case Cmp(_, _, _) => true
    case Not(x) => Normal(x)
    case Bin(_, l, r) => NearlyNormal(l) && NearlyNormal(r)
  }

  lemma {:induction false} NearlyNormalOperand(e: Expr)
    ensures Normal(e) ==> NearlyNormal(e)
  {
    if e.Bin? {
      NearlyNormalOperand(e.l);
      NearlyNormalOperand(e.r);
    }
  }

  /** De Morgan's law grows the tree but lowers what is below negations. */
  lemma DeMorgan(op: Conn, l: Expr, r: Expr)
    ensures Negated(Bin(Dual(op), Not(l), Not(r))) < Negated(Not(Bin(op, l, r)))
    ensures Nodes(Bin(Dual(op), Not(l), Not(r))) > Nodes(Not(Bin(op, l, r)))
    ensures Normal(Bin(op, l, r)) ==> NearlyNormal(Bin(Dual(op), Not(l), Not(r)))
  {
    assert NearlyNormal(Not(l)) == Normal(l) && NearlyNormal(Not(r)) == Normal(r);
    assert Negated(Bin(op, l, r)) == Negated(l) + Negated(r);
    assert Negated(Not(l)) == Nodes(l) + Negated(l) && Negated(Not(r)) == Nodes(r) + Negated(r);
  }

  function Dual(op: Conn): Conn { if op == And then Or else And }

  function Opposite(op: CmpOp): CmpOp {
    match op
    case Equal => Unequal
    case Unequal => Equal
    case Lth => Geq
    case Leq => Gth
    case Gth => Leq
    case Geq => Lth
  }

  /** The case E_EQUAL / E_UNEQUAL of expr_transform for a bool symbol tested against y, m or n. */
  function TransformBoolTest(e: Expr): Expr
    requires BoolTest(e)
  {
    if e.rhs == Mod then Sym(if e.cmp == Equal then No else Yes)
    else if (e.rhs == No) == (e.cmp == Equal) then Not(Sym(e.lhs))
    else Sym(e.lhs)
  }

  /**
    expr_transform.  De Morgan's law makes it run again on the tree it has just built; the
    result is in normal form, and a normal form is left alone.
   */
  function Transform(e: Expr): (r: Expr)
    ensures Normal(r) && (Normal(e) ==> r == e)
    decreases !NearlyNormal(e), Negated(e), Nodes(e)
  {
    match e
    case Sym(_) => e
    case Cmp(_, _, _) => if BoolTest(e) then TransformBoolTest(e) else e
    case Bin(op, l, r) => Bin(op, Transform(l), Transform(r))
    case Not(y) =>
      NearlyNormalOperand(y);
      var x := Transform(y);
      match x
      case Not(z) => Transform(z)
      case Cmp(op, a, b) => Cmp(Opposite(op), a, b)
      case Bin(op, l, r) => DeMorgan(op, l, r); Transform(Bin(Dual(op), Not(l), Not(r)))
      case Sym(s) =>
        if s == Yes then Sym(No)
        else if s == Mod then Sym(Mod)
        else if s == No then Sym(Yes)
        else Not(x)
  }

  /** expr_transform keeps the value under every valuation. */
  lemma {:induction false} TransformValue(e: Expr, v: Env)
    requires Proper(v)
    ensures Val(Transform(e), v) == Val(e, v)
    decreases !NearlyNormal(e), Negated(e), Nodes(e)
  {
    match e
    case Sym(_) =>
    case Cmp(_, _, _) =>
    case Bin(op, l, r) =>
      TransformValue(l, v);
      TransformValue(r, v);
    case Not(y) =>
      NearlyNormalOperand(y);
      TransformValue(y, v);
      match Transform(y)
      case Not(z) => TransformValue(z, v);
      case Bin(op, l, r) =>
        DeMorgan(op, l, r);
        TransformValue(Bin(Dual(op), Not(l), Not(r)), v);
      case _ =>
  }

  /** Exactly the normal forms are left alone, so expr_transform is idempotent. */
  lemma TransformFixpoint(e: Expr)
    ensures Transform(e) == e <==> Normal(e)
    ensures Transform(Transform(e)) == Transform(e)
  {
    assert Normal(Transform(e));
  }

  /** expr_trans_bool. */
  function TransBool(e: Expr): Expr {
    match e
    case Sym(_) => e
    case Cmp(op, a, b) => if op == Unequal && TypeOf(a) == Tristate && b == No then Sym(a) else e
    case Not(x) => Not(TransBool(x))
    case Bin(op, l, r) => Bin(op, TransBool(l), TransBool(r))
  }

  /** On normal forms expr_trans_bool keeps whether the value is n, and only raises no value. */
  lemma {:induction false} TransBoolKeepsN(e: Expr, v: Env)
    requires Proper(v) && Normal(e)
    ensures Val(TransBool(e), v) == 0 <==> Val(e, v) == 0
    ensures Val(TransBool(e), v) <= Val(e, v)
    ensures Normal(TransBool(e))
  {
    if e.Bin? {
      TransBoolKeepsN(e.l, v);
      TransBoolKeepsN(e.r, v);
    }
  }

  /** Off normal forms it does not: `!(A!=n)` is n and `!A` is m when A is m. */
  lemma TransBoolNeedsNormal(a: Symbol, v: Env)
    requires Proper(v) && TypeOf(a) == Tristate && v.tri(a) == 1
    ensures var e := Not(Cmp(Unequal, a, No)); !Normal(e) && Val(e, v) == 0 && Val(TransBool(e), v) == 1
  {
    assert v.cmp(a, No) != 0;
  }

  /** The operators expr_trans_compare is called with. */
  function TransCompare(e: Expr, neq: bool, s: Symbol): Expr {
    match e
    case Bin(op, l, r) =>
      var x, y := TransCompare(l, false, s), TransCompare(r, false, s);
      var b := if s == Yes then Bin(op, x, y) else if s == No then Bin(Dual(op), x, y) else e;
      if neq then Not(b) else b
    case Not(x) => TransCompare(x, !neq, s)
    case Cmp(_, _, _) =>
      if s == Mod then Sym(if neq then Yes else No)
      else if (s == Yes) != neq then e
      else Not(e)
    case Sym(a) => Cmp(if neq then Unequal else Equal, a, s)
  }

  /** No operand of a negation has the value m. */
  predicate NoNegatedMod(e: Expr, v: Env) {
    match e
    case Sym(_) => true
    case Cmp(_, _, _) => true
    case Not(x) => Val(x, v) != 1 && NoNegatedMod(x, v)
    case Bin(_, l, r) => NoNegatedMod(l, v) && NoNegatedMod(r, v)
  }

  /** Only bool and tristate symbols and y, m, n occur outside comparisons. */
  predicate TriOperands(e: Expr) {
    match e
    case Sym(a) => TypeOf(a) == Boolean || TypeOf(a) == Tristate || IsTri(a)
    case Cmp(_, _, _) => true
    case Not(x) => TriOperands(x)
    case Bin(_, l, r) => TriOperands(l) && TriOperands(r)
  }

  /** expr_trans_compare asks whether e equals y (or n), as long as no negated operand is m. */
  lemma {:induction false} TransCompareExact(e: Expr, neq: bool, s: Symbol, v: Env)
    requires Proper(v) && TriOperands(e) && NoNegatedMod(e, v) && (s == Yes || s == No)
    ensures Val(TransCompare(e, neq, s), v) == if (Val(e, v) == v.tri(s)) != neq then 2 else 0
  {
    match e
    case Sym(a) => assert v.cmp(a, s) == 0 <==> v.tri(a) == v.tri(s);
    case Cmp(_, _, _) =>
    case Not(x) => TransCompareExact(x, !neq, s, v);
    case Bin(_, l, r) =>
      TransCompareExact(l, false, s, v);
      TransCompareExact(r, false, s, v);
  }

  /** With `!A` and A=m the answer is wrong: the value is m, yet the comparison with n is not n. */
  lemma TransCompareLiteral(a: Symbol, v: Env)
    requires Proper(v) && (TypeOf(a) == Boolean || TypeOf(a) == Tristate)
    ensures var e := Not(Sym(a));
            (Val(TransCompare(e, true, No), v) == 2 <==> Val(e, v) != 0) <==> v.tri(a) != 1
  {
    assert v.cmp(a, No) == 0 <==> v.tri(a) == 0;
  }

  /** On normal forms the answer "not n" is right under every valuation. */
  lemma {:induction false} TransCompareSafe(e: Expr, v: Env)
    requires Proper(v) && Normal(e) && TriOperands(e)
    ensures Val(TransCompare(e, true, No), v) != 0 ==> Val(e, v) != 0
    ensures Val(TransCompare(e, false, No), v) == 0 ==> Val(e, v) != 0
    ensures Val(TransCompare(e, true, No), v) == 2 - Val(TransCompare(e, false, No), v)
    ensures Val(TransCompare(e, true, No), v) != 1
  {
    match e
    case Sym(a) => assert v.cmp(a, No) == 0 <==> v.tri(a) == 0;
    case Cmp(_, _, _) =>
    case Not(x) => assert v.cmp(x.sym, No) == 0 <==> v.tri(x.sym) == 0;
    case Bin(_, l, r) =>
      TransCompareSafe(l, v);
      TransCompareSafe(r, v);
  }

  /** The value with a negated m read as n. */
  function Strict(e: Expr, v: Env): Tri {
    match e
    case Sym(_) => Val(e, v)
    case Cmp(_, _, _) => Val(e, v)
    case Not(x) => if Val(x, v) == 0 then 2 else 0
    case Bin(op, l, r) => Apply(op, Strict(l, v), Strict(r, v))
  }

  /** What expr_trans_compare asks of a normal form, under every valuation: whether the strict value is not n. */
  lemma {:induction false} TransCompareStrict(e: Expr, v: Env)
    requires Proper(v) && Normal(e) && TriOperands(e)
    ensures Val(TransCompare(e, true, No), v) == if Strict(e, v) != 0 then 2 else 0
    ensures Val(TransCompare(e, false, No), v) == if Strict(e, v) != 0 then 0 else 2
  {
    match e
    case Sym(a) => assert v.cmp(a, No) == 0 <==> v.tri(a) == 0;
    case Cmp(_, _, _) =>
    case Not(x) => assert v.cmp(x.sym, No) == 0 <==> v.tri(x.sym) == 0;
    case Bin(_, l, r) =>
      TransCompareStrict(l, v);
      TransCompareStrict(r, v);
  }

  /** The strict value is nowhere above the value, and is the value where no negated operand is m. */
  lemma {:induction false} StrictBelow(e: Expr, v: Env)
    ensures Normal(e) ==> Strict(e, v) <= Val(e, v)
    ensures NoNegatedMod(e, v) ==> Strict(e, v) == Val(e, v)
  {
    if e.Bin? {
      StrictBelow(e.l, v);
      StrictBelow(e.r, v);
    }
  }

  /** The answer "not n" is right if and only if the value is n wherever the strict value is. */
  lemma TransCompareRight(e: Expr, v: Env)
    requires Proper(v) && Normal(e) && TriOperands(e)
    ensures (Val(TransCompare(e, true, No), v) == 2 <==> Val(e, v) != 0) <==> (Strict(e, v) == 0 ==> Val(e, v) == 0)
  {
    TransCompareStrict(e, v);
    StrictBelow(e, v);
  }

  /** expr_contains_symbol. */
  predicate ContainsSymbol(e: Expr, s: Symbol) {
    match e
    case Sym(a) => a == s
    case Cmp(_, a, b) => a == s || b == s
    case Not(x) => ContainsSymbol(x, s)
    case Bin(_, l, r) => ContainsSymbol(l, s) || ContainsSymbol(r, s)
  }

  /** The expression itself and all expressions inside it. */
  function Subterms(e: Expr): set<Expr> {
    match e
    case Not(x) => {e} + Subterms(x)
    case Bin(_, l, r) => {e} + Subterms(l) + Subterms(r)
    case _ => {e}
  }

  /** The symbol itself, or a comparison with it. */
  predicate Mentions(x: Expr, s: Symbol) {
    x == Sym(s) || (x.Cmp? && (x.lhs == s || x.rhs == s))
  }

  /** A symbol is found exactly if it is a term of the expression, or a side of a comparison in it. */
  lemma {:induction false} ContainsSymbolExact(e: Expr, s: Symbol)
    ensures ContainsSymbol(e, s) <==> exists x :: x in Subterms(e) && Mentions(x, s)
  {
    match e
    case Sym(_) => assert e in Subterms(e) && (Mentions(e, s) <==> ContainsSymbol(e, s));
    case Cmp(_, _, _) => assert e in Subterms(e) && (Mentions(e, s) <==> ContainsSymbol(e, s));
    case Not(x) =>
      ContainsSymbolExact(x, s);
      assert !Mentions(e, s) && Subterms(e) == {e} + Subterms(x);
    case Bin(_, l, r) =>
      ContainsSymbolExact(l, s);
      ContainsSymbolExact(r, s);
      assert !Mentions(e, s) && Subterms(e) == {e} + Subterms(l) + Subterms(r);
  }

  /** An expression that does not contain a symbol does not see a change of it. */
  lemma {:induction false} ContainsSymbolFrame(e: Expr, s: Symbol, v: Env, w: Env)
    requires !ContainsSymbol(e, s)
    requires forall a :: a != s ==> v.tri(a) == w.tri(a)
    requires forall a, b :: a != s && b != s ==> v.cmp(a, b) == w.cmp(a, b)
    ensures Val(e, v) == Val(e, w)
  {
    match e
    case Sym(_) =>
    case Cmp(_, _, _) =>
    case Not(x) => ContainsSymbolFrame(x, s, v, w);
    case Bin(_, l, r) =>
      ContainsSymbolFrame(l, s, v, w);
      ContainsSymbolFrame(r, s, v, w);
  }

  /** expr_depends_symbol. */
  predicate DependsSymbol(e: Expr, s: Symbol) {
    match e
    case Sym(a) => a == s
    case Cmp(op, a, c) => a == s && ((op == Equal && (c == Yes || c == Mod)) || (op == Unequal && c == No))
    case Not(_) => false
    case Bin(op, l, r) => op == And && (DependsSymbol(l, s) || DependsSymbol(r, s))
  }

  /** An "absolute dependency": where the symbol is n, the expression is n. */
  lemma {:induction false} DependsSymbolSound(e: Expr, s: Symbol, v: Env)
    requires Proper(v) && DependsSymbol(e, s) && (TypeOf(s) == Boolean || TypeOf(s) == Tristate)
    ensures v.tri(s) == 0 ==> Val(e, v) == 0
    ensures ContainsSymbol(e, s)
  {
    match e
    case Sym(_) =>
    case Cmp(_, _, c) => assert v.cmp(s, c) == 0 <==> Reading(c) == Some(v.tri(s));
    case Bin(_, l, r) =>
      if DependsSymbol(l, s) {
        DependsSymbolSound(l, s, v);
      } else {
        DependsSymbolSound(r, s, v);
      }
  }
}
