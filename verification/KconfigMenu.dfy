/**
  Where menu_finalize of menu.c uses the expression passes: the propagation of dependencies
  from a menu to its children, and the automatic-submenu test.
 */
module KconfigMenu {
  import opened Common
  import opened KconfigExpr
  import opened KconfigEq
  import opened KconfigSlots
  import opened KconfigDups
  import opened KconfigTransform

  /** A struct expr pointer; NULL stands for yes. */
  type Dep = Option<Expr>

  function DepVal(d: Dep, v: Env): Tri {
    if d.None? then 2 else Val(d.value, v)
  }

  /** rewrite_m: a bare `m` becomes `m && MODULES`. */
  function RewriteM(e: Expr, modules: Symbol): Expr {
    match e
    case Sym(s) => if s == Mod then Bin(And, e, Sym(modules)) else e
    case Cmp(_, _, _) => e
    case Not(x) => Not(RewriteM(x, modules))
    case Bin(op, l, r) => Bin(op, RewriteM(l, modules), RewriteM(r, modules))
  }

  /** The valuation in which a bare `m` is worth no more than the MODULES symbol. */
  function WithModules(v: Env, modules: Symbol): Env {
    Env(s => ModulesTri(v, modules, s), v.cmp)
  }

  function ModulesTri(v: Env, modules: Symbol, s: Symbol): Tri {
    if s == Mod then Apply(And, v.tri(Mod), v.tri(modules)) else v.tri(s)
  }

  lemma {:induction false} RewriteMValue(e: Expr, modules: Symbol, v: Env)
    ensures Val(RewriteM(e, modules), v) == Val(e, WithModules(v, modules))
    ensures NumeralFree(e) ==> NumeralFree(RewriteM(e, modules))
  {
    match e
    case Sym(_) =>
    case Cmp(_, _, _) =>
    case Not(x) => RewriteMValue(x, modules, v);
    case Bin(_, l, r) =>
      RewriteMValue(l, modules, v);
      RewriteMValue(r, modules, v);
  }

  /** expr_alloc_and. */
  function AllocAnd(a: Dep, b: Dep): Dep {
    if a.None? then b
    else if b.None? then a
    else Some(Bin(And, a.value, b.value))
  }

  /** The dependency of a child: its own one, rewritten and transformed, below the parent's. */
  function Propagate(parent: Dep, dep: Dep, modules: Symbol): Dep {
    var d := if dep.None? then None else Some(Transform(RewriteM(dep.value, modules)));
    var b := AllocAnd(parent, d);
    if b.None? then None else Some(EliminateDups(b.value))
  }

  ghost predicate NumeralFreeDep(d: Dep) { d.Some? ==> NumeralFree(d.value) }

  ghost predicate NormalDep(d: Dep) { d.Some? ==> Normal(d.value) }

  lemma {:induction false} TransformNumerals(e: Expr)
    requires NumeralFree(e)
    ensures NumeralFree(Transform(e))
    decreases !NearlyNormal(e), Negated(e), Nodes(e)
  {
    match e
    case Sym(_) =>
    case Cmp(_, _, _) =>
    case Bin(op, l, r) =>
      TransformNumerals(l);
      TransformNumerals(r);
    case Not(y) =>
      NearlyNormalOperand(y);
      TransformNumerals(y);
      match Transform(y)
      case Not(z) => TransformNumerals(z);
      case Bin(op, l, r) =>
        DeMorgan(op, l, r);
        assert NumeralFree(l) && NumeralFree(r);
        TransformNumerals(Bin(Dual(op), Not(l), Not(r)));
      case _ =>
  }

  /**
    The whole pipeline rewrite_m, expr_transform, expr_alloc_and, expr_eliminate_dups computes
    the minimum of the parent's dependency and the child's own, read with `m` below MODULES.
   */
  lemma PropagateMeaning(parent: Dep, dep: Dep, modules: Symbol, v: Env)
    requires Proper(v) && NumeralFreeDep(parent) && NumeralFreeDep(dep)
    ensures DepVal(Propagate(parent, dep, modules), v)
         == Apply(And, DepVal(parent, v), DepVal(dep, WithModules(v, modules)))
    ensures NumeralFreeDep(Propagate(parent, dep, modules))
    ensures NormalDep(parent) ==> NormalDep(Propagate(parent, dep, modules))
  {
    if dep.Some? {
      RewriteMValue(dep.value, modules, v);
      TransformValue(RewriteM(dep.value, modules), v);
      TransformNumerals(RewriteM(dep.value, modules));
    }
    var d := if dep.None? then None else Some(Transform(RewriteM(dep.value, modules)));
    var b := AllocAnd(parent, d);
    if b.Some? {
      EliminateDupsCorrect(b.value);
      assert Val(b.value, v) == Val(EliminateDups(b.value), v);
    }
  }

  /** The condition of a property of an entry that is not a tristate symbol. */
  lemma PropertyVisibility(parent: Dep, dep: Dep, modules: Symbol, v: Env)
    requires Proper(v) && NumeralFreeDep(parent) && NumeralFreeDep(dep) && NormalDep(parent)
    requires Propagate(parent, dep, modules).Some?
    ensures Val(TransBool(Propagate(parent, dep, modules).value), v) == 0
       <==> (DepVal(parent, v) == 0 || DepVal(dep, WithModules(v, modules)) == 0)
  {
    PropagateMeaning(parent, dep, modules, v);
    TransBoolKeepsN(Propagate(parent, dep, modules).value, v);
  }

  // ---------------------------------------------------------------- along the menu tree

  /** The dependency at the end of a path of nested entries with the given conditions, outermost first. */
  function PropagatePath(root: Dep, conds: seq<Dep>, modules: Symbol): Dep {
    if conds == [] then root
    else Propagate(PropagatePath(root, conds[..|conds| - 1], modules), conds[|conds| - 1], modules)
  }

  /** The least value of some conditions. */
  function Least(conds: seq<Dep>, v: Env): Tri {
    if conds == [] then 2 else Apply(And, Least(conds[..|conds| - 1], v), DepVal(conds[|conds| - 1], v))
  }

  /** It is the minimum of the conditions of all entries around it, read with `m` below MODULES. */
  lemma {:induction false} PathMeaning(root: Dep, conds: seq<Dep>, modules: Symbol, v: Env)
    requires Proper(v) && NumeralFreeDep(root) && forall i :: 0 <= i < |conds| ==> NumeralFreeDep(conds[i])
    ensures DepVal(PropagatePath(root, conds, modules), v)
         == Apply(And, DepVal(root, v), Least(conds, WithModules(v, modules)))
    ensures NumeralFreeDep(PropagatePath(root, conds, modules))
    ensures NormalDep(root) ==> NormalDep(PropagatePath(root, conds, modules))
  {
    if conds != [] {
      var front, last := conds[..|conds| - 1], conds[|conds| - 1];
      PathMeaning(root, front, modules, v);
      PropagateMeaning(PropagatePath(root, front, modules), last, modules, v);
    }
  }

  /** Each condition on the path bounds the result. */
  lemma {:induction false} LeastBelow(conds: seq<Dep>, v: Env, i: nat)
    requires i < |conds|
    ensures Least(conds, v) <= DepVal(conds[i], v)
  {
    if i < |conds| - 1 {
      LeastBelow(conds[..|conds| - 1], v, i);
    }
  }

  /** expr_alloc_or, where a NULL pointer stands for nothing rather than yes. */
  function AllocOr(a: Dep, b: Dep): Dep {
    if a.None? then b else if b.None? then a else Some(Bin(Or, a.value, b.value))
  }

  /** A select or an imply: the symbol it stands at, and its condition after propagation. */
  datatype Select = Select(source: Symbol, cond: Dep)

  /** rev_dep (or implied) of a symbol after all its selects (or implies) have been met. */
  function Collected(selects: seq<Select>): Dep {
    if selects == [] then None
    else
      var s := selects[|selects| - 1];
      AllocOr(Collected(selects[..|selects| - 1]), AllocAnd(Some(Sym(s.source)), s.cond))
  }

  /** The greatest value among the selects, each no more than its symbol and its condition allow. */
  function Greatest(selects: seq<Select>, v: Env): Tri {
    if selects == [] then 0
    else
      var s := selects[|selects| - 1];
      Apply(Or, Greatest(selects[..|selects| - 1], v), Apply(And, v.tri(s.source), DepVal(s.cond, v)))
  }

  lemma {:induction false} CollectedMeaning(selects: seq<Select>, v: Env)
    ensures Collected(selects).None? <==> selects == []
    ensures (if Collected(selects).None? then 0 else DepVal(Collected(selects), v)) == Greatest(selects, v)
  {
    if selects != [] {
      CollectedMeaning(selects[..|selects| - 1], v);
      var s := selects[|selects| - 1];
      assert Val(Sym(s.source), v) == v.tri(s.source);
      assert DepVal(AllocAnd(Some(Sym(s.source)), s.cond), v) == Apply(And, v.tri(s.source), DepVal(s.cond, v));
    }
  }

  // ---------------------------------------------------------------- automatic submenus

  /** A dependency prepared for the superset test: `dep != n`, simplified. */
  function NotN(d: Dep): Expr {
    EliminateDups(Transform(if d.None? then Not(Sym(No)) else TransCompare(d.value, true, No)))
  }

  /** The superset test: what remains of the prompt's condition once the common part is removed. */
  predicate Superset(dep: Dep, prompt: Dep) {
    EliminateEq(NotN(dep), NotN(prompt)).1 == Sym(Yes)
  }

  /** The test menu_finalize applies to an entry following the symbol s. */
  predicate MovesUnder(dep: Dep, s: Symbol, prompt: Dep) {
    dep.Some? && ContainsSymbol(dep.value, s) && (DependsSymbol(dep.value, s) || Superset(dep, prompt))
  }

  ghost predicate Usable(d: Dep) {
    d.Some? ==> NumeralFree(d.value) && Normal(d.value) && TriOperands(d.value)
  }

  lemma {:induction false} TransCompareNumerals(e: Expr, neq: bool)
    requires NumeralFree(e)
    ensures NumeralFree(TransCompare(e, neq, No))
  {
    match e
    case Sym(_) =>
    case Cmp(_, _, _) =>
    case Not(x) => TransCompareNumerals(x, !neq);
    case Bin(_, l, r) =>
      TransCompareNumerals(l, false);
      TransCompareNumerals(r, false);
  }

  lemma NotNValue(d: Dep, v: Env)
    requires Proper(v) && Usable(d)
    ensures d.Some? ==> Val(NotN(d), v) == Val(TransCompare(d.value, true, No), v)
    ensures d.None? ==> Val(NotN(d), v) == 2
  {
    var e := if d.None? then Not(Sym(No)) else TransCompare(d.value, true, No);
    if d.Some? {
      TransCompareNumerals(d.value, true);
    }
    TransformNumerals(e);
    TransformValue(e, v);
    EliminateDupsCorrect(Transform(e));
    assert Val(Transform(e), v) == Val(EliminateDups(Transform(e)), v);
  }

  /**
    An entry moved below a symbol is invisible wherever the symbol is n (absolute dependency), or
    strictly n wherever the symbol's prompt is n (superset rule); so it is invisible there if no
    negated operand of its condition is m.
   */
  lemma SubmenuSound(dep: Dep, s: Symbol, prompt: Dep, v: Env)
    requires Proper(v) && Usable(dep) && Usable(prompt) && MovesUnder(dep, s, prompt)
    requires TypeOf(s) == Boolean || TypeOf(s) == Tristate
    ensures DependsSymbol(dep.value, s) && Val(dep.value, v) != 0 ==> v.tri(s) != 0
    ensures !DependsSymbol(dep.value, s) && Strict(dep.value, v) != 0 ==> DepVal(prompt, v) != 0
    ensures !DependsSymbol(dep.value, s) && Val(dep.value, v) != 0 && NoNegatedMod(dep.value, v) ==>
              DepVal(prompt, v) != 0
  {
    StrictBelow(dep.value, v);
    if DependsSymbol(dep.value, s) {
      DependsSymbolSound(dep.value, s, v);
    } else if Strict(dep.value, v) != 0 {
      SupersetStrict(dep.value, prompt, v);
    }
  }

  /** The superset rule under every valuation. */
  lemma SupersetStrict(dep: Expr, prompt: Dep, v: Env)
    requires Proper(v) && Usable(Some(dep)) && Usable(prompt) && Superset(Some(dep), prompt)
    ensures Strict(dep, v) != 0 ==> DepVal(prompt, v) != 0
  {
    TransCompareStrict(dep, v);
    NotNValue(Some(dep), v);
    NotNValue(prompt, v);
    EliminateEqImplies(NotN(Some(dep)), NotN(prompt), v);
    if prompt.Some? {
      TransCompareSafe(prompt.value, v);
    }
  }

  /** Two operands that cannot be joined leave a pass without work. */
  lemma {:induction false} PairQuiet(op: Conn, t: Expr, p: Path, q: Path)
    requires IsOperand(op, t, p) && IsOperand(op, t, q) && p != q
    requires Stable(At(t, p)) && Join(op, At(t, p), At(t, q)) == None
    ensures Dups1(op, t, p, q) == (t, 0)
  {
    var x := At(t, p);
    if x.Bin? {
      Dups1Correct(x.op, x, [], [], Env(_ => 0, (_, _) => 0));
    }
    PutSame(t, p);
  }

  /** A level of two stable operands that cannot be joined is stable. */
  lemma {:induction false} StablePair(op: Conn, x: Expr, y: Expr)
    requires !IsNode(op, x) && !IsNode(op, y) && Stable(x) && Stable(y)
    requires Join(op, x, y) == None && Join(op, y, x) == None
    ensures EliminateDups(Bin(op, x, y)) == Bin(op, x, y)
    ensures Stable(Bin(op, x, y))
  {
    var t := Bin(op, x, y);
    assert [L][1..] == [] && [R][1..] == [] && [] + [L] == [L] && [] + [R] == [R];
    assert At(t, [L]) == x && At(t, [R]) == y;
    PairQuiet(op, t, [L], [R]);
    PairQuiet(op, t, [R], [L]);
    assert Dups1(op, t, [L], []) == (t, 0);
    assert Dups1(op, t, [R], []) == (t, 0);
  }

  function ExampleDep(s: Symbol, q: Symbol, a: Symbol): Expr {
    Bin(And, Bin(Or, Sym(s), Sym(q)), Not(Sym(a)))
  }

  /** `(s || q) && !a` passes the superset test against the prompt condition `a=n`. */
  lemma ExamplePasses(s: Symbol, q: Symbol, a: Symbol)
    requires TypeOf(s) == Tristate && TypeOf(q) == Tristate && TypeOf(a) == Tristate
    requires s != q && s != a && q != a
    ensures Superset(Some(ExampleDep(s, q, a)), Some(Cmp(Equal, a, No)))
  {
    var sn, qn, an := Cmp(Unequal, s, No), Cmp(Unequal, q, No), Cmp(Equal, a, No);
    var c := Bin(And, Bin(Or, sn, qn), an);
    var inner := Bin(And, Cmp(Equal, s, No), Cmp(Equal, q, No));
    var body := Bin(Or, inner, Cmp(Unequal, a, No));
    assert TransCompare(Bin(Or, Sym(s), Sym(q)), false, No) == inner;
    assert TransCompare(Not(Sym(a)), false, No) == Cmp(Unequal, a, No);
    assert TransCompare(ExampleDep(s, q, a), true, No) == Not(body);
    assert Transform(inner) == inner && Transform(body) == body;
    assert Transform(Not(Cmp(Equal, s, No))) == sn && Transform(Not(Cmp(Equal, q, No))) == qn;
    assert Transform(Not(inner)) == Bin(Or, sn, qn);
    assert Transform(Not(Cmp(Unequal, a, No))) == an;
    assert Transform(Not(body)) == c;
    StablePair(Or, sn, qn);
    StablePair(And, Bin(Or, sn, qn), an);
    assert StrikeEq(And, Bin(Or, sn, qn), an) == (Bin(Or, sn, qn), an);
    assert StrikeEq(And, an, an) == (Sym(Yes), Sym(Yes));
    assert StrikeEq(And, c, an) == (Bin(And, Bin(Or, sn, qn), Sym(Yes)), Sym(Yes));
  }

  /**
    Without the condition on negated operands the superset rule fails: an entry depending on
    `(s || q) && !a` moves below a symbol s whose prompt depends on `a=n`, but with a=m and q=y
    the entry is visible and the prompt is not.
   */
  lemma SubmenuNeedsCondition(s: Symbol, q: Symbol, a: Symbol, v: Env)
    requires TypeOf(s) == Tristate && TypeOf(q) == Tristate && TypeOf(a) == Tristate
    requires s != q && s != a && q != a
    requires Proper(v) && v.tri(a) == 1 && v.tri(q) == 2
    ensures var dep, prompt := ExampleDep(s, q, a), Cmp(Equal, a, No);
            && Usable(Some(dep)) && Usable(Some(prompt)) && MovesUnder(Some(dep), s, Some(prompt))
            && !DependsSymbol(dep, s)
            && Val(dep, v) == 1 && Val(prompt, v) == 0 && !NoNegatedMod(dep, v)
  {
    ExamplePasses(s, q, a);
    var or := Bin(Or, Sym(s), Sym(q));
    assert !IsTri(a) && Not(Sym(a)).e == Sym(a);
    assert NumeralFree(Sym(a)) && TriOperands(Sym(a)) && Normal(Not(Sym(a)));
    assert Usable(Some(Sym(s))) && Usable(Some(Sym(q))) && Usable(Some(Not(Sym(a))));
    assert Usable(Some(or)) && ContainsSymbol(or, s);
    assert Val(Sym(a), v) == 1 && Val(Not(Sym(a)), v) == 1;
    assert Val(or, v) == 2 && v.cmp(a, No) != 0;
  }
}
