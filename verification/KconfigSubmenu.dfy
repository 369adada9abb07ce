/**
  Exactly when the superset rule of menu_finalize is sound: for which conditions of an entry it never
  moves the entry below a symbol whose prompt is invisible while the entry is visible.
 */
module KconfigSubmenu {
  import opened Common
  import opened KconfigExpr
  import opened KconfigEq
  import opened KconfigSlots
  import opened KconfigDups
  import opened KconfigTransform
  import opened KconfigMenu
  import opened KconfigEqExact
  import opened KconfigEqComplete

  // ---------------------------------------------------------------- the conditions that are compared

  /** A comparison that stays one, or a bool symbol or its negation. */
  predicate Leaf(e: Expr) {
    match e
    case Sym(a) => TypeOf(a) == Boolean
    case Cmp(_, _, _) => !BoolTest(e)
    case Not(x) => x.Sym? && TypeOf(x.sym) == Boolean
    case Bin(_, _, _) => false
  }

  /** Made of such operands: never m. */
  predicate Crisp(e: Expr) {
    if e.Bin? then Crisp(e.l) && Crisp(e.r) else Leaf(e)
  }

  /** The same with y and n among the operands. */
  predicate CrispYn(e: Expr) {
    if e.Bin? then CrispYn(e.l) && CrispYn(e.r) else Leaf(e) || IsYn(e)
  }

  lemma {:induction false} CrispFacts(e: Expr)
    requires Crisp(e)
    ensures Normal(e) && TriOperands(e) && ConstantFree(e) && CrispYn(e) && !IsYn(e)
  {
    if e.Bin? {
      CrispFacts(e.l);
      CrispFacts(e.r);
    }
  }

  lemma {:induction false} CrispAgain(e: Expr)
    requires CrispYn(e) && ConstantFree(e) && !IsYn(e)
    ensures Crisp(e)
  {
    if e.Bin? {
      CrispAgain(e.l);
      CrispAgain(e.r);
    }
  }

  /** De Morgan's law on normal operands. */
  lemma TransformNotBin(op: Conn, l: Expr, r: Expr)
    requires Normal(l) && Normal(r)
    ensures Transform(Not(Bin(op, l, r))) == Bin(Dual(op), Transform(Not(l)), Transform(Not(r)))
  {
    assert Normal(Bin(op, l, r));
    assert Transform(Bin(op, l, r)) == Bin(op, l, r);
  }

  lemma {:induction false} NotCrisp(e: Expr)
    requires Crisp(e)
    ensures Crisp(Transform(Not(e)))
  {
    CrispFacts(e);
    if e.Bin? {
      NotCrisp(e.l);
      NotCrisp(e.r);
      CrispFacts(e.l);
      CrispFacts(e.r);
      TransformNotBin(e.op, e.l, e.r);
    }
  }

  /** Transforming a negation only looks at the transformed operand. */
  lemma NotTransformed(e: Expr)
    ensures Transform(Not(e)) == Transform(Not(Transform(e)))
  {
    assert Transform(Transform(e)) == Transform(e);
  }

  /** The comparison with n of a normal form becomes crisp. */
  lemma {:induction false} MadeCrisp(e: Expr, neq: bool)
    requires Normal(e) && TriOperands(e)
    ensures Crisp(Transform(TransCompare(e, neq, No)))
  {
    match e
    case Sym(_) =>
    case Cmp(_, _, _) =>
    case Not(x) => assert x.Sym?;
    case Bin(op, l, r) =>
      MadeCrisp(l, false);
      MadeCrisp(r, false);
      var x, y := TransCompare(l, false, No), TransCompare(r, false, No);
      assert Transform(Bin(Dual(op), x, y)) == Bin(Dual(op), Transform(x), Transform(y));
      if neq {
        NotTransformed(Bin(Dual(op), x, y));
        NotCrisp(Transform(Bin(Dual(op), x, y)));
      }
  }

  /** Comparing a crisp expression with n and simplifying gives it back. */
  lemma {:induction false} CompareBack(e: Expr)
    requires Crisp(e)
    ensures Transform(Not(Transform(TransCompare(e, false, No)))) == e
    ensures Transform(TransCompare(e, true, No)) == e
  {
    if e.Bin? {
      CompareBack(e.l);
      CompareBack(e.r);
      var x, y := TransCompare(e.l, false, No), TransCompare(e.r, false, No);
      TransformNotBin(Dual(e.op), Transform(x), Transform(y));
      NotTransformed(Bin(Dual(e.op), x, y));
    } else if e.Not? {
      assert e.e.Sym?;
    }
  }

  // ---------------------------------------------------------------- passes keep them crisp

  lemma {:induction false} EliminateYnCrisp(e: Expr)
    requires CrispYn(e)
    ensures CrispYn(EliminateYn(e))
  {
    if e.Bin? {
      EliminateYnCrisp(e.l);
      EliminateYnCrisp(e.r);
    }
  }

  lemma JoinCrisp(op: Conn, e1: Expr, e2: Expr)
    requires CrispYn(e1) && CrispYn(e2) && Join(op, e1, e2).Some?
    ensures CrispYn(Join(op, e1, e2).value)
  {
  }

  lemma {:induction false} PutCrisp(t: Expr, p: Path, x: Expr)
    requires HasSlot(t, p) && CrispYn(t)
    ensures CrispYn(At(t, p)) && (CrispYn(x) ==> CrispYn(Put(t, p, x)))
  {
    if p != [] {
      PutCrisp(Child(t, p[0]), p[1..], x);
    }
  }

  lemma {:induction false} Dups1Crisp(op: Conn, t: Expr, p: Path, q: Path)
    requires InLevel(op, t, p) && InLevel(op, t, q) && CrispYn(t)
    ensures CrispYn(Dups1(op, t, p, q).0)
    decreases Nodes(t), LevelSize(op, At(t, p)) + LevelSize(op, At(t, q)), 1
  {
    if IsNode(op, At(t, p)) {
      InLevelStep(op, t, p, L);
      InLevelStep(op, t, p, R);
      var a := Dups1(op, t, p + [L], q);
      Dups1Crisp(op, t, p + [L], q);
      SameLevelSlot(op, t, a.0, p + [R]);
      SameLevelSlot(op, t, a.0, q);
      Dups1Crisp(op, a.0, p + [R], q);
    } else if IsNode(op, At(t, q)) {
      InLevelStep(op, t, q, L);
      InLevelStep(op, t, q, R);
      var a := Dups1(op, t, p, q + [L]);
      Dups1Crisp(op, t, p, q + [L]);
      SameLevelSlot(op, t, a.0, q + [R]);
      SameLevelSlot(op, t, a.0, p);
      Dups1Crisp(op, a.0, p, q + [R]);
    } else if p != q {
      Dups1OperandCrisp(op, t, p, q);
    }
  }

  lemma {:induction false} Dups1OperandCrisp(op: Conn, t: Expr, p: Path, q: Path)
    requires IsOperand(op, t, p) && IsOperand(op, t, q) && p != q && CrispYn(t)
    ensures CrispYn(Dups1(op, t, p, q).0)
    decreases Nodes(t), LevelSize(op, At(t, p)) + LevelSize(op, At(t, q)), 0
  {
    PutOther(op, t, p, q, Sym(No));
    PutOperand(op, t, p, Sym(No));
    PutCrisp(t, p, Sym(No));
    var e1 := At(t, p);
    var a := if e1.Bin? then Dups1(e1.op, e1, [], []) else (e1, 0);
    if e1.Bin? {
      Dups1Crisp(e1.op, e1, [], []);
    }
    var u := Put(t, p, a.0);
    PutCrisp(t, p, a.0);
    PutOther(op, t, p, q, a.0);
    PutOperand(op, t, p, a.0);
    if Join(op, a.0, At(u, q)).Some? {
      PutOther(op, u, p, q, Sym(Unit(op)));
      JoinedCrisp(op, u, p, q);
    }
  }

  lemma JoinedCrisp(op: Conn, u: Expr, p: Path, q: Path)
    requires IsOperand(op, u, p) && IsOperand(op, u, q) && p != q && CrispYn(u)
    requires Join(op, At(u, p), At(u, q)).Some? && HasSlot(Put(u, p, Sym(Unit(op))), q)
    ensures CrispYn(Put(Put(u, p, Sym(Unit(op))), q, Join(op, At(u, p), At(u, q)).value))
  {
    PutCrisp(u, p, Sym(Unit(op)));
    PutCrisp(u, q, Sym(No));
    JoinCrisp(op, At(u, p), At(u, q));
    PutCrisp(Put(u, p, Sym(Unit(op))), q, Join(op, At(u, p), At(u, q)).value);
  }

  lemma {:induction false} EliminateDupsCrisp(e: Expr)
    requires CrispYn(e) && ConstantFree(e)
    ensures CrispYn(EliminateDups(e)) && ConstantFree(EliminateDups(e))
    decreases Nodes(e)
  {
    if e.Bin? {
      var r := Dups1(e.op, e, [], []);
      Dups1Correct(e.op, e, [], [], Env(_ => 0, (_, _) => 0));
      if r.1 != 0 {
        Dups1Crisp(e.op, e, [], []);
        EliminateYnCrisp(r.0);
        EliminateYnComplete(r.0);
        ProductivePassShrinks(e);
        EliminateDupsCrisp(EliminateYn(r.0));
      }
    }
  }

  lemma StableFixed(e: Expr)
    requires Stable(e)
    ensures EliminateDups(e) == e
  {
    if e.Bin? {
      Dups1Correct(e.op, e, [], [], Env(_ => 0, (_, _) => 0));
    }
  }

  /** What the superset test compares: crisp, without y and n inside, and y or n only as a whole. */
  lemma NotNCrisp(d: Dep)
    requires Usable(d)
    ensures CrispYn(NotN(d)) && ConstantFree(NotN(d)) && Stable(NotN(d))
  {
    var e := if d.None? then Not(Sym(No)) else TransCompare(d.value, true, No);
    if d.Some? {
      MadeCrisp(d.value, true);
      CrispFacts(Transform(e));
    } else {
      assert Transform(e) == Sym(Yes);
    }
    EliminateDupsCrisp(Transform(e));
    EliminateDupsStable(Transform(e));
  }

  // ---------------------------------------------------------------- a conjunction is its own superset

  lemma {:induction false} BlankAnd(e: Expr)
    requires Crisp(e)
    ensures EliminateYn(Blank(And, e)) == Sym(Yes)
  {
    CrispFacts(e);
    if IsNode(And, e) {
      BlankAnd(e.l);
      BlankAnd(e.r);
    }
  }

  /** The condition `dep != n` of an entry, used as a prompt condition, passes the test if it is a conjunction. */
  lemma SelfSuperset(dep: Expr)
    requires Usable(Some(dep)) && IsNode(And, NotN(Some(dep)))
    ensures var d := NotN(Some(dep)); Usable(Some(d)) && Superset(Some(dep), Some(d))
  {
    var d := NotN(Some(dep));
    NotNCrisp(Some(dep));
    CrispAgain(d);
    CrispFacts(d);
    TransCompareNumerals(dep, true);
    TransformNumerals(TransCompare(dep, true, No));
    EliminateDupsCorrect(Transform(TransCompare(dep, true, No)));
    CompareBack(d);
    StableFixed(d);
    assert NotN(Some(d)) == d;
    forall x: Expr
      ensures Eq(x, x)
    {
      EqReflexive(x);
    }
    StrikeCopy(And, d, []);
    assert StrikeEq(And, d, d) == (Blank(And, d), Blank(And, d));
    BlankAnd(d);
  }

  // ---------------------------------------------------------------- anything else has only trivial supersets

  /** One operand strikes at most one. */
  lemma {:induction false} StrikeOnce(x: Expr, e: Expr)
    requires !IsNode(And, x)
    ensures StrikeEq(And, x, e) == (x, e) || StrikeEq(And, x, e).0 == Sym(Yes)
    decreases e
  {
    if IsNode(And, e) {
      StrikeOnce(x, e.l);
      var a := StrikeEq(And, x, e.l);
      if a == (x, e.l) {
        StrikeOnce(x, e.r);
      } else {
        YnQuiet(And, Sym(Yes), e.r);
      }
    }
  }

  lemma {:induction false} YnGone(e: Expr)
    requires ConstantFree(e)
    ensures EliminateYn(e) == e
  {
    if e.Bin? {
      YnGone(e.l);
      YnGone(e.r);
    }
  }

  /** So a conjunction is not used up by a single operand. */
  lemma StrikeLeaves(x: Expr, e: Expr)
    requires !IsNode(And, x) && IsNode(And, e) && ConstantFree(e)
    ensures EliminateYn(StrikeEq(And, x, e).1) != Sym(Yes)
  {
    var a := StrikeEq(And, x, e.l);
    YnGone(e.l);
    YnGone(e.r);
    StrikeOnce(x, e.l);
    if a == (x, e.l) {
      assert StrikeEq(And, x, e).1.l == e.l;
    } else {
      YnQuiet(And, Sym(Yes), e.r);
      assert StrikeEq(And, x, e).1.r == e.r;
    }
  }

  /** At an OR level an operand stays or becomes n. */
  lemma {:induction false} StrikeOr(d: Expr, n: Expr)
    requires !IsNode(Or, n)
    ensures StrikeEq(Or, d, n).1 == n || StrikeEq(Or, d, n).1 == Sym(No)
    decreases d
  {
    if IsNode(Or, d) {
      StrikeOr(d.l, n);
      StrikeOr(d.r, StrikeEq(Or, d.l, n).1);
    }
  }

  /** If the first side is no conjunction, only a second side that is always y is used up. */
  lemma OnlyTrivial(d: Expr, n: Expr, v: Env)
    requires Proper(v) && !IsNode(And, d) && ConstantFree(n) && EliminateEq(d, n).1 == Sym(Yes)
    ensures Val(n, v) == 2
  {
    var p := if d.Bin? then StrikeEq(d.op, d, n) else (d, n);
    if d.Bin? && !IsNode(Or, n) {
      StrikeOr(d, n);
    }
    if IsNode(And, p.1) {
      StrikeLeaves(p.0, p.1);
    } else if p.1.Bin? && !IsNode(p.1.op, p.0) {
      EliminateYnValue(StrikeEq(Or, p.0, p.1).1, v);
      var c := StrikeEqFactor(Or, p.0, p.1, v);
    } else {
      EliminateYnValue(p.1, v);
      if d.Bin? {
        var c := StrikeEqFactor(Or, d, n, v);
      }
    }
  }

  // ---------------------------------------------------------------- the exact condition

  /** Whatever the prompt of s, an entry moved below s by the superset rule is visible only if the prompt is. */
  ghost predicate RuleSound(dep: Expr, s: Symbol) {
    forall prompt, v :: Proper(v) && Usable(prompt) && MovesUnder(Some(dep), s, prompt) && Val(dep, v) != 0 ==>
      DepVal(prompt, v) != 0
  }

  /** Wherever the condition is not n, it is not strictly n. */
  ghost predicate NeverByNegatedMod(dep: Expr) {
    forall v :: Proper(v) && Val(dep, v) != 0 ==> Strict(dep, v) != 0
  }

  /**
    The superset rule is sound for an entry if and only if the entry's condition is nowhere visible by
    a negated m alone, or `condition != n` does not simplify to a conjunction; in the latter case only
    prompts that are always visible pass the test.
   */
  lemma SupersetExact(dep: Expr, s: Symbol)
    requires Usable(Some(dep)) && ContainsSymbol(dep, s) && !DependsSymbol(dep, s)
    ensures RuleSound(dep, s) <==> (NeverByNegatedMod(dep) || !IsNode(And, NotN(Some(dep))))
  {
    var d := NotN(Some(dep));
    if !IsNode(And, d) || NeverByNegatedMod(dep) {
      forall prompt, v | Proper(v) && Usable(prompt) && MovesUnder(Some(dep), s, prompt) && Val(dep, v) != 0
        ensures DepVal(prompt, v) != 0
      {
        if IsNode(And, d) {
          SupersetStrict(dep, prompt, v);
        } else {
          TrivialPrompt(dep, prompt, v);
        }
      }
    } else {
      var v :| Proper(v) && Val(dep, v) != 0 && Strict(dep, v) == 0;
      SelfSuperset(dep);
      NotNValue(Some(dep), v);
      TransCompareStrict(dep, v);
      assert MovesUnder(Some(dep), s, Some(d)) && DepVal(Some(d), v) == 0;
    }
  }

  lemma TrivialPrompt(dep: Expr, prompt: Dep, v: Env)
    requires Proper(v) && Usable(Some(dep)) && Usable(prompt) && Superset(Some(dep), prompt)
    requires !IsNode(And, NotN(Some(dep)))
    ensures DepVal(prompt, v) != 0
  {
    NotNCrisp(prompt);
    OnlyTrivial(NotN(Some(dep)), NotN(prompt), v);
    NotNValue(prompt, v);
    if prompt.Some? {
      TransCompareSafe(prompt.value, v);
    }
  }

  /** `s || !a` is visible by a negated m alone, and yet the rule is sound for it: its test is no conjunction. */
  lemma DisjunctionHarmless(s: Symbol, a: Symbol)
    requires TypeOf(s) == Tristate && TypeOf(a) == Tristate && s != a
    ensures var dep := Bin(Or, Sym(s), Not(Sym(a))); RuleSound(dep, s) && !NeverByNegatedMod(dep)
  {
    var dep := Bin(Or, Sym(s), Not(Sym(a)));
    var sn, an := Cmp(Unequal, s, No), Cmp(Equal, a, No);
    var body := Bin(And, Cmp(Equal, s, No), Cmp(Unequal, a, No));
    assert TransCompare(Not(Sym(a)), false, No) == Cmp(Unequal, a, No);
    assert TransCompare(dep, true, No) == Not(body);
    assert Transform(Not(Cmp(Equal, s, No))) == sn && Transform(Not(Cmp(Unequal, a, No))) == an;
    TransformNotBin(And, Cmp(Equal, s, No), Cmp(Unequal, a, No));
    StablePair(Or, sn, an);
    assert NotN(Some(dep)) == Bin(Or, sn, an);
    assert Usable(Some(dep)) by {
      assert Normal(Sym(s)) && NumeralFree(Sym(s)) && TriOperands(Sym(s)) && NumeralFree(Sym(a)) && TriOperands(Sym(a));
      assert Normal(Not(Sym(a))) && NumeralFree(Not(Sym(a))) && TriOperands(Not(Sym(a)));
    }
    SupersetExact(dep, s);
    HoldingProper(a, 1);
    var v := Holding(a, 1);
    assert Val(Not(Sym(a)), v) == 1 && Val(Sym(s), v) == 0;
    assert Val(dep, v) == 1 && Strict(dep, v) == 0;
  }

  /**
    What the superset test decides: the condition of the entry is made into a conjunction that has every
    operand of the prompt's condition, as often, up to order and grouping.
   */
  lemma SupersetMeans(dep: Dep, prompt: Dep)
    requires Usable(dep) && Usable(prompt) && dep.Some? && prompt.Some?
    requires !IsYn(NotN(dep)) && !IsYn(NotN(prompt))
    ensures Superset(dep, prompt) <==>
              IsNode(And, NotN(dep)) && Parts(And, NotN(prompt)) <= Parts(And, NotN(dep))
  {
    NotNPlain(dep);
    NotNPlain(prompt);
    SupersetOperands(NotN(dep), NotN(prompt));
  }

  lemma NotNPlain(d: Dep)
    requires Usable(d) && d.Some? && !IsYn(NotN(d))
    ensures NoYn(NotN(d))
  {
    NotNCrisp(d);
    CrispAgain(NotN(d));
    CrispFacts(NotN(d));
    NormalNoYn(NotN(d));
  }
}
