/**
  Removal of redundant operands: expr_join_or, expr_join_and, expr_eliminate_dups1 and
  expr_eliminate_dups of expr.c.
 */
module KconfigDups {
  import opened Common
  import opened KconfigExpr
  import opened KconfigEq
  import opened KconfigSlots

  predicate IsEq(e: Expr, s: Symbol) { e.Cmp? && e.cmp == Equal && e.rhs == s }

  predicate IsNe(e: Expr, s: Symbol) { e.Cmp? && e.cmp == Unequal && e.rhs == s }

  /** The symbol the first operand of a join is about, if it has a joinable shape. */
  function FirstSubject(e: Expr): Option<Symbol> {
    match e
    case Sym(s) => Some(s)
    case Cmp(op, s, _) => if op == Equal || op == Unequal then Some(s) else None
    case Not(x) =>
      if x.Sym? then Some(x.sym)
      else if x.Cmp? && (x.cmp == Equal || x.cmp == Unequal) then Some(x.lhs)
      else None
    case Bin(_, _, _) => None
  }

  /** The same for the second operand, where a negation may only cover a symbol. */
  function SecondSubject(e: Expr): Option<Symbol> {
    if e.Not? && !e.e.Sym? then None else FirstSubject(e)
  }

  /** The symbol both operands are about, provided it is bool or tristate. */
  function Subject(e1: Expr, e2: Expr): Option<Symbol> {
    var s := FirstSubject(e1);
    if s.Some? && s == SecondSubject(e2) && (TypeOf(s.value) == Boolean || TypeOf(s.value) == Tristate)
    then s else None
  }

  /** The two operands compare equal with x and y, in either order. */
  predicate EqPair(e1: Expr, e2: Expr, x: Symbol, y: Symbol) {
    (IsEq(e1, x) && IsEq(e2, y)) || (IsEq(e1, y) && IsEq(e2, x))
  }

  predicate NePair(e1: Expr, e2: Expr, x: Symbol, y: Symbol) {
    (IsNe(e1, x) && IsNe(e2, y)) || (IsNe(e1, y) && IsNe(e2, x))
  }

  function JoinOr(e1: Expr, e2: Expr): Option<Expr> {
    var s := Subject(e1, e2);
    if s.None? then None
    else if TypeOf(s.value) == Tristate then
      if EqPair(e1, e2, Yes, Mod) then Some(Cmp(Unequal, s.value, No))
      else if EqPair(e1, e2, Yes, No) then Some(Cmp(Unequal, s.value, Mod))
      else if EqPair(e1, e2, Mod, No) then Some(Cmp(Unequal, s.value, Yes))
      else None
    else if (e1.Not? && e1.e.Sym? && e2.Sym?) || (e2.Not? && e2.e.Sym? && e1.Sym?) then Some(Sym(Yes))
    else None
  }

  function JoinAnd(e1: Expr, e2: Expr): Option<Expr> {
    var s := Subject(e1, e2);
    if s.None? then None
    else
      var a := s.value;
      if (e1.Sym? && IsEq(e2, Yes)) || (e2.Sym? && IsEq(e1, Yes)) then Some(Cmp(Equal, a, Yes))
      else if (e1.Sym? && IsNe(e2, No)) || (e2.Sym? && IsNe(e1, No)) then Some(Sym(a))
      else if (e1.Sym? && IsNe(e2, Mod)) || (e2.Sym? && IsNe(e1, Mod)) then Some(Cmp(Equal, a, Yes))
      else if TypeOf(a) != Tristate then None
      else if e1.Cmp? && e2.Cmp? && e1.cmp == Equal && e2.cmp == Unequal
              && IsConst(e1.rhs) && IsConst(e2.rhs) then
        Some(if e1.rhs != e2.rhs then Cmp(Equal, a, e1.rhs) else Sym(No))
      else if e1.Cmp? && e2.Cmp? && e1.cmp == Unequal && e2.cmp == Equal
              && IsConst(e1.rhs) && IsConst(e2.rhs) then
        Some(if e1.rhs != e2.rhs then Cmp(Equal, a, e2.rhs) else Sym(No))
      else if NePair(e1, e2, Yes, No) then Some(Cmp(Equal, a, Mod))
      else if NePair(e1, e2, Yes, Mod) then Some(Cmp(Equal, a, No))
      else if NePair(e1, e2, Mod, No) then Some(Cmp(Equal, a, Yes))
      else None
  }

  /** expr_join_or and expr_join_and: one operand that can stand for both, if there is one. */
  function Join(op: Conn, e1: Expr, e2: Expr): Option<Expr> {
    if Eq(e1, e2) then Some(e1)
    else if op == Or then JoinOr(e1, e2)
    else JoinAnd(e1, e2)
  }

  /** A constant whose text is a numeral for one of the tristate values, such as "0". */
  predicate TriNumeral(s: Symbol) {
    s.Constant? && s.reading.Some? && 0 <= s.reading.value <= 2
  }

  /** No tristate symbol is tested for (in)equality with such a numeral. */
  predicate NumeralFree(e: Expr) {
    match e
    case Sym(_) => true
    case Cmp(op, a, c) => TypeOf(a) == Tristate && (op == Equal || op == Unequal) ==> !TriNumeral(c)
    case Not(x) => NumeralFree(x)
    case Bin(_, l, r) => NumeralFree(l) && NumeralFree(r)
  }

  /** No tristate symbol tested for (in)equality with such a numeral has the value it reads as. */
  predicate Unread(e: Expr, v: Env) {
    match e
    case Sym(_) => true
    case Cmp(op, a, c) =>
      TypeOf(a) == Tristate && (op == Equal || op == Unequal) && TriNumeral(c) ==> v.tri(a) != c.reading.value
    case Not(x) => Unread(x, v)
    case Bin(_, l, r) => Unread(l, v) && Unread(r, v)
  }

  lemma {:induction false} NumeralFreeUnread(e: Expr, v: Env)
    requires NumeralFree(e)
    ensures Unread(e, v)
  {
    match e
    case Sym(_) =>
    case Cmp(_, _, _) =>
    case Not(x) => NumeralFreeUnread(x, v);
    case Bin(_, l, r) =>
      NumeralFreeUnread(l, v);
      NumeralFreeUnread(r, v);
  }

  /** An expression that is unread everywhere has no such numeral. */
  lemma {:induction false} UnreadNumeralFree(e: Expr)
    requires forall v :: Unread(e, v)
    ensures NumeralFree(e)
  {
    match e
    case Sym(_) =>
    case Cmp(_, a, c) =>
      if TriNumeral(c) {
        assert Unread(e, Holding(a, c.reading.value));
      }
    case Not(x) =>
      forall v
        ensures Unread(x, v)
      {
        assert Unread(e, v);
      }
      UnreadNumeralFree(x);
    case Bin(_, l, r) =>
      forall v
        ensures Unread(l, v) && Unread(r, v)
      {
        assert Unread(e, v);
      }
      UnreadNumeralFree(l);
      UnreadNumeralFree(r);
  }

  /**
    The rule `(a=b) && (a!=c) -> a=b` of expr_join_and for distinct constants b and c is right
    exactly when the two constants do not read as the same tristate value: with c the constant
    "0" it turns `A=n && A!=0`, which is always n, into `A=n`.
   */
  lemma ConstantRuleExact(a: Symbol, b: Symbol, c: Symbol)
    requires TypeOf(a) == Tristate && IsConst(b) && IsConst(c) && b != c
    ensures JoinAnd(Cmp(Equal, a, b), Cmp(Unequal, a, c)) == Some(Cmp(Equal, a, b))
    ensures SameMeaning(Bin(And, Cmp(Equal, a, b), Cmp(Unequal, a, c)), Cmp(Equal, a, b))
       <==> !(Reading(b) == Reading(c) && Reading(b).Some? && 0 <= Reading(b).value <= 2)
  {
    if Reading(b) == Reading(c) && Reading(b).Some? && 0 <= Reading(b).value <= 2 {
      var v := Holding(a, Reading(b).value);
      HoldingProper(a, Reading(b).value);
      assert Val(Bin(And, Cmp(Equal, a, b), Cmp(Unequal, a, c)), v) == 0 && Val(Cmp(Equal, a, b), v) == 2;
    } else {
      forall v | Proper(v)
        ensures Val(Bin(And, Cmp(Equal, a, b), Cmp(Unequal, a, c)), v) == Val(Cmp(Equal, a, b), v)
      {
        assert v.cmp(a, b) == 0 <==> Reading(b) == Some(v.tri(a));
        assert v.cmp(a, c) == 0 <==> Reading(c) == Some(v.tri(a));
      }
    }
  }

  /** The valuation where a has value k and every other configuration symbol is n. */
  function HoldingTri(a: Symbol, k: Tri, s: Symbol): Tri {
    if s == a then k else if s == Yes then 2 else if s == Mod then 1 else 0
  }

  function Holding(a: Symbol, k: Tri): Env {
    Env(s => HoldingTri(a, k, s),
        (s, c) => if IsTri(s) && IsTri(c) then (if s == c then 0 else 1)
                  else if IsConst(c) && Reading(c) == Some(HoldingTri(a, k, s)) then 0 else 1)
  }

  lemma HoldingProper(a: Symbol, k: Tri)
    requires TypeOf(a) == Tristate
    ensures Proper(Holding(a, k))
  {}

  lemma {:induction false} JoinOrSound(e1: Expr, e2: Expr, v: Env)
    requires Proper(v) && JoinOr(e1, e2).Some?
    ensures Val(JoinOr(e1, e2).value, v) == Apply(Or, Val(e1, v), Val(e2, v))
  {
  }

  lemma {:induction false} JoinAndSound(e1: Expr, e2: Expr, v: Env)
    requires Proper(v) && JoinAnd(e1, e2).Some? && Unread(e1, v) && Unread(e2, v)
    ensures Val(JoinAnd(e1, e2).value, v) == Apply(And, Val(e1, v), Val(e2, v))
  {
  }

  lemma {:induction false} JoinSound(op: Conn, e1: Expr, e2: Expr, v: Env)
    requires Proper(v) && Join(op, e1, e2).Some? && Unread(e1, v) && Unread(e2, v)
    ensures Apply(op, v.tri(Unit(op)), Val(Join(op, e1, e2).value, v)) == Apply(op, Val(e1, v), Val(e2, v))
  {
    if Eq(e1, e2) {
      EqSound(e1, e2, v);
    } else if op == Or {
      JoinOrSound(e1, e2, v);
    } else {
      JoinAndSound(e1, e2, v);
    }
  }

  lemma {:induction false} JoinShape(op: Conn, e1: Expr, e2: Expr)
    requires Join(op, e1, e2).Some? && !IsNode(op, e1)
    ensures var t := Join(op, e1, e2).value;
            && !IsNode(op, t)
            && 1 + Nodes(t) <= Nodes(e1) + Nodes(e2)
            && (Normal(e1) && Normal(e2) ==> Normal(t))
  {
  }

  lemma JoinUnread(op: Conn, e1: Expr, e2: Expr, v: Env)
    requires Join(op, e1, e2).Some? && Unread(e1, v) && Unread(e2, v)
    ensures Unread(Join(op, e1, e2).value, v)
  {
  }

  /**
    expr_eliminate_dups1 on one tree: t is the tree both slots point into, p and q are the
    slots, and the result is the rewritten tree with the number of joins made.
   */
  function Dups1(op: Conn, t: Expr, p: Path, q: Path): (r: (Expr, nat))
    requires InLevel(op, t, p) && InLevel(op, t, q)
    ensures SameLevel(op, t, r.0) && Nodes(r.0) <= Nodes(t)
    decreases Nodes(t), LevelSize(op, At(t, p)) + LevelSize(op, At(t, q))
  {
    if IsNode(op, At(t, p)) then
      InLevelStep(op, t, p, L);
      InLevelStep(op, t, p, R);
      var a := Dups1(op, t, p + [L], q);
      SameLevelSlot(op, t, a.0, p + [R]);
      SameLevelSlot(op, t, a.0, q);
      var b := Dups1(op, a.0, p + [R], q);
      SameLevelTrans(op, t, a.0, b.0);
      (b.0, a.1 + b.1)
    else if IsNode(op, At(t, q)) then
      InLevelStep(op, t, q, L);
      InLevelStep(op, t, q, R);
      var a := Dups1(op, t, p, q + [L]);
      SameLevelSlot(op, t, a.0, q + [R]);
      SameLevelSlot(op, t, a.0, p);
      var b := Dups1(op, a.0, p, q + [R]);
      SameLevelTrans(op, t, a.0, b.0);
      (b.0, a.1 + b.1)
    else if p == q then
      SameLevelRefl(op, t);
      (t, 0)
    else
      PutOther(op, t, p, q, Sym(No));
      PutOperand(op, t, p, Sym(No));
      var e1 := At(t, p);
      var a := if e1.Bin? then Dups1(e1.op, e1, [], []) else (e1, 0);
      PutOperand(op, t, p, a.0);
      PutOther(op, t, p, q, a.0);
      var u := Put(t, p, a.0);
      var tmp := Join(op, a.0, At(u, q));
      if tmp.None? then (u, a.1)
      else
        JoinShape(op, a.0, At(u, q));
        PutOperand(op, u, p, Sym(Unit(op)));
        PutOther(op, u, p, q, Sym(Unit(op)));
        var w := Put(u, p, Sym(Unit(op)));
        PutOperand(op, w, q, tmp.value);
        SameLevelTrans(op, t, u, w);
        SameLevelTrans(op, t, w, Put(w, q, tmp.value));
        (Put(w, q, tmp.value), a.1 + 1)
  }

  lemma {:induction false} PutClean(t: Expr, p: Path, x: Expr, v: Env)
    requires HasSlot(t, p)
    ensures Unread(t, v) ==> Unread(At(t, p), v) && (Unread(x, v) ==> Unread(Put(t, p, x), v))
    ensures Normal(t) ==> Normal(At(t, p)) && (Normal(x) ==> Normal(Put(t, p, x)))
  {
    if p != [] {
      PutClean(Child(t, p[0]), p[1..], x, v);
    }
  }

  /** Joining two distinct operands. */
  lemma {:induction false} Dups1Join(op: Conn, t: Expr, p: Path, q: Path, v: Env)
    requires IsOperand(op, t, p) && IsOperand(op, t, q) && p != q
    requires var tmp := Join(op, At(t, p), At(t, q));
             tmp.Some? && HasSlot(Put(t, p, Sym(Unit(op))), q)
    ensures var r := Put(Put(t, p, Sym(Unit(op))), q, Join(op, At(t, p), At(t, q)).value);
            && (Proper(v) && Unread(t, v) ==> Val(r, v) == Val(t, v))
            && (Unread(t, v) ==> Unread(r, v)) && (Normal(t) ==> Normal(r))
            && HasUnit(r)
  {
    var u := Sym(Unit(op));
    var tmp := Join(op, At(t, p), At(t, q)).value;
    JoinShape(op, At(t, p), At(t, q));
    PutClean(t, p, u, v);
    PutClean(t, q, u, v);
    PutClean(Put(t, p, u), q, tmp, v);
    if Unread(t, v) {
      JoinUnread(op, At(t, p), At(t, q), v);
    }
    if Proper(v) && Unread(t, v) {
      JoinSound(op, At(t, p), At(t, q), v);
      PutTwoValue(op, t, p, q, u, tmp, v);
    }
    PutTwoUnit(op, t, p, q, tmp);
  }

  /** What a pass over t with the tree and join count r has to satisfy. */
  ghost predicate PassOk(t: Expr, r: (Expr, nat), v: Env) {
    && (Proper(v) && Unread(t, v) ==> Val(r.0, v) == Val(t, v))
    && (Unread(t, v) ==> Unread(r.0, v)) && (Normal(t) ==> Normal(r.0))
    && (r.1 == 0 ==> r.0 == t)
    && (r.1 > 0 ==> HasUnit(r.0))
  }

  /**
    One pass keeps the meaning although it rewrites a tree against itself, changes nothing
    unless it counts a join, and after a join leaves a unit behind.
   */
  lemma {:induction false} Dups1Correct(op: Conn, t: Expr, p: Path, q: Path, v: Env)
    requires InLevel(op, t, p) && InLevel(op, t, q)
    ensures PassOk(t, Dups1(op, t, p, q), v)
    decreases Nodes(t), LevelSize(op, At(t, p)) + LevelSize(op, At(t, q)), 1
  {
    if IsNode(op, At(t, p)) {
      InLevelStep(op, t, p, L);
      InLevelStep(op, t, p, R);
      var a := Dups1(op, t, p + [L], q);
      Dups1Correct(op, t, p + [L], q, v);
      SameLevelSlot(op, t, a.0, p + [R]);
      SameLevelSlot(op, t, a.0, q);
      Dups1Correct(op, a.0, p + [R], q, v);
    } else if IsNode(op, At(t, q)) {
      InLevelStep(op, t, q, L);
      InLevelStep(op, t, q, R);
      var a := Dups1(op, t, p, q + [L]);
      Dups1Correct(op, t, p, q + [L], v);
      SameLevelSlot(op, t, a.0, q + [R]);
      SameLevelSlot(op, t, a.0, p);
      Dups1Correct(op, a.0, p, q + [R], v);
    } else if p != q {
      Dups1OperandCorrect(op, t, p, q, v);
    }
  }

  lemma {:induction false} Dups1OperandCorrect(op: Conn, t: Expr, p: Path, q: Path, v: Env)
    requires IsOperand(op, t, p) && IsOperand(op, t, q) && p != q
    ensures PassOk(t, Dups1(op, t, p, q), v)
    decreases Nodes(t), LevelSize(op, At(t, p)) + LevelSize(op, At(t, q)), 0
  {
    PutOther(op, t, p, q, Sym(No));
    PutOperand(op, t, p, Sym(No));
    PutClean(t, p, Sym(No), v);
    var e1 := At(t, p);
    var a := if e1.Bin? then Dups1(e1.op, e1, [], []) else (e1, 0);
    var u := Put(t, p, a.0);
    PutOther(op, t, p, q, a.0);
    assert PassOk(t, (u, a.1), v) by {
      if e1.Bin? {
        Dups1Correct(e1.op, e1, [], [], v);
      }
      PutClean(t, p, a.0, v);
      if Proper(v) && Unread(t, v) {
        PutCongruence(t, p, a.0, v);
      }
      PutSame(t, p);
      if a.1 > 0 {
        PutKeepsUnit(op, t, p, a.0);
      }
    }
    PutOperand(op, t, p, a.0);
    if Join(op, a.0, At(u, q)).Some? {
      PutOther(op, u, p, q, Sym(Unit(op)));
      Dups1Join(op, u, p, q, v);
    }
  }

  /** The loop of expr_eliminate_dups terminates: a pass that joins anything lowers the node count. */
  lemma {:induction false} ProductivePassShrinks(e: Expr)
    requires e.Bin? && Dups1(e.op, e, [], []).1 > 0
    ensures Nodes(EliminateYn(Dups1(e.op, e, [], []).0)) < Nodes(e)
  {
    Dups1Correct(e.op, e, [], [], Env(_ => 0, (_, _) => 0));
    EliminateYnShrinks(Dups1(e.op, e, [], []).0);
  }

  /** expr_eliminate_dups: passes until one makes no join. */
  function EliminateDups(e: Expr): Expr
    decreases Nodes(e)
  {
    if !e.Bin? then e
    else
      var r := Dups1(e.op, e, [], []);
      if r.1 == 0 then r.0
      else
        ProductivePassShrinks(e);
        EliminateDups(EliminateYn(r.0))
  }

  lemma {:induction false} EliminateYnClean(e: Expr, v: Env)
    ensures Unread(e, v) ==> Unread(EliminateYn(e), v)
    ensures Normal(e) ==> Normal(EliminateYn(e))
  {
    if e.Bin? {
      EliminateYnClean(e.l, v);
      EliminateYnClean(e.r, v);
    }
  }

  /**
    The deduplicated expression has the value of the original under every valuation in which no tristate
    symbol has the value of a numeral it is compared with.
   */
  lemma {:induction false} EliminateDupsValue(e: Expr, v: Env)
    requires Unread(e, v)
    ensures Proper(v) ==> Val(EliminateDups(e), v) == Val(e, v)
    ensures Unread(EliminateDups(e), v) && (Normal(e) ==> Normal(EliminateDups(e)))
    decreases Nodes(e)
  {
    if e.Bin? {
      var r := Dups1(e.op, e, [], []);
      Dups1Correct(e.op, e, [], [], v);
      if r.1 != 0 {
        ProductivePassShrinks(e);
        EliminateYnClean(r.0, v);
        if Proper(v) {
          EliminateYnValue(r.0, v);
        }
        EliminateDupsValue(EliminateYn(r.0), v);
      }
    }
  }

  /** So an expression without such numerals keeps its meaning. */
  lemma EliminateDupsCorrect(e: Expr)
    requires NumeralFree(e)
    ensures SameMeaning(e, EliminateDups(e))
    ensures NumeralFree(EliminateDups(e)) && (Normal(e) ==> Normal(EliminateDups(e)))
  {
    forall v
      ensures Unread(EliminateDups(e), v) && (Normal(e) ==> Normal(EliminateDups(e)))
      ensures Proper(v) ==> Val(EliminateDups(e), v) == Val(e, v)
    {
      NumeralFreeUnread(e, v);
      EliminateDupsValue(e, v);
    }
    assert Unread(EliminateDups(e), Env(_ => 0, (_, _) => 0));
    UnreadNumeralFree(EliminateDups(e));
  }

  /** `A=n && A!=0`, which is always n, is simplified to `A=n`; so for every numeral c and the b it reads as. */
  lemma NumeralFails(a: Symbol, b: Symbol, c: Symbol)
    requires TypeOf(a) == Tristate && TriNumeral(c) && IsTri(b) && Reading(b) == Reading(c)
    ensures var e := Bin(And, Cmp(Equal, a, b), Cmp(Unequal, a, c));
            EliminateDups(e) == Cmp(Equal, a, b) && !SameMeaning(e, EliminateDups(e))
  {
    var x, y := Cmp(Equal, a, b), Cmp(Unequal, a, c);
    var t, u := Bin(And, x, y), Bin(And, Sym(Yes), x);
    assert JoinAnd(x, y) == Some(x) && !Eq(x, y);
    PairJoined(x, y, x);
    PairDone(Sym(Yes), x);
    PairSlots(And, x, y, x);
    PairSlots(And, Sym(Yes), x, x);
    AgainstLevel(And, t, [L], t, u);
    AgainstLevel(And, u, [R], u, u);
    WholePass(t, u);
    ConstantRuleExact(a, b, c);
  }

  /** (In)equality tests of tristate symbols use no constants other than y, m, n and those of cs. */
  predicate Only(e: Expr, cs: iset<Symbol>) {
    match e
    case Sym(_) => true
    case Cmp(op, a, c) =>
      TypeOf(a) == Tristate && (op == Equal || op == Unequal) && IsConst(c) ==> IsTri(c) || c in cs
    case Not(x) => Only(x, cs)
    case Bin(_, l, r) => Only(l, cs) && Only(r, cs)
  }

  lemma {:induction false} OnlyNumeralFree(e: Expr, cs: iset<Symbol>)
    requires Only(e, cs) && forall c :: c in cs ==> !TriNumeral(c)
    ensures NumeralFree(e)
  {
    match e
    case Sym(_) =>
    case Cmp(_, _, _) =>
    case Not(x) => OnlyNumeralFree(x, cs);
    case Bin(_, l, r) =>
      OnlyNumeralFree(l, cs);
      OnlyNumeralFree(r, cs);
  }

  /**
    Whatever constants the expressions may compare tristate symbols with besides y, m and n: all of them
    keep their meaning exactly if none of the constants is a numeral for a tristate value.
   */
  lemma EliminateDupsExact(cs: iset<Symbol>)
    ensures (forall e :: Only(e, cs) ==> SameMeaning(e, EliminateDups(e))) <==> (forall c :: c in cs ==> !TriNumeral(c))
  {
    if forall c :: c in cs ==> !TriNumeral(c) {
      forall e | Only(e, cs)
        ensures SameMeaning(e, EliminateDups(e))
      {
        OnlyNumeralFree(e, cs);
        EliminateDupsCorrect(e);
      }
    } else {
      var c :| c in cs && TriNumeral(c);
      var k := c.reading.value;
      var a, b := Config(0, Tristate), if k == 2 then Yes else if k == 1 then Mod else No;
      NumeralFails(a, b, c);
      assert Only(Cmp(Equal, a, b), cs) && Only(Cmp(Unequal, a, c), cs);
      assert Only(Bin(And, Cmp(Equal, a, b), Cmp(Unequal, a, c)), cs);
    }
  }

  /** An operand against a whole level is the operand against its two halves. */
  lemma AgainstLevel(op: Conn, t: Expr, p: Path, t1: Expr, t2: Expr)
    requires IsNode(op, t) && IsNode(op, t1) && IsOperand(op, t, p) && IsOperand(op, t1, p)
    requires InLevel(op, t, [L]) && InLevel(op, t1, [R])
    requires Dups1(op, t, p, [L]).0 == t1 && Dups1(op, t1, p, [R]).0 == t2
    ensures InLevel(op, t, [])
    ensures Dups1(op, t, p, []) == (t2, Dups1(op, t, p, [L]).1 + Dups1(op, t1, p, [R]).1)
  {
    assert [] + [L] == [L] && [] + [R] == [R];
  }

  /** A pass over the pair that makes one join, from the first operand, and what is left after it. */
  lemma WholePass(t: Expr, u: Expr)
    requires IsNode(And, t) && IsNode(And, u) && t.l.Cmp? && InLevel(And, t, [L]) && InLevel(And, u, [R])
    requires InLevel(And, t, []) && InLevel(And, u, [])
    requires Dups1(And, t, [L], []) == (u, 1) && Dups1(And, u, [R], []) == (u, 0)
    requires u.l == Sym(Yes) && u.r.Cmp?
    ensures EliminateDups(t) == u.r
  {
    assert [] + [L] == [L] && [] + [R] == [R];
    assert Dups1(And, t, [], []) == (u, 1);
    assert EliminateYn(u) == u.r;
  }

  lemma PairSlots(op: Conn, l: Expr, r: Expr, x: Expr)
    ensures At(Bin(op, l, r), [L]) == l && At(Bin(op, l, r), [R]) == r
    ensures Put(Bin(op, l, r), [L], x) == Bin(op, x, r) && Put(Bin(op, l, r), [R], x) == Bin(op, l, x)
    ensures IsOperand(op, Bin(op, l, r), [L]) <==> !IsNode(op, l)
    ensures IsOperand(op, Bin(op, l, r), [R]) <==> !IsNode(op, r)
    ensures InLevel(op, Bin(op, l, r), [L]) && InLevel(op, Bin(op, l, r), [R])
  {
    assert [L][0] == L && [R][0] == R && [L][1..] == [] && [R][1..] == [];
    var t := Bin(op, l, r);
    assert At(t, [L]) == At(Child(t, L), []) && At(t, [R]) == At(Child(t, R), []);
    assert Put(t, [L], x) == WithChild(t, L, Put(Child(t, L), [], x));
    assert Put(t, [R], x) == WithChild(t, R, Put(Child(t, R), [], x));
    assert InLevel(op, l, []) && InLevel(op, r, []);
  }

  /** Two comparisons that can be joined, in a conjunction of their own. */
  lemma PairJoined(x: Expr, y: Expr, z: Expr)
    requires x.Cmp? && y.Cmp? && JoinAnd(x, y) == Some(z) && !Eq(x, y)
    ensures InLevel(And, Bin(And, x, y), [L]) && InLevel(And, Bin(And, x, y), [R])
    ensures Dups1(And, Bin(And, x, y), [L], [R]) == (Bin(And, Sym(Yes), z), 1)
    ensures Dups1(And, Bin(And, x, y), [L], [L]) == (Bin(And, x, y), 0)
  {
    PairSlots(And, x, y, x);
    PairSlots(And, x, y, Sym(Yes));
    PairSlots(And, Sym(Yes), y, z);
  }

  /** y and a comparison have nothing to join. */
  lemma PairDone(y: Expr, x: Expr)
    requires y == Sym(Yes) && x.Cmp? && TypeOf(x.lhs) == Tristate
    ensures InLevel(And, Bin(And, y, x), [L]) && InLevel(And, Bin(And, y, x), [R])
    ensures Dups1(And, Bin(And, y, x), [R], [L]) == (Bin(And, y, x), 0)
    ensures Dups1(And, Bin(And, y, x), [R], [R]) == (Bin(And, y, x), 0)
  {
    PairSlots(And, y, x, x);
  }

  /** A pass over e joins nothing. */
  predicate Stable(e: Expr) {
    e.Bin? ==> Dups1(e.op, e, [], []).1 == 0
  }

  /** A pass without joins has looked at every pair of operands below its two slots. */
  lemma {:induction false} Dups1Quiet(op: Conn, t: Expr, p: Path, q: Path, p': Path, q': Path)
    requires InLevel(op, t, p) && InLevel(op, t, q) && Dups1(op, t, p, q).1 == 0
    requires IsOperand(op, t, p') && IsOperand(op, t, q') && p <= p' && q <= q' && p' != q'
    ensures Join(op, At(t, p'), At(t, q')) == None && Stable(At(t, p'))
    decreases LevelSize(op, At(t, p)) + LevelSize(op, At(t, q))
  {
    var any := Env(_ => 0, (_, _) => 0);
    if IsNode(op, At(t, p)) {
      InLevelStep(op, t, p, L);
      InLevelStep(op, t, p, R);
      Dups1Correct(op, t, p + [L], q, any);
      assert p != p';
      if p'[|p|] == L {
        assert p + [L] <= p';
        Dups1Quiet(op, t, p + [L], q, p', q');
      } else {
        assert p + [R] <= p';
        Dups1Quiet(op, t, p + [R], q, p', q');
      }
    } else if IsNode(op, At(t, q)) {
      InLevelStep(op, t, q, L);
      InLevelStep(op, t, q, R);
      Dups1Correct(op, t, p, q + [L], any);
      assert q != q';
      if q'[|q|] == L {
        assert q + [L] <= q';
        Dups1Quiet(op, t, p, q + [L], p', q');
      } else {
        assert q + [R] <= q';
        Dups1Quiet(op, t, p, q + [R], p', q');
      }
    } else {
      OperandsAreMaximal(op, t, p, p');
      OperandsAreMaximal(op, t, q, q');
      var e1 := At(t, p);
      PutOther(op, t, p, q, e1);
      PutOperand(op, t, p, e1);
      if e1.Bin? {
        Dups1Correct(e1.op, e1, [], [], any);
      }
      PutSame(t, p);
    }
  }

  lemma {:induction false} OperandsAreMaximal(op: Conn, t: Expr, p: Path, p': Path)
    requires IsOperand(op, t, p) && IsOperand(op, t, p') && p <= p'
    ensures p == p'
  {
    if p != [] {
      OperandsAreMaximal(op, Child(t, p[0]), p[1..], p'[1..]);
      assert p == [p[0]] + p[1..] && p' == [p'[0]] + p'[1..];
    }
  }

  /**
    expr_eliminate_dups is complete: in its result no two operands of the top level can be
    joined, and the same holds inside every operand.
   */
  lemma {:induction false} EliminateDupsComplete(e: Expr, op: Conn, p: Path, q: Path)
    requires IsNode(op, EliminateDups(e))
    requires IsOperand(op, EliminateDups(e), p) && IsOperand(op, EliminateDups(e), q) && p != q
    ensures var d := EliminateDups(e);
            Join(op, At(d, p), At(d, q)) == None && Stable(At(d, p)) && Stable(d)
  {
    EliminateDupsStable(e);
    Dups1Quiet(op, EliminateDups(e), [], [], p, q);
  }

  lemma {:induction false} EliminateDupsStable(e: Expr)
    ensures Stable(EliminateDups(e))
    decreases Nodes(e)
  {
    if e.Bin? {
      var r := Dups1(e.op, e, [], []);
      Dups1Correct(e.op, e, [], [], Env(_ => 0, (_, _) => 0));
      if r.1 != 0 {
        ProductivePassShrinks(e);
        EliminateDupsStable(EliminateYn(r.0));
      }
    }
  }
}
