/**
  Slots of an expression tree.  The original passes `struct expr **` pointers into one tree
  and rewrites through them; a slot is modelled as the path from the root to the place the
  pointer designates, so two pointers alias exactly when their paths are comparable.
 */
module KconfigSlots {
  import opened KconfigExpr
  import opened KconfigEq

  datatype Dir = L | R

  type Path = seq<Dir>

  function Child(e: Expr, d: Dir): Expr
    requires e.Bin?
  {
    if d == L then e.l else e.r
  }

  function WithChild(e: Expr, d: Dir, x: Expr): Expr
    requires e.Bin?
  {
    if d == L then Bin(e.op, x, e.r) else Bin(e.op, e.l, x)
  }

  predicate HasSlot(e: Expr, p: Path) {
    p == [] || (e.Bin? && HasSlot(Child(e, p[0]), p[1..]))
  }

  function At(e: Expr, p: Path): Expr
    requires HasSlot(e, p)
  {
    if p == [] then e else At(Child(e, p[0]), p[1..])
  }

  function Put(e: Expr, p: Path, x: Expr): Expr
    requires HasSlot(e, p)
  {
    if p == [] then x else WithChild(e, p[0], Put(Child(e, p[0]), p[1..], x))
  }

  /** The slot is reached through op nodes only: it belongs to the top level of e. */
  predicate InLevel(op: Conn, e: Expr, p: Path)
    ensures InLevel(op, e, p) ==> HasSlot(e, p)
  {
    p == [] || (IsNode(op, e) && InLevel(op, Child(e, p[0]), p[1..]))
  }

  /** The slot holds an operand of the top level. */
  predicate IsOperand(op: Conn, e: Expr, p: Path) {
    InLevel(op, e, p) && !IsNode(op, At(e, p))
  }

  /** The top levels of a and b have the same shape. */
  predicate SameLevel(op: Conn, a: Expr, b: Expr) {
    if IsNode(op, a) then IsNode(op, b) && SameLevel(op, a.l, b.l) && SameLevel(op, a.r, b.r)
    else !IsNode(op, b)
  }

  function LevelSize(op: Conn, e: Expr): nat {
    if IsNode(op, e) then 1 + LevelSize(op, e.l) + LevelSize(op, e.r) else 0
  }

  lemma {:induction false} SameLevelRefl(op: Conn, e: Expr)
    ensures SameLevel(op, e, e)
  {
    if IsNode(op, e) {
      SameLevelRefl(op, e.l);
      SameLevelRefl(op, e.r);
    }
  }

  lemma {:induction false} SameLevelTrans(op: Conn, a: Expr, b: Expr, c: Expr)
    requires SameLevel(op, a, b) && SameLevel(op, b, c)
    ensures SameLevel(op, a, c)
  {
    if IsNode(op, a) {
      SameLevelTrans(op, a.l, b.l, c.l);
      SameLevelTrans(op, a.r, b.r, c.r);
    }
  }

  lemma {:induction false} SameLevelSlot(op: Conn, a: Expr, b: Expr, p: Path)
    requires SameLevel(op, a, b) && InLevel(op, a, p)
    ensures InLevel(op, b, p)
    ensures IsNode(op, At(a, p)) == IsNode(op, At(b, p))
    ensures LevelSize(op, At(a, p)) == LevelSize(op, At(b, p))
  {
    if p == [] {
      SameLevelSize(op, a, b);
    } else {
      SameLevelSlot(op, Child(a, p[0]), Child(b, p[0]), p[1..]);
    }
  }

  lemma {:induction false} SameLevelSize(op: Conn, a: Expr, b: Expr)
    requires SameLevel(op, a, b)
    ensures LevelSize(op, a) == LevelSize(op, b)
  {
    if IsNode(op, a) {
      SameLevelSize(op, a.l, b.l);
      SameLevelSize(op, a.r, b.r);
    }
  }

  /** Descending one step from a level node stays in the level. */
  lemma {:induction false} InLevelStep(op: Conn, e: Expr, p: Path, d: Dir)
    requires InLevel(op, e, p) && IsNode(op, At(e, p))
    ensures InLevel(op, e, p + [d]) && At(e, p + [d]) == Child(At(e, p), d)
  {
    if p == [] {
      assert p + [d] == [d] && [d][1..] == [];
    } else {
      assert (p + [d])[1..] == p[1..] + [d];
      InLevelStep(op, Child(e, p[0]), p[1..], d);
    }
  }

  /** Replacing one operand by another expression that is not a node of the level. */
  lemma {:induction false} PutOperand(op: Conn, e: Expr, p: Path, x: Expr)
    requires IsOperand(op, e, p) && !IsNode(op, x)
    ensures var f := Put(e, p, x);
            && SameLevel(op, e, f)
            && IsOperand(op, f, p) && At(f, p) == x
            && Nodes(f) == Nodes(e) - Nodes(At(e, p)) + Nodes(x)
            && Nodes(At(e, p)) <= Nodes(e)
            && (p != [] ==> Nodes(At(e, p)) < Nodes(e))
  {
    if p != [] {
      PutOperand(op, Child(e, p[0]), p[1..], x);
      SameLevelRefl(op, e.l);
      SameLevelRefl(op, e.r);
    }
  }

  lemma {:induction false} PutSame(e: Expr, p: Path)
    requires HasSlot(e, p)
    ensures Put(e, p, At(e, p)) == e
  {
    if p != [] {
      PutSame(Child(e, p[0]), p[1..]);
    }
  }

  /** Writing one operand leaves every other operand alone. */
  lemma {:induction false} PutOther(op: Conn, e: Expr, p: Path, q: Path, x: Expr)
    requires IsOperand(op, e, p) && IsOperand(op, e, q) && p != q && !IsNode(op, x)
    ensures IsOperand(op, Put(e, p, x), q) && At(Put(e, p, x), q) == At(e, q)
    ensures p != [] && q != []
  {
    if p[0] == q[0] {
      assert p == [p[0]] + p[1..] && q == [q[0]] + q[1..];
      PutOther(op, Child(e, p[0]), p[1..], q[1..], x);
    }
  }

  /** The value of the level without the operand at p. */
  function Rest(op: Conn, e: Expr, p: Path, v: Env): Tri
    requires InLevel(op, e, p)
  {
    if p == [] then (if op == And then 2 else 0)
    else Apply(op, Val(Child(e, if p[0] == L then R else L), v), Rest(op, Child(e, p[0]), p[1..], v))
  }

  lemma {:induction false} PutValue(op: Conn, e: Expr, p: Path, x: Expr, v: Env)
    requires InLevel(op, e, p)
    ensures Val(Put(e, p, x), v) == Apply(op, Rest(op, e, p, v), Val(x, v))
    ensures Val(e, v) == Apply(op, Rest(op, e, p, v), Val(At(e, p), v))
  {
    if p != [] {
      var c := Child(e, p[0]);
      PutValue(op, c, p[1..], x, v);
      var o := Val(Child(e, if p[0] == L then R else L), v);
      ApplyShuffle(op, o, Rest(op, c, p[1..], v), Val(x, v), 0);
      ApplyShuffle(op, o, Rest(op, c, p[1..], v), Val(At(e, p), v), 0);
      ApplyComm(op, o, Val(Put(c, p[1..], x), v));
      ApplyComm(op, o, Val(c, v));
    }
  }

  lemma ApplyComm(op: Conn, a: Tri, b: Tri)
    ensures Apply(op, a, b) == Apply(op, b, a)
  {}

  /** Writing through any slot keeps the meaning if what is written means the same. */
  lemma {:induction false} PutCongruence(e: Expr, p: Path, x: Expr, v: Env)
    requires HasSlot(e, p) && Val(x, v) == Val(At(e, p), v)
    ensures Val(Put(e, p, x), v) == Val(e, v)
  {
    if p != [] {
      PutCongruence(Child(e, p[0]), p[1..], x, v);
    }
  }

  /**
    Two operands rewritten together: if the new pair has the same joint value, so has the
    whole level.
   */
  lemma {:induction false} PutTwoValue(op: Conn, e: Expr, p: Path, q: Path, x: Expr, y: Expr, v: Env)
    requires IsOperand(op, e, p) && IsOperand(op, e, q) && p != q && !IsNode(op, x)
    requires HasSlot(Put(e, p, x), q)
    requires Apply(op, Val(x, v), Val(y, v)) == Apply(op, Val(At(e, p), v), Val(At(e, q), v))
    ensures Val(Put(Put(e, p, x), q, y), v) == Val(e, v)
  {
    PutOther(op, e, p, q, x);
    if p[0] == q[0] {
      assert p == [p[0]] + p[1..] && q == [q[0]] + q[1..];
      PutOther(op, Child(e, p[0]), p[1..], q[1..], x);
      PutTwoValue(op, Child(e, p[0]), p[1..], q[1..], x, y, v);
    } else {
      var c, d := Child(e, p[0]), Child(e, q[0]);
      PutValue(op, c, p[1..], x, v);
      PutValue(op, d, q[1..], y, v);
      var rc, rd := Rest(op, c, p[1..], v), Rest(op, d, q[1..], v);
      ApplyShuffle(op, rc, Val(x, v), rd, Val(y, v));
      ApplyShuffle(op, rc, Val(At(e, p), v), rd, Val(At(e, q), v));
      ApplyComm(op, Val(c, v), Val(d, v));
      ApplyComm(op, Val(Put(c, p[1..], x), v), Val(Put(d, q[1..], y), v));
    }
  }

  /** A unit written into an operand slot below the root is there to be eliminated. */
  lemma {:induction false} PutUnit(op: Conn, e: Expr, p: Path)
    requires InLevel(op, e, p) && p != []
    ensures HasUnit(Put(e, p, Sym(Unit(op))))
  {
    if |p| > 1 {
      PutUnit(op, Child(e, p[0]), p[1..]);
    }
  }

  lemma {:induction false} PutKeepsUnit(op: Conn, e: Expr, p: Path, x: Expr)
    requires InLevel(op, e, p) && HasUnit(x)
    ensures HasUnit(Put(e, p, x))
  {
    if p != [] {
      PutKeepsUnit(op, Child(e, p[0]), p[1..], x);
    }
  }

  lemma {:induction false} PutTwoUnit(op: Conn, e: Expr, p: Path, q: Path, y: Expr)
    requires IsOperand(op, e, p) && IsOperand(op, e, q) && p != q
    requires HasSlot(Put(e, p, Sym(Unit(op))), q)
    ensures HasUnit(Put(Put(e, p, Sym(Unit(op))), q, y))
  {
    var u := Sym(Unit(op));
    PutOther(op, e, p, q, u);
    if p[0] == q[0] {
      assert p == [p[0]] + p[1..] && q == [q[0]] + q[1..];
      PutOther(op, Child(e, p[0]), p[1..], q[1..], u);
      PutTwoUnit(op, Child(e, p[0]), p[1..], q[1..], y);
    } else if |p| > 1 {
      PutUnit(op, Child(e, p[0]), p[1..]);
    }
  }

  lemma {:induction false} PutThrough(e: Expr, p: Path, q: Path, x: Expr)
    requires HasSlot(e, p) && HasSlot(At(e, p), q)
    ensures HasSlot(e, p + q) && At(e, p + q) == At(At(e, p), q)
    ensures Put(e, p + q, x) == Put(e, p, Put(At(e, p), q, x))
  {
    if p == [] {
      assert p + q == q;
    } else {
      assert (p + q)[1..] == p[1..] + q;
      PutThrough(Child(e, p[0]), p[1..], q, x);
    }
  }

  lemma {:induction false} PutPut(e: Expr, p: Path, x: Expr, y: Expr)
    requires HasSlot(e, p)
    ensures HasSlot(Put(e, p, x), p) && At(Put(e, p, x), p) == x
    ensures Put(Put(e, p, x), p, y) == Put(e, p, y)
  {
    if p != [] {
      PutPut(Child(e, p[0]), p[1..], x, y);
    }
  }
}
