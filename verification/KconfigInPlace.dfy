/**
  expr_eliminate_dups as the original runs it: one tree that is overwritten through two slots
  which may alias, and a global counter that decides when the loop stops.
 */
module KconfigInPlace {
  import opened KconfigExpr
  import opened KconfigEq
  import opened KconfigSlots
  import opened KconfigDups

  class ExprStore {
    /** The tree being rewritten. */
    var root: Expr
    /** The file-scope variable trans_count. */
    var transCount: nat

    constructor (e: Expr)
      ensures root == e && transCount == 0
    {
      root := e;
      transCount := 0;
    }

    /** The slot p lies in the level op that starts at base. */
    ghost predicate Within(op: Conn, base: Path, p: Path)
      reads this
    {
      base <= p && HasSlot(root, base) && InLevel(op, At(root, base), p[|base|..])
    }

    /**
      expr_eliminate_dups1(type, ep1, ep2), where both slots lie in one level; base is the
      slot of that level's top node.
     */
    method EliminateDups1(op: Conn, p: Path, q: Path, ghost base: Path)
      requires Within(op, base, p) && Within(op, base, q)
      modifies this
      ensures var r := Dups1(op, old(At(root, base)), p[|base|..], q[|base|..]);
              root == Put(old(root), base, r.0) && transCount == old(transCount) + r.1
      decreases Nodes(At(root, base)),
                LevelSize(op, At(At(root, base), p[|base|..])) + LevelSize(op, At(At(root, base), q[|base|..])), 1
    {
      ghost var t, n := At(root, base), |base|;
      ghost var p0, q0 := p[n..], q[n..];
      assert p == base + p0 && q == base + q0;
      PutThrough(root, base, p0, root);
      PutThrough(root, base, q0, root);
      if IsNode(op, At(root, p)) {
        InLevelStep(op, t, p0, L);
        InLevelStep(op, t, p0, R);
        assert (p + [L])[n..] == p0 + [L] && (p + [R])[n..] == p0 + [R];
        ghost var a := Dups1(op, t, p0 + [L], q0);
        EliminateDups1(op, p + [L], q, base);
        Resumed(op, old(root), base, t, a.0, p0 + [R], q0);
        EliminateDups1(op, p + [R], q, base);
        PutPut(old(root), base, a.0, Dups1(op, a.0, p0 + [R], q0).0);
      } else if IsNode(op, At(root, q)) {
        InLevelStep(op, t, q0, L);
        InLevelStep(op, t, q0, R);
        assert (q + [L])[n..] == q0 + [L] && (q + [R])[n..] == q0 + [R];
        ghost var a := Dups1(op, t, p0, q0 + [L]);
        EliminateDups1(op, p, q + [L], base);
        Resumed(op, old(root), base, t, a.0, q0 + [R], p0);
        EliminateDups1(op, p, q + [R], base);
        PutPut(old(root), base, a.0, Dups1(op, a.0, p0, q0 + [R]).0);
      } else if p == q {
        PutSame(root, base);
      } else {
        JoinOperands(op, p, q, base);
      }
    }

    /** The part of expr_eliminate_dups1 that handles two distinct operands. */
    method JoinOperands(op: Conn, p: Path, q: Path, ghost base: Path)
      requires Within(op, base, p) && Within(op, base, q) && p != q
      requires IsOperand(op, At(root, base), p[|base|..]) && IsOperand(op, At(root, base), q[|base|..])
      modifies this
      ensures var r := Dups1(op, old(At(root, base)), p[|base|..], q[|base|..]);
              root == Put(old(root), base, r.0) && transCount == old(transCount) + r.1
      decreases Nodes(At(root, base)), 0, 0
    {
      ghost var t, n := At(root, base), |base|;
      ghost var p0, q0 := p[n..], q[n..];
      assert p == base + p0 && q == base + q0;
      PutThrough(root, base, p0, root);
      PutOperand(op, t, p0, Sym(No));
      PutOther(op, t, p0, q0, Sym(No));
      ghost var e1 := At(t, p0);
      ghost var a := if e1.Bin? then Dups1(e1.op, e1, [], []) else (e1, 0);
      if At(root, p).Bin? {
        assert p[|p|..] == [];
        EliminateDups1(At(root, p).op, p, p, p);
      } else {
        PutSame(root, p);
      }
      assert root == Put(old(root), p, a.0) && transCount == old(transCount) + a.1;
      PutThrough(old(root), base, p0, a.0);
      ghost var u := Put(t, p0, a.0);
      PutPut(old(root), base, u, root);
      PutOperand(op, t, p0, a.0);
      PutOther(op, t, p0, q0, a.0);
      PutThrough(root, base, p0, root);
      PutThrough(root, base, q0, root);
      var tmp := Join(op, At(root, p), At(root, q));
      if tmp.Some? {
        ghost var w := Put(u, p0, Sym(Unit(op)));
        PutThrough(root, base, p0, Sym(Unit(op)));
        PutPut(old(root), base, u, w);
        PutOther(op, u, p0, q0, Sym(Unit(op)));
        PutOperand(op, u, p0, Sym(Unit(op)));
        root := Put(root, p, Sym(Unit(op)));
        PutPut(old(root), base, w, Put(w, q0, tmp.value));
        PutThrough(root, base, q0, tmp.value);
        root := Put(root, q, tmp.value);
        transCount := transCount + 1;
      }
    }

    /** After a call that turned the level into t1, both remaining slots are where they were. */
    lemma Resumed(op: Conn, r0: Expr, base: Path, t: Expr, t1: Expr, p: Path, q: Path)
      requires HasSlot(r0, base) && At(r0, base) == t && SameLevel(op, t, t1)
      requires InLevel(op, t, p) && InLevel(op, t, q)
      ensures HasSlot(Put(r0, base, t1), base) && At(Put(r0, base, t1), base) == t1
      ensures InLevel(op, t1, p) && InLevel(op, t1, q)
      ensures LevelSize(op, At(t1, p)) == LevelSize(op, At(t, p))
      ensures LevelSize(op, At(t1, q)) == LevelSize(op, At(t, q))
    {
      PutPut(r0, base, t1, t1);
      SameLevelSlot(op, t, t1, p);
      SameLevelSlot(op, t, t1, q);
    }

    /** expr_eliminate_dups: the counter is saved, reset before every pass, and restored. */
    method Eliminate()
      modifies this
      ensures root == EliminateDups(old(root)) && transCount == old(transCount)
    {
      var oldCount := transCount;
      while true
        invariant EliminateDups(root) == EliminateDups(old(root))
        decreases Nodes(root)
      {
        transCount := 0;
        ghost var before := root;
        if root.Bin? {
          EliminateDups1(root.op, [], [], []);
        }
        if transCount == 0 {
          Dups1Correct(if before.Bin? then before.op else And, before, [], [], Env(_ => 0, (_, _) => 0));
          break;
        }
        ProductivePassShrinks(before);
        root := EliminateYn(root);
      }
      transCount := oldCount;
    }
  }
}
