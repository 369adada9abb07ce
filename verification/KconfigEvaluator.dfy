/**
  The memoising evaluator of symbol.c: sym_calc_value marks a symbol SYMBOL_VALID before it
  computes it, evaluates whatever the symbol depends on, and stores the results in the symbol.
 */
module KconfigEvaluator {
  import opened KconfigExpr
  import opened KconfigMenu
  import opened KconfigSymbols
  import opened KconfigRules

  class SymbolTable {
    const t: Table
    /** The fields of every symbol, index by index. */
    var sym: seq<Fields>
    /** A witness that the dependencies are acyclic. */
    ghost const rank: seq<nat>

    constructor (t: Table, ghost rank: seq<nat>)
      requires WellFormed(t) && WellRanked(t, rank)
      ensures this.t == t && this.rank == rank && Inv()
      ensures sym == seq(|t.decls|, _ => Fields(false, 0, 0, 0, 0, 0))
    {
      this.t := t;
      this.rank := rank;
      sym := seq(|t.decls|, _ => Fields(false, 0, 0, 0, 0, 0));
    }

    ghost predicate Inv()
      reads this
    {
      WellFormed(t) && WellRanked(t, rank) && |sym| == |t.decls|
    }

    /** Every valid symbol of rank below k carries the plain recursive values. */
    ghost predicate Correct(k: nat)
      reads this
      requires Inv()
    {
      forall i :: 0 <= i < |sym| && sym[i].valid && rank[i] < k ==> sym[i] == Plain(t, rank, i)
    }

    /** All that happened: some symbols of rank below k became valid, with the right values. */
    twostate predicate Filled(k: nat)
      reads this
      requires old(Inv()) && Inv()
    {
      forall i {:trigger sym[i]} :: 0 <= i < |sym| ==>
        sym[i] == old(sym[i]) || (!old(sym[i]).valid && rank[i] < k && sym[i] == Plain(t, rank, i))
    }

    ghost predicate Covers(ss: seq<Symbol>, k: nat)
      requires |rank| == |t.decls|
    {
      forall x :: x in ss && InTable(t, x) ==> rank[x.id] < k
    }

    /** sym_calc_value on a symbol that may lie outside the table. */
    method CalcSymbol(x: Symbol, ghost k: nat) returns (r: Tri)
      requires Inv() && Correct(k) && (InTable(t, x) ==> rank[x.id] < k)
      modifies this`sym
      ensures Inv() && Correct(k) && Filled(k)
      ensures r == PlainTri(t, rank, x)
      ensures InTable(t, x) ==> sym[x.id].valid
      decreases k, 0
    {
      if InTable(t, x) {
        CalcValue(x.id);
        r := sym[x.id].curr;
      } else {
        r := Fixed(x);
      }
    }

    /** expr_calc_value, on a pointer that may be NULL. */
    method CalcDep(d: Dep, ghost k: nat) returns (r: Tri)
      requires Inv() && Correct(k) && Covers(DepSyms(d), k)
      modifies this`sym
      ensures Inv() && Correct(k) && Filled(k)
      ensures r == DepVal(d, PlainEnv(t, rank))
      decreases k, 2
    {
      if d.None? {
        r := 2;
      } else {
        r := CalcExpr(d.value, k);
      }
    }

    /** expr_calc_value. */
    method CalcExpr(e: Expr, ghost k: nat) returns (r: Tri)
      requires Inv() && Correct(k) && Covers(ExprSyms(e), k)
      modifies this`sym
      ensures Inv() && Correct(k) && Filled(k)
      ensures r == Val(e, PlainEnv(t, rank))
      decreases k, 1, e
    {
      match e
      case Sym(s) =>
        r := CalcSymbol(s, k);
      case Cmp(op, a, b) =>
        var x := CalcSymbol(a, k);
        var y := CalcSymbol(b, k);
        r := if Holds(op, t.compare(a, x, b, y)) then 2 else 0;
      case Not(x) =>
        r := CalcExpr(x, k);
        r := 2 - r;
      case Bin(op, left, right) =>
        var x := CalcExpr(left, k);
        var y := CalcExpr(right, k);
        r := Apply(op, x, y);
    }

    lemma CoversDecl(s: nat)
      requires Inv() && s < |t.decls|
      ensures Covers(DeclSyms(t.decls[s]), rank[s])
    {
      forall x | x in DeclSyms(t.decls[s]) && InTable(t, x)
        ensures rank[x.id] < rank[s]
      {
        assert Edge(t, s, x.id);
      }
    }

    lemma CoversProp(s: nat, i: nat)
      requires Inv() && s < |t.decls| && i < |t.decls[s].props|
      ensures Covers(PropSyms(t.decls[s].props[i]), rank[s])
    {
      CoversDecl(s);
      forall x | x in PropSyms(t.decls[s].props[i])
        ensures x in DeclSyms(t.decls[s])
      {
        PropsSymsIn(t.decls[s].props, i, x);
      }
    }

    /** The loop of sym_calc_visibility over the prompts. */
    method CalcPrompts(s: nat) returns (tri: Tri)
      requires Inv() && s < |sym| && sym[s].valid && Correct(rank[s])
      modifies this`sym
      ensures Inv() && Correct(rank[s]) && Filled(rank[s])
      ensures tri == PromptValue(t.decls[s].props, PlainEnv(t, rank))
      decreases rank[s], 3
    {
      var ps := t.decls[s].props;
      ghost var v := PlainEnv(t, rank);
      tri := 0;
      var i := 0;
      while i < |ps|
        invariant 0 <= i <= |ps|
        invariant Inv() && Correct(rank[s]) && Filled(rank[s])
        invariant Apply(Or, tri, PromptValue(ps[i..], v)) == PromptValue(ps, v)
      {
        if ps[i].text {
          CoversProp(s, i);
          var x := CalcDep(ps[i].visible, rank[s]);
          tri := Apply(Or, tri, x);
        }
        assert ps[i..][1..] == ps[i + 1..];
        i := i + 1;
      }
    }

    /** sym_calc_visibility. */
    method CalcVisibility(s: nat)
      requires Inv() && s < |sym| && sym[s].valid && Correct(rank[s])
      modifies this`sym
      ensures Inv() && Correct(rank[s])
      ensures forall i {:trigger sym[i]} :: 0 <= i < |sym| && i != s ==>
        sym[i] == old(sym[i]) || (!old(sym[i]).valid && rank[i] < rank[s] && sym[i] == Plain(t, rank, i))
      ensures sym[s] == Visibility(t, t.decls[s], old(sym[s]), PlainEnv(t, rank))
      decreases rank[s], 4
    {
      var d := t.decls[s];
      ghost var v := PlainEnv(t, rank);
      CoversDecl(s);
      var tri := CalcPrompts(s);
      sym := sym[s := sym[s].(visible := Round(t, d.stype, tri))];
      tri := CalcDep(d.dirDep, rank[s]);
      sym := sym[s := sym[s].(dirDep := Round(t, d.stype, tri))];
      tri := 0;
      if d.revDep.Some? {
        tri := CalcDep(d.revDep, rank[s]);
      }
      sym := sym[s := sym[s].(revDep := Round(t, d.stype, tri))];
      tri := 0;
      if d.implied.Some? {
        tri := CalcDep(d.implied, rank[s]);
      }
      sym := sym[s := sym[s].(implied := Round(t, d.stype, tri))];
    }

    /** One property of a symbol: is it an active default, and what does it evaluate to? */
    method CalcDefaultProp(s: nat, i: nat) returns (active: bool, r: Tri)
      requires Inv() && s < |sym| && sym[s].valid && Correct(rank[s]) && i < |t.decls[s].props|
      modifies this`sym
      ensures Inv() && Correct(rank[s]) && Filled(rank[s])
      ensures var v, p := PlainEnv(t, rank), t.decls[s].props[i];
              && (active <==> p.kind == PDefault && DepVal(p.visible, v) != 0)
              && (active ==> r == Apply(And, DepVal(p.expr, v), DepVal(p.visible, v)))
      decreases rank[s], 3
    {
      active, r := false, 0;
      var p := t.decls[s].props[i];
      if p.kind == PDefault {
        CoversProp(s, i);
        var vis := CalcDep(p.visible, rank[s]);
        if vis != 0 {
          var x := CalcDep(p.expr, rank[s]);
          return true, Apply(And, x, vis);
        }
      }
    }

    /** sym_get_default_prop: the value of the first active default, n if there is none. */
    method CalcDefault(s: nat) returns (r: Tri)
      requires Inv() && s < |sym| && sym[s].valid && Correct(rank[s])
      modifies this`sym
      ensures Inv() && Correct(rank[s]) && Filled(rank[s])
      ensures var v := PlainEnv(t, rank);
              var p := DefaultProp(t.decls[s].props, v);
              r == if p.Some? then Apply(And, DepVal(p.value.expr, v), DepVal(p.value.visible, v)) else 0
      decreases rank[s], 4
    {
      var ps := t.decls[s].props;
      ghost var v := PlainEnv(t, rank);
      var i := 0;
      while i < |ps|
        invariant 0 <= i <= |ps|
        invariant Inv() && Correct(rank[s]) && Filled(rank[s])
        invariant DefaultProp(ps, v) == DefaultProp(ps[i..], v)
      {
        var active;
        active, r := CalcDefaultProp(s, i);
        if active {
          return;
        }
        assert ps[i..][1..] == ps[i + 1..];
        i := i + 1;
      }
      r := 0;
    }

    /**
      sym_calc_value.  Whatever was valid before keeps its values, and the symbol and
      everything it needed get the values of the plain recursive definition.
     */
    method CalcValue(s: nat)
      requires Inv() && s < |sym| && Correct(rank[s] + 1)
      modifies this`sym
      ensures Inv() && Correct(rank[s] + 1) && Filled(rank[s] + 1)
      ensures sym[s].valid && sym[s] == Plain(t, rank, s)
      decreases rank[s], 5
    {
      if sym[s].valid {
        return;
      }
      var d := t.decls[s];
      ghost var v := PlainEnv(t, rank);
      sym := sym[s := sym[s].(valid := true)];
      CalcVisibility(s);
      // the value seen by a recursive request
      sym := sym[s := sym[s].(curr := 0)];
      ghost var f := sym[s];
      var tri: Tri := 0;
      if sym[s].visible != 0 && d.user.Some? {
        tri := Apply(And, d.user.value, sym[s].visible);
      } else {
        tri := CalcDefault(s);
        if sym[s].implied != 0 {
          tri := Apply(Or, tri, sym[s].implied);
          tri := Apply(And, tri, sym[s].dirDep);
        }
      }
      tri := Apply(Or, tri, sym[s].revDep);
      sym := sym[s := sym[s].(curr := Round(t, d.stype, tri))];
      PlainSolves(t, rank, s);
      assert sym[s] == Compute(t, d, v);
    }

    /** Every valid symbol carries the plain recursive values. */
    ghost predicate AllCorrect()
      reads this
      requires Inv()
    {
      forall i :: 0 <= i < |sym| && sym[i].valid ==> sym[i] == Plain(t, rank, i)
    }

    /** The loop of sym_clear_all_valid. */
    method ClearFlags()
      requires Inv()
      modifies this`sym
      ensures Inv() && AllCorrect()
      ensures forall i :: 0 <= i < |sym| ==> sym[i] == old(sym[i]).(valid := false)
    {
      for n := 0 to |sym|
        invariant |sym| == |t.decls|
        invariant forall i :: 0 <= i < |sym| ==>
          sym[i] == if i < n then old(sym[i]).(valid := false) else old(sym[i])
      {
        sym := sym[n := sym[n].(valid := false)];
      }
    }

    /**
      sym_clear_all_valid: all symbols lose SYMBOL_VALID, and MODULES is evaluated again, with whatever it
      depends on; everything that is valid then has its plain value.
     */
    method ClearAllValid(modulesSym: Symbol)
      requires Inv()
      modifies this`sym
      ensures Inv() && AllCorrect() && (InTable(t, modulesSym) ==> sym[modulesSym.id].valid)
      ensures forall i {:trigger sym[i]} :: 0 <= i < |sym| ==>
        sym[i] == old(sym[i]).(valid := false) || sym[i] == Plain(t, rank, i)
    {
      ClearFlags();
      if InTable(t, modulesSym) {
        CalcValue(modulesSym.id);
      }
    }

    /** What a request from outside does. */
    twostate predicate Served()
      reads this
      requires old(Inv()) && Inv()
    {
      && AllCorrect()
      && forall i {:trigger sym[i]} :: 0 <= i < |sym| && old(sym[i]).valid ==> sym[i] == old(sym[i])
    }

    /** One request, on a partly evaluated table. */
    method Request(s: nat)
      requires Inv() && AllCorrect() && s < |t.decls|
      modifies this`sym
      ensures Inv() && Served() && sym[s].valid
    {
      CalcValue(s);
    }

    /** Requests in any order find the same values, and these obey the rules for the value of a symbol. */
    method CalcAll(requests: seq<nat>)
      requires Inv() && AllCorrect() && forall j :: 0 <= j < |requests| ==> requests[j] < |t.decls|
      modifies this`sym
      ensures Inv() && Served()
      ensures forall j :: 0 <= j < |requests| ==> sym[requests[j]] == Plain(t, rank, requests[j])
      ensures forall j :: 0 <= j < |requests| ==>
        Meets(t, t.decls[requests[j]], PlainEnv(t, rank), sym[requests[j]])
    {
      var n := 0;
      while n < |requests|
        invariant 0 <= n <= |requests| && Inv() && Served()
        invariant forall j :: 0 <= j < n ==> sym[requests[j]].valid
      {
        Request(requests[n]);
        n := n + 1;
      }
      forall j | 0 <= j < |requests|
        ensures Meets(t, t.decls[requests[j]], PlainEnv(t, rank), sym[requests[j]])
      {
        PlainMeets(t, rank, requests[j]);
      }
    }
  }
}
