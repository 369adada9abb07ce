/**
  The cycle checker in front of the evaluator: what is checked after parsing is exactly what makes
  the values of all symbols well defined.
 */
module KconfigProgram {
  import opened KconfigExpr
  import opened KconfigSymbols
  import opened KconfigRules
  import opened KconfigEvaluator
  import opened KconfigCheck

  /** The value of x obeys the rules of its declaration, given the values of all others. */
  ghost predicate Obeys(t: Table, tri: Symbol -> Tri, x: Symbol) {
    if InTable(t, x) then exists f :: Meets(t, t.decls[x.id], MakeEnv(t, tri), f) && f.curr == tri(x)
    else tri(x) == Fixed(x)
  }

  /** All symbols obey their rules at once. */
  ghost predicate Solves(t: Table, tri: Symbol -> Tri) {
    forall x :: Obeys(t, tri, x)
  }

  lemma ObeysComputed(t: Table, tri: Symbol -> Tri, x: Symbol)
    requires WellFormed(t)
    ensures Obeys(t, tri, x) <==>
              tri(x) == if InTable(t, x) then Compute(t, t.decls[x.id], MakeEnv(t, tri)).curr else Fixed(x)
  {
    if InTable(t, x) {
      var d, v := t.decls[x.id], MakeEnv(t, tri);
      MeetsExact(t, d, v, Compute(t, d, v));
      if Obeys(t, tri, x) {
        var f :| Meets(t, d, v, f) && f.curr == tri(x);
        MeetsExact(t, d, v, f);
      }
    }
  }

  /** There is no other solution than the recursive one. */
  lemma SolutionIsPlain(t: Table, rank: seq<nat>, tri: Symbol -> Tri, s: nat)
    requires WellFormed(t) && WellRanked(t, rank) && s < |t.decls| && Solves(t, tri)
    ensures tri(Config(s, t.decls[s].stype)) == Plain(t, rank, s).curr
  {
    forall x
      ensures tri(x) == if InTable(t, x) then Compute(t, t.decls[x.id], MakeEnv(t, tri)).curr else Fixed(x)
    {
      assert Obeys(t, tri, x);
      ObeysComputed(t, tri, x);
    }
    SolutionUnique(t, rank, tri, s);
  }

  /** All symbols' equations have a solution if the dependencies are acyclic. */
  lemma PlainIsSolution(t: Table, rank: seq<nat>)
    requires WellFormed(t) && WellRanked(t, rank)
    ensures Solves(t, x => PlainTri(t, rank, x))
  {
    var tri := (x: Symbol) => PlainTri(t, rank, x);
    forall x
      ensures Obeys(t, tri, x)
    {
      if InTable(t, x) {
        PlainSolves(t, rank, x.id);
        ComputeLocal(t, x.id, PlainEnv(t, rank), MakeEnv(t, tri));
      }
      ObeysComputed(t, tri, x);
    }
  }

  /** And only one: the values do not depend on the ranking that shows the graph to be acyclic. */
  lemma RankIrrelevant(t: Table, r1: seq<nat>, r2: seq<nat>, s: nat)
    requires WellFormed(t) && WellRanked(t, r1) && WellRanked(t, r2) && s < |t.decls|
    ensures Plain(t, r1, s).curr == Plain(t, r2, s).curr
  {
    PlainIsSolution(t, r1);
    SolutionIsPlain(t, r2, x => PlainTri(t, r1, x), s);
  }

  /** The values of the requested symbols are those of the solution. */
  ghost predicate Agree(t: Table, requests: seq<nat>, values: seq<Tri>, tri: Symbol -> Tri) {
    && |values| == |requests|
    && forall j :: 0 <= j < |requests| ==>
         requests[j] < |t.decls| && values[j] == tri(Config(requests[j], t.decls[requests[j]].stype))
  }

  lemma PlainAgrees(t: Table, rank: seq<nat>, requests: seq<nat>, values: seq<Tri>, tri: Symbol -> Tri)
    requires WellFormed(t) && WellRanked(t, rank) && Solves(t, tri) && |values| == |requests|
    requires forall j :: 0 <= j < |requests| ==>
      requests[j] < |t.decls| && values[j] == Plain(t, rank, requests[j]).curr
    ensures Agree(t, requests, values, tri)
  {
    forall j | 0 <= j < |requests|
      ensures values[j] == tri(Config(requests[j], t.decls[requests[j]].stype))
    {
      SolutionIsPlain(t, rank, tri, requests[j]);
    }
  }

  /** A fresh table, all symbols requested in some order, and their values. */
  method Evaluate(t: Table, requests: seq<nat>, ghost rank: seq<nat>) returns (values: seq<Tri>)
    requires WellFormed(t) && WellRanked(t, rank) && forall j :: 0 <= j < |requests| ==> requests[j] < |t.decls|
    ensures |values| == |requests|
    ensures forall j :: 0 <= j < |requests| ==> values[j] == Plain(t, rank, requests[j]).curr
  {
    var table := new SymbolTable(t, rank);
    table.CalcAll(requests);
    var sym := table.sym;
    values := [];
    for n := 0 to |requests|
      invariant |values| == n && forall j :: 0 <= j < n ==> values[j] == Plain(t, rank, requests[j]).curr
    {
      values := values + [sym[requests[n]].curr];
    }
  }

  /**
    Checking all symbols and then evaluating them: an error is reported exactly if the dependencies
    are cyclic; otherwise the values found are those of the solution of all symbols' equations.
   */
  method CheckAndEvaluate(t: Table, requests: seq<nat>) returns (errors: nat, values: seq<Tri>)
    requires WellFormed(t) && forall j :: 0 <= j < |requests| ==> requests[j] < |t.decls|
    ensures errors == 0 <==> Acyclic(t)
    ensures errors == 0 ==> exists tri :: Solves(t, tri)
    ensures errors == 0 ==> forall tri :: Solves(t, tri) ==> Agree(t, requests, values, tri)
  {
    var checker := new DepChecker(t);
    errors := checker.CheckAll();
    values := [];
    if errors != 0 {
      return;
    }
    ghost var rank :| WellRanked(t, rank);
    values := Evaluate(t, requests, rank);
    PlainIsSolution(t, rank);
    forall tri | Solves(t, tri)
      ensures Agree(t, requests, values, tri)
    {
      PlainAgrees(t, rank, requests, values, tri);
    }
  }
}
