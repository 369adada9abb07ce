/**
  The rules for the value of a symbol, one by one, as conditions on its fields: which prompt, which
  default, which select and imply decide.  They are met by exactly one set of fields, the one that
  sym_calc_value computes.
 */
module KconfigRules {
  import opened Common
  import opened KconfigExpr
  import opened KconfigTransform
  import opened KconfigMenu
  import opened KconfigSymbols

  /** y for m where m is not allowed: in a bool symbol, and everywhere without modules. */
  predicate Rounded(t: Table, d: Decl, x: Tri, r: Tri) {
    r == if x == 1 && (d.stype == Boolean || (d.stype == Tristate && t.modules == 0)) then 2 else x
  }

  /** The value of a dependency that is n when there is none. */
  function Bound(d: Dep, v: Env): Tri {
    if d.None? then 0 else Val(d.value, v)
  }

  /** r comes from the best visible prompt; n if there is no prompt. */
  ghost predicate BestPrompt(t: Table, d: Decl, v: Env, r: Tri) {
    && (forall i, x: Tri :: 0 <= i < |d.props| && d.props[i].text ==>
          (Rounded(t, d, DepVal(d.props[i].visible, v), x) ==> x <= r))
    && (r != 0 ==>
          exists i :: 0 <= i < |d.props| && d.props[i].text && Rounded(t, d, DepVal(d.props[i].visible, v), r))
  }

  /** Property i is a default whose condition is not n. */
  predicate Active(d: Decl, v: Env, i: nat) {
    i < |d.props| && d.props[i].kind == PDefault && DepVal(d.props[i].visible, v) != 0
  }

  predicate FirstActive(d: Decl, v: Env, i: nat) {
    Active(d, v, i) && forall j: nat :: j < i ==> !Active(d, v, j)
  }

  /** The smaller of the two, the greater of the two. */
  function Min(a: Tri, b: Tri): Tri { if a < b then a else b }

  function Max(a: Tri, b: Tri): Tri { if a < b then b else a }

  /** A default of value x: an imply lifts it as far as the direct dependencies allow, a select beyond them. */
  predicate Settled(t: Table, d: Decl, f: Fields, x: Tri) {
    if f.implied == 0 then Rounded(t, d, Max(x, f.revDep), f.curr)
    else Rounded(t, d, Max(Min(Max(x, f.implied), f.dirDep), f.revDep), f.curr)
  }

  /** The fields of a symbol obey all rules in the valuation v. */
  ghost predicate Meets(t: Table, d: Decl, v: Env, f: Fields) {
    && f.valid && BestPrompt(t, d, v, f.visible)
    && Rounded(t, d, DepVal(d.dirDep, v), f.dirDep)
    && Rounded(t, d, Bound(d.revDep, v), f.revDep)
    && Rounded(t, d, Bound(d.implied, v), f.implied)
    && (f.visible != 0 && d.user.Some? ==> Rounded(t, d, Max(Min(d.user.value, f.visible), f.revDep), f.curr))
    && (!(f.visible != 0 && d.user.Some?) ==>
          && (forall i: nat :: FirstActive(d, v, i) ==>
                Settled(t, d, f, Min(DepVal(d.props[i].expr, v), DepVal(d.props[i].visible, v))))
          && ((forall i: nat :: !Active(d, v, i)) ==> Settled(t, d, f, 0)))
  }

  // ---------------------------------------------------------------- what a symbol depends on

  lemma {:induction false} ExprSymsExact(e: Expr, s: Symbol)
    ensures s in ExprSyms(e) <==> ContainsSymbol(e, s)
  {
    match e
    case Sym(_) =>
    case Cmp(_, _, _) =>
    case Not(x) => ExprSymsExact(x, s);
    case Bin(_, l, r) =>
      ExprSymsExact(l, s);
      ExprSymsExact(r, s);
  }

  predicate DepContains(d: Dep, s: Symbol) {
    d.Some? && ContainsSymbol(d.value, s)
  }

  /** A property depends on its condition and a default on its value, but not a choice, select or imply. */
  predicate PropContains(p: Property, s: Symbol) {
    && p.kind != PChoice && p.kind != PSelect && p.kind != PImply
    && (DepContains(p.visible, s) || (p.kind == PDefault && DepContains(p.expr, s)))
  }

  lemma {:induction false} PropsSymsExact(ps: seq<Property>, s: Symbol)
    ensures s in PropsSyms(ps) <==> exists i :: 0 <= i < |ps| && PropContains(ps[i], s)
  {
    if ps != [] {
      var rest := ps[1..];
      PropsSymsExact(rest, s);
      if ps[0].visible.Some? { ExprSymsExact(ps[0].visible.value, s); }
      if ps[0].expr.Some? { ExprSymsExact(ps[0].expr.value, s); }
      assert s in PropSyms(ps[0]) <==> PropContains(ps[0], s);
      forall i | 0 < i < |ps|
        ensures ps[i] == rest[i - 1]
      {
      }
      if i :| 0 <= i < |rest| && PropContains(rest[i], s) {
        assert PropContains(ps[i + 1], s);
      }
    }
  }

  /** Symbol s depends on d if d is found in its dependencies, in its selects and implies, or in a property. */
  lemma EdgeMeans(t: Table, s: nat, d: nat)
    requires s < |t.decls| && d < |t.decls|
    ensures var sym, of := t.decls[s], Config(d, t.decls[d].stype);
            Edge(t, s, d) <==>
              || DepContains(sym.dirDep, of) || DepContains(sym.revDep, of) || DepContains(sym.implied, of)
              || exists i :: 0 <= i < |sym.props| && PropContains(sym.props[i], of)
  {
    var sym, of := t.decls[s], Config(d, t.decls[d].stype);
    if sym.dirDep.Some? { ExprSymsExact(sym.dirDep.value, of); }
    if sym.revDep.Some? { ExprSymsExact(sym.revDep.value, of); }
    if sym.implied.Some? { ExprSymsExact(sym.implied.value, of); }
    PropsSymsExact(sym.props, of);
  }

  // ---------------------------------------------------------------- what is computed meets them

  lemma {:induction false} PromptBest(ps: seq<Property>, v: Env)
    ensures forall i :: 0 <= i < |ps| && ps[i].text ==> DepVal(ps[i].visible, v) <= PromptValue(ps, v)
    ensures PromptValue(ps, v) != 0 ==>
              exists i :: 0 <= i < |ps| && ps[i].text && DepVal(ps[i].visible, v) == PromptValue(ps, v)
  {
    if ps != [] {
      var rest := ps[1..];
      PromptBest(rest, v);
      forall i | 0 <= i < |ps| && ps[i].text
        ensures DepVal(ps[i].visible, v) <= PromptValue(ps, v)
      {
        if i > 0 {
          assert rest[i - 1] == ps[i];
        }
      }
      if PromptValue(ps, v) != 0 {
        if ps[0].text && DepVal(ps[0].visible, v) == PromptValue(ps, v) {
        } else {
          var i :| 0 <= i < |rest| && rest[i].text && DepVal(rest[i].visible, v) == PromptValue(rest, v);
          assert ps[i + 1] == rest[i];
        }
      }
    }
  }

  lemma {:induction false} FirstDefault(d: Decl, ps: seq<Property>, v: Env, from: nat)
    requires from <= |d.props| && ps == d.props[from..] && forall j: nat :: j < from ==> !Active(d, v, j)
    ensures DefaultProp(ps, v).None? ==> forall i: nat :: !Active(d, v, i)
    ensures DefaultProp(ps, v).Some? ==>
              exists i: nat :: FirstActive(d, v, i) && DefaultProp(ps, v).value == d.props[i]
    decreases |ps|
  {
    if ps != [] {
      assert ps[0] == d.props[from];
      if Active(d, v, from) {
        assert FirstActive(d, v, from);
      } else {
        FirstDefault(d, ps[1..], v, from + 1);
      }
    }
  }

  lemma OneFirst(d: Decl, v: Env, i: nat, j: nat)
    requires FirstActive(d, v, i) && FirstActive(d, v, j)
    ensures i == j
  {
  }

  lemma ComputedVisible(t: Table, d: Decl, v: Env)
    requires d.stype == Boolean || d.stype == Tristate
    ensures BestPrompt(t, d, v, Compute(t, d, v).visible)
  {
    var x, r := PromptValue(d.props, v), Compute(t, d, v).visible;
    PromptBest(d.props, v);
    if r != 0 {
      var i :| 0 <= i < |d.props| && d.props[i].text && DepVal(d.props[i].visible, v) == x;
      assert Rounded(t, d, DepVal(d.props[i].visible, v), r);
    }
  }

  lemma ComputedDefault(t: Table, d: Decl, v: Env)
    requires d.stype == Boolean || d.stype == Tristate
    ensures var f := Compute(t, d, v);
            !(f.visible != 0 && d.user.Some?) ==>
              && (forall i: nat :: FirstActive(d, v, i) ==>
                    Settled(t, d, f, Min(DepVal(d.props[i].expr, v), DepVal(d.props[i].visible, v))))
              && ((forall i: nat :: !Active(d, v, i)) ==> Settled(t, d, f, 0))
  {
    var f, p := Compute(t, d, v), DefaultProp(d.props, v);
    assert d.props == d.props[0..];
    FirstDefault(d, d.props, v, 0);
    if !(f.visible != 0 && d.user.Some?) {
      if p.Some? {
        var k: nat :| FirstActive(d, v, k) && p.value == d.props[k];
        assert Active(d, v, k);
      }
      forall i: nat | FirstActive(d, v, i)
        ensures Settled(t, d, f, Min(DepVal(d.props[i].expr, v), DepVal(d.props[i].visible, v)))
      {
        var j: nat :| FirstActive(d, v, j) && p.value == d.props[j];
        OneFirst(d, v, i, j);
      }
    }
  }

  /** Two sets of fields that obey all rules are the same. */
  lemma MeetsUnique(t: Table, d: Decl, v: Env, f: Fields, g: Fields)
    requires Meets(t, d, v, f) && Meets(t, d, v, g)
    ensures f == g
  {
    assert f.visible == g.visible;
    if !(f.visible != 0 && d.user.Some?) && exists i: nat :: Active(d, v, i) {
      var i: nat :| Active(d, v, i);
      var j := LeastActive(d, v, i);
      assert FirstActive(d, v, j);
    }
  }

  lemma {:induction false} LeastActive(d: Decl, v: Env, i: nat) returns (j: nat)
    requires Active(d, v, i)
    ensures FirstActive(d, v, j)
  {
    j := i;
    if k: nat :| k < i && Active(d, v, k) {
      j := LeastActive(d, v, k);
    }
  }

  /** The rules determine the fields, and sym_calc_value computes them. */
  lemma MeetsExact(t: Table, d: Decl, v: Env, f: Fields)
    requires d.stype == Boolean || d.stype == Tristate
    ensures Meets(t, d, v, f) <==> f == Compute(t, d, v)
  {
    ComputedVisible(t, d, v);
    ComputedDefault(t, d, v);
    assert Meets(t, d, v, Compute(t, d, v));
    if Meets(t, d, v, f) {
      MeetsUnique(t, d, v, f, Compute(t, d, v));
    }
  }

  /** The plain recursive values obey the rules in the valuation they define together. */
  lemma PlainMeets(t: Table, rank: seq<nat>, s: nat)
    requires WellFormed(t) && WellRanked(t, rank) && s < |t.decls|
    ensures Meets(t, t.decls[s], PlainEnv(t, rank), Plain(t, rank, s))
  {
    PlainSolves(t, rank, s);
    MeetsExact(t, t.decls[s], PlainEnv(t, rank), Plain(t, rank, s));
  }
}
