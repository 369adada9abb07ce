/**
  Configuration symbols: what sym_calc_value of symbol.c computes for a bool or tristate symbol
  outside choices, given the values of the symbols it depends on, and the plain recursive
  definition of all values when the dependencies are acyclic.
 */
module KconfigSymbols {
  import opened Common
  import opened KconfigExpr
  import opened KconfigMenu

  datatype PropKind =
    | PPrompt | PComment | PMenu | PDefault | PChoice | PSelect | PImply | PRange | PSymbol

  /** struct property: text is whether there is a prompt text, expr the conditional part. */
  datatype Property = Property(kind: PropKind, text: bool, visible: Dep, expr: Dep)

  /** What the Kconfig files and the .config file say about a symbol; user is def[S_DEF_USER]. */
  datatype Decl = Decl(stype: SymType, props: seq<Property>, dirDep: Dep, revDep: Dep, implied: Dep,
                       user: Option<Tri>)

  /**
    All declarations, the value of modules_val, and the string comparison of two symbols as a
    function of the symbols and their tristate values.
   */
  datatype Table = Table(decls: seq<Decl>, modules: Tri, compare: (Symbol, Tri, Symbol, Tri) -> int)

  /** The fields of struct symbol that evaluation writes. */
  datatype Fields = Fields(valid: bool, curr: Tri, visible: Tri, dirDep: Tri, revDep: Tri, implied: Tri)

  // ---------------------------------------------------------------- dependencies

  function ExprSyms(e: Expr): seq<Symbol> {
    match e
    case Sym(s) => [s]
    case Cmp(_, s, t) => [s, t]
    case Not(x) => ExprSyms(x)
    case Bin(_, l, r) => ExprSyms(l) + ExprSyms(r)
  }

  function DepSyms(d: Dep): seq<Symbol> {
    if d.None? then [] else ExprSyms(d.value)
  }

  /** The symbols a property makes its owner depend on, in the order sym_check_sym_deps visits them. */
  function PropSyms(p: Property): seq<Symbol> {
    if p.kind == PChoice || p.kind == PSelect || p.kind == PImply then []
    else DepSyms(p.visible) + (if p.kind == PDefault then DepSyms(p.expr) else [])
  }

  function PropsSyms(ps: seq<Property>): seq<Symbol> {
    if ps == [] then [] else PropSyms(ps[0]) + PropsSyms(ps[1..])
  }

  function DeclSyms(d: Decl): seq<Symbol> {
    DepSyms(d.dirDep) + DepSyms(d.revDep) + DepSyms(d.implied) + PropsSyms(d.props)
  }

  /** A symbol the evaluator looks up in the table; any other one has a fixed value. */
  predicate InTable(t: Table, s: Symbol) {
    s.Config? && s.id < |t.decls| && s.stype == t.decls[s.id].stype
  }

  /** s depends directly on d. */
  predicate Edge(t: Table, s: nat, d: nat) {
    s < |t.decls| && d < |t.decls| && Config(d, t.decls[d].stype) in DeclSyms(t.decls[s])
  }

  ghost predicate WellRanked(t: Table, rank: seq<nat>) {
    |rank| == |t.decls| && forall s: nat, d: nat :: Edge(t, s, d) ==> rank[d] < rank[s]
  }

  ghost predicate Acyclic(t: Table) {
    exists rank :: WellRanked(t, rank)
  }

  predicate WellFormed(t: Table) {
    forall i :: 0 <= i < |t.decls| ==>
      && (t.decls[i].stype == Boolean || t.decls[i].stype == Tristate)
      && forall p :: p in t.decls[i].props ==>
           && (p.text ==> p.kind == PPrompt || p.kind == PMenu || p.kind == PComment)
           && (p.kind == PDefault ==> p.expr.Some?)
  }

  // ---------------------------------------------------------------- one symbol

  /** sym_get_type for a symbol that is not a choice value. */
  function EffectiveType(t: Table, st: SymType): SymType {
    if st == Tristate && t.modules == 0 then Boolean else st
  }

  /** m becomes y for a symbol that is bool in effect. */
  function Round(t: Table, st: SymType, x: Tri): Tri {
    if x == 1 && EffectiveType(t, st) == Boolean then 2 else x
  }

  /** The best visibility among the prompts. */
  function PromptValue(ps: seq<Property>, v: Env): Tri {
    if ps == [] then 0
    else
      var rest := PromptValue(ps[1..], v);
      if ps[0].text then Apply(Or, DepVal(ps[0].visible, v), rest) else rest
  }

  /** sym_get_default_prop: the first default whose condition is not n. */
  function DefaultProp(ps: seq<Property>, v: Env): Option<Property> {
    if ps == [] then None
    else if ps[0].kind == PDefault && DepVal(ps[0].visible, v) != 0 then Some(ps[0])
    else DefaultProp(ps[1..], v)
  }

  /** The value sym_calc_value arrives at from the fields computed by sym_calc_visibility. */
  function NewValue(t: Table, d: Decl, f: Fields, v: Env): Tri {
    var base: Tri :=
      if f.visible != 0 && d.user.Some? then Apply(And, d.user.value, f.visible)
      else
        var p := DefaultProp(d.props, v);
        var x: Tri := if p.Some? then Apply(And, DepVal(p.value.expr, v), DepVal(p.value.visible, v)) else 0;
        if f.implied != 0 then Apply(And, Apply(Or, x, f.implied), f.dirDep) else x;
    Round(t, d.stype, Apply(Or, base, f.revDep))
  }

  /** sym_calc_visibility, outside choices. */
  function Visibility(t: Table, d: Decl, f: Fields, v: Env): Fields {
    f.(visible := Round(t, d.stype, PromptValue(d.props, v)),
       dirDep := Round(t, d.stype, DepVal(d.dirDep, v)),
       revDep := Round(t, d.stype, if d.revDep.None? then 0 else DepVal(d.revDep, v)),
       implied := Round(t, d.stype, if d.implied.None? then 0 else DepVal(d.implied, v)))
  }

  /** All fields after sym_calc_value, as a function of the valuation v of the dependencies. */
  function Compute(t: Table, d: Decl, v: Env): Fields {
    var f := Visibility(t, d, Fields(true, 0, 0, 0, 0, 0), v);
    f.(curr := NewValue(t, d, f, v))
  }

  /**
    A select is honoured; a symbol that is bool in effect is never m; a user value counts only
    for a visible symbol, and then lifts the value no higher than the visibility or a select.
   */
  lemma ComputeBounds(t: Table, d: Decl, v: Env)
    ensures var f := Compute(t, d, v);
            && f.revDep <= f.curr
            && (EffectiveType(t, d.stype) == Boolean ==> f.curr != 1)
            && (f.visible == 0 ==> f == Compute(t, d.(user := None), v))
            && (f.visible != 0 && d.user.Some? ==> f.curr <= Apply(Or, f.visible, f.revDep))
  {}

  // ---------------------------------------------------------------- locality

  ghost predicate AgreeOn(ss: seq<Symbol>, v: Env, w: Env) {
    && (forall s :: s in ss ==> v.tri(s) == w.tri(s))
    && (forall s, u :: s in ss && u in ss ==> v.cmp(s, u) == w.cmp(s, u))
  }

  lemma {:induction false} ValLocal(e: Expr, v: Env, w: Env)
    requires AgreeOn(ExprSyms(e), v, w)
    ensures Val(e, v) == Val(e, w)
  {
    match e
    case Sym(s) =>
    case Cmp(_, s, u) => assert s in ExprSyms(e) && u in ExprSyms(e);
    case Not(x) => ValLocal(x, v, w);
    case Bin(_, l, r) =>
      ValLocal(l, v, w);
      ValLocal(r, v, w);
  }

  lemma DepLocal(d: Dep, v: Env, w: Env)
    requires AgreeOn(DepSyms(d), v, w)
    ensures DepVal(d, v) == DepVal(d, w)
  {
    if d.Some? {
      ValLocal(d.value, v, w);
    }
  }

  lemma {:induction false} PropsLocal(ps: seq<Property>, v: Env, w: Env)
    requires AgreeOn(PropsSyms(ps), v, w)
    requires forall p :: p in ps ==> (p.text ==> p.kind == PPrompt || p.kind == PMenu || p.kind == PComment)
    ensures PromptValue(ps, v) == PromptValue(ps, w)
    ensures DefaultProp(ps, v) == DefaultProp(ps, w)
    ensures var p := DefaultProp(ps, v); p.Some? ==>
              && DepVal(p.value.visible, v) == DepVal(p.value.visible, w)
              && DepVal(p.value.expr, v) == DepVal(p.value.expr, w)
  {
    if ps != [] {
      var p := ps[0];
      if p.text || p.kind == PDefault {
        assert forall s :: s in DepSyms(p.visible) ==> s in PropSyms(p);
        DepLocal(p.visible, v, w);
      }
      if p.kind == PDefault {
        assert forall s :: s in DepSyms(p.expr) ==> s in PropSyms(p);
        DepLocal(p.expr, v, w);
      }
      PropsLocal(ps[1..], v, w);
    }
  }

  /** A symbol's fields are determined by the values of the symbols it depends on. */
  lemma ComputeLocal(t: Table, s: nat, v: Env, w: Env)
    requires WellFormed(t) && s < |t.decls| && AgreeOn(DeclSyms(t.decls[s]), v, w)
    ensures Compute(t, t.decls[s], v) == Compute(t, t.decls[s], w)
  {
    var d := t.decls[s];
    DepLocal(d.dirDep, v, w);
    DepLocal(d.revDep, v, w);
    DepLocal(d.implied, v, w);
    PropsLocal(d.props, v, w);
  }

  // ---------------------------------------------------------------- all symbols

  /** The value of a symbol that is not in the table: a constant's own value, n otherwise. */
  function Fixed(s: Symbol): Tri {
    match s
    case Yes => 2
    case Mod => 1
    case _ => 0
  }

  function MakeEnv(t: Table, tri: Symbol -> Tri): Env {
    Env(tri, (a, b) => t.compare(a, tri(a), b, tri(b)))
  }

  /** The plain, unmemoised recursive definition of every symbol's fields. */
  function Plain(t: Table, rank: seq<nat>, s: nat): Fields
    requires |rank| == |t.decls| && s < |t.decls|
    decreases rank[s]
  {
    Compute(t, t.decls[s], MakeEnv(t, x =>
      if InTable(t, x) && rank[x.id] < rank[s] then Plain(t, rank, x.id).curr else Fixed(x)))
  }

  function PlainTri(t: Table, rank: seq<nat>, x: Symbol): Tri
    requires |rank| == |t.decls|
  {
    if InTable(t, x) then Plain(t, rank, x.id).curr else Fixed(x)
  }

  /** The valuation all symbols together define. */
  function PlainEnv(t: Table, rank: seq<nat>): Env
    requires |rank| == |t.decls|
  {
    MakeEnv(t, x => PlainTri(t, rank, x))
  }

  lemma {:induction false} PropsSymsIn(ps: seq<Property>, i: nat, s: Symbol)
    requires i < |ps| && s in PropSyms(ps[i])
    ensures s in PropsSyms(ps)
  {
    if i > 0 {
      PropsSymsIn(ps[1..], i - 1, s);
    }
  }

  /** Every symbol's fields are the ones its declaration gives in the common valuation. */
  lemma PlainSolves(t: Table, rank: seq<nat>, s: nat)
    requires WellFormed(t) && WellRanked(t, rank) && s < |t.decls|
    ensures Plain(t, rank, s) == Compute(t, t.decls[s], PlainEnv(t, rank))
  {
    var below := MakeEnv(t, x =>
      if InTable(t, x) && rank[x.id] < rank[s] then Plain(t, rank, x.id).curr else Fixed(x));
    forall x | x in DeclSyms(t.decls[s])
      ensures below.tri(x) == PlainEnv(t, rank).tri(x)
    {
      if InTable(t, x) {
        assert Edge(t, s, x.id);
      }
    }
    ComputeLocal(t, s, below, PlainEnv(t, rank));
  }

  /** The definition does not depend on which ranking witnesses acyclicity: the solution is unique. */
  lemma {:induction false} SolutionUnique(t: Table, rank: seq<nat>, tri: Symbol -> Tri, s: nat)
    requires WellFormed(t) && WellRanked(t, rank) && s < |t.decls|
    requires forall x :: tri(x) == if InTable(t, x) then Compute(t, t.decls[x.id], MakeEnv(t, tri)).curr else Fixed(x)
    ensures tri(Config(s, t.decls[s].stype)) == Plain(t, rank, s).curr
    decreases rank[s]
  {
    forall x | x in DeclSyms(t.decls[s])
      ensures tri(x) == PlainEnv(t, rank).tri(x)
    {
      if InTable(t, x) {
        assert Edge(t, s, x.id);
        SolutionUnique(t, rank, tri, x.id);
        assert x == Config(x.id, t.decls[x.id].stype);
      }
    }
    ComputeLocal(t, s, MakeEnv(t, tri), PlainEnv(t, rank));
    PlainSolves(t, rank, s);
    assert tri(Config(s, t.decls[s].stype)) == Compute(t, t.decls[s], MakeEnv(t, tri)).curr;
  }

  /** The comparison of a bool or tristate value with a constant, and of y, m and n. */
  ghost predicate ProperCompare(t: Table) {
    && (forall s, x: Tri, c, y: Tri {:trigger t.compare(s, x, c, y)} ::
          (TypeOf(s) == Boolean || TypeOf(s) == Tristate) && IsConst(c) ==>
            (t.compare(s, x, c, y) == 0 <==> Reading(c) == Some(x)))
    && (forall s, x: Tri, c, y: Tri {:trigger t.compare(s, x, c, y)} ::
          IsTri(s) && IsTri(c) ==> (t.compare(s, x, c, y) == 0 <==> s == c))
  }

  /**
    In the common valuation a select is honoured, a symbol that is bool in effect is never m,
    and a user value lifts a visible symbol no higher than its visibility or a select.
   */
  lemma PlainBounds(t: Table, rank: seq<nat>, s: nat)
    requires WellFormed(t) && WellRanked(t, rank) && s < |t.decls|
    ensures var f, d, v := Plain(t, rank, s), t.decls[s], PlainEnv(t, rank);
            && (d.revDep.Some? ==> DepVal(d.revDep, v) <= f.curr)
            && (EffectiveType(t, d.stype) == Boolean ==> f.curr != 1)
            && (d.user.Some? && f.visible != 0 ==> f.curr <= Apply(Or, f.visible, f.revDep))
  {
    PlainSolves(t, rank, s);
    ComputeBounds(t, t.decls[s], PlainEnv(t, rank));
  }

  /** The computed values satisfy what the expression passes assume: no bool symbol is m. */
  lemma PlainEnvProper(t: Table, rank: seq<nat>)
    requires WellFormed(t) && WellRanked(t, rank) && ProperCompare(t)
    ensures Proper(PlainEnv(t, rank))
  {
    var v := PlainEnv(t, rank);
    forall i: nat
      ensures v.tri(Config(i, Boolean)) != 1
    {
      var x := Config(i, Boolean);
      if InTable(t, x) {
        PlainSolves(t, rank, i);
        ComputeBounds(t, t.decls[i], v);
      }
    }
  }
}
