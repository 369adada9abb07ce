/**
  The recursive-dependency check of symbol.c: sym_check_deps and its helpers walk the dependencies
  depth first, marking symbols SYMBOL_CHECK while they are on the stack and SYMBOL_CHECKED for good.
 */
module KconfigCheck {
  import opened Common
  import opened KconfigExpr
  import opened KconfigMenu
  import opened KconfigSymbols

  ghost predicate IsPath(t: Table, p: seq<nat>) {
    forall i :: 0 <= i < |p| - 1 ==> Edge(t, p[i], p[i + 1])
  }

  /** s depends on itself through the symbols of p. */
  ghost predicate CycleThrough(t: Table, s: nat, p: seq<nat>) {
    |p| >= 2 && p[0] == s && p[|p| - 1] == s && IsPath(t, p)
  }

  ghost predicate OnCycle(t: Table, s: nat) {
    exists p :: CycleThrough(t, s, p)
  }

  /** Ranks fall along a path. */
  lemma {:induction false} PathFalls(t: Table, rank: seq<nat>, p: seq<nat>)
    requires WellRanked(t, rank) && |p| >= 2 && IsPath(t, p)
    ensures p[0] < |rank| && p[|p| - 1] < |rank| && rank[p[|p| - 1]] < rank[p[0]]
  {
    assert Edge(t, p[0], p[1]);
    if |p| > 2 {
      var q := p[1..];
      forall i | 0 <= i < |q| - 1
        ensures Edge(t, q[i], q[i + 1])
      {
        var j := i + 1;
        assert Edge(t, p[j], p[j + 1]);
      }
      PathFalls(t, rank, p[1..]);
    }
  }

  lemma AcyclicHasNoCycle(t: Table, s: nat)
    requires Acyclic(t)
    ensures !OnCycle(t, s)
  {
    var rank :| WellRanked(t, rank);
    if OnCycle(t, s) {
      var p :| CycleThrough(t, s, p);
      PathFalls(t, rank, p);
    }
  }

  /** Every symbol of the sequence depends only on symbols before it. */
  ghost predicate Ordered(t: Table, done: seq<nat>) {
    && (forall i :: 0 <= i < |done| ==> done[i] < |t.decls|)
    && (forall i, d :: 0 <= i < |done| && Edge(t, done[i], d) ==> d in done[..i])
  }

  lemma {:induction false} FirstIndex(s: nat, xs: seq<nat>, j: nat)
    requires j < |xs| && xs[j] == s
    ensures s in xs && IndexOf(s, xs) <= j
  {
    if xs[0] != s {
      FirstIndex(s, xs[1..], j - 1);
    }
  }

  lemma OrderedIsAcyclic(t: Table, done: seq<nat>)
    requires Ordered(t, done) && forall s :: 0 <= s < |t.decls| ==> s in done
    ensures Acyclic(t)
  {
    var rank := seq(|t.decls|, s requires 0 <= s < |t.decls| => IndexOf(s, done));
    forall s: nat, d: nat | Edge(t, s, d)
      ensures rank[d] < rank[s]
    {
      var i := IndexOf(s, done);
      assert d in done[..i];
      var j :| 0 <= j < i && done[j] == d;
      FirstIndex(d, done, j);
    }
    assert WellRanked(t, rank);
  }

  lemma PushPath(t: Table, p: seq<nat>, s: nat)
    requires IsPath(t, p) && (|p| > 0 ==> Edge(t, p[|p| - 1], s))
    ensures IsPath(t, p + [s]) && forall x :: x in p + [s] <==> x in p || x == s
  {
    var q := p + [s];
    forall i | 0 <= i < |q| - 1
      ensures Edge(t, q[i], q[i + 1])
    {
      if i < |p| - 1 {
        assert Edge(t, p[i], p[i + 1]);
      }
    }
  }

  ghost predicate Within(ss: seq<Symbol>, tt: seq<Symbol>) {
    forall x :: x in ss ==> x in tt
  }

  lemma {:induction false} PropsSymsAt(ps: seq<Property>, i: nat)
    requires i < |ps|
    ensures Within(PropSyms(ps[i]), PropsSyms(ps))
    ensures PropsSyms(ps[..i + 1]) == PropsSyms(ps[..i]) + PropSyms(ps[i])
  {
    if i == 0 {
      assert ps[..1] == [ps[0]] && ps[..1][1..] == [];
    } else {
      PropsSymsAt(ps[1..], i - 1);
      assert ps[..i][1..] == ps[1..][..i - 1] && ps[..i + 1][1..] == ps[1..][..i];
    }
  }

  /** The checks of all table symbols in ss have ended. */
  ghost predicate Ended(t: Table, ss: seq<Symbol>, checked: set<nat>, check: set<nat>) {
    forall x :: x in ss && InTable(t, x) ==> x.id in checked && x.id !in check
  }

  lemma EndedStays(t: Table, ss: seq<Symbol>, before: set<nat>, after: set<nat>, check: set<nat>)
    requires Ended(t, ss, before, check) && before <= after
    ensures Ended(t, ss, after, check)
  {}

  lemma EndedBoth(t: Table, a: seq<Symbol>, b: seq<Symbol>, checked: set<nat>, check: set<nat>)
    requires Ended(t, a, checked, check) && Ended(t, b, checked, check)
    ensures Ended(t, a + b, checked, check)
  {}

  class DepChecker {
    const t: Table
    /** SYMBOL_CHECK and SYMBOL_CHECKED. */
    var check: set<nat>
    var checked: set<nat>
    /** The symbols of the dep_stack chain, bottom first. */
    var stack: seq<nat>
    /** The symbols whose check has ended, in that order. */
    ghost var done: seq<nat>
    /** No cycle has been met so far. */
    ghost var clean: bool

    constructor (t: Table)
      ensures this.t == t && Inv() && clean && stack == [] && checked == {}
    {
      this.t := t;
      check, checked, stack, done, clean := {}, {}, [], [], true;
    }

    ghost predicate Inv()
      reads this
    {
      && (forall s :: s in checked ==> s < |t.decls|)
      && check <= checked
      && (forall s :: s in check <==> s in stack)
      && IsPath(t, stack)
      && (clean ==> Ordered(t, done) && forall s :: s in done <==> s in checked && s !in check)
    }

    ghost function Unchecked(): set<nat>
      reads this
    {
      Below(|t.decls|) - checked
    }

    ghost predicate Finished(ss: seq<Symbol>)
      reads this
    {
      Ended(t, ss, checked, check)
    }

    /** What every check does to the state, and what its result means. */
    twostate predicate Checked(new r: Option<nat>)
      reads this
    {
      && Inv() && stack == old(stack) && check == old(check) && old(checked) <= checked
      && (r.Some? ==> !clean && OnCycle(t, r.value))
      && (r.None? ==> clean == old(clean))
    }

    /** All symbols of ss are dependencies of the symbol on top of the stack. */
    ghost predicate TopNeeds(ss: seq<Symbol>)
      reads this`stack
    {
      |stack| > 0 && stack[|stack| - 1] < |t.decls|
      && Within(ss, DeclSyms(t.decls[stack[|stack| - 1]]))
    }

    /** The symbols from s upwards on the stack, closed by the dependency back to s. */
    lemma StackCycle(s: nat)
      requires Inv() && s in check && |stack| > 0 && Edge(t, stack[|stack| - 1], s)
      ensures OnCycle(t, s)
    {
      var i :| 0 <= i < |stack| && stack[i] == s;
      var p := stack[i..] + [s];
      forall j | 0 <= j < |p| - 1
        ensures Edge(t, p[j], p[j + 1])
      {
        if j < |p| - 2 {
          assert p[j] == stack[i + j] && p[j + 1] == stack[i + j + 1];
          assert Edge(t, stack[i + j], stack[i + j + 1]);
        }
      }
      assert CycleThrough(t, s, p);
    }

    /** sym_check_deps, on a symbol the top of the stack depends on. */
    method CheckSymbol(x: Symbol, ghost room: set<nat>) returns (r: Option<nat>)
      requires Inv() && Unchecked() <= room && TopNeeds([x])
      modifies this
      ensures Checked(r)
      ensures r.None? ==> Finished([x])
      decreases room, 2
    {
      if InTable(t, x) {
        assert x in [x] && x == Config(x.id, t.decls[x.id].stype);
        r := CheckDeps(x.id, room);
      } else {
        r := None;
      }
    }

    /** sym_check_expr_deps. */
    method CheckDep(d: Dep, ghost room: set<nat>) returns (r: Option<nat>)
      requires Inv() && Unchecked() <= room && TopNeeds(DepSyms(d))
      modifies this
      ensures Checked(r)
      ensures r.None? ==> Finished(DepSyms(d))
      decreases room, 5
    {
      if d.None? {
        r := None;
      } else {
        r := CheckExpr(d.value, room);
      }
    }

    /** The two symbols of a comparison. */
    method CheckPair(a: Symbol, b: Symbol, ghost room: set<nat>) returns (r: Option<nat>)
      requires Inv() && Unchecked() <= room && TopNeeds([a, b])
      modifies this
      ensures Checked(r)
      ensures r.None? ==> Finished([a, b])
      decreases room, 3
    {
      assert a in [a, b] && b in [a, b] && Within([a], [a, b]) && Within([b], [a, b]);
      r := CheckSymbol(a, room);
      if r.Some? { return; }
      r := CheckSymbol(b, room);
    }

    method CheckExpr(e: Expr, ghost room: set<nat>) returns (r: Option<nat>)
      requires Inv() && Unchecked() <= room && TopNeeds(ExprSyms(e))
      modifies this
      ensures Checked(r)
      ensures r.None? ==> Finished(ExprSyms(e))
      decreases room, 4, e
    {
      match e
      case Sym(s) =>
        assert ExprSyms(e) == [s];
        r := CheckSymbol(s, room);
      case Cmp(_, a, b) =>
        r := CheckPair(a, b, room);
      case Not(x) =>
        r := CheckExpr(x, room);
      case Bin(_, left, right) =>
        assert ExprSyms(e) == ExprSyms(left) + ExprSyms(right);
        NeedsParts(ExprSyms(left), ExprSyms(right));
        r := CheckExpr(left, room);
        if r.Some? { return; }
        ghost var before := checked;
        r := CheckExpr(right, room);
        if r.Some? { return; }
        EndedStays(t, ExprSyms(left), before, checked, check);
        EndedBoth(t, ExprSyms(left), ExprSyms(right), checked, check);
    }

    /** What needs both needs each of them, as long as the stack stays. */
    lemma NeedsParts(a: seq<Symbol>, b: seq<Symbol>)
      requires TopNeeds(a + b)
      ensures TopNeeds(a) && TopNeeds(b)
    {
    }

    /** One round of the property loop of sym_check_sym_deps. */
    method CheckProp(p: Property, ghost room: set<nat>) returns (r: Option<nat>)
      requires Inv() && Unchecked() <= room && TopNeeds(PropSyms(p))
      modifies this
      ensures Checked(r)
      ensures r.None? ==> Finished(PropSyms(p))
      decreases room, 6
    {
      if p.kind == PChoice || p.kind == PSelect || p.kind == PImply {
        return None;
      }
      assert Within(DepSyms(p.visible), PropSyms(p));
      r := CheckDep(p.visible, room);
      if r.Some? || p.kind != PDefault { return; }
      assert Within(DepSyms(p.expr), PropSyms(p));
      r := CheckDep(p.expr, room);
    }

    /** A round, with what the ones before it have finished. */
    method CheckNext(ps: seq<Property>, i: nat, ghost room: set<nat>) returns (r: Option<nat>)
      requires Inv() && Unchecked() <= room && i < |ps| && TopNeeds(PropsSyms(ps)) && Finished(PropsSyms(ps[..i]))
      modifies this
      ensures Checked(r)
      ensures r.None? ==> Finished(PropsSyms(ps[..i + 1]))
      decreases room, 7
    {
      PropsSymsAt(ps, i);
      ghost var before := checked;
      r := CheckProp(ps[i], room);
      if r.Some? { return; }
      EndedStays(t, PropsSyms(ps[..i]), before, checked, check);
      EndedBoth(t, PropsSyms(ps[..i]), PropSyms(ps[i]), checked, check);
    }

    /** The property loop of sym_check_sym_deps. */
    method CheckProps(ps: seq<Property>, ghost room: set<nat>) returns (r: Option<nat>)
      requires Inv() && Unchecked() <= room && TopNeeds(PropsSyms(ps))
      modifies this
      ensures Checked(r)
      ensures r.None? ==> Finished(PropsSyms(ps))
      decreases room, 8
    {
      r := None;
      for i := 0 to |ps|
        invariant r.None? && Checked(r) && Finished(PropsSyms(ps[..i]))
      {
        r := CheckNext(ps, i, room);
        if r.Some? { return; }
      }
      assert ps[..|ps|] == ps;
    }

    /** sym_check_sym_deps, with the symbol already pushed. */
    method CheckSymDeps(s: nat, ghost room: set<nat>) returns (r: Option<nat>)
      requires Inv() && Unchecked() <= room && |stack| > 0 && stack[|stack| - 1] == s && s < |t.decls|
      modifies this
      ensures Checked(r)
      ensures r.None? ==> Finished(DeclSyms(t.decls[s]))
      decreases room, 9
    {
      var d := t.decls[s];
      r := CheckDep(d.dirDep, room);
      if r.Some? { return; }
      r := CheckDep(d.revDep, room);
      if r.Some? { return; }
      r := CheckDep(d.implied, room);
      if r.Some? { return; }
      r := CheckProps(d.props, room);
    }

    /** sym_check_deps for a symbol outside choices. */
    method CheckDeps(s: nat, ghost room: set<nat>) returns (r: Option<nat>)
      requires Inv() && Unchecked() <= room && s < |t.decls|
      requires |stack| > 0 ==> Edge(t, stack[|stack| - 1], s)
      requires stack == [] ==> check == {}
      modifies this
      ensures Checked(r)
      ensures r.None? ==> s in checked && s !in check
      decreases room, 1
    {
      if s in check {
        StackCycle(s);
        clean := false;
        return Some(s);
      }
      if s in checked {
        return None;
      }
      r := Visit(s, room);
    }

    /** The check of a symbol met for the first time. */
    method Visit(s: nat, ghost room: set<nat>) returns (r: Option<nat>)
      requires Inv() && Unchecked() <= room && s < |t.decls| && s !in checked
      requires |stack| > 0 ==> Edge(t, stack[|stack| - 1], s)
      modifies this
      ensures Checked(r)
      ensures r.None? ==> s in checked && s !in check
      decreases room, 0
    {
      ghost var below := stack;
      assert s in Unchecked();
      Enter(s);
      r := CheckSymDeps(s, room - {s});
      assert s !in stack[..|stack| - 1] by { assert stack[..|stack| - 1] == below; }
      Leave(s, r.None?);
      assert stack == below;
    }

    /** dep_stack_insert and the setting of both flags. */
    method Enter(s: nat)
      requires Inv() && s < |t.decls| && s !in checked
      requires |stack| > 0 ==> Edge(t, stack[|stack| - 1], s)
      modifies this`stack, this`check, this`checked
      ensures Inv() && stack == old(stack) + [s] && check == old(check) + {s} && checked == old(checked) + {s}
    {
      PushPath(t, stack, s);
      check, checked := check + {s}, checked + {s};
      stack := stack + [s];
    }

    /** dep_stack_remove and the clearing of SYMBOL_CHECK. */
    method Leave(s: nat, ghost ok: bool)
      requires Inv() && |stack| > 0 && stack[|stack| - 1] == s && s < |t.decls| && s !in stack[..|stack| - 1]
      requires if ok then Finished(DeclSyms(t.decls[s])) else !clean
      modifies this`stack, this`check, this`done
      ensures Inv() && stack == old(stack)[..|old(stack)| - 1] && check == old(check) - {s}
    {
      if clean {
        Extend(done, s);
      }
      done := if ok then done + [s] else done;
      stack := stack[..|stack| - 1];
      check := check - {s};
    }

    lemma Extend(order: seq<nat>, s: nat)
      requires s < |t.decls| && Ordered(t, order)
      requires forall x :: x in DeclSyms(t.decls[s]) && InTable(t, x) ==> x.id in order
      ensures Ordered(t, order + [s])
    {
      var all := order + [s];
      forall i, d: nat | 0 <= i < |all| && Edge(t, all[i], d)
        ensures d in all[..i]
      {
        if i < |order| {
          assert all[..i] == order[..i];
        } else {
          assert all[..i] == order;
          assert InTable(t, Config(d, t.decls[d].stype));
        }
      }
    }

    /**
      The loop over all symbols at the end of parsing: no symbol reports an error exactly
      when the dependencies are acyclic.
     */
    method CheckAll() returns (errors: nat)
      requires Inv() && clean && stack == []
      modifies this
      ensures errors == 0 <==> Acyclic(t)
    {
      errors := 0;
      var s := 0;
      while s < |t.decls|
        invariant 0 <= s <= |t.decls| && Inv() && stack == []
        invariant errors == 0 ==> clean && forall i :: 0 <= i < s ==> i in checked
        invariant errors > 0 ==> exists i :: OnCycle(t, i)
      {
        var r := CheckDeps(s, Unchecked());
        if r.Some? {
          errors := errors + 1;
        }
        s := s + 1;
      }
      if errors == 0 {
        OrderedIsAcyclic(t, done);
      } else if Acyclic(t) {
        var i :| OnCycle(t, i);
        AcyclicHasNoCycle(t, i);
      }
    }
  }
}
