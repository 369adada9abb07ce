/**
  Choice blocks in symbol.c: sym_calc_choice picks a member when the choice is y, and each
  member's value then follows from the pick.
 */
module KconfigChoice {
  import opened Common
  import opened KconfigExpr
  import opened KconfigMenu

  /** A member: its type, the conditions of its prompts, and its user value. */
  datatype Member = Member(stype: SymType, prompts: seq<Dep>, user: Option<Tri>)

  /** A default of the choice: its condition and the member it names. */
  datatype ChoiceDefault = ChoiceDefault(cond: Dep, member: nat)

  /** sym_calc_visibility for a member, given the value of its choice. */
  function MemberVisible(m: Member, choice: Tri, modules: Tri, v: Env): Tri {
    var tri := BestPrompt(m, m.prompts, choice, v);
    if tri == 1 && (m.stype != Tristate || modules == 0) then 2 else tri
  }

  function BestPrompt(m: Member, ps: seq<Dep>, choice: Tri, v: Env): Tri {
    if ps == [] then 0
    else
      var x := DepVal(ps[0], v);
      Apply(Or, if m.stype == Tristate && x == 1 && choice == 2 then 0 else x,
            BestPrompt(m, ps[1..], choice, v))
  }

  /** Under a choice that is y, a member is either fully visible or not at all. */
  lemma {:induction false} MemberVisibleYn(m: Member, modules: Tri, v: Env)
    ensures MemberVisible(m, 2, modules, v) != 1
  {
    TristateBest(m, m.prompts, v);
  }

  /** It is visible by a prompt that is y, or by one that is m unless the member is tristate. */
  lemma MemberVisibleExact(m: Member, modules: Tri, v: Env)
    ensures MemberVisible(m, 2, modules, v) == 2 <==>
              exists j :: 0 <= j < |m.prompts| &&
                (DepVal(m.prompts[j], v) == 2 || (DepVal(m.prompts[j], v) == 1 && m.stype != Tristate))
  {
    MemberVisibleYn(m, modules, v);
    PromptsExact(m, m.prompts, v);
  }

  lemma {:induction false} PromptsExact(m: Member, ps: seq<Dep>, v: Env)
    ensures BestPrompt(m, ps, 2, v) != 0 <==>
              exists j :: 0 <= j < |ps| && (DepVal(ps[j], v) == 2 || (DepVal(ps[j], v) == 1 && m.stype != Tristate))
  {
    if ps != [] {
      var rest := ps[1..];
      PromptsExact(m, rest, v);
      if BestPrompt(m, rest, 2, v) != 0 {
        var j :| 0 <= j < |rest| && (DepVal(rest[j], v) == 2 || (DepVal(rest[j], v) == 1 && m.stype != Tristate));
        assert ps[j + 1] == rest[j];
      }
      forall j | 0 < j < |ps|
        ensures ps[j] == rest[j - 1]
      {
      }
    }
  }

  lemma {:induction false} TristateBest(m: Member, ps: seq<Dep>, v: Env)
    ensures m.stype == Tristate ==> BestPrompt(m, ps, 2, v) != 1
  {
    if ps != [] {
      TristateBest(m, ps[1..], v);
    }
  }

  function FirstVisible(visible: seq<Tri>, i: nat): (r: Option<nat>)
    requires i <= |visible|
    ensures r.Some? ==> i <= r.value < |visible| && visible[r.value] != 0
    ensures forall k :: i <= k < (if r.Some? then r.value else |visible|) ==> visible[k] == 0
    decreases |visible| - i
  {
    if i == |visible| then None
    else if visible[i] != 0 then Some(i)
    else FirstVisible(visible, i + 1)
  }

  /** Default k is active, and its member can be chosen. */
  predicate Eligible(ds: seq<ChoiceDefault>, visible: seq<Tri>, v: Env, k: nat) {
    k < |ds| && DepVal(ds[k].cond, v) != 0 && ds[k].member < |visible| && visible[ds[k].member] != 0
  }

  /** r is the member of the first eligible default, or without one the first visible member, if there is one. */
  ghost predicate Picked(ds: seq<ChoiceDefault>, visible: seq<Tri>, v: Env, r: Option<nat>) {
    && (forall k: nat :: Eligible(ds, visible, v, k) && (forall j: nat :: j < k ==> !Eligible(ds, visible, v, j)) ==>
          r == Some(ds[k].member))
    && ((forall k: nat :: !Eligible(ds, visible, v, k)) ==>
          && (r.None? ==> forall i :: 0 <= i < |visible| ==> visible[i] == 0)
          && (r.Some? ==>
                && r.value < |visible| && visible[r.value] != 0
                && forall i :: 0 <= i < r.value ==> visible[i] == 0))
  }

  lemma {:induction false} DefaultPicked(ds: seq<ChoiceDefault>, visible: seq<Tri>, v: Env)
    requires forall d :: d in ds ==> d.member < |visible|
    ensures Picked(ds, visible, v, DefaultPick(ds, visible, v))
  {
    if ds != [] {
      var rest := ds[1..];
      DefaultPicked(rest, visible, v);
      if !Eligible(ds, visible, v, 0) {
        var r := DefaultPick(ds, visible, v);
        forall k: nat | Eligible(ds, visible, v, k) && (forall j: nat :: j < k ==> !Eligible(ds, visible, v, j))
          ensures r == Some(ds[k].member)
        {
          FirstOfRest(ds, visible, v, k);
        }
        if forall k: nat :: !Eligible(ds, visible, v, k) {
          forall k: nat
            ensures !Eligible(rest, visible, v, k)
          {
            var n := k + 1;
            assert !Eligible(ds, visible, v, n);
          }
        }
      }
    }
  }

  lemma FirstOfRest(ds: seq<ChoiceDefault>, visible: seq<Tri>, v: Env, k: nat)
    requires ds != [] && !Eligible(ds, visible, v, 0) && Eligible(ds, visible, v, k)
    requires forall j: nat :: j < k ==> !Eligible(ds, visible, v, j)
    ensures k > 0 && Eligible(ds[1..], visible, v, k - 1) && ds[1..][k - 1] == ds[k]
    ensures forall j: nat :: j < k - 1 ==> !Eligible(ds[1..], visible, v, j)
  {
    forall j: nat | j < k - 1
      ensures !Eligible(ds[1..], visible, v, j)
    {
      var n := j + 1;
      assert !Eligible(ds, visible, v, n);
    }
  }

  /** The first active default that is visible, else the first visible member. */
  function DefaultPick(ds: seq<ChoiceDefault>, visible: seq<Tri>, v: Env): (r: Option<nat>)
    requires forall d :: d in ds ==> d.member < |visible|
    ensures r.Some? ==> r.value < |visible| && visible[r.value] != 0
    ensures r.None? ==> forall k :: 0 <= k < |visible| ==> visible[k] == 0
  {
    if ds == [] then FirstVisible(visible, 0)
    else if DepVal(ds[0].cond, v) != 0 && visible[ds[0].member] != 0 then Some(ds[0].member)
    else DefaultPick(ds[1..], visible, v)
  }

  class Choice {
    const members: seq<Member>
    const defaults: seq<ChoiceDefault>
    /** def[S_DEF_USER].val of the choice symbol. */
    const user: Option<nat>
    const modules: Tri
    /** curr of the choice symbol: its value and the picked member. */
    var tri: Tri
    var val: Option<nat>
    /** visible of every member. */
    var visible: seq<Tri>

    constructor (members: seq<Member>, defaults: seq<ChoiceDefault>, user: Option<nat>, modules: Tri, tri: Tri)
      requires forall d :: d in defaults ==> d.member < |members|
      requires user.Some? ==> user.value < |members|
      ensures this.members == members && this.defaults == defaults && this.user == user
      ensures this.modules == modules && this.tri == tri && this.val == None && Valid()
    {
      this.members := members;
      this.defaults := defaults;
      this.user := user;
      this.modules := modules;
      this.tri := tri;
      this.val := None;
      visible := seq(|members|, _ => 0);
    }

    /** The choice's own defaults and user value name members. */
    ghost predicate Valid()
      reads this
    {
      && |visible| == |members|
      && (forall d :: d in defaults ==> d.member < |members|)
      && (user.Some? ==> user.value < |members|)
    }

    /** sym_choice_default. */
    method Default(v: Env) returns (r: Option<nat>)
      requires Valid()
      ensures r == DefaultPick(defaults, visible, v)
    {
      for j := 0 to |defaults|
        invariant DefaultPick(defaults, visible, v) == DefaultPick(defaults[j..], visible, v)
      {
        assert defaults[j..][1..] == defaults[j + 1..];
        if DepVal(defaults[j].cond, v) != 0 && visible[defaults[j].member] != 0 {
          return Some(defaults[j].member);
        }
      }
      for i := 0 to |members|
        invariant FirstVisible(visible, 0) == FirstVisible(visible, i)
      {
        if visible[i] != 0 {
          return Some(i);
        }
      }
      r := None;
    }

    /**
      sym_calc_choice, run when the choice is y: all members' visibilities are computed, the
      user's choice wins if it is visible, and without any visible member the choice falls to n.
     */
    method CalcChoice(v: Env)
      requires Valid() && tri == 2
      modifies this
      ensures Valid()
      ensures forall i :: 0 <= i < |members| ==> visible[i] == MemberVisible(members[i], 2, modules, v)
      ensures tri == 2 <==> exists i :: 0 <= i < |members| && visible[i] != 0
      ensures tri == 2 ==> val.Some? && val.value < |members| && visible[val.value] == 2
      ensures tri != 2 ==> tri == 0
      ensures user.Some? && visible[user.value] != 0 ==> val == user
      ensures !(user.Some? && visible[user.value] != 0) ==> Picked(defaults, visible, v, val)
    {
      for i := 0 to |members|
        invariant Valid() && tri == 2
        invariant forall k :: 0 <= k < i ==> visible[k] == MemberVisible(members[k], 2, modules, v)
      {
        visible := visible[i := MemberVisible(members[i], 2, modules, v)];
        MemberVisibleYn(members[i], modules, v);
      }
      forall i | 0 <= i < |members|
        ensures visible[i] != 1
      {
        MemberVisibleYn(members[i], modules, v);
      }
      if user.Some? && visible[user.value] != 0 {
        val := user;
      } else {
        val := Default(v);
        DefaultPicked(defaults, visible, v);
        if val.None? {
          tri := 0;
        }
      }
    }

    /**
      sym_calc_value for a member without defaults of its own; rev_dep and implied of a member
      are never computed and stay n.
     */
    function MemberValue(i: nat): Tri
      reads this
      requires Valid() && i < |members|
    {
      var m := members[i];
      if visible[i] == 2 then (if val == Some(i) then 2 else 0)
      else
        var x: Tri := if visible[i] != 0 && m.user.Some? then Apply(And, m.user.value, visible[i]) else 0;
        if x == 1 && (m.stype == Boolean || modules == 0) then 2 else x
    }

    /** If the choice evaluates to y, exactly one member does and all others are n. */
    method Resolve(v: Env) returns (values: seq<Tri>)
      requires Valid() && tri == 2
      modifies this
      ensures Valid() && |values| == |members|
      ensures tri == 2 ==> val.Some? && val.value < |members|
      ensures forall j :: 0 <= j < |members| ==> values[j] == if tri == 2 && val == Some(j) then 2 else 0
      ensures user.Some? && MemberVisible(members[user.value], 2, modules, v) != 0 ==> val == user
      ensures forall i :: 0 <= i < |members| ==> visible[i] == MemberVisible(members[i], 2, modules, v)
      ensures !(user.Some? && visible[user.value] != 0) ==> Picked(defaults, visible, v, val)
    {
      CalcChoice(v);
      values := [];
      ghost var t0, v0, vis := tri, val, visible;
      for i := 0 to |members|
        invariant Valid() && |values| == i && tri == t0 && val == v0 && visible == vis
        invariant forall j :: 0 <= j < i ==> values[j] == MemberValue(j)
      {
        values := values + [MemberValue(i)];
      }
      forall j | 0 <= j < |members|
        ensures values[j] == if tri == 2 && val == Some(j) then 2 else 0
      {
        MemberVisibleYn(members[j], modules, v);
      }
    }
  }
}
