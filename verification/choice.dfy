/** One evaluation of a choice and its members (sym_calc_visibility,
    sym_choice_default, sym_calc_choice and sym_calc_value in
    scripts/config/symbol.c): the user's pick or the first one visible. */
module Choices {
  import opened Options
  import opened Tristates
  import opened Symbols
  import opened SymbolGraph

  /** A choice value.  `prompts` are the values of its prompts' conditions
      apart from the choice itself, which every condition contains; a member
      that is not tristate needs a tristate choice to be y. */
  class Member {
    const kind: SymType
    const needsYes: bool
    const prompts: seq<Tristate>
    const user: Option<Tristate>
    var visible: Tristate
    var tri: Tristate

    constructor (kind: SymType, needsYes: bool, prompts: seq<Tristate>, user: Option<Tristate>)
      ensures this.kind == kind && this.needsYes == needsYes && this.prompts == prompts && this.user == user
    {
      this.kind, this.needsYes, this.prompts, this.user := kind, needsYes, prompts, user;
      visible, tri := NO, NO;
    }

    /** The value of one prompt's condition under a choice at `choice`. */
    function Condition(c: Tristate, choice: Tristate): Tristate {
      if needsYes && choice != YES then NO else TriAnd(choice, c)
    }

    /** A tristate member that could only be m is hidden while the choice is y. */
    function PromptTri(c: Tristate, choice: Tristate): Tristate {
      var t := Condition(c, choice);
      if kind.Tristated? && t == MOD && choice == YES then NO else t
    }

    function BestPrompt(ps: seq<Tristate>, choice: Tristate): Tristate {
      if ps == [] then NO else TriOr(BestPrompt(ps[..|ps| - 1], choice), PromptTri(ps[|ps| - 1], choice))
    }

    function Visible(choice: Tristate, modules: bool): Tristate {
      Promote(BestPrompt(prompts, choice), !kind.Tristated? || !modules)
    }

    /** `sym_calc_visibility` for a choice value. */
    method CalcVisibility(choice: Tristate, modules: bool)
      modifies this`visible
      ensures visible == Visible(choice, modules)
    {
      var tri: Tristate := NO;
      var i := 0;
      while i < |prompts|
        invariant i <= |prompts|
        invariant tri == BestPrompt(prompts[..i], choice)
      {
        assert prompts[..i + 1][..i] == prompts[..i];
        var t := Condition(prompts[i], choice);
        if kind.Tristated? && t == MOD && choice == YES {
          t := NO;
        }
        tri := TriOr(tri, t);
        i := i + 1;
      }
      assert prompts[..i] == prompts;
      if tri == MOD && (!kind.Tristated? || !modules) {
        tri := YES;
      }
      visible := tri;
    }

    /** Under a choice at y a member is visible at y or not at all. */
    lemma VisibleUnderYes(modules: bool)
      requires kind.Boolean? || kind.Tristated?
      ensures Visible(YES, modules) != MOD
    {
      if kind.Tristated? {
        NoModPrompt(prompts);
      }
    }

    lemma {:induction false} NoModPrompt(ps: seq<Tristate>)
      requires kind.Tristated?
      ensures BestPrompt(ps, YES) != MOD
    {
      if ps != [] {
        NoModPrompt(ps[..|ps| - 1]);
      }
    }

    lemma {:induction false} BestIs(ps: seq<Tristate>, choice: Tristate)
      ensures forall i :: 0 <= i < |ps| ==> PromptTri(ps[i], choice) <= BestPrompt(ps, choice)
      ensures BestPrompt(ps, choice) != NO ==>
                exists i :: 0 <= i < |ps| && PromptTri(ps[i], choice) == BestPrompt(ps, choice)
    {
      if ps != [] {
        var n := |ps| - 1;
        BestIs(ps[..n], choice);
        if i :| 0 <= i < n && PromptTri(ps[..n][i], choice) == BestPrompt(ps[..n], choice) {
          assert PromptTri(ps[i], choice) == BestPrompt(ps[..n], choice);
        }
        forall i | 0 <= i < |ps| ensures PromptTri(ps[i], choice) <= BestPrompt(ps, choice) {
          if i < n { assert ps[..n][i] == ps[i]; }
        }
      }
    }

    /** Under a choice at y exactly the members with a prompt at y are visible,
        and those with one at m if they are not tristate. */
    lemma UnderYesIff(modules: bool)
      requires kind.Boolean? || kind.Tristated?
      ensures Visible(YES, modules) == YES <==>
              exists i :: 0 <= i < |prompts| && (prompts[i] == YES || (prompts[i] == MOD && !kind.Tristated?))
    {
      BestIs(prompts, YES);
      if i :| 0 <= i < |prompts| && (prompts[i] == YES || (prompts[i] == MOD && !kind.Tristated?)) {
        assert PromptTri(prompts[i], YES) == prompts[i];
      }
    }

    /** Under a choice at m the tristate members with a prompt at m or y. */
    lemma UnderModIff()
      requires kind.Tristated? && !needsYes
      ensures Visible(MOD, true) == if exists i :: 0 <= i < |prompts| && prompts[i] != NO then MOD else NO
    {
      BestIs(prompts, MOD);
      BelowChoice(prompts, MOD);
      if i :| 0 <= i < |prompts| && prompts[i] != NO {
        assert PromptTri(prompts[i], MOD) == MOD;
      }
    }

    /** A condition contains the choice, so it is never above it. */
    lemma {:induction false} BelowChoice(ps: seq<Tristate>, choice: Tristate)
      ensures BestPrompt(ps, choice) <= choice
      ensures needsYes && choice != YES ==> BestPrompt(ps, choice) == NO
    {
      if ps != [] {
        BelowChoice(ps[..|ps| - 1], choice);
      }
    }
  }

  class Choice {
    const kind: SymType
    const members: seq<Member>
    const defaults: seq<(Tristate, Member)>
    const user: Member?
    const modules: bool
    var tri: Tristate
    var val: Member?

    constructor (kind: SymType, members: seq<Member>, defaults: seq<(Tristate, Member)>, user: Member?, modules: bool)
      ensures this.kind == kind && this.members == members && this.defaults == defaults
      ensures this.user == user && this.modules == modules
    {
      this.kind := kind;
      this.members, this.defaults, this.user, this.modules := members, defaults, user, modules;
      tri, val := NO, null;
    }

    /** Exactly the members of a tristate choice that are not tristate
        themselves need it to be y. */
    ghost predicate Valid() {
      (kind.Boolean? || kind.Tristated?) &&
      (forall m :: m in members ==> m.kind.Boolean? || m.kind.Tristated?) &&
      (forall m :: m in members ==> m.needsYes == (kind.Tristated? && !m.kind.Tristated?)) &&
      (forall i, j :: 0 <= i < j < |members| ==> members[i] != members[j])
    }

    predicate DefaultActive(i: nat)
      requires i < |defaults|
      reads AllMembers()`visible
    {
      defaults[i].0 != NO && defaults[i].1.visible != NO
    }

    ghost function AllMembers(): set<Member> {
      (set m | m in members) + (set d | d in defaults :: d.1) + (if user == null then {} else {user})
    }

    /** The default that is taken: the first active one. */
    ghost predicate TakenDefault(p: Member, i: nat)
      reads AllMembers()`visible
    {
      i < |defaults| && p == defaults[i].1 && DefaultActive(i) && forall j :: 0 <= j < i ==> !DefaultActive(j)
    }

    ghost predicate FirstVisible(p: Member, i: nat)
      reads AllMembers()`visible
    {
      i < |members| && p == members[i] && members[i].visible != NO && forall j :: 0 <= j < i ==>
        members[j].visible == NO
    }

    /** The user's pick if it is visible, otherwise the first active default,
        otherwise the first visible member, otherwise none. */
    ghost predicate IsPick(p: Member?)
      reads AllMembers()`visible
    {
      if user != null && user.visible != NO then p == user
      else if exists i :: 0 <= i < |defaults| && DefaultActive(i) then p != null && exists i :: TakenDefault(p, i)
      else if exists m :: m in members && m.visible != NO then p != null && exists i :: FirstVisible(p, i)
      else p == null
    }

    /** There is only one pick. */
    lemma PickUnique(p: Member?, q: Member?)
      requires IsPick(p) && IsPick(q)
      ensures p == q
    {
      if user != null && user.visible != NO {
      } else if exists i :: 0 <= i < |defaults| && DefaultActive(i) {
        var i :| TakenDefault(p, i);
        var j :| TakenDefault(q, j);
        assert i == j;
      } else if exists m :: m in members && m.visible != NO {
        var i :| FirstVisible(p, i);
        var j :| FirstVisible(q, j);
        assert i == j;
      }
    }

    /** `sym_choice_default` */
    method ChoiceDefault() returns (p: Member?)
      requires user == null || user.visible == NO
      ensures IsPick(p)
    {
      var i := 0;
      while i < |defaults|
        invariant i <= |defaults|
        invariant forall j :: 0 <= j < i ==> !DefaultActive(j)
      {
        if defaults[i].0 != NO {
          var def := defaults[i].1;
          if def.visible != NO {
            assert TakenDefault(def, i);
            return def;
          }
        }
        i := i + 1;
      }
      i := 0;
      while i < |members|
        invariant i <= |members|
        invariant forall j :: 0 <= j < i ==> members[j].visible == NO
      {
        if members[i].visible != NO {
          assert FirstVisible(members[i], i) && members[i] in members;
          return members[i];
        }
        i := i + 1;
      }
      p := null;
    }

    /** `sym_calc_choice` */
    method CalcChoice() returns (p: Member?)
      requires Valid()
      modifies this`tri, (set m | m in members)`visible
      ensures forall m :: m in members ==> m.visible == m.Visible(old(tri), modules)
      ensures IsPick(p)
      ensures tri == if p == null then NO else old(tri)
    {
      for i := 0 to |members|
        invariant forall j :: 0 <= j < i ==> members[j].visible == members[j].Visible(tri, modules)
        invariant tri == old(tri)
      {
        members[i].CalcVisibility(tri, modules);
      }
      if user != null && user.visible != NO {
        return user;
      }
      p := ChoiceDefault();
      if p == null {
        tri := NO;
      }
    }

    /** The value of a member that has no default (sym_calc_value). */
    function MemberTri(m: Member): Tristate
      reads this, m
    {
      if m.visible == YES then Bool(val == m)
      else
        var user := if m.visible != NO && m.user.Some? then TriAnd(m.user.value, m.visible) else NO;
        Promote(user, EffectiveKind(m).Boolean?)
    }

    /** The user's value of a visible member, up to the visibility. */
    function UserTri(m: Member): Tristate
      reads m
    {
      if m.visible == NO || m.user.None? then NO else TriAnd(m.user.value, m.visible)
    }

    /** `sym_get_type` for a member that is not visible at y. */
    function EffectiveKind(m: Member): SymType {
      if m.kind.Tristated? && !modules then Boolean else m.kind
    }

    /** The user's pick and the defaults belong to the choice.  For a default
        the source only warns if it does not. */
    ghost predicate PicksAreMembers() {
      (user != null ==> user in members) && forall d :: d in defaults ==> d.1 in members
    }

    /** A value that the choice may have: m only if it is tristate and modules
        are enabled. */
    predicate MayHave(t: Tristate) {
      t == MOD ==> kind.Tristated? && modules
    }

    /** Evaluate a choice whose own value comes out as `newtri`, and then its
        members. */
    method Evaluate(newtri: Tristate)
      requires Valid() && MayHave(newtri)
      modifies this, members
      ensures newtri == YES && tri == YES ==> IsPick(val) && val != null
      ensures newtri == YES && tri == YES && val in members ==> exists i :: 0 <= i < |members| && ExactlyOne(i)
      ensures newtri == YES && tri == YES && val !in members ==> forall m :: m in members ==> m.tri == NO
      ensures PicksAreMembers() && newtri == YES && tri == YES ==> val in members
      ensures newtri == YES && tri != YES ==>
                tri == NO && forall m :: m in members ==> m.Visible(YES, modules) == NO && m.tri == NO
      ensures newtri != YES ==> tri == newtri && forall m :: m in members ==> m.tri != YES
      ensures newtri == MOD ==> forall m :: m in members ==> m.tri == UserTri(m)
    {
      tri := newtri;
      if newtri == YES {
        val := CalcChoice();
        assert val == null ==> forall m :: m in members ==> m.visible == NO;
      }
      CalcMembers();
      MembersSettled();
    }

    /** The members in turn; evaluating again under the same choice value finds
        the same visibility. */
    method CalcMembers()
      modifies members
      ensures forall m :: m in members ==> m.visible == m.Visible(tri, modules) && m.tri == MemberTri(m)
      ensures (forall m :: m in members ==> old(m.visible) == m.Visible(tri, modules)) ==>
                (old(IsPick(val)) <==> IsPick(val))
    {
      for i := 0 to |members|
        invariant forall j :: 0 <= j < i ==> members[j].visible == members[j].Visible(tri, modules)
        invariant forall j :: 0 <= j < i ==> members[j].tri == MemberTri(members[j])
        invariant forall m :: m in AllMembers() ==>
                    m.visible == old(m.visible) || (m in members && m.visible == m.Visible(tri, modules))
      {
        CalcMember(members[i]);
      }
    }

    method CalcMember(m: Member)
      modifies m
      ensures m.visible == m.Visible(tri, modules) && m.tri == MemberTri(m)
    {
      m.CalcVisibility(tri, modules);
      m.tri := MemberTri(m);
    }

    /** Member `i` is y and the others are n. */
    ghost predicate ExactlyOne(i: nat)
      requires i < |members|
      reads this, members
    {
      members[i] == val && members[i].tri == YES && forall j :: 0 <= j < |members| && j != i ==> members[j].tri == NO
    }

    lemma MembersSettled()
      requires Valid() && MayHave(tri)
      requires forall m :: m in members ==> m.visible == m.Visible(tri, modules) && m.tri == MemberTri(m)
      requires tri == YES && val in members ==> val.visible != NO
      ensures tri == YES && val in members ==> exists i :: 0 <= i < |members| && ExactlyOne(i)
      ensures tri == YES && val !in members ==> forall m :: m in members ==> m.tri == NO
      ensures tri != YES ==> forall m :: m in members ==> m.tri != YES
      ensures tri == NO ==> forall m :: m in members ==> m.tri == NO
      ensures tri == MOD ==> forall m :: m in members ==> m.tri == UserTri(m)
    {
      if tri == YES {
        forall m | m in members ensures m.visible != MOD {
          m.VisibleUnderYes(modules);
        }
        if val in members {
          var i :| 0 <= i < |members| && members[i] == val;
          assert ExactlyOne(i);
        }
      } else {
        forall m | m in members ensures m.visible <= tri && m.visible != YES {
          m.BelowChoice(m.prompts, tri);
        }
      }
    }
  }
}
