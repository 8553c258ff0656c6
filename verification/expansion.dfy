/**
 Nested groups: what expanding the emitted grants as a union derives, against what the rule lists mean when every
 group applies its own Require and Exclude to the members it inherits. Groups may refer to each other in cycles.
 */
module Expansion {
  import opened Closure
  import opened Folding
  import opened GroupRuns
  import opened Groups
  import opened Json
  import opened MixedRules
  import opened Rules

  type GroupMap = map<string, AccessGroup>

  /** The groups for which RestrictsNestedExpansion answered true, each answer being one it may give. */
  ghost predicate ValidAnswers(groups: GroupMap, restricting: set<string>) {
    forall id | id in groups :: MayRestrict(groups[id], id in restricting)
  }

  function DirectIn(groups: GroupMap, email: string): set<string> {
    set id | id in groups && IsMember(groups[id], groups[id].included, email)
  }

  function References(groups: GroupMap): set<(string, string)> {
    set id, next | id in groups && next in NestedIds(groups[id].included) :: (id, next)
  }

  /** The references that expandable grants are emitted for. */
  function Emitted(groups: GroupMap, restricting: set<string>): set<(string, string)> {
    set id, next | id in groups && next in NestedIds(groups[id].included) && id !in restricting :: (id, next)
  }

  /** The references of the groups whose Require and Exclude let the user through. */
  function Open(groups: GroupMap, email: string): set<(string, string)> {
    set id, next |
      id in groups && next in NestedIds(groups[id].included) && SatisfiesRequireExclude(groups[id], email) :: (id, next)
  }

  function Union(groups: GroupMap, restricting: set<string>, email: string): Graph {
    Graph(DirectIn(groups, email), Emitted(groups, restricting))
  }

  function Meaning(groups: GroupMap, email: string): Graph {
    Graph(DirectIn(groups, email), Open(groups, email))
  }

  /** A member by expanding the emitted grants: directly, or of a group some grant leads to. */
  ghost predicate Derived(groups: GroupMap, restricting: set<string>, id: string, email: string) {
    TakenIn(Union(groups, restricting, email), id)
  }

  /** A member by the rules: let through by Require and Exclude, and admitted directly or a member of a nested group. */
  ghost predicate TrueMember(groups: GroupMap, id: string, email: string) {
    TakenIn(Meaning(groups, email), id)
  }

  // ----- both are least fixpoints -----

  ghost predicate ClosedUnderUnion(groups: GroupMap, restricting: set<string>, email: string, P: set<string>) {
    forall id | id in groups ::
      (|| IsMember(groups[id], groups[id].included, email)
       || (id !in restricting && exists next | next in NestedIds(groups[id].included) :: next in P)) ==>
        id in P
  }

  ghost predicate ClosedUnderRules(groups: GroupMap, email: string, P: set<string>) {
    forall id | id in groups && SatisfiesRequireExclude(groups[id], email) ::
      (|| Admits(groups[id].included, email)
       || exists next | next in NestedIds(groups[id].included) :: next in P) ==>
        id in P
  }

  lemma UnionIsClosed(groups: GroupMap, restricting: set<string>, email: string, P: set<string>)
    ensures ClosedUnderUnion(groups, restricting, email, P) <==> Closed(Union(groups, restricting, email), P)
    ensures On(Union(groups, restricting, email), groups.Keys)
  {
    hide IsMember, NestedIds;
    var g := Union(groups, restricting, email);
    if Closed(g, P) {
      forall id, next | id in groups && id !in restricting && next in NestedIds(groups[id].included) && next in P
        ensures id in P
      {
        assert (id, next) in g.edges;
      }
      assert forall id | id in groups && IsMember(groups[id], groups[id].included, email) :: id in g.base;
    }
  }

  lemma MeaningIsClosed(groups: GroupMap, email: string, P: set<string>)
    ensures ClosedUnderRules(groups, email, P) <==> Closed(Meaning(groups, email), P)
    ensures On(Meaning(groups, email), groups.Keys)
  {
    forall id | id in groups {
      MemberIsAdmitted(groups[id], groups[id].included, email);
    }
    hide IsMember, NestedIds, Admits, SatisfiesRequireExclude;
    var g := Meaning(groups, email);
    if Closed(g, P) {
      forall id, next | id in groups && SatisfiesRequireExclude(groups[id], email) &&
                        next in NestedIds(groups[id].included) && next in P
        ensures id in P
      {
        assert (id, next) in g.edges;
      }
      assert forall id | id in groups && IsMember(groups[id], groups[id].included, email) :: id in g.base;
    }
  }

  /** The derived groups of a user are the least set of groups closed under direct membership and the emitted edges. */
  lemma DerivedIsLeastFixpoint(groups: GroupMap, restricting: set<string>, email: string, P: set<string>)
    ensures var derived := set id | id in groups && Derived(groups, restricting, id, email);
            && ClosedUnderUnion(groups, restricting, email, derived)
            && (ClosedUnderUnion(groups, restricting, email, P) ==> derived <= P)
  {
    var derived := set id | id in groups && Derived(groups, restricting, id, email);
    var g := Union(groups, restricting, email);
    hide TakenIn, Union, ClosedUnderUnion, Closed, On;
    UnionIsClosed(groups, restricting, email, P);
    UnionIsClosed(groups, restricting, email, derived);
    IsLeastClosed(g, groups.Keys, P);
    assert derived == set x | x in groups.Keys && TakenIn(g, x);
  }

  /** The groups a user truly belongs to are the least set closed under the rule lists, nesting included. */
  lemma TrueIsLeastFixpoint(groups: GroupMap, email: string, P: set<string>)
    ensures var members := set id | id in groups && TrueMember(groups, id, email);
            && ClosedUnderRules(groups, email, members)
            && (ClosedUnderRules(groups, email, P) ==> members <= P)
  {
    var members := set id | id in groups && TrueMember(groups, id, email);
    var g := Meaning(groups, email);
    hide TakenIn, Meaning, ClosedUnderRules, Closed, On;
    MeaningIsClosed(groups, email, P);
    MeaningIsClosed(groups, email, members);
    IsLeastClosed(g, groups.Keys, P);
    assert members == set x | x in groups.Keys && TakenIn(g, x);
  }

  // ----- both are paths -----

  /** What is derived for a group: the direct members of the groups its emitted edges lead to, however far. */
  lemma DerivedExactly(groups: GroupMap, restricting: set<string>, id: string, email: string)
    ensures Derived(groups, restricting, id, email) <==>
            exists to: string, steps: nat :: Leads(Emitted(groups, restricting), id, to, steps) && to in groups &&
                                             IsMember(groups[to], groups[to].included, email)
  {
    hide IsMember, Emitted, TakenIn, Leads;
    PathsExactly(Union(groups, restricting, email), id);
  }

  /** True members: those whom every group along some path of references lets through, and the last one admits. */
  lemma TrueExactly(groups: GroupMap, id: string, email: string)
    ensures TrueMember(groups, id, email) <==>
            exists to: string, steps: nat :: Leads(Open(groups, email), id, to, steps) && to in groups &&
                                             IsMember(groups[to], groups[to].included, email)
  {
    hide IsMember, Open, TakenIn, Leads;
    PathsExactly(Meaning(groups, email), id);
  }

  // ----- what expansion reports and what it leaves out -----

  /** An emitted reference is open to everybody. */
  lemma EmittedIsOpen(groups: GroupMap, restricting: set<string>, email: string)
    requires ValidAnswers(groups, restricting)
    ensures Emitted(groups, restricting) <= Open(groups, email)
  {
    hide MayRestrict, SatisfiesRequireExclude, NestedIds;
    forall id | id in groups && id !in restricting {
      UnrestrictedAdmitsEveryone(groups[id], email);
    }
  }

  lemma MeaningWithout(groups: GroupMap, email: string, at: string)
    ensures Meaning(groups - {at}, email) == Without(Meaning(groups, email), at)
  {
    hide IsMember, SatisfiesRequireExclude, NestedIds;
  }

  lemma UnionWithout(groups: GroupMap, restricting: set<string>, email: string, at: string)
    ensures Union(groups - {at}, restricting, email) == Without(Union(groups, restricting, email), at)
  {
    hide IsMember, NestedIds;
  }

  /**
   A suppressed reference is the user's only way in: a restricting group lets the user through but does not admit them
   itself, and they belong to a group it refers to, without coming back to it.
   */
  ghost predicate Suppressed(groups: GroupMap, restricting: set<string>, to: string, email: string) {
    && to in groups && to in restricting
    && SatisfiesRequireExclude(groups[to], email) && !Admits(groups[to].included, email)
    && exists next | next in NestedIds(groups[to].included) :: TrueMember(groups - {to}, next, email)
  }

  /** The emitted edges lead to such a group. */
  ghost predicate HiddenBehind(groups: GroupMap, restricting: set<string>, id: string, email: string) {
    exists to: string, steps: nat ::
      Leads(Emitted(groups, restricting), id, to, steps) && Suppressed(groups, restricting, to, email)
  }

  lemma GapIsSuppressed(groups: GroupMap, restricting: set<string>, to: string, email: string)
    ensures Gap(Union(groups, restricting, email), Meaning(groups, email), to) <==>
            Suppressed(groups, restricting, to, email)
  {
    MeaningWithout(groups, email, to);
    if to in groups {
      MemberIsAdmitted(groups[to], groups[to].included, email);
    }
    hide IsMember, SatisfiesRequireExclude, Admits, NestedIds, TakenIn, Without;
    forall next
      ensures (to, next) in Open(groups, email) && (to, next) !in Emitted(groups, restricting) <==>
              && to in groups && to in restricting && SatisfiesRequireExclude(groups[to], email)
              && next in NestedIds(groups[to].included)
    {
    }
    hide Open, Emitted;
  }

  /**
   What expansion leaves out, exactly: the true members are the derived ones and those whose way in is a suppressed
   reference that the emitted edges lead to.
   */
  lemma ExpansionExactly(groups: GroupMap, restricting: set<string>, id: string, email: string)
    requires ValidAnswers(groups, restricting)
    ensures TrueMember(groups, id, email) <==>
            Derived(groups, restricting, id, email) || HiddenBehind(groups, restricting, id, email)
  {
    hide DirectIn, Emitted, Open, TakenIn, Gap, Suppressed, ValidAnswers, Leads;
    var union, meaning := Union(groups, restricting, email), Meaning(groups, email);
    EmittedIsOpen(groups, restricting, email);
    FewerEdgesExactly(union, meaning, id);
    if to: string, steps: nat :| Leads(union.edges, id, to, steps) && Gap(union, meaning, to) {
      GapIsSuppressed(groups, restricting, to, email);
      assert HiddenBehind(groups, restricting, id, email);
    }
    if to: string, steps: nat :| Leads(union.edges, id, to, steps) && Suppressed(groups, restricting, to, email) {
      GapIsSuppressed(groups, restricting, to, email);
      assert Leads(union.edges, id, to, steps) && Gap(union, meaning, to);
    }
  }

  /** No group reachable along references both restricts and refers to others, so no reference is suppressed. */
  ghost predicate NothingSuppressed(groups: GroupMap, restricting: set<string>, id: string) {
    forall to: string, steps: nat | Leads(References(groups), id, to, steps) && to in groups && to in restricting ::
      NestedIds(groups[to].included) == []
  }

  /**
   Union expansion derives only true members, for every choice of answers; and all of them where no reference is
   suppressed.
   */
  lemma ExpansionIsSound(groups: GroupMap, restricting: set<string>, id: string, email: string)
    requires ValidAnswers(groups, restricting)
    ensures Derived(groups, restricting, id, email) ==> TrueMember(groups, id, email)
    ensures NothingSuppressed(groups, restricting, id) ==>
              (Derived(groups, restricting, id, email) <==> TrueMember(groups, id, email))
  {
    ExpansionExactly(groups, restricting, id, email);
    hide ValidAnswers, Derived, TrueMember, NestedIds;
    if HiddenBehind(groups, restricting, id, email) && NothingSuppressed(groups, restricting, id) {
      var to: string, steps: nat :|
        Leads(Emitted(groups, restricting), id, to, steps) && Suppressed(groups, restricting, to, email);
      LeadsAlongMore(Emitted(groups, restricting), References(groups), id, to, steps);
      assert false;
    }
  }

  /** A group is reported in full exactly when everybody hidden behind a suppressed reference is derived anyway. */
  lemma ReportedInFullExactly(groups: GroupMap, restricting: set<string>, id: string)
    requires ValidAnswers(groups, restricting)
    ensures (forall email :: TrueMember(groups, id, email) <==> Derived(groups, restricting, id, email)) <==>
            (forall email | HiddenBehind(groups, restricting, id, email) :: Derived(groups, restricting, id, email))
  {
    hide TrueMember, Derived, HiddenBehind, ValidAnswers;
    forall email {
      ExpansionExactly(groups, restricting, id, email);
    }
  }

  function GroupRule(id: string): Json {
    Object(map["group" := Object(map["id" := Text(id)])])
  }

  /**
   One group that excludes an address and otherwise takes in the members of another, and that other with one member.
   */
  ghost predicate OuterAndInner(groups: GroupMap, outer: string, inner: string, member: string, barred: string) {
    && groups.Keys == {outer, inner} && outer != inner
    && groups[outer] == AccessGroup(outer, "", [GroupRule(inner)], [EmailRule(barred)], [])
    && groups[inner] == AccessGroup(inner, "", [EmailRule(member)], [], [])
  }

  lemma GroupRuleReads(id: string, email: string)
    requires id != ""
    ensures NestedIds([GroupRule(id)]) == [id] && DirectRules([GroupRule(id)]) == []
  {
    assert [GroupRule(id)][..0] == [];
    OneRule(GroupRule(id), email);
    assert ObjectAt(GroupRule(id), "group") == Some(map["id" := Text(id)]);
  }

  lemma OneEmailRule(rule: string, email: string)
    requires rule != ""
    ensures SomeRuleMatches([EmailRule(rule)], email) <==> EqualFold(rule, email)
    ensures DirectRules([EmailRule(rule)]) == [EmailRule(rule)] && IsEvaluable(EmailRule(rule))
  {
    EmailRuleNames(rule, email);
    EvaluableForAll(EmailRule(rule), email);
    OneRule(EmailRule(rule), email);
    hide EmailRule, EvaluateRule, IsDirect, IsEvaluable, SomeRuleMatches, DirectRules;
  }

  lemma AnswersFor(grp: AccessGroup)
    requires grp.required == []
    ensures grp.excluded == [] ==> MayRestrict(grp, false)
    ensures |grp.excluded| == 1 && IsEvaluable(grp.excluded[0]) ==> MayRestrict(grp, true) && !MayRestrict(grp, false)
  {
    assert |grp.excluded| == 1 ==> grp.excluded[0] in grp.excluded;
  }

  lemma OuterRestricts(groups: GroupMap, outer: string, inner: string, member: string, barred: string)
    requires OuterAndInner(groups, outer, inner, member, barred) && barred != ""
    ensures ValidAnswers(groups, {outer}) && !MayRestrict(groups[outer], false)
  {
    OneEmailRule(barred, member);
    hide IsEvaluable, EmailRule, GroupRule, MayRestrict;
    AnswersFor(groups[outer]);
    AnswersFor(groups[inner]);
  }

  lemma NestedMember(groups: GroupMap, outer: string, inner: string, email: string)
    requires outer in groups && inner in groups && inner in NestedIds(groups[outer].included)
    requires SatisfiesRequireExclude(groups[outer], email)
    requires IsMember(groups[inner], groups[inner].included, email)
    ensures TrueMember(groups, outer, email)
  {
    hide IsMember, SatisfiesRequireExclude, NestedIds;
    var g := Meaning(groups, email);
    assert Within(g, inner, 0);
    assert (outer, inner) in g.edges;
    EdgeTakesIn(g, outer, inner);
  }

  lemma Underived(groups: GroupMap, restricting: set<string>, id: string, email: string)
    requires id in groups && id in restricting && !IsMember(groups[id], groups[id].included, email)
    ensures !Derived(groups, restricting, id, email)
  {
    hide IsMember, NestedIds;
    NoComingBackExactly(Union(groups, restricting, email), id);
  }

  /** Such a member of the inner group truly belongs to the outer one, and is not reported there. */
  lemma SuppressionHidesMembers(groups: GroupMap, outer: string, inner: string, member: string, barred: string)
    requires OuterAndInner(groups, outer, inner, member, barred)
    requires inner != "" && member != "" && barred != "" && !EqualFold(barred, member)
    ensures ValidAnswers(groups, {outer}) && !MayRestrict(groups[outer], false)
    ensures TrueMember(groups, outer, member) && !Derived(groups, {outer}, outer, member)
  {
    OuterRestricts(groups, outer, inner, member, barred);
    GroupRuleReads(inner, member);
    OneEmailRule(member, member);
    OneEmailRule(barred, member);
    hide EmailRule, GroupRule, EqualFold, DirectRules, NestedIds, ValidAnswers, MayRestrict;
    assert !SomeRuleMatches([], member);
    NestedMember(groups, outer, inner, member);
    Underived(groups, {outer}, outer, member);
  }

  // ----- the expansion ends -----

  /** Cycles or not, expansion is over after as many rounds as there are groups. */
  lemma ExpansionSaturates(groups: GroupMap, restricting: set<string>, id: string, email: string)
    ensures Derived(groups, restricting, id, email) <==> Within(Union(groups, restricting, email), id, |groups|)
  {
    hide Within, Union;
    if Derived(groups, restricting, id, email) {
      UnionIsClosed(groups, restricting, email, {});
      Saturates(Union(groups, restricting, email), groups.Keys, id);
    }
  }

  // ----- editing one group -----

  /** All groups after one Grant or Revoke on one of them. */
  function Edited(groups: GroupMap, id: string, op: Op): GroupMap
    requires id in groups
  {
    groups[id := Step(groups[id], op).0]
  }

  /** The edit drops no group that is not referred to by a rule that stays; see RevokeKeepsReferencesExactly. */
  predicate KeepsNested(grp: AccessGroup, op: Op) {
    op.Revoke? && RevokeStep(grp, op.email).1 == Ok(Written) ==> KeepsReferences(grp.included, op.email)
  }

  /** A step changes no answer about restriction and adds no nested group, and may lose some. */
  lemma StepReferences(grp: AccessGroup, op: Op)
    ensures var after := Step(grp, op).0;
            && after.required == grp.required && after.excluded == grp.excluded
            && (forall id | id in NestedIds(after.included) :: id in NestedIds(grp.included))
            && ((forall id | id in NestedIds(grp.included) :: id in NestedIds(after.included)) <==>
                KeepsNested(grp, op))
  {
    hide NestedIds, KeepsReferences, IsMember, EmailRule;
    GrantKeepsNesting(grp.included, op.email);
    RevokeKeepsReferencesExactly(grp.included, op.email);
  }

  /**
   The groups still answer as they did, and no edge is new; all are kept exactly when the group emits none anyway or
   each reference that goes is repeated in a rule that stays.
   */
  lemma EditKeepsEdgesExactly(groups: GroupMap, restricting: set<string>, edited: string, op: Op)
    requires edited in groups
    ensures ValidAnswers(groups, restricting) <==> ValidAnswers(Edited(groups, edited, op), restricting)
    ensures var before, after := Emitted(groups, restricting), Emitted(Edited(groups, edited, op), restricting);
            after <= before && (after == before <==> edited in restricting || KeepsNested(groups[edited], op))
  {
    hide Step, NestedIds, MayRestrict, KeepsNested;
    StepReferences(groups[edited], op);
    AnswersReadRequireExclude(groups[edited], Step(groups[edited], op).0, edited in restricting);
    var before, after := Emitted(groups, restricting), Emitted(Edited(groups, edited, op), restricting);
    if after == before && edited !in restricting {
      forall next | next in NestedIds(groups[edited].included)
        ensures next in NestedIds(Step(groups[edited], op).0.included)
      {
        assert (edited, next) in before;
      }
    }
    if edited in restricting || KeepsNested(groups[edited], op) {
      forall id, next | (id, next) in before
        ensures (id, next) in after
      {
        assert id == edited ==> next in NestedIds(Step(groups[edited], op).0.included);
      }
    }
  }

  lemma AnswersReadRequireExclude(a: AccessGroup, b: AccessGroup, restricts: bool)
    requires a.required == b.required && a.excluded == b.excluded
    ensures MayRestrict(a, restricts) == MayRestrict(b, restricts)
  {
  }

  /** Whether a group with these lists would take the user in, all others being as they are. */
  ghost predicate WouldTakeIn(groups: GroupMap, restricting: set<string>, grp: AccessGroup, id: string, email: string) {
    || IsMember(grp, grp.included, email)
    || (id !in restricting && exists next | next in NestedIds(grp.included) ::
          Derived(groups - {id}, restricting, next, email))
  }

  lemma WouldTakeInExactly(groups: GroupMap, restricting: set<string>, id: string, email: string)
    requires id in groups
    ensures Derived(groups, restricting, id, email) <==>
            WouldTakeIn(groups, restricting, groups[id], id, email)
  {
    UnionWithout(groups, restricting, email, id);
    hide IsMember, NestedIds, TakenIn, Without;
    NoComingBackExactly(Union(groups, restricting, email), id);
    forall next
      ensures (id, next) in Emitted(groups, restricting) <==>
              id !in restricting && next in NestedIds(groups[id].included)
    {
    }
    hide Emitted;
  }

  lemma EditedElsewhere(groups: GroupMap, restricting: set<string>, edited: string, op: Op, email: string)
    requires edited in groups
    ensures Edited(groups, edited, op) - {edited} == groups - {edited}
    ensures Without(Union(groups, restricting, email), edited) ==
            Without(Union(Edited(groups, edited, op), restricting, email), edited)
  {
    hide Step;
    var after := Edited(groups, edited, op);
    assert after - {edited} == groups - {edited};
    UnionWithout(groups, restricting, email, edited);
    UnionWithout(after, restricting, email, edited);
    hide Union, Without;
  }

  /**
   An edit changes nothing that is derived for a user, in any group, exactly when the edited group would take the user
   in as before; what it takes in is read off its lists and the other groups as they were.
   */
  lemma EditChangesNothingExactly(groups: GroupMap, restricting: set<string>, edited: string, op: Op, email: string)
    requires edited in groups
    ensures var after := Edited(groups, edited, op);
            && (Derived(after, restricting, edited, email) <==>
                WouldTakeIn(groups, restricting, after[edited], edited, email))
            && ((forall id :: Derived(after, restricting, id, email) <==> Derived(groups, restricting, id, email)) <==>
                (WouldTakeIn(groups, restricting, after[edited], edited, email) <==>
                 WouldTakeIn(groups, restricting, groups[edited], edited, email)))
  {
    var after := Edited(groups, edited, op);
    EditedElsewhere(groups, restricting, edited, op, email);
    ElsewhereExactly(Union(after, restricting, email), Union(groups, restricting, email), edited);
    WouldTakeInExactly(groups, restricting, edited, email);
    WouldTakeInExactly(after, restricting, edited, email);
    hide Edited, Union, TakenIn, IsMember, NestedIds;
  }

  /** Whatever the edit, it changes what is derived only in groups whose emitted edges lead to the edited group. */
  lemma EditReachesUpstream(groups: GroupMap, restricting: set<string>, edited: string, op: Op, id: string,
                            email: string)
    requires edited in groups
    requires Derived(Edited(groups, edited, op), restricting, id, email) != Derived(groups, restricting, id, email)
    ensures exists steps: nat :: Leads(Emitted(groups, restricting), id, edited, steps)
  {
    EditedElsewhere(groups, restricting, edited, op, email);
    var before := Union(groups, restricting, email);
    var after := Union(Edited(groups, edited, op), restricting, email);
    hide TakenIn, Leads, DirectIn, Emitted, Edited;
    if TakenIn(before, id) {
      LossLeadsThere(before, after, edited, id);
    } else {
      LossLeadsThere(after, before, edited, id);
    }
  }

  lemma OthersAreSpared(groups: GroupMap, restricting: set<string>, edited: string, op: Op, email: string)
    requires edited in groups && Sparing(groups[edited], op)
    requires edited in restricting || KeepsNested(groups[edited], op)
    requires !EqualFold(op.email, email)
    ensures forall id ::
              Derived(Edited(groups, edited, op), restricting, id, email) <==> Derived(groups, restricting, id, email)
  {
    hide Derived, Step, Sparing, KeepsNested, IsMember, EqualFold, NestedIds;
    var before, after := groups[edited], Step(groups[edited], op).0;
    StepEffect(before, op, email);
    StepReferences(before, op);
    assert edited in restricting ||
           forall next :: next in NestedIds(after.included) <==> next in NestedIds(before.included);
    EditChangesNothingExactly(groups, restricting, edited, op, email);
  }

  /** An edit that spares the others and keeps the references changes what is derived for its own address only. */
  lemma EditIsLocal(groups: GroupMap, restricting: set<string>, edited: string, op: Op, id: string, email: string)
    requires edited in groups && Sparing(groups[edited], op)
    requires edited in restricting || KeepsNested(groups[edited], op)
    requires Derived(Edited(groups, edited, op), restricting, id, email) != Derived(groups, restricting, id, email)
    ensures EqualFold(op.email, email)
    ensures exists steps: nat :: Leads(Emitted(groups, restricting), id, edited, steps)
  {
    hide *;
    EditReachesUpstream(groups, restricting, edited, op, id, email);
    if !EqualFold(op.email, email) {
      OthersAreSpared(groups, restricting, edited, op, email);
    }
  }

  lemma StepDirection(grp: AccessGroup, op: Op, email: string)
    ensures var after := Step(grp, op).0;
            if op.Grant? then IsMember(grp, grp.included, email) ==> IsMember(after, after.included, email)
            else IsMember(after, after.included, email) ==> IsMember(grp, grp.included, email)
  {
    var after := Step(grp, op).0;
    if op.Grant? {
      GrantedMember(grp, op.email, email);
    } else {
      MemberExactly(grp, grp.included, email);
      MemberExactly(grp, WithoutEmail(grp.included, op.email), email);
      WithoutEmailExactly(grp.included, op.email);
    }
    MembershipOfRewritten(grp, after.included, after.included, email);
    hide IsMember, MatchesDirectly, EvaluateRule, Names;
  }

  lemma EditWidens(groups: GroupMap, restricting: set<string>, edited: string, op: Op, email: string)
    requires edited in groups
    ensures var before, after := DirectIn(groups, email), DirectIn(Edited(groups, edited, op), email);
            if op.Grant? then before <= after else after <= before
  {
    hide Step, IsMember;
    StepDirection(groups[edited], op, email);
  }

  /** Whatever the rules look like, a Grant takes nobody out of any group, nested ones too; a Revoke lets nobody in. */
  lemma EditHasDirection(groups: GroupMap, restricting: set<string>, edited: string, op: Op, id: string, email: string)
    requires edited in groups
    ensures var after := Edited(groups, edited, op);
            if op.Grant? then Derived(groups, restricting, id, email) ==> Derived(after, restricting, id, email)
            else Derived(after, restricting, id, email) ==> Derived(groups, restricting, id, email)
  {
    hide TakenIn, DirectIn, Emitted, Edited;
    EditWidens(groups, restricting, edited, op, email);
    EditKeepsEdgesExactly(groups, restricting, edited, op);
    var before := Union(groups, restricting, email);
    var after := Union(Edited(groups, edited, op), restricting, email);
    if op.Grant? && TakenIn(before, id) {
      LargerTakesIn(before, after, id);
    }
    if op.Revoke? && TakenIn(after, id) {
      LargerTakesIn(after, before, id);
    }
  }

  // ----- against Cloudflare's own answers -----

  predicate LetsThrough(oracle: Oracle, grp: AccessGroup, email: string) {
    && (forall rule | rule in grp.required :: Holds(oracle, rule, email))
    && (forall rule | rule in grp.excluded :: !Holds(oracle, rule, email))
  }

  predicate TakesIn(oracle: Oracle, grp: AccessGroup, email: string) {
    exists rule | rule in grp.included :: IsDirect(rule) && Holds(oracle, rule, email)
  }

  /** Membership with no rule skipped, and nesting followed everywhere. */
  ghost function Truth(oracle: Oracle, groups: GroupMap, email: string): Graph {
    Graph(set id | id in groups && LetsThrough(oracle, groups[id], email) && TakesIn(oracle, groups[id], email),
          set id, next |
            id in groups && next in NestedIds(groups[id].included) && LetsThrough(oracle, groups[id], email) ::
            (id, next))
  }

  ghost predicate Genuine(oracle: Oracle, groups: GroupMap, id: string, email: string) {
    TakenIn(Truth(oracle, groups, email), id)
  }

  ghost predicate GatesEvaluable(groups: GroupMap) {
    forall id | id in groups :: AllEvaluable(groups[id].required) && AllEvaluable(groups[id].excluded)
  }

  ghost predicate IncludesEvaluable(groups: GroupMap) {
    forall id | id in groups :: AllEvaluable(DirectRules(groups[id].included))
  }

  /** The evaluated lists against the genuine ones: the gates let through no fewer, the lists take in no more. */
  lemma EvaluatedAgainstGenuine(oracle: Oracle, grp: AccessGroup, email: string)
    ensures LetsThrough(oracle, grp, email) ==> SatisfiesRequireExclude(grp, email)
    ensures Admits(grp.included, email) ==> TakesIn(oracle, grp, email)
    ensures AllEvaluable(grp.required) && AllEvaluable(grp.excluded) && SatisfiesRequireExclude(grp, email) ==>
              LetsThrough(oracle, grp, email)
    ensures AllEvaluable(DirectRules(grp.included)) && TakesIn(oracle, grp, email) ==> Admits(grp.included, email)
  {
    NoneFailsExactly(grp.required, email);
    MatchesExactly(grp.excluded, email);
    AdmitsExactly(grp.included, email);
    DirectRulesExactly(grp.included);
    forall rule: Json {
      EvaluableForAll(rule, email);
    }
    hide EvaluateRule, IsEvaluable, IsDirect, Admits;
  }

  lemma TruthAgainstMeaning(oracle: Oracle, groups: GroupMap, email: string)
    ensures var t, m := Truth(oracle, groups, email), Meaning(groups, email);
            && (GatesEvaluable(groups) ==> m.base <= t.base && m.edges <= t.edges)
            && (IncludesEvaluable(groups) ==> t.base <= m.base && t.edges <= m.edges)
  {
    hide LetsThrough, TakesIn, SatisfiesRequireExclude, Admits, IsMember, NestedIds, AllEvaluable, DirectRules;
    forall id | id in groups
      ensures var grp := groups[id];
              && (GatesEvaluable(groups) && SatisfiesRequireExclude(grp, email) ==> LetsThrough(oracle, grp, email))
              && (LetsThrough(oracle, grp, email) ==> SatisfiesRequireExclude(grp, email))
              && (Admits(grp.included, email) ==> TakesIn(oracle, grp, email))
              && (IncludesEvaluable(groups) && TakesIn(oracle, grp, email) ==> Admits(grp.included, email))
              && (IsMember(grp, grp.included, email) <==>
                  Admits(grp.included, email) && SatisfiesRequireExclude(grp, email))
    {
      EvaluatedAgainstGenuine(oracle, groups[id], email);
      MemberIsAdmitted(groups[id], groups[id].included, email);
    }
    hide GatesEvaluable, IncludesEvaluable;
  }

  /**
   Whatever Cloudflare answers for the rules that were skipped, nesting included: with every Require and Exclude rule
   evaluable, expansion derives genuine members only; with every direct Include rule evaluable, it misses only those
   behind a suppressed reference.
   */
  lemma ExpansionErrsOnOneSide(oracle: Oracle, groups: GroupMap, restricting: set<string>, id: string, email: string)
    requires ValidAnswers(groups, restricting)
    ensures GatesEvaluable(groups) && Derived(groups, restricting, id, email) ==> Genuine(oracle, groups, id, email)
    ensures IncludesEvaluable(groups) && Genuine(oracle, groups, id, email) ==>
              Derived(groups, restricting, id, email) || HiddenBehind(groups, restricting, id, email)
  {
    ExpansionExactly(groups, restricting, id, email);
    TruthAgainstMeaning(oracle, groups, email);
    hide Derived, HiddenBehind, TakenIn, Truth, Meaning, GatesEvaluable, IncludesEvaluable, ValidAnswers;
    var t, m := Truth(oracle, groups, email), Meaning(groups, email);
    if GatesEvaluable(groups) && TakenIn(m, id) {
      LargerTakesIn(m, t, id);
    }
    if IncludesEvaluable(groups) && TakenIn(t, id) {
      LargerTakesIn(t, m, id);
    }
  }
}
