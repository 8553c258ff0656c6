/**
 What any run of Grants and Revokes does to a group.
 */
module GroupRuns {
  import opened Account
  import opened Folding
  import opened Groups
  import opened Json
  import opened MixedRules
  import opened Narrowing
  import opened Rules
  import opened Sequences

  // ----- a grant and the revoke that undoes it -----

  lemma WithoutUnnamed(included: seq<Json>, email: string)
    ensures |WithoutEmail(included, email)| <= |included|
    ensures WithoutEmail(included, email) == included <==> !IsNamed(included, email)
  {
    hide Names;
    FilterKeepsAllExactly(included, NotNaming(email));
    IsNamedExactly(included, email);
  }

  lemma WithoutGranted(included: seq<Json>, email: string)
    requires email != ""
    ensures WithoutEmail(included + [EmailRule(email)], email) == WithoutEmail(included, email)
    ensures IsNamed(included + [EmailRule(email)], email)
  {
    EmailRuleNames(email, email);
    FilterAppend(included, EmailRule(email), NotNaming(email));
  }

  /** Where an address is not a direct member for want of a rule, only group references can name it. */
  lemma UnadmittedNames(grp: AccessGroup, email: string)
    requires !IsMember(grp, grp.included, email) && SatisfiesRequireExclude(grp, email)
    ensures !IsMember(grp, WithoutEmail(grp.included, email), email)
    ensures NamesNoGroup(grp.included, email) <==> !IsNamed(grp.included, email)
  {
    MatchesExactly(DirectRules(grp.included), email);
    DirectRulesExactly(grp.included);
    IsNamedExactly(grp.included, email);
    var kept := WithoutEmail(grp.included, email);
    WithoutEmailExactly(grp.included, email);
    MatchesExactly(DirectRules(kept), email);
    DirectRulesExactly(kept);
    forall rule | rule in grp.included && Names(rule, email)
      ensures IsNested(rule)
    {
      assert EvaluateRule(rule, email) == Match;
    }
    hide Names, EvaluateRule, IsNested;
  }

  /**
   Revoke undoes a Grant that wrote: it always may remove the rule, and it writes back the original list, element for
   element, exactly when no group reference in it names the address.
   */
  lemma GrantThenRevokeDecision(grp: AccessGroup, email: string)
    requires email != "" && GrantStep(grp, email).1 == Ok(Written)
    ensures RevokeDecision(GrantStep(grp, email).0, email) == (WithoutEmail(grp.included, email), RemoveRule)
    ensures RevokeDecision(GrantStep(grp, email).0, email).0 == grp.included <==> NamesNoGroup(grp.included, email)
  {
    var granted := GrantStep(grp, email).0;
    WrittenGrantIsMember(grp, email);
    WithoutGranted(grp.included, email);
    WithoutUnnamed(grp.included, email);
    UnadmittedNames(grp, email);
    MembershipOfRewritten(grp, granted.included, WithoutEmail(grp.included, email), email);
    hide IsMember, SatisfiesRequireExclude, IsNamed, NamesNoGroup, WithoutEmail;
  }

  /**
   The whole group is back as it was, exactly when it had another rule to keep and none of its group references named
   the address.
   */
  lemma GrantThenRevokeIsIdentity(grp: AccessGroup, email: string)
    requires email != "" && GrantStep(grp, email).1 == Ok(Written)
    ensures var granted := GrantStep(grp, email).0;
            RevokeStep(granted, email) == (grp, Ok(Written)) <==>
            grp.included != [] && NamesNoGroup(grp.included, email)
  {
    GrantThenRevokeDecision(grp, email);
    WithoutUnnamed(grp.included, email);
    hide IsMember, SatisfiesRequireExclude, IsNamed, NamesNoGroup, WithoutEmail, RevokeDecision;
  }

  /**
   The revoke is refused for emptying the list exactly when the user is a member and every rule there is names them.
   */
  lemma LastRuleExactly(grp: AccessGroup, email: string)
    ensures RevokeStep(grp, email).1 == Err(LastRule) <==>
            && IsMember(grp, grp.included, email)
            && forall rule | rule in grp.included :: Names(rule, email)
  {
    RevokeDecisionExactly(grp, email);
    WithoutEmailExactly(grp.included, email);
    var kept := WithoutEmail(grp.included, email);
    if kept == [] {
    } else {
      assert kept[0] in kept;
    }
    hide IsMember, MatchesDirectly, Names;
  }

  lemma FilterIsCaseBlind(included: seq<Json>, e: string, e': string)
    requires EqualFold(e, e')
    ensures WithoutEmail(included, e) == WithoutEmail(included, e')
    ensures IsNamed(included, e) == IsNamed(included, e')
  {
    FilterSame(included, NotNaming(e), NotNaming(e'));
    IsNamedExactly(included, e);
    IsNamedExactly(included, e');
  }

  /** Revoking under another spelling of the address decides the same and writes the same list. */
  lemma RevokeIsCaseBlind(grp: AccessGroup, e: string, e': string)
    requires EqualFold(e, e')
    ensures RevokeDecision(grp, e) == RevokeDecision(grp, e')
    ensures RevokeStep(grp, e) == RevokeStep(grp, e')
  {
    FilterIsCaseBlind(grp.included, e, e');
    MembershipIsCaseBlind(grp, grp.included, e, e');
    MembershipIsCaseBlind(grp, WithoutEmail(grp.included, e), e, e');
    hide IsMember, EqualFold;
  }

  // ----- one step on a group whose email rules are only email rules -----

  /** A rule that names an address admits nobody else and refers to no group. Rules with one key are all like that. */
  predicate Plain(rule: Json) {
    IncludeRuleEmail(rule).Some? ==> !NamesEveryone(rule) && !IsNested(rule)
  }

  predicate AllPlain(included: seq<Json>) {
    forall rule | rule in included :: Plain(rule)
  }

  lemma SingleKeyIsPlain(rule: Json)
    requires SingleKey(rule)
    ensures Plain(rule)
  {
    if IncludeRuleEmail(rule).Some? {
      assert |rule.fields.Keys - {"email"}| == 0;
      assert "everyone" !in rule.fields.Keys - {"email"} && "group" !in rule.fields.Keys - {"email"};
    }
  }

  datatype Op = Grant(email: string) | Revoke(email: string)

  function Step(grp: AccessGroup, op: Op): (AccessGroup, Result<Reply, Error>) {
    match op
    case Grant(email) => GrantStep(grp, email)
    case Revoke(email) => RevokeStep(grp, email)
  }

  /** A Revoke that writes changes nobody else's membership; see RevokeSparesOthersExactly. */
  predicate Sparing(grp: AccessGroup, op: Op) {
    op.Revoke? && RevokeStep(grp, op.email).1 == Ok(Written) ==> Spares(grp, op.email)
  }

  lemma PlainStepSpares(grp: AccessGroup, op: Op)
    requires AllPlain(grp.included)
    ensures Sparing(grp, op) && KeepsReferences(grp.included, op.email)
  {
    forall rule | rule in grp.included && Names(rule, op.email)
      ensures !NamesEveryone(rule) && NestedId(rule) == ""
    {
      assert Plain(rule);
    }
    hide RevokeDecision, Names, NestedId, IsDirect, NamesEveryone;
  }

  /** Whether the step settles its address's membership: it succeeded, and did not grant an empty address. */
  predicate Decides(op: Op, reply: Result<Reply, Error>) {
    reply.Ok? && !(op == Op.Grant("") && reply == Ok(Written))
  }

  lemma GrantSparesOthers(grp: AccessGroup, email: string, other: string)
    requires email == "" || !EqualFold(email, other)
    ensures IsMember(grp, grp.included + [EmailRule(email)], other) == IsMember(grp, grp.included, other)
  {
    GrantedMember(grp, email, other);
  }

  /**
   A step that succeeds decides its own address; a step that is refused changes nothing; no other address is touched.
   */
  lemma StepEffect(grp: AccessGroup, op: Op, other: string)
    requires Sparing(grp, op)
    ensures var (after, reply) := Step(grp, op);
            && (Decides(op, reply) ==> IsMember(after, after.included, op.email) == op.Grant?)
            && (reply.Err? ==> after == grp)
            && (!Decides(op, reply) || !EqualFold(op.email, other) ==>
                  IsMember(after, after.included, other) == IsMember(grp, grp.included, other))
  {
    hide IsMember, EqualFold, Spares;
    var (after, reply) := Step(grp, op);
    MembershipOfRewritten(grp, after.included, after.included, op.email);
    MembershipOfRewritten(grp, after.included, after.included, other);
    if reply == Ok(Written) {
      if op.Grant? {
        WrittenGrantIsMember(grp, op.email);
      }
      if !Decides(op, reply) || !EqualFold(op.email, other) {
        if op.Grant? {
          GrantSparesOthers(grp, op.email, other);
        } else {
          SparesOther(grp, op.email, other);
        }
      }
    }
  }

  // ----- what never changes -----

  predicate NamesNoAddress(rule: Json) {
    IncludeRuleEmail(rule).None?
  }

  /** The Include rules that name no address, in order. */
  function OtherRules(included: seq<Json>): seq<Json> {
    Filter(included, NamesNoAddress)
  }

  lemma FilterKeepsOtherRules(included: seq<Json>, email: string)
    ensures OtherRules(WithoutEmail(included, email)) == OtherRules(included)
  {
    FilterTwice(included, NotNaming(email), NamesNoAddress);
  }

  lemma {:induction false} OtherRulesDecideNesting(included: seq<Json>)
    requires AllPlain(included)
    ensures NestedIds(included) == NestedIds(OtherRules(included))
  {
    if included == [] {
    } else {
      var prefix, last := included[..|included| - 1], included[|included| - 1];
      OtherRulesDecideNesting(prefix);
      assert Plain(last);
      LastFiltered(included, NamesNoAddress);
      var others := OtherRules(prefix);
      assert (others + [last])[..|others|] == others;
    }
  }

  predicate SameFrame(a: AccessGroup, b: AccessGroup) {
    a.id == b.id && a.name == b.name && a.required == b.required && a.excluded == b.excluded
  }

  /** At most one rule of the list names any one address. */
  predicate NamedOnce(included: seq<Json>) {
    forall i, j | 0 <= i < j < |included| ::
      IncludeRuleEmail(included[i]).Some? && IncludeRuleEmail(included[j]).Some? ==>
        !EqualFold(IncludeRuleEmail(included[i]).value, IncludeRuleEmail(included[j]).value)
  }

  lemma {:induction false} FilterKeepsNamedOnce(included: seq<Json>, email: string)
    requires NamedOnce(included)
    ensures NamedOnce(WithoutEmail(included, email))
  {
    if included == [] {
    } else {
      var prefix, last := included[..|included| - 1], included[|included| - 1];
      FilterKeepsNamedOnce(prefix, email);
      LastFiltered(included, NotNaming(email));
      var kept := WithoutEmail(prefix, email);
      WithoutEmailExactly(prefix, email);
      forall i | 0 <= i < |kept| && IncludeRuleEmail(kept[i]).Some? && IncludeRuleEmail(last).Some?
        ensures !EqualFold(IncludeRuleEmail(kept[i]).value, IncludeRuleEmail(last).value)
      {
        assert kept[i] in prefix;
        var k :| 0 <= k < |prefix| && prefix[k] == kept[i];
        assert included[k] == kept[i];
      }
    }
  }

  lemma GrantKeepsNamedOnce(grp: AccessGroup, email: string)
    requires AllPlain(grp.included) && NamedOnce(grp.included)
    requires GrantStep(grp, email).1 == Ok(Written)
    ensures NamedOnce(grp.included + [EmailRule(email)])
  {
    UnadmittedNames(grp, email);
    IsNamedExactly(grp.included, email);
    forall i | 0 <= i < |grp.included| && IncludeRuleEmail(grp.included[i]).Some?
      ensures !EqualFold(IncludeRuleEmail(grp.included[i]).value, email)
    {
      assert !Names(grp.included[i], email);
    }
    EmailRuleNames(email, email);
    hide EqualFold, IncludeRuleEmail, IsMember, EmailRule, Names;
  }

  lemma GrantKeepsOtherRules(included: seq<Json>, email: string)
    requires email != ""
    ensures OtherRules(included + [EmailRule(email)]) == OtherRules(included)
  {
    EmailRuleNames(email, email);
    FilterAppend(included, EmailRule(email), NamesNoAddress);
  }

  /**
   Along any step the group keeps its name and its other lists, and a list that was not empty stays so; it keeps every
   rule that names no address, in order, unless a Grant writes one for nobody.
   */
  lemma StepFrame(grp: AccessGroup, op: Op)
    ensures var after := Step(grp, op).0;
            && SameFrame(grp, after)
            && (grp.included != [] ==> after.included != [])
            && (op != Op.Grant("") ==> OtherRules(after.included) == OtherRules(grp.included))
            && (AllPlain(grp.included) ==> AllPlain(after.included))
            && (AllPlain(grp.included) && NamedOnce(grp.included) ==> NamedOnce(after.included))
  {
    hide IsMember, EqualFold, NamedOnce, OtherRules;
    var (after, reply) := Step(grp, op);
    if reply == Ok(Written) {
      if op.Grant? {
        EmailRuleNames(op.email, op.email);
        if op.email != "" {
          GrantKeepsOtherRules(grp.included, op.email);
        }
        if AllPlain(grp.included) && NamedOnce(grp.included) {
          GrantKeepsNamedOnce(grp, op.email);
        }
      } else {
        FilterKeepsOtherRules(grp.included, op.email);
        WithoutEmailExactly(grp.included, op.email);
        if NamedOnce(grp.included) {
          FilterKeepsNamedOnce(grp.included, op.email);
        }
      }
    }
  }

  lemma GrantKeepsNesting(included: seq<Json>, email: string)
    ensures NestedIds(included + [EmailRule(email)]) == NestedIds(included)
  {
    EmailRuleNames(email, email);
    hide EmailRule;
    assert (included + [EmailRule(email)])[..|included|] == included;
  }

  /** A Grant leaves the nested IDs alone, and so does a Revoke where no rule names an address and a group at once. */
  lemma StepKeepsNesting(grp: AccessGroup, op: Op)
    requires op.Revoke? ==> AllPlain(grp.included)
    ensures NestedIds(Step(grp, op).0.included) == NestedIds(grp.included)
  {
    if op.Grant? {
      GrantKeepsNesting(grp.included, op.email);
    } else {
      StepFrame(grp, op);
      OtherRulesDecideNesting(grp.included);
      OtherRulesDecideNesting(Step(grp, op).0.included);
    }
    hide NestedIds, OtherRules, IsMember, Plain, NamedOnce;
  }

  // ----- runs -----

  function Run(grp: AccessGroup, ops: seq<Op>): AccessGroup {
    if ops == [] then grp else Step(Run(grp, ops[..|ops| - 1]), ops[|ops| - 1]).0
  }

  /** The abstract state a run refines: per folded address, whether the last step that decided it was a Grant. */
  function Ledger(grp: AccessGroup, ops: seq<Op>): map<string, bool> {
    if ops == [] then map[]
    else
      var before, op := ops[..|ops| - 1], ops[|ops| - 1];
      var ledger := Ledger(grp, before);
      if Decides(op, Step(Run(grp, before), op).1) then ledger[Fold(op.email) := op.Grant?] else ledger
  }

  /** What an address is after a run, going by the ledger alone. */
  predicate LedgerMember(grp: AccessGroup, ops: seq<Op>, email: string) {
    var ledger := Ledger(grp, ops);
    if Fold(email) in ledger then ledger[Fold(email)] else IsMember(grp, grp.included, email)
  }

  /** Every Revoke along the run changes nobody else's membership. */
  predicate RunSpares(grp: AccessGroup, ops: seq<Op>) {
    ops == [] ||
    (RunSpares(grp, ops[..|ops| - 1]) && Sparing(Run(grp, ops[..|ops| - 1]), ops[|ops| - 1]))
  }

  /** Along any run the frame of a step holds from end to end; without mixed rules the nested IDs never change. */
  lemma {:induction false} RunFrame(grp: AccessGroup, ops: seq<Op>)
    ensures var after := Run(grp, ops);
            && SameFrame(grp, after)
            && (grp.included != [] ==> after.included != [])
            && (Op.Grant("") !in ops ==> OtherRules(after.included) == OtherRules(grp.included))
            && (AllPlain(grp.included) ==>
                  && AllPlain(after.included) && NestedIds(after.included) == NestedIds(grp.included)
                  && (NamedOnce(grp.included) ==> NamedOnce(after.included)))
  {
    hide Step, AllPlain, NamedOnce, OtherRules, NestedIds;
    if ops == [] {
    } else {
      var before, last := ops[..|ops| - 1], ops[|ops| - 1];
      assert ops == before + [last];
      RunFrame(grp, before);
      StepFrame(Run(grp, before), last);
      if AllPlain(grp.included) {
        StepKeepsNesting(Run(grp, before), last);
      }
    }
  }

  /** Where no rule is mixed, every run spares everybody else. */
  lemma {:induction false} PlainRunSpares(grp: AccessGroup, ops: seq<Op>)
    requires AllPlain(grp.included)
    ensures RunSpares(grp, ops)
  {
    hide Step, AllPlain, Sparing;
    if ops == [] {
    } else {
      var before := ops[..|ops| - 1];
      PlainRunSpares(grp, before);
      RunFrame(grp, before);
      PlainStepSpares(Run(grp, before), ops[|ops| - 1]);
    }
  }

  /**
   After any run, membership of any address is what the ledger says, and what it was at first where the ledger is
   silent.
   */
  lemma {:induction false} RunRefinesLedger(grp: AccessGroup, ops: seq<Op>, email: string)
    requires RunSpares(grp, ops)
    ensures IsMember(Run(grp, ops), Run(grp, ops).included, email) == LedgerMember(grp, ops, email)
  {
    hide IsMember, Step, Sparing, Decides;
    if ops == [] {
    } else {
      var before, op := ops[..|ops| - 1], ops[|ops| - 1];
      RunRefinesLedger(grp, before, email);
      StepEffect(Run(grp, before), op, email);
      if EqualFold(op.email, email) {
        var after := Run(grp, ops);
        MembershipIsCaseBlind(after, after.included, op.email, email);
      }
    }
  }

  /** The ledger says of every address what it is after the run. */
  ghost predicate LedgerHolds(grp: AccessGroup, ops: seq<Op>) {
    forall email :: IsMember(Run(grp, ops), Run(grp, ops).included, email) == LedgerMember(grp, ops, email)
  }

  lemma LedgerOfStep(grp: AccessGroup, ops: seq<Op>, op: Op, other: string)
    requires !EqualFold(op.email, other)
    ensures Run(grp, ops + [op]) == Step(Run(grp, ops), op).0
    ensures LedgerMember(grp, ops + [op], other) == LedgerMember(grp, ops, other)
  {
    assert (ops + [op])[..|ops|] == ops;
    hide IsMember, Step;
  }

  lemma UnsparingStepEscapes(grp: AccessGroup, ops: seq<Op>, op: Op)
    requires RunSpares(grp, ops) && !Sparing(Run(grp, ops), op)
    ensures !LedgerHolds(grp, ops + [op])
  {
    hide IsMember, RunSpares, Spares, Run, LedgerMember, EqualFold;
    var before := Run(grp, ops);
    RevokeSparesOthersExactly(before, op.email);
    var other :| !EqualFold(op.email, other) &&
                 IsMember(before, WithoutEmail(before.included, op.email), other) !=
                 IsMember(before, before.included, other);
    RunRefinesLedger(grp, ops, other);
    LedgerOfStep(grp, ops, op, other);
    var after := Step(before, op).0;
    MembershipOfRewritten(before, after.included, after.included, other);
  }

  /** The ledger holds all along a run exactly when every Revoke that writes spares everybody else. */
  lemma {:induction false} LedgerHoldsExactly(grp: AccessGroup, ops: seq<Op>)
    ensures (forall n | 0 <= n <= |ops| :: LedgerHolds(grp, ops[..n])) <==> RunSpares(grp, ops)
  {
    hide LedgerHolds, Sparing, Run;
    assert ops[..|ops|] == ops;
    if RunSpares(grp, ops) {
      SparingRunHolds(grp, ops);
    }
    if ops == [] {
      assert forall n | 0 <= n <= |ops| :: ops[..n] == ops;
    } else {
      var before, op := ops[..|ops| - 1], ops[|ops| - 1];
      LedgerHoldsExactly(grp, before);
      assert forall n | 0 <= n < |ops| :: before[..n] == ops[..n];
      if RunSpares(grp, before) && !RunSpares(grp, ops) {
        UnsparingStepEscapes(grp, before, op);
        assert before + [op] == ops;
      }
    }
  }

  lemma SparingRunHolds(grp: AccessGroup, ops: seq<Op>)
    requires RunSpares(grp, ops)
    ensures LedgerHolds(grp, ops)
  {
    forall email {
      RunRefinesLedger(grp, ops, email);
    }
  }

  // ----- read off the group at the start -----

  /** As long as a direct rule for everyone is in the list, no step has anything to write. */
  lemma EveryoneLeavesNothingToWrite(grp: AccessGroup, op: Op, rule: Json)
    requires rule in Step(grp, op).0.included && IsDirect(rule) && NamesEveryone(rule)
    ensures Step(grp, op).0 == grp
  {
    EmailRuleNames(op.email, op.email);
    assert MatchesDirectly(rule, op.email);
    hide IsDirect, NamesEveryone, EvaluateRule, EmailRule, IsMember, Names;
    if op.Grant? {
      GrantExactly(grp, op.email);
    } else {
      RevokeDecisionExactly(grp, op.email);
      WithoutEmailExactly(grp.included, op.email);
    }
  }

  lemma StaysSparing(grp: AccessGroup, op: Op, email: string)
    requires Sparing(grp, Op.Revoke(email))
    ensures Sparing(Step(grp, op).0, Op.Revoke(email))
  {
    StepFrame(grp, op);
    var after := Step(grp, op).0;
    hide Step, IsDirect, Names, NamesEveryone, RevokeStep, OneAddress, NamedOnce, AllPlain, OtherRules;
    if !NamesNobodyElse(after.included, email) {
      var mixed :| mixed in after.included && IsDirect(mixed) && Names(mixed, email) && NamesEveryone(mixed);
      EveryoneLeavesNothingToWrite(grp, op, mixed);
    }
  }

  lemma {:induction false} AlwaysSparing(grp: AccessGroup, ops: seq<Op>)
    requires forall email :: Sparing(grp, Op.Revoke(email))
    ensures RunSpares(grp, ops) && forall email :: Sparing(Run(grp, ops), Op.Revoke(email))
  {
    hide Step, Spares, RevokeStep;
    if ops == [] {
    } else {
      var before, op := ops[..|ops| - 1], ops[|ops| - 1];
      AlwaysSparing(grp, before);
      assert Sparing(Run(grp, before), Op.Revoke(op.email));
      forall email
        ensures Sparing(Run(grp, ops), Op.Revoke(email))
      {
        StaysSparing(Run(grp, before), op, email);
      }
    }
  }

  /** The ledger holds after every run exactly when no single Revoke on the group as it is would take others along. */
  lemma LedgerAlwaysHoldsExactly(grp: AccessGroup)
    ensures (forall ops :: LedgerHolds(grp, ops)) <==> (forall email :: Sparing(grp, Op.Revoke(email)))
  {
    hide LedgerHolds, Sparing, Step;
    if forall email :: Sparing(grp, Op.Revoke(email)) {
      forall ops
        ensures LedgerHolds(grp, ops)
      {
        AlwaysSparing(grp, ops);
        SparingRunHolds(grp, ops);
      }
    }
    if forall ops :: LedgerHolds(grp, ops) {
      forall email
        ensures Sparing(grp, Op.Revoke(email))
      {
        LedgerHoldsExactly(grp, [Op.Revoke(email)]);
        assert [Op.Revoke(email)][..0] == [];
      }
    }
  }
}
