/**
 Rules that name an address and do something else besides: what a revoke then changes, and exactly when.
 */
module MixedRules {
  import opened Folding
  import opened Groups
  import opened Json
  import opened Narrowing
  import opened Rules
  import opened Sequences

  predicate Admits(included: seq<Json>, email: string) {
    SomeRuleMatches(DirectRules(included), email)
  }

  lemma AdmitsExactly(included: seq<Json>, email: string)
    ensures Admits(included, email) <==> exists rule | rule in included :: MatchesDirectly(rule, email)
  {
    MatchesExactly(DirectRules(included), email);
    DirectRulesExactly(included);
    hide EvaluateRule, IsDirect;
  }

  /** No Include rule that decides direct membership names the address and everyone at once. */
  predicate NamesNobodyElse(included: seq<Json>, email: string) {
    forall rule | rule in included && IsDirect(rule) && Names(rule, email) :: !NamesEveryone(rule)
  }

  lemma AdmitsWithout(included: seq<Json>, email: string, other: string)
    requires NamesNobodyElse(included, email) && !EqualFold(email, other)
    ensures Admits(WithoutEmail(included, email), other) == Admits(included, other)
  {
    AdmitsExactly(included, other);
    AdmitsExactly(WithoutEmail(included, email), other);
    WithoutEmailExactly(included, email);
    forall rule | rule in included && Names(rule, email) && IsDirect(rule)
      ensures !MatchesDirectly(rule, other)
    {
    }
    hide Admits, Names, EvaluateRule, IsDirect, NamesEveryone;
  }

  // ----- who else loses or gains membership -----

  /** An email rule that matches the spellings of one address only. */
  predicate OneAddress(rule: Json) {
    !NamesEveryone(rule) && ObjectAt(rule, "email").Some?
  }

  /** No rule that goes names everyone too, or Require lets in one address only, so there is nobody else to lose. */
  predicate Spares(grp: AccessGroup, email: string) {
    NamesNobodyElse(grp.included, email) || exists rule | rule in grp.required :: OneAddress(rule)
  }

  /** An address with the domain of this one, and longer than n. */
  function Neighbour(email: string, n: nat): string {
    var at := LastIndex(email, '@');
    Stranger(n) + if at < 0 then "" else email[at..]
  }

  lemma NeighbourSharesDomain(email: string, n: nat)
    ensures |Neighbour(email, n)| > n
    ensures EmailDomain(Neighbour(email, n)) == EmailDomain(email)
  {
    hide LastIndex;
    LastIndexIsLast(email, '@');
    var at := LastIndex(email, '@');
    if at < 0 {
      LastIndexIs(Stranger(n), '@', -1);
      assert Stranger(n) + "" == Stranger(n);
    } else {
      DomainAfter(Stranger(n), email, at);
    }
  }

  lemma DomainAfter(local: string, email: string, at: nat)
    requires at < |email| && email[at] == '@' && forall k | at < k < |email| :: email[k] != '@'
    ensures EmailDomain(local + email[at..]) == email[at + 1..]
  {
    hide LastIndex;
    var whole := local + email[at..];
    LastIndexIs(whole, '@', |local|);
    assert whole[|local| + 1..] == email[at + 1..];
  }

  /** A neighbour fares as the address itself with every rule but those naming one address, which it fails. */
  lemma NeighbourFares(rule: Json, email: string, n: nat)
    requires AddressLength(rule) <= n
    ensures EvaluateRule(rule, Neighbour(email, n)) == if OneAddress(rule) then NoMatch else EvaluateRule(rule, email)
  {
    NeighbourSharesDomain(email, n);
  }

  function LongestOf(grp: AccessGroup): (n: nat)
    ensures forall rule | rule in grp.included || rule in grp.required || rule in grp.excluded ::
      AddressLength(rule) <= n
  {
    LongestAddress(grp.included) + LongestAddress(grp.required) + LongestAddress(grp.excluded)
  }

  lemma NeighbourIsLetThrough(grp: AccessGroup, email: string, n: nat)
    requires SatisfiesRequireExclude(grp, email) && LongestOf(grp) <= n
    requires forall rule | rule in grp.required :: !OneAddress(rule)
    ensures SatisfiesRequireExclude(grp, Neighbour(email, n))
  {
    hide EvaluateRule, OneAddress, Neighbour, SatisfiesRequireExclude;
    KeptOutExactly(grp, email);
    KeptOutExactly(grp, Neighbour(email, n));
    forall rule | rule in grp.required || rule in grp.excluded {
      NeighbourFares(rule, email, n);
    }
  }

  lemma LosesNeighbour(grp: AccessGroup, email: string, n: nat)
    requires RevokeDecision(grp, email).1 == RemoveRule
    requires !Spares(grp, email) && LongestOf(grp) <= n
    ensures IsMember(grp, grp.included, Neighbour(email, n))
    ensures !IsMember(grp, WithoutEmail(grp.included, email), Neighbour(email, n))
  {
    var neighbour, kept := Neighbour(email, n), WithoutEmail(grp.included, email);
    NeighbourIsLetThrough(grp, email, n);
    RevokeDecisionExactly(grp, email);
    WithoutEmailExactly(grp.included, email);
    var mixed :| mixed in grp.included && IsDirect(mixed) && Names(mixed, email) && NamesEveryone(mixed);
    assert MatchesDirectly(mixed, neighbour);
    AdmitsExactly(grp.included, neighbour);
    AdmitsExactly(kept, neighbour);
    hide RevokeDecision, Names, EvaluateRule, IsDirect, Neighbour, OneAddress, SatisfiesRequireExclude, Admits;
    forall rule | rule in kept
      ensures !MatchesDirectly(rule, neighbour)
    {
      NeighbourFares(rule, email, n);
    }
    MemberIsAdmitted(grp, grp.included, neighbour);
    MemberIsAdmitted(grp, kept, neighbour);
  }

  lemma MemberIsAdmitted(grp: AccessGroup, included: seq<Json>, email: string)
    ensures IsMember(grp, included, email) <==> Admits(included, email) && SatisfiesRequireExclude(grp, email)
  {
  }

  lemma OneAddressBarsOthers(grp: AccessGroup, rule: Json, email: string, other: string)
    requires rule in grp.required && OneAddress(rule)
    requires SatisfiesRequireExclude(grp, email) && !EqualFold(email, other)
    ensures !SatisfiesRequireExclude(grp, other)
  {
    KeptOutExactly(grp, email);
    KeptOutExactly(grp, other);
    assert EvaluateRule(rule, email) == Match;
  }

  lemma SparesOther(grp: AccessGroup, email: string, other: string)
    requires RevokeDecision(grp, email).1 == RemoveRule
    requires Spares(grp, email) && !EqualFold(email, other)
    ensures IsMember(grp, WithoutEmail(grp.included, email), other) == IsMember(grp, grp.included, other)
  {
    MemberIsAdmitted(grp, grp.included, other);
    MemberIsAdmitted(grp, WithoutEmail(grp.included, email), other);
    if NamesNobodyElse(grp.included, email) {
      AdmitsWithout(grp.included, email, other);
    } else {
      var rule :| rule in grp.required && OneAddress(rule);
      OneAddressBarsOthers(grp, rule, email, other);
    }
    hide Admits, SatisfiesRequireExclude, EqualFold, IsMember;
  }

  /**
   Revoking one address changes nobody else's membership, exactly when no direct rule that goes names everyone too, or
   a Require rule names one address, so that nobody else was a member.
   */
  lemma RevokeSparesOthersExactly(grp: AccessGroup, email: string)
    requires RevokeDecision(grp, email).1 == RemoveRule
    ensures (forall other | !EqualFold(email, other) ::
               IsMember(grp, WithoutEmail(grp.included, email), other) == IsMember(grp, grp.included, other)) <==>
            Spares(grp, email)
  {
    if Spares(grp, email) {
      forall other | !EqualFold(email, other)
        ensures IsMember(grp, WithoutEmail(grp.included, email), other) == IsMember(grp, grp.included, other)
      {
        SparesOther(grp, email, other);
      }
    } else {
      var n := LongestOf(grp) + |email|;
      NeighbourSharesDomain(email, n);
      assert |Fold(Neighbour(email, n))| != |Fold(email)|;
      LosesNeighbour(grp, email, n);
    }
    hide IsMember, RevokeDecision, Spares, Neighbour;
  }

  // ----- which nested groups are lost -----

  /** The rules that refer to groups, in order. */
  function NestedRules(included: seq<Json>): seq<Json> {
    Filter(included, IsNested)
  }

  /** Whatever group a rule that goes refers to, a rule that stays refers to as well. */
  predicate KeepsReferences(included: seq<Json>, email: string) {
    forall rule | rule in included && Names(rule, email) && NestedId(rule) != "" ::
      exists other | other in included :: !Names(other, email) && NestedId(other) == NestedId(rule)
  }

  /** A revoke keeps the nested groups exactly when each reference that goes is repeated in a rule that stays. */
  lemma RevokeKeepsReferencesExactly(included: seq<Json>, email: string)
    ensures (forall id :: id in NestedIds(WithoutEmail(included, email)) <==> id in NestedIds(included)) <==>
            KeepsReferences(included, email)
    ensures forall id | id in NestedIds(WithoutEmail(included, email)) :: id in NestedIds(included)
  {
    hide NestedId, Names, NestedIds, WithoutEmail;
    NestedIdsExactly(included);
    NestedIdsExactly(WithoutEmail(included, email));
    WithoutEmailExactly(included, email);
    if !KeepsReferences(included, email) {
      var rule :| rule in included && Names(rule, email) && NestedId(rule) != "" &&
                  forall other | other in included :: Names(other, email) || NestedId(other) != NestedId(rule);
      assert NestedId(rule) in NestedIds(included);
    }
  }

  /** Every group reference survives a revoke exactly when none of them names the address. */
  lemma RevokeKeepsNestingExactly(included: seq<Json>, email: string)
    ensures |NestedRules(WithoutEmail(included, email))| <= |NestedRules(included)|
    ensures NestedRules(WithoutEmail(included, email)) == NestedRules(included) <==> NamesNoGroup(included, email)
  {
    hide IsNested, Names;
    FilterTwice(included, NotNaming(email), IsNested);
    FilterKeepsAllExactly(NestedRules(included), NotNaming(email));
    FilterExactly(included, IsNested);
  }

  /** A group of one rule naming everyone and an address besides a rule for no one in particular. */
  function TwoKeyGroup(email: string): AccessGroup {
    var rule := Object(map["everyone" := Object(map[]), "email" := Object(map["email" := Text(email)])]);
    AccessGroup("g", "staff", [rule, Object(map["geo" := Object(map[])])], [], [])
  }

  lemma TwoKeyRules(email: string, other: string)
    requires email != ""
    ensures var rules := TwoKeyGroup(email).included;
            && Names(rules[0], email) && MatchesDirectly(rules[0], other)
            && !Names(rules[1], email) && !MatchesDirectly(rules[1], other)
  {
  }

  lemma WithoutFirst(first: Json, second: Json, email: string)
    requires Names(first, email) && !Names(second, email)
    ensures WithoutEmail([first, second], email) == [second]
  {
    hide Names;
    FilterOne(first, NotNaming(email));
    FilterAppend([first], second, NotNaming(email));
    assert [first, second] == [first] + [second];
  }

  /** Such a rule goes with the address it names, and everybody goes with it. */
  lemma TwoKeyRuleRevokesEverybody(email: string, other: string)
    requires email != ""
    ensures var grp := TwoKeyGroup(email);
            var (after, reply) := RevokeStep(grp, email);
            && reply == Ok(Written)
            && IsMember(grp, grp.included, other)
            && !IsMember(after, after.included, other)
  {
    var grp := TwoKeyGroup(email);
    var rule, geo := grp.included[0], grp.included[1];
    TwoKeyRules(email, email);
    TwoKeyRules(email, other);
    hide Names, MatchesDirectly, IsMember;
    MemberExactly(grp, grp.included, email);
    MemberExactly(grp, grp.included, other);
    RevokeDecisionExactly(grp, email);
    WithoutFirst(rule, geo, email);
    MemberExactly(grp.(included := [geo]), [geo], other);
  }
}
