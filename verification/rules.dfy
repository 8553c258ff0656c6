/**
 The Access rule engine: three-valued evaluation of one rule, and the Include/Require/Exclude lists.
 */
module Rules {
  import opened Folding
  import opened Json
  import opened Sequences

  datatype Evaluation = NoMatch | Match | Unevaluable

  datatype AccessGroup = AccessGroup(id: string, name: string, included: seq<Json>, excluded: seq<Json>,
                                     required: seq<Json>)

  /** Tests one rule against the user with this email, the only attribute a rule can see. */
  function EvaluateRule(rule: Json, email: string): Evaluation {
    if !rule.Object? then Unevaluable
    else if "everyone" in rule.fields then Match
    else match ObjectAt(rule, "email")
      case Some(named) =>
        var address := TextAt(named, "email");
        if address != "" && EqualFold(address, email) then Match else NoMatch
      case None =>
        match ObjectAt(rule, "email_domain")
        case Some(named) =>
          var domain := TextAt(named, "domain");
          if domain != "" && EqualFold(EmailDomain(email), domain) then Match else NoMatch
        case None => Unevaluable
  }

  predicate IsEvaluable(rule: Json) {
    EvaluateRule(rule, "") != Unevaluable
  }

  /** Whether a rule matches: the OR of the list, unevaluable rules counting as false. */
  predicate SomeRuleMatches(rules: seq<Json>, email: string) {
    rules != [] &&
    (SomeRuleMatches(rules[..|rules| - 1], email) || EvaluateRule(rules[|rules| - 1], email) == Match)
  }

  /** Whether every rule matches: the AND of the list, unevaluable rules counting as true. */
  predicate NoRuleFails(rules: seq<Json>, email: string) {
    rules == [] ||
    (NoRuleFails(rules[..|rules| - 1], email) && EvaluateRule(rules[|rules| - 1], email) != NoMatch)
  }

  predicate SomeRuleEvaluable(rules: seq<Json>) {
    exists rule | rule in rules :: IsEvaluable(rule)
  }

  /** A rule that refers to another group. */
  predicate IsNested(rule: Json) {
    ObjectAt(rule, "group").Some?
  }

  predicate IsDirect(rule: Json) {
    rule.Object? && !IsNested(rule)
  }

  /** The Include rules that name users themselves, in order. */
  function DirectRules(rules: seq<Json>): seq<Json> {
    Filter(rules, IsDirect)
  }

  /** The group a rule refers to, or "". */
  function NestedId(rule: Json): string {
    match ObjectAt(rule, "group")
    case Some(named) => TextAt(named, "id")
    case None => ""
  }

  /** The groups the Include rules refer to, each once, in order of first appearance. */
  function NestedIds(rules: seq<Json>): seq<string> {
    if rules == [] then []
    else
      var ids, id := NestedIds(rules[..|rules| - 1]), NestedId(rules[|rules| - 1]);
      if id != "" && id !in ids then ids + [id] else ids
  }

  predicate SatisfiesRequireExclude(grp: AccessGroup, email: string) {
    NoRuleFails(grp.required, email) && !SomeRuleMatches(grp.excluded, email)
  }

  predicate MatchesDirectRules(grp: AccessGroup, direct: seq<Json>, email: string) {
    SomeRuleMatches(direct, email) && SatisfiesRequireExclude(grp, email)
  }

  /** Whether the rules this connector can evaluate admit the user, taking included as the Include list. */
  predicate IsMember(grp: AccessGroup, included: seq<Json>, email: string) {
    MatchesDirectRules(grp, DirectRules(included), email)
  }

  /** The address an "email" rule names. */
  function IncludeRuleEmail(rule: Json): Option<string> {
    match ObjectAt(rule, "email")
    case Some(named) =>
      var address := TextAt(named, "email");
      if address == "" then None else Some(address)
    case None => None
  }

  predicate Names(rule: Json, email: string) {
    var address := IncludeRuleEmail(rule);
    address.Some? && EqualFold(address.value, email)
  }

  // ----- a rule as it is written -----

  /** The rule has an object under this key. */
  predicate HasKind(rule: Json, kind: string) {
    rule.Object? && kind in rule.fields && rule.fields[kind].Object?
  }

  /** That object has this text, not the empty one, under that key. */
  predicate Says(rule: Json, kind: string, key: string, text: string) {
    && HasKind(rule, kind) && text != ""
    && key in rule.fields[kind].fields && rule.fields[kind].fields[key] == Text(text)
  }

  /** Whether a rule can be decided depends on its keys only. */
  lemma EvaluableExactly(rule: Json)
    ensures IsEvaluable(rule) <==>
            rule.Object? && ("everyone" in rule.fields || HasKind(rule, "email") || HasKind(rule, "email_domain"))
  {
  }

  /** A rule for everyone matches; else the address it names decides; else its domain does. */
  lemma MatchExactly(rule: Json, email: string)
    ensures EvaluateRule(rule, email) == Match <==>
            && rule.Object?
            && (|| "everyone" in rule.fields
                || (exists text :: Says(rule, "email", "email", text) && EqualFold(text, email))
                || (!HasKind(rule, "email") &&
                    exists text :: Says(rule, "email_domain", "domain", text) && EqualFold(EmailDomain(email), text)))
  {
    if HasKind(rule, "email") {
      var text := TextAt(rule.fields["email"].fields, "email");
      assert text != "" ==> Says(rule, "email", "email", text);
    }
    if HasKind(rule, "email_domain") {
      var text := TextAt(rule.fields["email_domain"].fields, "domain");
      assert text != "" ==> Says(rule, "email_domain", "domain", text);
    }
  }

  /** A rule names the address written in it, and refers to the group whose ID is. */
  lemma NamesExactly(rule: Json, email: string)
    ensures Names(rule, email) <==> exists text :: Says(rule, "email", "email", text) && EqualFold(text, email)
    ensures forall id | id != "" :: NestedId(rule) == id <==> Says(rule, "group", "id", id)
    ensures IsNested(rule) <==> HasKind(rule, "group")
  {
    if HasKind(rule, "email") {
      var text := TextAt(rule.fields["email"].fields, "email");
      assert text != "" ==> Says(rule, "email", "email", text);
    }
  }

  /** The rule a Grant writes holds the address and nothing else. */
  lemma EmailRuleExactly(rule: Json, email: string)
    requires email != ""
    ensures rule == EmailRule(email) <==>
            Says(rule, "email", "email", email) && |rule.fields| == 1 && |rule.fields["email"].fields| == 1
  {
    if Says(rule, "email", "email", email) && |rule.fields| == 1 && |rule.fields["email"].fields| == 1 {
      OnlyKey(rule.fields, "email");
      OnlyKey(rule.fields["email"].fields, "email");
    }
  }

  lemma OnlyKey(fields: map<string, Json>, key: string)
    requires key in fields && |fields| == 1
    ensures fields == map[key := fields[key]]
  {
    assert |fields.Keys - {key}| == 0;
    assert forall other | other in fields :: other in fields.Keys - {key} || other == key;
  }

  // ----- the loops over rule lists -----

  method AnyRuleMatches(rules: seq<Json>, email: string) returns (matches: bool)
    ensures matches == SomeRuleMatches(rules, email)
  {
    for i := 0 to |rules|
      invariant !SomeRuleMatches(rules[..i], email)
    {
      assert rules[..i + 1][..i] == rules[..i];
      if EvaluateRule(rules[i], email) == Match {
        MatchesExactly(rules, email);
        return true;
      }
    }
    assert rules[..|rules|] == rules;
    return false;
  }

  method AllRulesMatch(rules: seq<Json>, email: string) returns (matches: bool)
    ensures matches == NoRuleFails(rules, email)
  {
    for i := 0 to |rules|
      invariant NoRuleFails(rules[..i], email)
    {
      assert rules[..i + 1][..i] == rules[..i];
      if EvaluateRule(rules[i], email) == NoMatch {
        NoneFailsExactly(rules, email);
        return false;
      }
    }
    assert rules[..|rules|] == rules;
    return true;
  }

  method HasEvaluableRule(rules: seq<Json>) returns (found: bool)
    ensures found == SomeRuleEvaluable(rules)
  {
    for i := 0 to |rules|
      invariant forall k | 0 <= k < i :: !IsEvaluable(rules[k])
    {
      if IsEvaluable(rules[i]) {
        return true;
      }
    }
    return false;
  }

  method SplitIncludeRules(rules: seq<Json>) returns (direct: seq<Json>, nestedGroupIds: seq<string>)
    ensures direct == DirectRules(rules)
    ensures nestedGroupIds == NestedIds(rules)
  {
    direct, nestedGroupIds := [], [];
    var seen: set<string> := {};
    for i := 0 to |rules|
      invariant direct == DirectRules(rules[..i])
      invariant nestedGroupIds == NestedIds(rules[..i])
      invariant forall id :: id in seen <==> id in nestedGroupIds
    {
      var rule := rules[i];
      assert rules[..i + 1][..i] == rules[..i];
      LastFiltered(rules[..i + 1], IsDirect);
      if !rule.Object? {
        continue;
      }
      var group := ObjectAt(rule, "group");
      if group.Some? {
        var id := TextAt(group.value, "id");
        if id != "" && id !in seen {
          seen := seen + {id};
          nestedGroupIds := nestedGroupIds + [id];
        }
        continue;
      }
      direct := direct + [rule];
    }
    assert rules[..|rules|] == rules;
  }

  // ----- what the lists mean -----

  lemma {:induction false} MatchesExactly(rules: seq<Json>, email: string)
    ensures SomeRuleMatches(rules, email) <==> exists rule | rule in rules :: EvaluateRule(rule, email) == Match
  {
    hide EvaluateRule;
    if rules == [] {
    } else {
      MatchesExactly(rules[..|rules| - 1], email);
      assert rules == rules[..|rules| - 1] + [rules[|rules| - 1]];
    }
  }

  lemma {:induction false} NoneFailsExactly(rules: seq<Json>, email: string)
    ensures NoRuleFails(rules, email) <==> forall rule | rule in rules :: EvaluateRule(rule, email) != NoMatch
  {
    hide EvaluateRule;
    if rules == [] {
    } else {
      NoneFailsExactly(rules[..|rules| - 1], email);
      assert rules == rules[..|rules| - 1] + [rules[|rules| - 1]];
    }
  }

  lemma DirectRulesExactly(rules: seq<Json>)
    ensures forall rule :: rule in DirectRules(rules) <==> rule in rules && IsDirect(rule)
  {
    FilterExactly(rules, IsDirect);
  }

  /** The nested IDs are the non-empty IDs the rules refer to, none twice. */
  lemma {:induction false} NestedIdsExactly(rules: seq<Json>)
    ensures forall id :: id in NestedIds(rules) <==> id != "" && exists rule | rule in rules :: NestedId(rule) == id
    ensures forall i, j | 0 <= i < j < |NestedIds(rules)| :: NestedIds(rules)[i] != NestedIds(rules)[j]
  {
    hide NestedId;
    if rules == [] {
    } else {
      var last := rules[|rules| - 1];
      NestedIdsExactly(rules[..|rules| - 1]);
      assert rules == rules[..|rules| - 1] + [last];
      assert last in rules;
    }
  }

  /** The IDs come in order of first appearance: what a prefix refers to comes first. */
  lemma {:induction false} NestedIdsInOrder(rules: seq<Json>, i: nat)
    requires i <= |rules|
    ensures NestedIds(rules[..i]) <= NestedIds(rules)
  {
    hide NestedId;
    if i < |rules| {
      NestedIdsInOrder(rules[..|rules| - 1], i);
      assert rules[..|rules| - 1][..i] == rules[..i];
    } else {
      assert rules[..i] == rules;
    }
  }

  predicate MatchesDirectly(rule: Json, email: string) {
    IsDirect(rule) && EvaluateRule(rule, email) == Match
  }

  /**
   Members are exactly the users some direct Include rule matches whom no Require rule fails and no Exclude rule
   matches.
   */
  lemma MemberExactly(grp: AccessGroup, included: seq<Json>, email: string)
    ensures IsMember(grp, included, email) <==>
            && (exists rule | rule in included :: MatchesDirectly(rule, email))
            && (forall rule | rule in grp.required :: EvaluateRule(rule, email) != NoMatch)
            && (forall rule | rule in grp.excluded :: EvaluateRule(rule, email) != Match)
  {
    hide EvaluateRule, IsDirect;
    DirectRulesExactly(included);
    MatchesExactly(DirectRules(included), email);
    NoneFailsExactly(grp.required, email);
    MatchesExactly(grp.excluded, email);
  }

  /** Whether a rule can be decided does not depend on the user it is tried on. */
  lemma EvaluableForAll(rule: Json, email: string)
    ensures IsEvaluable(rule) <==> EvaluateRule(rule, email) != Unevaluable
  {
  }

  function EmailRule(email: string): Json {
    Object(map["email" := Object(map["email" := Text(email)])])
  }

  function EmailDomainRule(domain: string): Json {
    Object(map["email_domain" := Object(map["domain" := Text(domain)])])
  }

  lemma EmailDomainRuleReads(domain: string, email: string)
    ensures EvaluateRule(EmailDomainRule(domain), email) ==
            if domain != "" && EqualFold(EmailDomain(email), domain) then Match else NoMatch
  {
    var rule := EmailDomainRule(domain);
    assert "everyone" !in rule.fields && ObjectAt(rule, "email").None?;
  }

  /** A domain rule matches the addresses whose text after their last '@' is the domain, in any case, and no others. */
  lemma DomainRuleExactly(domain: string, email: string)
    ensures EvaluateRule(EmailDomainRule(domain), email) == Match <==>
            domain != "" &&
            exists i | 0 <= i < |email| ::
              email[i] == '@' && (forall k | i < k < |email| :: email[k] != '@') && EqualFold(email[i + 1..], domain)
  {
    EmailDomainRuleReads(domain, email);
    LastIndexIsLast(email, '@');
    hide EvaluateRule, EmailDomainRule;
    var at := LastIndex(email, '@');
    if domain != "" && EqualFold(EmailDomain(email), domain) {
      assert at >= 0 by {
        assert |Fold("")| == 0;
      }
      assert email[at] == '@';
    }
  }

  // ----- addresses differing in case only -----

  /** Two spellings of one address get the same answer from every rule. */
  lemma EvaluationIsCaseBlind(rule: Json, e: string, e': string)
    requires EqualFold(e, e')
    ensures EvaluateRule(rule, e) == EvaluateRule(rule, e')
  {
    assert Fold(EmailDomain(e)) == Fold(EmailDomain(e')) by {
      EmailDomainFolds(e);
      EmailDomainFolds(e');
    }
  }

  lemma {:induction false} ListsAreCaseBlind(rules: seq<Json>, e: string, e': string)
    requires EqualFold(e, e')
    ensures SomeRuleMatches(rules, e) == SomeRuleMatches(rules, e')
    ensures NoRuleFails(rules, e) == NoRuleFails(rules, e')
  {
    hide EvaluateRule;
    if rules == [] {
    } else {
      EvaluationIsCaseBlind(rules[|rules| - 1], e, e');
      ListsAreCaseBlind(rules[..|rules| - 1], e, e');
    }
  }

  /** Two spellings of one address are members, and are kept out, together. */
  lemma MembershipIsCaseBlind(grp: AccessGroup, included: seq<Json>, e: string, e': string)
    requires EqualFold(e, e')
    ensures SatisfiesRequireExclude(grp, e) == SatisfiesRequireExclude(grp, e')
    ensures IsMember(grp, included, e) == IsMember(grp, included, e')
  {
    ListsAreCaseBlind(grp.required, e, e');
    ListsAreCaseBlind(grp.excluded, e, e');
    ListsAreCaseBlind(DirectRules(included), e, e');
  }

  /** So a user may be looked up under the folded address. */
  lemma FoldedAddressIsSameMember(grp: AccessGroup, included: seq<Json>, email: string)
    ensures IsMember(grp, included, Fold(email)) == IsMember(grp, included, email)
  {
    FoldIsIdempotent(email);
    MembershipIsCaseBlind(grp, included, Fold(email), email);
    hide IsMember;
  }

  // ----- skipping an unevaluable rule errs on one side only -----

  /** What Cloudflare would answer for a rule the connector cannot evaluate. */
  type Oracle = (Json, string) -> bool

  predicate Holds(oracle: Oracle, rule: Json, email: string) {
    match EvaluateRule(rule, email)
    case Match => true
    case NoMatch => false
    case Unevaluable => oracle(rule, email)
  }

  /** Membership when no rule is skipped. */
  predicate TrulyMember(oracle: Oracle, grp: AccessGroup, email: string) {
    && (exists rule | rule in grp.included :: IsDirect(rule) && Holds(oracle, rule, email))
    && (forall rule | rule in grp.required :: Holds(oracle, rule, email))
    && (forall rule | rule in grp.excluded :: !Holds(oracle, rule, email))
  }

  predicate AllEvaluable(rules: seq<Json>) {
    forall rule | rule in rules :: IsEvaluable(rule)
  }

  /** An unevaluable Include rule can only hide members, an unevaluable Require or Exclude rule can only add some. */
  lemma SkippingErrsOnOneSide(oracle: Oracle, grp: AccessGroup, email: string)
    ensures AllEvaluable(DirectRules(grp.included)) && TrulyMember(oracle, grp, email) ==>
      IsMember(grp, grp.included, email)
    ensures AllEvaluable(grp.required) && AllEvaluable(grp.excluded) && IsMember(grp, grp.included, email) ==>
              TrulyMember(oracle, grp, email)
  {
    MemberExactly(grp, grp.included, email);
    DirectRulesExactly(grp.included);
    forall rule: Json {
      EvaluableForAll(rule, email);
    }
    hide EvaluateRule, IsEvaluable, IsDirect;
  }

  lemma {:induction false} ListsDistribute(a: seq<Json>, b: seq<Json>, email: string)
    ensures SomeRuleMatches(a + b, email) <==> SomeRuleMatches(a, email) || SomeRuleMatches(b, email)
    ensures NoRuleFails(a + b, email) <==> NoRuleFails(a, email) && NoRuleFails(b, email)
  {
    hide EvaluateRule;
    if b == [] {
      assert a + b == a;
    } else {
      var shorter := b[..|b| - 1];
      ListsDistribute(a, shorter, email);
      var whole := a + b;
      assert whole[|whole| - 1] == b[|b| - 1] && whole[..|whole| - 1] == a + shorter;
    }
  }

  lemma DirectRulesDistribute(a: seq<Json>, b: seq<Json>)
    ensures DirectRules(a + b) == DirectRules(a) + DirectRules(b)
  {
    FilterDistributes(a, b, IsDirect);
  }

  lemma OneRule(rule: Json, email: string)
    ensures SomeRuleMatches([rule], email) <==> EvaluateRule(rule, email) == Match
    ensures NoRuleFails([rule], email) <==> EvaluateRule(rule, email) != NoMatch
    ensures DirectRules([rule]) == if IsDirect(rule) then [rule] else []
  {
    hide EvaluateRule, IsDirect;
    assert [rule][..0] == [];
    FilterOne(rule, IsDirect);
  }

  lemma UnevaluableAlone(rule: Json, email: string)
    requires !IsEvaluable(rule)
    ensures !SomeRuleMatches([rule], email) && NoRuleFails([rule], email) &&
      !SomeRuleMatches(DirectRules([rule]), email)
  {
    EvaluableForAll(rule, email);
    OneRule(rule, email);
    hide EvaluateRule, IsDirect, DirectRules;
  }

  lemma SkippedInList(before: seq<Json>, rule: Json, after: seq<Json>, email: string)
    requires !IsEvaluable(rule)
    ensures SomeRuleMatches(before + [rule] + after, email) == SomeRuleMatches(before + after, email)
    ensures NoRuleFails(before + [rule] + after, email) == NoRuleFails(before + after, email)
  {
    UnevaluableAlone(rule, email);
    hide SomeRuleMatches, NoRuleFails, IsEvaluable;
    ListsDistribute(before, [rule], email);
    ListsDistribute(before + [rule], after, email);
    ListsDistribute(before, after, email);
  }

  lemma SkippedInInclude(before: seq<Json>, rule: Json, after: seq<Json>, email: string)
    requires !IsEvaluable(rule)
    ensures SomeRuleMatches(DirectRules(before + [rule] + after), email) ==
            SomeRuleMatches(DirectRules(before + after), email)
  {
    UnevaluableAlone(rule, email);
    hide SomeRuleMatches, DirectRules, IsEvaluable;
    DirectRulesDistribute(before, [rule]);
    DirectRulesDistribute(before + [rule], after);
    DirectRulesDistribute(before, after);
    var b, r, a := DirectRules(before), DirectRules([rule]), DirectRules(after);
    ListsDistribute(b, r, email);
    ListsDistribute(b + r, a, email);
    ListsDistribute(b, a, email);
  }

  /** Each skipped rule is the neutral element of its list: leaving it out never changes an answer. */
  lemma UnevaluableIsNeutral(grp: AccessGroup, before: seq<Json>, rule: Json, after: seq<Json>, email: string)
    requires !IsEvaluable(rule)
    ensures IsMember(grp, before + [rule] + after, email) == IsMember(grp, before + after, email)
    ensures SatisfiesRequireExclude(grp.(required := before + [rule] + after), email) ==
            SatisfiesRequireExclude(grp.(required := before + after), email)
    ensures SatisfiesRequireExclude(grp.(excluded := before + [rule] + after), email) ==
            SatisfiesRequireExclude(grp.(excluded := before + after), email)
  {
    hide SomeRuleMatches, NoRuleFails, DirectRules, IsEvaluable;
    SkippedInList(before, rule, after, email);
    SkippedInInclude(before, rule, after, email);
  }

  // ----- when Require and Exclude can narrow a nested group -----

  /** The keys RuleKey may answer: any key of the rule, since a map is walked in no fixed order. */
  ghost predicate KeyOf(rule: Json, key: string) {
    if rule.Object? && rule.fields.Keys != {} then key in rule.fields else key == ""
  }

  method RuleKey(rule: Json) returns (key: string)
    ensures KeyOf(rule, key)
  {
    if !rule.Object? || |rule.fields| == 0 {
      return "";
    }
    assert rule.fields.Keys != {};
    key :| key in rule.fields.Keys;
  }

  /** The answers RestrictsNestedExpansion may give, over every choice of keys. */
  ghost predicate MayRestrict(grp: AccessGroup, restricts: bool) {
    if restricts then
      || (exists rule | rule in grp.excluded :: IsEvaluable(rule))
      || (exists rule | rule in grp.required ::
            IsEvaluable(rule) && exists key :: KeyOf(rule, key) && key != "everyone")
    else
      && (forall rule | rule in grp.excluded :: !IsEvaluable(rule))
      && (forall rule | rule in grp.required :: IsEvaluable(rule) ==> KeyOf(rule, "everyone"))
  }

  method RestrictsNestedExpansion(grp: AccessGroup) returns (restricts: bool)
    ensures MayRestrict(grp, restricts)
  {
    for i := 0 to |grp.excluded|
      invariant forall k | 0 <= k < i :: !IsEvaluable(grp.excluded[k])
    {
      if IsEvaluable(grp.excluded[i]) {
        return true;
      }
    }
    for i := 0 to |grp.required|
      invariant forall k | 0 <= k < i :: IsEvaluable(grp.required[k]) ==> KeyOf(grp.required[k], "everyone")
    {
      if !IsEvaluable(grp.required[i]) {
        continue;
      }
      var key := RuleKey(grp.required[i]);
      if key != "everyone" {
        return true;
      }
    }
    return false;
  }

  /** Answering "does not restrict" is safe whichever keys were picked: nobody can be kept out. */
  lemma UnrestrictedAdmitsEveryone(grp: AccessGroup, email: string)
    requires MayRestrict(grp, false)
    ensures SatisfiesRequireExclude(grp, email)
  {
    NoneFailsExactly(grp.required, email);
    MatchesExactly(grp.excluded, email);
    forall rule: Json {
      EvaluableForAll(rule, email);
    }
    forall rule | rule in grp.required && IsEvaluable(rule)
      ensures EvaluateRule(rule, email) == Match
    {
      assert KeyOf(rule, "everyone");
    }
  }
}
