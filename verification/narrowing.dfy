/**
 Which rules can keep anybody out, and how close RestrictsNestedExpansion comes to that question.
 */
module Narrowing {
  import opened Folding
  import opened Json
  import opened Rules

  predicate NamesEveryone(rule: Json) {
    rule.Object? && "everyone" in rule.fields
  }

  function AddressLength(rule: Json): nat {
    match ObjectAt(rule, "email")
    case Some(named) => |TextAt(named, "email")|
    case None => 0
  }

  function LongestAddress(rules: seq<Json>): (n: nat)
    ensures forall rule | rule in rules :: AddressLength(rule) <= n
  {
    if rules == [] then 0
    else
      var rest, first := LongestAddress(rules[1..]), AddressLength(rules[0]);
      if first > rest then first else rest
  }

  /** An address without a domain, n + 1 runes long. */
  function Stranger(n: nat): string {
    seq(n + 1, _ => 'a')
  }

  /** Nothing short of "everyone" matches a stranger whose address is longer than any the rule names. */
  lemma StrangersMatchNothing(rule: Json, n: nat)
    requires AddressLength(rule) <= n
    ensures EvaluateRule(rule, Stranger(n)) == Match <==> NamesEveryone(rule)
  {
    LastIndexIsLast(Stranger(n), '@');
    assert EmailDomain(Stranger(n)) == "";
    assert |Fold("")| == 0;
  }

  /** Whether the rule can match any user at all, read off the rule itself. */
  predicate CanMatch(rule: Json) {
    rule.Object? &&
    if "everyone" in rule.fields then true
    else match ObjectAt(rule, "email")
      case Some(named) => TextAt(named, "email") != ""
      case None =>
        match ObjectAt(rule, "email_domain")
        case Some(named) => TextAt(named, "domain") != "" && '@' !in TextAt(named, "domain")
        case None => false
  }

  lemma DomainOfSpelledOut(domain: string)
    requires '@' !in domain
    ensures EmailDomain("@" + domain) == domain
  {
    var email := "@" + domain;
    LastIndexIsLast(email, '@');
    assert email[0] == '@';
    assert forall k | 0 < k < |email| :: email[k] == domain[k - 1];
  }

  lemma CanMatchExactly(rule: Json)
    ensures CanMatch(rule) <==> exists email :: EvaluateRule(rule, email) == Match
  {
    if CanMatch(rule) {
      var email :=
        if "everyone" in rule.fields then ""
        else match ObjectAt(rule, "email")
          case Some(named) => TextAt(named, "email")
          case None => "@" + TextAt(ObjectAt(rule, "email_domain").value, "domain");
      if ObjectAt(rule, "email").None? && "everyone" !in rule.fields {
        DomainOfSpelledOut(TextAt(ObjectAt(rule, "email_domain").value, "domain"));
      }
      assert EvaluateRule(rule, email) == Match;
    } else {
      forall email
        ensures EvaluateRule(rule, email) != Match
      {
        if EvaluateRule(rule, email) == Match {
          DomainHasNoAt(email, TextAt(ObjectAt(rule, "email_domain").value, "domain"));
        }
      }
    }
  }

  lemma DomainHasNoAt(email: string, domain: string)
    requires EqualFold(EmailDomain(email), domain)
    ensures '@' !in domain
  {
    var own := EmailDomain(email);
    LastIndexIsLast(email, '@');
    assert forall k | 0 <= k < |own| :: own[k] == email[LastIndex(email, '@') + 1 + k];
    FoldKeepsAts(own);
    FoldKeepsAts(domain);
  }

  predicate RequireNarrows(rule: Json) {
    IsEvaluable(rule) && !NamesEveryone(rule)
  }

  lemma KeptOutExactly(grp: AccessGroup, email: string)
    ensures SatisfiesRequireExclude(grp, email) <==>
            && (forall rule | rule in grp.required :: EvaluateRule(rule, email) != NoMatch)
            && (forall rule | rule in grp.excluded :: EvaluateRule(rule, email) != Match)
  {
    hide EvaluateRule;
    NoneFailsExactly(grp.required, email);
    MatchesExactly(grp.excluded, email);
  }

  /** Somebody is kept out exactly when a Require rule asks for less than everyone or an Exclude rule can match. */
  lemma NarrowsExactly(grp: AccessGroup)
    ensures (exists email :: !SatisfiesRequireExclude(grp, email)) <==>
            || (exists rule | rule in grp.required :: RequireNarrows(rule))
            || (exists rule | rule in grp.excluded :: CanMatch(rule))
  {
    if rule :| rule in grp.required && RequireNarrows(rule) {
      var email := Stranger(AddressLength(rule));
      StrangersMatchNothing(rule, AddressLength(rule));
      EvaluableForAll(rule, email);
      KeptOutExactly(grp, email);
    }
    if rule :| rule in grp.excluded && CanMatch(rule) {
      CanMatchExactly(rule);
      var email :| EvaluateRule(rule, email) == Match;
      KeptOutExactly(grp, email);
    }
    if email :| !SatisfiesRequireExclude(grp, email) {
      KeptOutExactly(grp, email);
      if rule :| rule in grp.required && EvaluateRule(rule, email) == NoMatch {
        EvaluableForAll(rule, email);
        assert RequireNarrows(rule);
      } else {
        var rule :| rule in grp.excluded && EvaluateRule(rule, email) == Match;
        CanMatchExactly(rule);
      }
    }
  }

  /** The shape ruleKey documents: an object has one key. */
  predicate SingleKey(rule: Json) {
    rule.Object? ==> |rule.fields| <= 1
  }

  /** A rule for everyone in which another key can be picked. */
  ghost predicate EveryoneAndMore(rule: Json) {
    NamesEveryone(rule) && exists key :: KeyOf(rule, key) && key != "everyone"
  }

  lemma SingleKeyIsNoMore(rule: Json)
    requires SingleKey(rule)
    ensures !EveryoneAndMore(rule)
  {
    if NamesEveryone(rule) {
      var rest := rule.fields.Keys - {"everyone"};
      assert |rest| == 0;
      forall key | KeyOf(rule, key)
        ensures key == "everyone"
      {
        assert key !in rest;
      }
    }
  }

  /**
   Every answer that may be given says whether anybody can be kept out, unless nobody can and there is an evaluable
   Exclude rule, which then matches nobody, or a Require rule for everyone in which another key can be picked.
   */
  lemma RestrictsExactly(grp: AccessGroup)
    ensures (forall restricts | MayRestrict(grp, restricts) ::
               restricts <==> exists email :: !SatisfiesRequireExclude(grp, email)) <==>
            (SomeRuleEvaluable(grp.excluded) || (exists rule | rule in grp.required :: EveryoneAndMore(rule)) ==>
               || (exists rule | rule in grp.excluded :: CanMatch(rule))
               || (exists rule | rule in grp.required :: RequireNarrows(rule)))
  {
    NarrowsExactly(grp);
    if MayRestrict(grp, false) {
      forall email {
        UnrestrictedAdmitsEveryone(grp, email);
      }
    }
    forall rule: Json
      ensures CanMatch(rule) || NamesEveryone(rule) ==> IsEvaluable(rule)
      ensures RequireNarrows(rule) ==> exists key :: KeyOf(rule, key) && key != "everyone"
    {
      if RequireNarrows(rule) {
        assert KeyOf(rule, if ObjectAt(rule, "email").Some? then "email" else "email_domain");
      }
    }
    hide IsEvaluable, KeyOf, CanMatch, NamesEveryone, SatisfiesRequireExclude;
    assert MayRestrict(grp, true) <==>
           || SomeRuleEvaluable(grp.excluded) || (exists rule | rule in grp.required :: EveryoneAndMore(rule))
           || (exists rule | rule in grp.required :: RequireNarrows(rule));
    assert (exists email :: !SatisfiesRequireExclude(grp, email)) ==> MayRestrict(grp, true);
    assert MayRestrict(grp, false) ==> forall email :: SatisfiesRequireExclude(grp, email);
  }

  /** An Exclude rule naming no address keeps nobody out, and still suppresses the expansion. */
  lemma EmptyExcludeStillRestricts(grp: AccessGroup, email: string)
    requires grp.excluded == [EmailRule("")] && grp.required == []
    ensures MayRestrict(grp, true) && !MayRestrict(grp, false)
    ensures SatisfiesRequireExclude(grp, email)
  {
    assert IsEvaluable(EmailRule("")) && EvaluateRule(EmailRule(""), email) == NoMatch;
    assert EmailRule("") in grp.excluded;
    KeptOutExactly(grp, email);
  }
}
