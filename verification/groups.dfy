/**
 Granting and revoking group membership by editing one group's Include list.
 */
module Groups {
  import opened Account
  import opened Folding
  import opened Json
  import opened Narrowing
  import opened Rules
  import opened Sequences

  datatype Reply = Written | AlreadyExists | AlreadyRevoked

  datatype RevokeOutcome = RemoveRule | Blocked | NotAMember

  // ----- specification -----

  /** Include without the rules naming one address, everything else in place. */
  function WithoutEmail(included: seq<Json>, email: string): seq<Json> {
    Filter(included, NotNaming(email))
  }

  function NotNaming(email: string): Json -> bool {
    (rule: Json) => !Names(rule, email)
  }

  predicate IsNamed(included: seq<Json>, email: string) {
    included != [] && (IsNamed(included[..|included| - 1], email) || Names(included[|included| - 1], email))
  }

  function RevokeDecision(grp: AccessGroup, email: string): (seq<Json>, RevokeOutcome) {
    if !IsMember(grp, grp.included, email) then ([], NotAMember)
    else
      var included := WithoutEmail(grp.included, email);
      if !IsNamed(grp.included, email) || IsMember(grp, included, email) then (included, Blocked)
      else (included, RemoveRule)
  }

  function GrantStep(grp: AccessGroup, email: string): (AccessGroup, Result<Reply, Error>) {
    if IsMember(grp, grp.included, email) then (grp, Ok(AlreadyExists))
    else if !SatisfiesRequireExclude(grp, email) then (grp, Err(KeptOut))
    else (grp.(included := grp.included + [EmailRule(email)]), Ok(Written))
  }

  function RevokeStep(grp: AccessGroup, email: string): (AccessGroup, Result<Reply, Error>) {
    var (included, outcome) := RevokeDecision(grp, email);
    match outcome
    case Blocked => (grp, Err(BroadRule))
    case NotAMember => (grp, Ok(AlreadyRevoked))
    case RemoveRule =>
      if included == [] then (grp, Err(LastRule)) else (grp.(included := included), Ok(Written))
  }

  datatype Address = Address(address: string, primary: bool)

  datatype Principal = Principal(resourceType: string, isUser: bool, emails: seq<Address>, profileEmail: string,
                                 displayName: string)

  const USER_RESOURCE_TYPE := "user"

  function PrimaryAddress(emails: seq<Address>): Option<string> {
    if emails == [] then None
    else if emails[0].primary then Some(emails[0].address)
    else PrimaryAddress(emails[1..])
  }

  function PrincipalEmail(principal: Principal): Result<string, Error> {
    if !principal.isUser then Err(NoEmail)
    else match PrimaryAddress(principal.emails)
      case Some(address) => Ok(address)
      case None =>
        if principal.profileEmail != "" then Ok(principal.profileEmail)
        else if '@' in principal.displayName then Ok(principal.displayName)
        else Err(NoEmail)
  }

  /** What a request does to all the groups: the one group it addresses takes the step, if the request gets that far. */
  function Provision(groups: map<string, AccessGroup>, principal: Principal, groupId: string,
                     step: (AccessGroup, string) -> (AccessGroup, Result<Reply, Error>))
    : (map<string, AccessGroup>, Result<Reply, Error>)
  {
    if principal.resourceType != USER_RESOURCE_TYPE then (groups, Err(NotAUser))
    else match PrincipalEmail(principal)
      case Err(e) => (groups, Err(e))
      case Ok(email) =>
        if groupId !in groups then (groups, Err(NotFound))
        else
          var (grp, reply) := step(groups[groupId], email);
          if reply != Ok(Written) then (groups, reply)
          else if groupId == "" then (groups, Err(MissingId))
          else (groups[groupId := grp], reply)
  }

  // ----- the connector's code -----

  method TestDirectRules(grp: AccessGroup, direct: seq<Json>, email: string) returns (member: bool)
    ensures member == MatchesDirectRules(grp, direct, email)
  {
    member := AnyRuleMatches(direct, email);
    if member {
      member := TestRequireExclude(grp, email);
    }
  }

  method TestRequireExclude(grp: AccessGroup, email: string) returns (admitted: bool)
    ensures admitted == SatisfiesRequireExclude(grp, email)
  {
    admitted := AllRulesMatch(grp.required, email);
    if admitted {
      var barred := AnyRuleMatches(grp.excluded, email);
      admitted := !barred;
    }
  }

  method TestMember(grp: AccessGroup, included: seq<Json>, email: string) returns (member: bool)
    ensures member == IsMember(grp, included, email)
  {
    var direct, _ := SplitIncludeRules(included);
    member := TestDirectRules(grp, direct, email);
  }

  method FilterIncludeEmail(included: seq<Json>, email: string) returns (out: seq<Json>, found: bool)
    ensures out == WithoutEmail(included, email)
    ensures found == IsNamed(included, email)
  {
    out, found := [], false;
    for i := 0 to |included|
      invariant out == WithoutEmail(included[..i], email)
      invariant found == IsNamed(included[..i], email)
    {
      assert included[..i + 1][..i] == included[..i];
      var address := IncludeRuleEmail(included[i]);
      if address.Some? && EqualFold(address.value, email) {
        found := true;
        continue;
      }
      out := out + [included[i]];
    }
    assert included[..|included|] == included;
  }

  method DecideRevoke(grp: AccessGroup, email: string) returns (included: seq<Json>, outcome: RevokeOutcome)
    ensures (included, outcome) == RevokeDecision(grp, email)
  {
    var member := TestMember(grp, grp.included, email);
    if !member {
      return [], NotAMember;
    }
    var found;
    included, found := FilterIncludeEmail(grp.included, email);
    member := TestMember(grp, included, email);
    outcome := if !found || member then Blocked else RemoveRule;
  }

  method GetEmailFromUserTrait(principal: Principal) returns (r: Result<string, Error>)
    ensures r == PrincipalEmail(principal)
  {
    if !principal.isUser {
      return Err(NoEmail);
    }
    for i := 0 to |principal.emails|
      invariant PrimaryAddress(principal.emails) == PrimaryAddress(principal.emails[i..])
    {
      if principal.emails[i].primary {
        return Ok(principal.emails[i].address);
      }
    }
    if principal.profileEmail != "" {
      return Ok(principal.profileEmail);
    }
    if '@' !in principal.displayName {
      return Err(NoEmail);
    }
    return Ok(principal.displayName);
  }

  class GroupBuilder {
    const client: Cloudflare

    constructor (client: Cloudflare)
      ensures this.client == client
    {
      this.client := client;
    }

    method Grant(principal: Principal, groupId: string) returns (r: Result<Reply, Error>)
      requires client.Valid()
      modifies client`groups
      ensures client.Valid()
      ensures (client.groups, r) == Provision(old(client.groups), principal, groupId, GrantStep)
    {
      if principal.resourceType != USER_RESOURCE_TYPE {
        return Err(NotAUser);
      }
      var email := GetEmailFromUserTrait(principal);
      if email.Err? {
        return Err(email.error);
      }
      var read := client.GetAccessGroup(groupId);
      if read.Err? {
        return Err(read.error);
      }
      var grp := read.value;
      var member := TestMember(grp, grp.included, email.value);
      if member {
        return Ok(AlreadyExists);
      }
      var admitted := TestRequireExclude(grp, email.value);
      if !admitted {
        return Err(KeptOut);
      }
      var write := client.UpdateAccessGroupInclude(grp, grp.included + [EmailRule(email.value)]);
      if write.Err? {
        return Err(write.error);
      }
      return Ok(Written);
    }

    method Revoke(principal: Principal, groupId: string) returns (r: Result<Reply, Error>)
      requires client.Valid()
      modifies client`groups
      ensures client.Valid()
      ensures (client.groups, r) == Provision(old(client.groups), principal, groupId, RevokeStep)
    {
      if principal.resourceType != USER_RESOURCE_TYPE {
        return Err(NotAUser);
      }
      var email := GetEmailFromUserTrait(principal);
      if email.Err? {
        return Err(email.error);
      }
      var read := client.GetAccessGroup(groupId);
      if read.Err? {
        return Err(read.error);
      }
      var grp := read.value;
      var included, outcome := DecideRevoke(grp, email.value);
      match outcome {
        case Blocked => return Err(BroadRule);
        case NotAMember => return Ok(AlreadyRevoked);
        case RemoveRule =>
      }
      if |included| == 0 {
        return Err(LastRule);
      }
      var write := client.UpdateAccessGroupInclude(grp, included);
      if write.Err? {
        return Err(write.error);
      }
      return Ok(Written);
    }
  }

  // ----- one step -----

  /** The address handed to Grant and Revoke is empty in one case only: a primary address that is itself empty. */
  lemma EmptyEmailExactly(principal: Principal)
    ensures PrincipalEmail(principal) == Ok("") <==> principal.isUser && PrimaryAddress(principal.emails) == Some("")
  {
  }

  /** The primary address used is that of the first entry marked primary. */
  lemma {:induction false} PrimaryAddressExactly(emails: seq<Address>)
    ensures match PrimaryAddress(emails)
            case None => forall i | 0 <= i < |emails| :: !emails[i].primary
            case Some(address) =>
              exists i | 0 <= i < |emails| ::
                emails[i] == Address(address, true) && forall k | 0 <= k < i :: !emails[k].primary
  {
    if emails != [] && !emails[0].primary {
      PrimaryAddressExactly(emails[1..]);
      if PrimaryAddress(emails[1..]).Some? {
        var address := PrimaryAddress(emails[1..]).value;
        var i :| 0 <= i < |emails[1..]| && emails[1..][i] == Address(address, true) &&
                 forall k | 0 <= k < i :: !emails[1..][k].primary;
        assert emails[i + 1] == Address(address, true);
        assert forall k | 0 < k < i + 1 :: emails[k] == emails[1..][k - 1];
      } else {
        assert forall k | 0 < k < |emails| :: emails[k] == emails[1..][k - 1];
      }
    }
  }

  predicate IsFirstPrimary(emails: seq<Address>, i: nat) {
    i < |emails| && emails[i].primary && forall k | 0 <= k < i :: !emails[k].primary
  }

  /**
   The address Grant and Revoke act on: of a user, that of the first entry marked primary; where there is none the
   profile's, and without one in the profile the display name, if it has an at-sign. There is none otherwise.
   */
  lemma PrincipalEmailExactly(principal: Principal, i: nat)
    ensures PrincipalEmail(principal).Err? <==>
            || !principal.isUser
            || (&& (forall entry | entry in principal.emails :: !entry.primary)
                && principal.profileEmail == "" && '@' !in principal.displayName)
    ensures principal.isUser && IsFirstPrimary(principal.emails, i) ==>
              PrincipalEmail(principal) == Ok(principal.emails[i].address)
    ensures principal.isUser && (forall entry | entry in principal.emails :: !entry.primary) ==>
              && (principal.profileEmail != "" ==> PrincipalEmail(principal) == Ok(principal.profileEmail))
              && (principal.profileEmail == "" && '@' in principal.displayName ==>
                    PrincipalEmail(principal) == Ok(principal.displayName))
  {
    PrimaryAddressExactly(principal.emails);
    hide PrimaryAddress;
  }

  lemma EmailRuleNames(email: string, user: string)
    ensures EvaluateRule(EmailRule(email), user) == if email != "" && EqualFold(email, user) then Match else NoMatch
    ensures IncludeRuleEmail(EmailRule(email)) == if email == "" then None else Some(email)
    ensures IsDirect(EmailRule(email)) && !NamesEveryone(EmailRule(email)) && !IsNested(EmailRule(email))
  {
  }

  lemma GrantedMember(grp: AccessGroup, email: string, user: string)
    ensures IsMember(grp, grp.included + [EmailRule(email)], user) <==>
            || IsMember(grp, grp.included, user)
            || (email != "" && EqualFold(email, user) && SatisfiesRequireExclude(grp, user))
  {
    EmailRuleNames(email, user);
    hide EvaluateRule, EmailRule, IsDirect, NoRuleFails;
    assert (grp.included + [EmailRule(email)])[..|grp.included|] == grp.included;
    var direct := DirectRules(grp.included);
    assert (direct + [EmailRule(email)])[..|direct|] == direct;
  }

  /** Only the list that is asked about matters, not the one the group carries. */
  lemma MembershipOfRewritten(grp: AccessGroup, carried: seq<Json>, included: seq<Json>, email: string)
    ensures IsMember(grp.(included := carried), included, email) == IsMember(grp, included, email)
  {
  }

  /** A Grant that writes makes the user a member, unless the address it was given is empty. */
  lemma WrittenGrantIsMember(grp: AccessGroup, email: string)
    requires GrantStep(grp, email).1 == Ok(Written)
    ensures var granted := GrantStep(grp, email).0;
            IsMember(granted, granted.included, email) <==> email != ""
  {
    var granted := GrantStep(grp, email).0;
    GrantedMember(grp, email, email);
    MembershipOfRewritten(grp, granted.included, granted.included, email);
    hide IsMember, SatisfiesRequireExclude;
  }

  /** When a Grant writes, when it has nothing to do, and when it is refused, read off the rules. */
  lemma GrantExactly(grp: AccessGroup, email: string)
    ensures var (after, reply) := GrantStep(grp, email);
            var keptOut := || (exists rule | rule in grp.required :: EvaluateRule(rule, email) == NoMatch)
                           || (exists rule | rule in grp.excluded :: EvaluateRule(rule, email) == Match);
            var matched := exists rule | rule in grp.included :: MatchesDirectly(rule, email);
            && (reply == Err(KeptOut) <==> keptOut)
            && (reply == Ok(AlreadyExists) <==> !keptOut && matched)
            && (reply == Ok(Written) <==> !keptOut && !matched)
            && after.included == grp.included + if reply == Ok(Written) then [EmailRule(email)] else []
  {
    MemberExactly(grp, grp.included, email);
    KeptOutExactly(grp, email);
    assert grp.included + [] == grp.included;
    hide IsMember, SatisfiesRequireExclude, EvaluateRule, MatchesDirectly, EmailRule;
  }

  lemma {:induction false} IsNamedExactly(included: seq<Json>, email: string)
    ensures IsNamed(included, email) <==> exists rule | rule in included :: Names(rule, email)
  {
    hide Names;
    if included == [] {
    } else {
      IsNamedExactly(included[..|included| - 1], email);
      assert included == included[..|included| - 1] + [included[|included| - 1]];
    }
  }

  lemma WithoutEmailExactly(included: seq<Json>, email: string)
    ensures forall rule :: rule in WithoutEmail(included, email) <==> rule in included && !Names(rule, email)
  {
    hide Names;
    FilterExactly(included, NotNaming(email));
  }

  /** What Revoke answers, read off the rules. A member whom no rule names stays one under the filtered list. */
  lemma RevokeDecisionExactly(grp: AccessGroup, email: string)
    ensures var outcome := RevokeDecision(grp, email).1;
            && (outcome == NotAMember <==> !IsMember(grp, grp.included, email))
            && (outcome == Blocked <==>
                && IsMember(grp, grp.included, email)
                && exists rule | rule in grp.included :: MatchesDirectly(rule, email) && !Names(rule, email))
            && (outcome == RemoveRule <==>
                && IsMember(grp, grp.included, email)
                && forall rule | rule in grp.included && MatchesDirectly(rule, email) :: Names(rule, email))
    ensures IsMember(grp, grp.included, email) && !IsNamed(grp.included, email) ==>
              IsMember(grp, WithoutEmail(grp.included, email), email)
  {
    hide MatchesDirectly, Names, IsMember;
    MemberExactly(grp, grp.included, email);
    MemberExactly(grp, WithoutEmail(grp.included, email), email);
    WithoutEmailExactly(grp.included, email);
    IsNamedExactly(grp.included, email);
  }

  /**
   What Revoke answers and leaves, read off the rules: nothing to do for a user who is no member; refused while a rule
   that is not the user's own matches, and where every rule is the user's own; else it writes, in order, the rules that
   do not name the user, and touches nothing else.
   */
  lemma RevokeExactly(grp: AccessGroup, email: string)
    ensures var (after, reply) := RevokeStep(grp, email);
            var member := IsMember(grp, grp.included, email);
            var broad := exists rule | rule in grp.included :: MatchesDirectly(rule, email) && !Names(rule, email);
            var only := forall rule | rule in grp.included :: Names(rule, email);
            && (reply == Ok(AlreadyRevoked) <==> !member)
            && (reply == Err(BroadRule) <==> member && broad)
            && (reply == Err(LastRule) <==> member && only)
            && (reply == Ok(Written) <==> member && !broad && !only)
            && (reply != Ok(Written) ==> after == grp)
            && (reply == Ok(Written) ==>
                  && after == grp.(included := after.included)
                  && IsLargestPart(after.included, grp.included, NotNaming(email)))
  {
    RevokeDecisionExactly(grp, email);
    FilterIsLargestPart(grp.included, NotNaming(email));
    var kept := WithoutEmail(grp.included, email);
    WithoutEmailExactly(grp.included, email);
    assert IsLargestPart(kept, grp.included, NotNaming(email));
    hide IsMember, MatchesDirectly, Names, WithoutEmail, IsLargestPart;
    if kept == [] {
    } else {
      assert kept[0] in kept;
    }
  }

  // ----- the filtered list -----

  /** No rule that refers to a group also names this address. */
  predicate NamesNoGroup(included: seq<Json>, email: string) {
    forall rule | rule in included && Names(rule, email) :: !IsNested(rule)
  }

  lemma NestedRuleAdmitsNobody(grp: AccessGroup, rule: Json, email: string)
    requires IsNested(rule)
    ensures !IsMember(grp, [rule], email)
  {
    OneRule(rule, email);
    assert DirectRules([rule]) == [];
  }

  lemma KeptIsInWritten(grp: AccessGroup, email: string, kept: seq<Json>)
    requires RevokeDecision(grp, email).1 == RemoveRule
    requires NamesNoGroup(grp.included, email)
    requires IsSubsequence(kept, grp.included) && !IsMember(grp, kept, email)
    ensures IsSubsequence(kept, WithoutEmail(grp.included, email))
  {
    SubsequenceMembers(kept, grp.included);
    MemberExactly(grp, grp.included, email);
    MemberExactly(grp, kept, email);
    forall rule | rule in kept
      ensures !Names(rule, email)
    {
      if Names(rule, email) {
        assert rule in grp.included && IsDirect(rule);
      }
    }
    FilterIsLargest(kept, grp.included, NotNaming(email));
  }

  /**
   Nothing else touched: when Revoke may write, the list it writes is the largest part of Include that no longer
   admits the user, exactly when no rule refers to a group and names the address at once.
   */
  lemma RevokeKeepsTheMost(grp: AccessGroup, email: string)
    requires RevokeDecision(grp, email).1 == RemoveRule
    ensures var written := RevokeDecision(grp, email).0;
            && IsSubsequence(written, grp.included)
            && !IsMember(grp, written, email)
            && (NamesNoGroup(grp.included, email) <==>
                forall kept | IsSubsequence(kept, grp.included) && !IsMember(grp, kept, email) ::
                  IsSubsequence(kept, written))
  {
    hide EvaluateRule, Names;
    var written := RevokeDecision(grp, email).0;
    FilterIsSubsequence(grp.included, NotNaming(email));
    if NamesNoGroup(grp.included, email) {
      forall kept | IsSubsequence(kept, grp.included) && !IsMember(grp, kept, email)
        ensures IsSubsequence(kept, written)
      {
        KeptIsInWritten(grp, email, kept);
      }
    } else {
      var rule :| rule in grp.included && Names(rule, email) && IsNested(rule);
      MemberIsSubsequence(rule, grp.included);
      assert rule in [rule];
      NestedRuleAdmitsNobody(grp, rule, email);
      WithoutEmailExactly(grp.included, email);
      if IsSubsequence([rule], written) {
        SubsequenceMembers([rule], written);
      }
    }
  }
}
