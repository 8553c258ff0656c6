/**
 Requests against all the groups of an account: each group takes the steps addressed to it and no others.
 */
module AccountRuns {
  import opened Account
  import opened GroupRuns
  import opened Groups
  import opened Json
  import opened Rules

  datatype Request = Request(grant: bool, principal: Principal, groupId: string)

  function Serve(groups: map<string, AccessGroup>, request: Request): (map<string, AccessGroup>, Result<Reply, Error>) {
    Provision(groups, request.principal, request.groupId, if request.grant then GrantStep else RevokeStep)
  }

  function ServeAll(groups: map<string, AccessGroup>, requests: seq<Request>): map<string, AccessGroup> {
    if requests == [] then groups
    else Serve(ServeAll(groups, requests[..|requests| - 1]), requests[|requests| - 1]).0
  }

  /** The step a request asks of one group, if it gets that far. */
  function OpOn(request: Request, groupId: string): Option<Op> {
    var email := PrincipalEmail(request.principal);
    if request.groupId != groupId || request.principal.resourceType != USER_RESOURCE_TYPE || email.Err? then None
    else Some(if request.grant then Op.Grant(email.value) else Op.Revoke(email.value))
  }

  function OpsOn(requests: seq<Request>, groupId: string): seq<Op> {
    if requests == [] then []
    else
      var ops, op := OpsOn(requests[..|requests| - 1], groupId), OpOn(requests[|requests| - 1], groupId);
      if op.Some? then ops + [op.value] else ops
  }

  lemma ServeOne(groups: map<string, AccessGroup>, request: Request, groupId: string)
    requires groupId in groups && groupId != ""
    ensures var (after, reply) := Serve(groups, request);
            && after.Keys == groups.Keys
            && after[groupId] == match OpOn(request, groupId)
                                 case Some(op) => Step(groups[groupId], op).0
                                 case None => groups[groupId]
    ensures OpOn(request, groupId).Some? ==>
      Serve(groups, request).1 == Step(groups[groupId], OpOn(request, groupId).value).1
  {
    hide IsMember, SatisfiesRequireExclude, RevokeDecision, PrincipalEmail;
  }

  /** A request that gets as far as its group, and the address it is about. */
  ghost predicate Arrives(groups: map<string, AccessGroup>, request: Request, email: string) {
    && request.principal.resourceType == "user"
    && PrincipalEmail(request.principal) == Ok(email)
    && request.groupId in groups
  }

  /** What stops a request before the rules are looked at, in this order; and a refusal changes nothing. */
  lemma StoppedExactly(groups: map<string, AccessGroup>, request: Request)
    ensures var (after, reply) := Serve(groups, request);
            var isUser, email := request.principal.resourceType == "user", PrincipalEmail(request.principal);
            && (reply == Err(NotAUser) <==> !isUser)
            && (reply == Err(NoEmail) <==> isUser && email.Err?)
            && (reply == Err(NotFound) <==> isUser && email.Ok? && request.groupId !in groups)
            && (reply == Err(MissingId) <==>
                && isUser && email.Ok? && request.groupId == "" && "" in groups
                && Step(groups[""], OpOn(request, "").value).1 == Ok(Written))
            && (reply != Ok(Written) ==> after == groups)
  {
    hide IsMember, SatisfiesRequireExclude, RevokeDecision;
    PrincipalErrs(request.principal);
    hide PrincipalEmail;
  }

  lemma PrincipalErrs(principal: Principal)
    ensures PrincipalEmail(principal).Err? ==> PrincipalEmail(principal).error == NoEmail
  {
  }

  /**
   A Grant that arrives makes its address a member of the group, unless it is empty, or is refused because a Require
   rule fails or an Exclude rule matches; no other group changes.
   */
  lemma ServedGrantExactly(groups: map<string, AccessGroup>, request: Request, email: string)
    requires request.grant && Arrives(groups, request, email) && request.groupId != ""
    ensures var (after, reply) := Serve(groups, request);
            var before, grp := groups[request.groupId], after[request.groupId];
            && after == groups[request.groupId := grp]
            && (email != "" ==> (reply.Ok? <==> IsMember(grp, grp.included, email)))
            && (reply.Err? <==>
                || (exists rule | rule in before.required :: EvaluateRule(rule, email) == NoMatch)
                || (exists rule | rule in before.excluded :: EvaluateRule(rule, email) == Match))
            && (reply.Err? ==> reply == Err(KeptOut) && grp == before)
            && (reply == Ok(AlreadyExists) <==> IsMember(before, before.included, email))
  {
    var before := groups[request.groupId];
    GrantExactly(before, email);
    MemberExactly(before, before.included, email);
    if GrantStep(before, email).1 == Ok(Written) {
      WrittenGrantIsMember(before, email);
    }
    hide IsMember, SatisfiesRequireExclude, EvaluateRule, MatchesDirectly, EmailRule, PrincipalEmail;
  }

  /**
   A Revoke that arrives leaves its address no direct member, or is refused because a rule that is not the user's own
   matches or no rule would be left; no other group changes.
   */
  lemma ServedRevokeExactly(groups: map<string, AccessGroup>, request: Request, email: string)
    requires !request.grant && Arrives(groups, request, email) && request.groupId != ""
    ensures var (after, reply) := Serve(groups, request);
            var before, grp := groups[request.groupId], after[request.groupId];
            && after == groups[request.groupId := grp]
            && (reply.Ok? <==> !IsMember(grp, grp.included, email))
            && (reply == Err(BroadRule) <==>
                && IsMember(before, before.included, email)
                && exists rule | rule in before.included :: MatchesDirectly(rule, email) && !Names(rule, email))
            && (reply == Err(LastRule) <==>
                IsMember(before, before.included, email) && forall rule | rule in before.included :: Names(rule, email))
            && (reply.Err? ==> reply.error in {BroadRule, LastRule} && grp == before)
  {
    var before := groups[request.groupId];
    RevokeExactly(before, email);
    var after := RevokeStep(before, email).0;
    MembershipOfRewritten(before, after.included, after.included, email);
    hide IsMember, MatchesDirectly, Names, PrincipalEmail, WithoutEmail;
  }

  /** A run of requests does to each group what the run of that group's own steps does, whatever goes on elsewhere. */
  lemma {:induction false} GroupsAreIndependent(groups: map<string, AccessGroup>, requests: seq<Request>,
                                                groupId: string)
    requires groupId in groups && groupId != ""
    ensures ServeAll(groups, requests).Keys == groups.Keys
    ensures ServeAll(groups, requests)[groupId] == Run(groups[groupId], OpsOn(requests, groupId))
  {
    if requests == [] {
    } else {
      var before, last := requests[..|requests| - 1], requests[|requests| - 1];
      GroupsAreIndependent(groups, before, groupId);
      ServeOne(ServeAll(groups, before), last, groupId);
      hide Step, Serve, OpOn;
      var ops := OpsOn(before, groupId);
      if OpOn(last, groupId).Some? {
        var op := OpOn(last, groupId).value;
        assert (ops + [op])[..|ops|] == ops;
      }
    }
  }

  /**
   After any run of requests, who is a direct member of a group is decided, address by address, by the last request on
   that group that decided the address, and where there was none it is as at first.
   */
  lemma AccountRefinesLedgers(groups: map<string, AccessGroup>, requests: seq<Request>, groupId: string, email: string)
    requires groupId in groups && groupId != ""
    requires RunSpares(groups[groupId], OpsOn(requests, groupId))
    ensures ServeAll(groups, requests).Keys == groups.Keys
    ensures var after := ServeAll(groups, requests)[groupId];
            && SameFrame(groups[groupId], after)
            && IsMember(after, after.included, email) == LedgerMember(groups[groupId], OpsOn(requests, groupId), email)
  {
    var ops := OpsOn(requests, groupId);
    GroupsAreIndependent(groups, requests, groupId);
    RunRefinesLedger(groups[groupId], ops, email);
    RunFrame(groups[groupId], ops);
    hide IsMember, SameFrame, Run, LedgerMember;
  }
}
