/**
 Requests against all the members of an account: each member takes the steps addressed to it and no others.
 */
module RoleRuns {
  import opened Account
  import opened Groups
  import opened Json
  import opened Roles
  import opened Users

  datatype RoleRequest = RoleRequest(resourceType: string, userId: string, op: RoleOp)

  function Serve(members: map<string, AccountMember>, listed: seq<AccountMember>, request: RoleRequest,
                 directory: Directory)
    : (map<string, AccountMember>, Result<(), Error>)
  {
    ProvisionRole(members, listed, request.resourceType, request.userId, request.op, directory)
  }

  function ServeAll(members: map<string, AccountMember>, listed: seq<AccountMember>, requests: seq<RoleRequest>,
                    directory: Directory): map<string, AccountMember>
  {
    if requests == [] then members
    else
      var earlier := ServeAll(members, listed, requests[..|requests| - 1], directory);
      Serve(earlier, listed, requests[|requests| - 1], directory).0
  }

  /** Whether a request reaches this member: the first one listed with the user's ID. */
  predicate Reaches(listed: seq<AccountMember>, request: RoleRequest, id: string) {
    var found := FirstWithUserId(listed, request.userId);
    request.resourceType == USER_RESOURCE_TYPE && found.Some? && found.value.id == id != ""
  }

  function OpsOn(listed: seq<AccountMember>, requests: seq<RoleRequest>, id: string): seq<RoleOp> {
    if requests == [] then []
    else
      var ops, last := OpsOn(listed, requests[..|requests| - 1], id), requests[|requests| - 1];
      if Reaches(listed, last, id) then ops + [last.op] else ops
  }

  lemma ServeOne(members: map<string, AccountMember>, listed: seq<AccountMember>, request: RoleRequest,
                 directory: Directory, id: string)
    requires id in members
    ensures var after := Serve(members, listed, request, directory).0;
            && after.Keys == members.Keys
            && AssignmentsOf(after[id]) ==
               if Reaches(listed, request, id) then RoleStep(AssignmentsOf(members[id]), request.op, directory).0
               else AssignmentsOf(members[id])
  {
    RequestTouchesOneMember(members, listed, request.userId, request.op, directory, id);
    hide RoleStep, FirstWithUserId;
  }

  /** A run of requests does to each member what the run of that member's own steps does. */
  lemma {:induction false} MembersAreIndependent(members: map<string, AccountMember>, listed: seq<AccountMember>,
                                                 requests: seq<RoleRequest>, directory: Directory, id: string)
    requires id in members
    ensures ServeAll(members, listed, requests, directory).Keys == members.Keys
    ensures AssignmentsOf(ServeAll(members, listed, requests, directory)[id]) ==
            RoleRun(AssignmentsOf(members[id]), OpsOn(listed, requests, id), directory)
  {
    hide Serve, Reaches, RoleStep, AssignmentsOf;
    if requests == [] {
    } else {
      var before, last := requests[..|requests| - 1], requests[|requests| - 1];
      MembersAreIndependent(members, listed, before, directory, id);
      ServeOne(ServeAll(members, listed, before, directory), listed, last, directory, id);
      var ops := OpsOn(listed, before, id);
      assert (ops + [last.op])[..|ops|] == ops;
    }
  }

  /** After any run of requests each member's IDs are those of a set that took its own steps, on its own model. */
  lemma AccountRefinesModels(members: map<string, AccountMember>, listed: seq<AccountMember>,
                             requests: seq<RoleRequest>, directory: Directory, id: string)
    requires id in members
    ensures var after := ServeAll(members, listed, requests, directory);
            && after.Keys == members.Keys
            && Abstract(AssignmentsOf(after[id])) ==
               ModelRun(Abstract(AssignmentsOf(members[id])), OpsOn(listed, requests, id), directory)
            && (OneModel(AssignmentsOf(members[id])) ==> OneModel(AssignmentsOf(after[id])))
  {
    MembersAreIndependent(members, listed, requests, directory, id);
    RunRefinesModel(AssignmentsOf(members[id]), OpsOn(listed, requests, id), directory);
    hide ServeAll, RoleRun, ModelRun, Abstract, OpsOn;
  }

  /**
   After any run of requests, a sync reports for a member on legacy roles exactly what the set machine holds, as long as
   no ID has a comma and the only one is not empty; for a member on policies it reports nothing.
   */
  lemma RoleSyncAfterRun(members: map<string, AccountMember>, listed: seq<AccountMember>,
                                requests: seq<RoleRequest>, directory: Directory, id: string)
    requires id in members
    ensures id in ServeAll(members, listed, requests, directory)
    ensures var after := ServeAll(members, listed, requests, directory)[id];
            var model := ModelRun(Abstract(AssignmentsOf(members[id])), OpsOn(listed, requests, id), directory);
            var reported := RoleGrants(FromMember(after));
            && (model.Legacy? ==>
                  ((forall roleId :: roleId in reported <==> roleId in model.held) <==>
                   (forall roleId | roleId in model.held :: ',' !in roleId) && RoleIds(after) != [""]))
            && (model.Scoped? && OneModel(AssignmentsOf(members[id])) ==> reported == [])
  {
    AccountRefinesModels(members, listed, requests, directory, id);
    var after := ServeAll(members, listed, requests, directory)[id];
    ReportedRolesExactly(after);
    RolesHeld(after);
    NothingReported(after);
    hide ServeAll, ModelRun, OpsOn, RoleIds, RoleGrants, FromMember, HeldRoles, HeldGroups;
  }

  lemma RolesHeld(member: AccountMember)
    ensures forall roleId :: roleId in RoleIds(member) <==> roleId in HeldRoles(member.roles)
  {
    forall role | role in member.roles
      ensures role.id in RoleIds(member)
    {
      var i :| 0 <= i < |member.roles| && member.roles[i] == role;
      assert RoleIds(member)[i] == role.id;
    }
  }

  lemma NothingReported(member: AccountMember)
    ensures member.roles == [] ==> RoleGrants(FromMember(member)) == []
  {
  }
}
