/**
 The Cloudflare account as the client sees it: what each read returns and what each write stores.
 */
module Account {
  import opened Json
  import opened Rules

  datatype Error =
    | NotFound
    | MissingId
    | RolesXorPolicies
    | NotAUser
    | NoEmail
    | KeptOut
    | BroadRule
    | LastRule
    | BadPageToken
    | UnexpectedPageState

  datatype AccountRole = AccountRole(id: string, name: string)

  datatype PermissionGroup = PermissionGroup(id: string, name: string)

  datatype ResourceGroup = ResourceGroup(name: string, key: string)

  datatype Policy = Policy(id: string, permissionGroups: seq<PermissionGroup>, resourceGroups: seq<ResourceGroup>,
                           access: string)

  datatype User = User(id: string, email: string)

  datatype AccountMember = AccountMember(id: string, user: User, status: string, roles: seq<AccountRole>,
                                         policies: seq<Policy>)

  /** The part of a member a write replaces. */
  datatype Assignments = Assignments(roles: seq<AccountRole>, policies: seq<Policy>)

  function AssignmentsOf(member: AccountMember): Assignments {
    Assignments(member.roles, member.policies)
  }

  class Cloudflare {
    var groups: map<string, AccessGroup>
    var members: map<string, AccountMember>
    // The permission group that mirrors each role; two roles may share one.
    const permissionGroups: map<string, PermissionGroup>
    const accountResources: ResourceGroup

    constructor (groups: map<string, AccessGroup>, members: map<string, AccountMember>,
                 permissionGroups: map<string, PermissionGroup>, accountResources: ResourceGroup)
      ensures this.groups == groups && this.members == members
      ensures this.permissionGroups == permissionGroups && this.accountResources == accountResources
    {
      this.groups, this.members := groups, members;
      this.permissionGroups, this.accountResources := permissionGroups, accountResources;
    }

    /** Every group is stored under its own ID. */
    ghost predicate Valid()
      reads this
    {
      forall id | id in groups :: groups[id].id == id
    }

    method GetAccessGroup(groupId: string) returns (r: Result<AccessGroup, Error>)
      ensures r == if groupId in groups then Ok(groups[groupId]) else Err(NotFound)
    {
      if groupId in groups {
        return Ok(groups[groupId]);
      }
      return Err(NotFound);
    }

    /** The endpoint replaces the whole group, so the body carries over everything but Include. */
    method UpdateAccessGroupInclude(grp: AccessGroup, included: seq<Json>) returns (r: Result<(), Error>)
      modifies this`groups
      ensures r == if grp.id == "" then Err(MissingId) else if grp.id !in old(groups) then Err(NotFound) else Ok(())
      ensures groups == if r.Ok? then old(groups)[grp.id := grp.(included := included)] else old(groups)
    {
      if grp.id == "" {
        return Err(MissingId);
      }
      if grp.id !in groups {
        return Err(NotFound);
      }
      groups := groups[grp.id := AccessGroup(grp.id, grp.name, included, grp.excluded, grp.required)];
      return Ok(());
    }

    method ReadMember(memberId: string) returns (r: Result<AccountMember, Error>)
      ensures r == if memberId == "" then Err(MissingId)
                   else if memberId in members then Ok(members[memberId])
                   else Err(NotFound)
    {
      if memberId == "" {
        return Err(MissingId);
      }
      if memberId in members {
        return Ok(members[memberId]);
      }
      return Err(NotFound);
    }

    /** A write must carry roles or policies but not both; the member's other list is cleared. */
    method UpdateAccountMember(memberId: string, body: Assignments) returns (r: Result<(), Error>)
      modifies this`members
      ensures r == if memberId == "" then Err(MissingId)
                   else if (|body.roles| > 0) == (|body.policies| > 0) then Err(RolesXorPolicies)
                   else if memberId !in old(members) then Err(NotFound)
                   else Ok(())
      ensures r.Err? ==> members == old(members)
      ensures r.Ok? ==>
        members == old(members)[memberId := old(members)[memberId].(roles := body.roles, policies := body.policies)]
    {
      if memberId == "" {
        return Err(MissingId);
      }
      if (|body.roles| > 0) == (|body.policies| > 0) {
        return Err(RolesXorPolicies);
      }
      if memberId !in members {
        return Err(NotFound);
      }
      members := members[memberId := members[memberId].(roles := body.roles, policies := body.policies)];
      return Ok(());
    }
  }
}
