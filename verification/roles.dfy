/**
 Granting and revoking account roles: a member holds either legacy roles or policies, and each write replaces the list.
 */
module Roles {
  import opened Account
  import opened Groups
  import opened Json
  import opened Paging
  import opened Sequences
  import opened Users

  datatype RoleOp = Grant(roleId: string) | Revoke(roleId: string)

  /**
   What the account knows: the permission group that mirrors each role, and the resource group covering everything.
   */
  datatype Directory = Directory(permissionGroups: map<string, PermissionGroup>, accountResources: ResourceGroup)

  // ----- specification -----

  function IdsOnly(roles: seq<AccountRole>): seq<AccountRole> {
    seq(|roles|, i requires 0 <= i < |roles| => AccountRole(roles[i].id, ""))
  }

  function WithoutRole(roles: seq<AccountRole>, roleId: string): seq<AccountRole> {
    Filter(IdsOnly(roles), OtherRole(roleId))
  }

  function OtherRole(roleId: string): AccountRole -> bool {
    (role: AccountRole) => role.id != roleId
  }

  function WithoutGroup(groups: seq<PermissionGroup>, groupId: string): seq<PermissionGroup> {
    Filter(groups, OtherGroup(groupId))
  }

  function OtherGroup(groupId: string): PermissionGroup -> bool {
    (group: PermissionGroup) => group.id != groupId
  }

  /** The policies without one permission group; a policy left with none goes. */
  function StripPolicies(policies: seq<Policy>, groupId: string): seq<Policy> {
    if policies == [] then []
    else
      var prefix, last := StripPolicies(policies[..|policies| - 1], groupId), policies[|policies| - 1];
      var remaining := WithoutGroup(last.permissionGroups, groupId);
      if remaining == [] then prefix else prefix + [last.(permissionGroups := remaining)]
  }

  function NewPolicy(directory: Directory, roleId: string): Policy
    requires roleId in directory.permissionGroups
  {
    Policy("", [PermissionGroup(directory.permissionGroups[roleId].id, "")], [directory.accountResources], "allow")
  }

  /** What the request would write for a member that holds this. */
  function Body(held: Assignments, op: RoleOp, directory: Directory): Result<Assignments, Error> {
    if held.policies != [] then
      if op.roleId !in directory.permissionGroups then Err(NotFound)
      else match op
        case Grant(roleId) => Ok(Assignments([], held.policies + [NewPolicy(directory, roleId)]))
        case Revoke(roleId) => Ok(Assignments([], StripPolicies(held.policies, directory.permissionGroups[roleId].id)))
    else match op
      case Grant(roleId) => Ok(Assignments([AccountRole(roleId, "")] + IdsOnly(held.roles), []))
      case Revoke(roleId) => Ok(Assignments(WithoutRole(held.roles, roleId), []))
  }

  /** What the member holds afterwards, and the answer. */
  function RoleStep(held: Assignments, op: RoleOp, directory: Directory): (Assignments, Result<(), Error>) {
    match Body(held, op, directory)
    case Err(e) => (held, Err(e))
    case Ok(body) =>
      if (body.roles == []) == (body.policies == []) then (held, Err(RolesXorPolicies)) else (body, Ok(()))
  }

  /** What a request does to all members: the first member with the user's ID takes the step. */
  function ProvisionRole(members: map<string, AccountMember>, listed: seq<AccountMember>, resourceType: string,
                         userId: string, op: RoleOp, directory: Directory)
    : (map<string, AccountMember>, Result<(), Error>)
  {
    if resourceType != USER_RESOURCE_TYPE then (members, Err(NotAUser))
    else match FirstWithUserId(listed, userId)
      case None => (members, Err(NotFound))
      case Some(found) =>
        if found.id == "" then (members, Err(MissingId))
        else if found.id !in members then (members, Err(NotFound))
        else
          var member := members[found.id];
          var (held, reply) := RoleStep(AssignmentsOf(member), op, directory);
          if reply.Ok? then (members[found.id := member.(roles := held.roles, policies := held.policies)], reply)
          else (members, reply)
  }

  // ----- the connector's code -----

  method RemovePermissionGroup(original: seq<Policy>, groupId: string) returns (policies: seq<Policy>)
    ensures policies == StripPolicies(original, groupId)
  {
    policies := [];
    for i := 0 to |original|
      invariant policies == StripPolicies(original[..i], groupId)
    {
      assert original[..i + 1][..i] == original[..i];
      var policy := original[i];
      var remaining: seq<PermissionGroup> := [];
      for j := 0 to |policy.permissionGroups|
        invariant remaining == WithoutGroup(policy.permissionGroups[..j], groupId)
      {
        assert policy.permissionGroups[..j + 1][..j] == policy.permissionGroups[..j];
        LastFiltered(policy.permissionGroups[..j + 1], OtherGroup(groupId));
        if policy.permissionGroups[j].id == groupId {
          continue;
        }
        remaining := remaining + [policy.permissionGroups[j]];
      }
      assert policy.permissionGroups[..|policy.permissionGroups|] == policy.permissionGroups;
      if |remaining| == 0 {
        continue;
      }
      policies := policies + [policy.(permissionGroups := remaining)];
    }
    assert original[..|original|] == original;
  }

  method AddRole(held: seq<AccountRole>, roleId: string) returns (roles: seq<AccountRole>)
    ensures roles == [AccountRole(roleId, "")] + IdsOnly(held)
  {
    roles := [AccountRole(roleId, "")];
    for i := 0 to |held|
      invariant roles == [AccountRole(roleId, "")] + IdsOnly(held)[..i]
    {
      roles := roles + [AccountRole(held[i].id, "")];
    }
  }

  method RemoveRole(held: seq<AccountRole>, roleId: string) returns (roles: seq<AccountRole>)
    ensures roles == WithoutRole(held, roleId)
  {
    roles := [];
    for i := 0 to |held|
      invariant roles == WithoutRole(held[..i], roleId)
    {
      assert IdsOnly(held[..i + 1]) == IdsOnly(held[..i]) + [AccountRole(held[i].id, "")];
      FilterAppend(IdsOnly(held[..i]), AccountRole(held[i].id, ""), OtherRole(roleId));
      if roleId != held[i].id {
        roles := roles + [AccountRole(held[i].id, "")];
      }
    }
    assert held[..|held|] == held;
  }

  class RoleBuilder {
    const client: Cloudflare

    constructor (client: Cloudflare)
      ensures this.client == client
    {
      this.client := client;
    }

    function KnownTo(): Directory {
      Directory(client.permissionGroups, client.accountResources)
    }

    method GetMemberId(listing: Listing<AccountMember>, userId: string) returns (r: Result<string, Error>)
      requires Truthful(listing)
      ensures r == match FirstWithUserId(Served(listing), userId)
                   case None => Err(NotFound)
                   case Some(member) => Ok(member.id)
      ensures r.Ok? || Followable(listing) ==> FirstWithUserId(Served(listing), userId) ==
                                               FirstWithUserId(listing.items, userId)
    {
      var member, _ := FindMemberByUserID(listing, userId);
      if member.None? {
        return Err(NotFound);
      }
      return Ok(member.value.id);
    }

    method Grant(listing: Listing<AccountMember>, resourceType: string, userId: string, roleId: string)
      returns (r: Result<(), Error>)
      requires Truthful(listing)
      modifies client`members
      ensures (client.members, r) ==
        ProvisionRole(old(client.members), Served(listing), resourceType, userId, RoleOp.Grant(roleId), KnownTo())
    {
      if resourceType != USER_RESOURCE_TYPE {
        return Err(NotAUser);
      }
      var memberId := GetMemberId(listing, userId);
      if memberId.Err? {
        return Err(memberId.error);
      }
      var read := client.ReadMember(memberId.value);
      if read.Err? {
        return Err(read.error);
      }
      var account := read.value;
      if |account.policies| > 0 {
        if roleId !in client.permissionGroups {
          return Err(NotFound);
        }
        var policy := Policy("", [PermissionGroup(client.permissionGroups[roleId].id, "")], [client.accountResources],
          "allow");
        r := client.UpdateAccountMember(memberId.value, Assignments([], account.policies + [policy]));
        return;
      }
      var roles := AddRole(account.roles, roleId);
      r := client.UpdateAccountMember(memberId.value, Assignments(roles, []));
    }

    method Revoke(listing: Listing<AccountMember>, resourceType: string, userId: string, roleId: string)
      returns (r: Result<(), Error>)
      requires Truthful(listing)
      modifies client`members
      ensures (client.members, r) ==
        ProvisionRole(old(client.members), Served(listing), resourceType, userId, RoleOp.Revoke(roleId), KnownTo())
    {
      if resourceType != USER_RESOURCE_TYPE {
        return Err(NotAUser);
      }
      var memberId := GetMemberId(listing, userId);
      if memberId.Err? {
        return Err(memberId.error);
      }
      var read := client.ReadMember(memberId.value);
      if read.Err? {
        return Err(read.error);
      }
      var account := read.value;
      if |account.policies| > 0 {
        if roleId !in client.permissionGroups {
          return Err(NotFound);
        }
        var policies := RemovePermissionGroup(account.policies, client.permissionGroups[roleId].id);
        r := client.UpdateAccountMember(memberId.value, Assignments([], policies));
        return;
      }
      var roles := RemoveRole(account.roles, roleId);
      r := client.UpdateAccountMember(memberId.value, Assignments(roles, []));
    }
  }

  // ----- the simple machine a member's assignments refine -----

  /** Which model the member is on, and the set of role or permission group IDs held. */
  datatype Model = Legacy(held: set<string>) | Scoped(held: set<string>)

  function HeldRoles(roles: seq<AccountRole>): set<string> {
    set role | role in roles :: role.id
  }

  function HeldGroups(policies: seq<Policy>): set<string> {
    set policy, group | policy in policies && group in policy.permissionGroups :: group.id
  }

  function Abstract(held: Assignments): Model {
    if held.policies != [] then Scoped(HeldGroups(held.policies)) else Legacy(HeldRoles(held.roles))
  }

  /**
   Insert or remove one ID, refusing to remove the last; on policies the ID is that of the role's permission group.
   */
  function ModelStep(model: Model, op: RoleOp, directory: Directory): (Model, bool) {
    match model
    case Legacy(held) =>
      var (after, ok) := SetStep(held, op.roleId, op.Grant?);
      (Legacy(after), ok)
    case Scoped(held) =>
      if op.roleId !in directory.permissionGroups then (model, false)
      else
        var (after, ok) := SetStep(held, directory.permissionGroups[op.roleId].id, op.Grant?);
        (Scoped(after), ok)
  }

  function SetStep(held: set<string>, id: string, insert: bool): (set<string>, bool) {
    if insert then (held + {id}, true)
    else if held - {id} == {} then (held, false)
    else (held - {id}, true)
  }

  lemma IdsOnlyHolds(roles: seq<AccountRole>)
    ensures HeldRoles(IdsOnly(roles)) == HeldRoles(roles)
  {
    var ids := IdsOnly(roles);
    assert forall i | 0 <= i < |roles| :: roles[i] in roles && ids[i] in ids && ids[i].id == roles[i].id;
  }

  lemma WithoutRoleExactly(roles: seq<AccountRole>, roleId: string)
    ensures HeldRoles(WithoutRole(roles, roleId)) == HeldRoles(roles) - {roleId}
    ensures WithoutRole(roles, roleId) == [] <==> HeldRoles(roles) - {roleId} == {}
  {
    var ids, kept := IdsOnly(roles), WithoutRole(roles, roleId);
    IdsOnlyHolds(roles);
    FilterExactly(ids, OtherRole(roleId));
    assert forall role :: role in kept <==> role in ids && role.id != roleId;
    hide WithoutRole, IdsOnly;
    assert HeldRoles(kept) == HeldRoles(ids) - {roleId};
    assert kept != [] ==> kept[0].id in HeldRoles(kept);
  }

  function GroupIds(groups: seq<PermissionGroup>): set<string> {
    set group | group in groups :: group.id
  }

  lemma WithoutGroupExactly(groups: seq<PermissionGroup>, groupId: string)
    ensures GroupIds(WithoutGroup(groups, groupId)) == GroupIds(groups) - {groupId}
    ensures WithoutGroup(groups, groupId) == [] <==> GroupIds(groups) - {groupId} == {}
  {
    var kept := WithoutGroup(groups, groupId);
    FilterExactly(groups, OtherGroup(groupId));
    assert forall group :: group in kept <==> group in groups && group.id != groupId;
    NoGroupIds(kept);
    hide WithoutGroup;
  }

  lemma HeldGroupsAppend(policies: seq<Policy>, policy: Policy)
    ensures HeldGroups(policies + [policy]) == HeldGroups(policies) + GroupIds(policy.permissionGroups)
  {
    var longer := policies + [policy];
    forall id | id in GroupIds(policy.permissionGroups)
      ensures id in HeldGroups(longer)
    {
      var group :| group in policy.permissionGroups && group.id == id;
      assert policy in longer;
    }
    forall id | id in HeldGroups(policies)
      ensures id in HeldGroups(longer)
    {
      var p, group :| p in policies && group in p.permissionGroups && group.id == id;
      assert p in longer;
    }
  }

  lemma NoGroupIds(groups: seq<PermissionGroup>)
    ensures GroupIds(groups) == {} <==> groups == []
  {
    assert groups != [] ==> groups[0].id in GroupIds(groups);
  }

  lemma {:induction false} StripPoliciesExactly(policies: seq<Policy>, groupId: string)
    ensures HeldGroups(StripPolicies(policies, groupId)) == HeldGroups(policies) - {groupId}
    ensures StripPolicies(policies, groupId) == [] <==> HeldGroups(policies) - {groupId} == {}
  {
    if policies == [] {
    } else {
      hide HeldGroups, GroupIds, WithoutGroup;
      var prefix, last := policies[..|policies| - 1], policies[|policies| - 1];
      StripPoliciesExactly(prefix, groupId);
      assert policies == prefix + [last];
      HeldGroupsAppend(prefix, last);
      WithoutGroupExactly(last.permissionGroups, groupId);
      var remaining := WithoutGroup(last.permissionGroups, groupId);
      HeldGroupsAppend(StripPolicies(prefix, groupId), last.(permissionGroups := remaining));
      NoGroupIds(remaining);
      assert StripPolicies(policies, groupId) == StripPolicies(prefix, groupId) +
             if remaining == [] then [] else [last.(permissionGroups := remaining)];
      hide StripPolicies;
    }
  }

  /** Each step does what inserting into or removing from a set does, and is refused exactly when that is. */
  lemma StepRefinesModel(held: Assignments, op: RoleOp, directory: Directory)
    ensures var (after, reply) := RoleStep(held, op, directory);
            (Abstract(after), reply.Ok?) == ModelStep(Abstract(held), op, directory)
    ensures RoleStep(held, op, directory).1.Err? ==> RoleStep(held, op, directory).0 == held
  {
    if held.policies != [] {
      if op.roleId in directory.permissionGroups {
        var groupId := directory.permissionGroups[op.roleId].id;
        StripPoliciesExactly(held.policies, groupId);
        HeldGroupsAppend(held.policies, NewPolicy(directory, op.roleId));
        assert GroupIds(NewPolicy(directory, op.roleId).permissionGroups) == {groupId};
        hide HeldGroups, GroupIds, StripPolicies;
      }
    } else {
      WithoutRoleExactly(held.roles, op.roleId);
      GrantedRoles(held.roles, op.roleId);
      hide HeldRoles, WithoutRole, IdsOnly;
    }
  }

  lemma GrantedRoles(roles: seq<AccountRole>, roleId: string)
    ensures HeldRoles([AccountRole(roleId, "")] + IdsOnly(roles)) == HeldRoles(roles) + {roleId}
  {
    var granted := [AccountRole(roleId, "")] + IdsOnly(roles);
    assert granted[0].id == roleId;
    forall role | role in roles
      ensures role.id in HeldRoles(granted)
    {
      var i :| 0 <= i < |roles| && roles[i] == role;
      assert granted[i + 1].id == role.id;
    }
    forall role | role in granted
      ensures role.id in HeldRoles(roles) + {roleId}
    {
      var i :| 0 <= i < |granted| && granted[i] == role;
      assert i > 0 ==> roles[i - 1] in roles && roles[i - 1].id == role.id;
    }
  }

  /** What a step refuses: a role without a permission group, and taking away the last thing held. */
  lemma RoleRefusesExactly(held: Assignments, op: RoleOp, directory: Directory)
    ensures var reply, scoped := RoleStep(held, op, directory).1, held.policies != [];
            && (reply == Err(NotFound) <==> scoped && op.roleId !in directory.permissionGroups)
            && (reply == Err(RolesXorPolicies) <==>
                && op.Revoke?
                && if scoped then
                     && op.roleId in directory.permissionGroups
                     && forall policy, group | policy in held.policies && group in policy.permissionGroups ::
                          group.id == directory.permissionGroups[op.roleId].id
                   else forall role | role in held.roles :: role.id == op.roleId)
            && (reply.Err? ==> reply.error in {NotFound, RolesXorPolicies})
  {
    if held.policies != [] {
      if op.roleId in directory.permissionGroups {
        NothingElseHeld(held, directory.permissionGroups[op.roleId].id);
        StripPoliciesExactly(held.policies, directory.permissionGroups[op.roleId].id);
      }
    } else {
      NothingElseHeld(held, op.roleId);
      WithoutRoleExactly(held.roles, op.roleId);
    }
    hide StripPolicies, WithoutRole, IdsOnly, NewPolicy, HeldGroups, HeldRoles;
  }

  lemma NothingElseHeld(held: Assignments, id: string)
    ensures HeldRoles(held.roles) - {id} == {} <==> forall role | role in held.roles :: role.id == id
    ensures HeldGroups(held.policies) - {id} == {} <==>
            forall policy, group | policy in held.policies && group in policy.permissionGroups :: group.id == id
  {
    forall role | role in held.roles && role.id != id
      ensures role.id in HeldRoles(held.roles) - {id}
    {
    }
    forall policy, group | policy in held.policies && group in policy.permissionGroups && group.id != id
      ensures group.id in HeldGroups(held.policies) - {id}
    {
    }
  }

  /** On legacy roles, a Grant puts the role in front of those held; only the IDs are written. */
  lemma RoleGrantConserves(held: Assignments, roleId: string, directory: Directory)
    requires held.policies == []
    ensures var (after, reply) := RoleStep(held, Grant(roleId), directory);
            && reply == Ok(()) && after.policies == []
            && |after.roles| == |held.roles| + 1 && after.roles[0] == AccountRole(roleId, "")
            && forall i | 0 <= i < |held.roles| :: after.roles[i + 1] == AccountRole(held.roles[i].id, "")
  {
  }

  /** On legacy roles, a Revoke that is not refused leaves every other role, in order; only the IDs are written. */
  lemma RoleRevokeConserves(held: Assignments, roleId: string, directory: Directory)
    requires held.policies == [] && RoleStep(held, Revoke(roleId), directory).1.Ok?
    ensures var after := RoleStep(held, Revoke(roleId), directory).0;
            && after.policies == []
            && IsLargestPart(after.roles, IdsOnly(held.roles), OtherRole(roleId))
  {
    FilterIsLargestPart(IdsOnly(held.roles), OtherRole(roleId));
  }

  // ----- runs -----

  function RoleRun(held: Assignments, ops: seq<RoleOp>, directory: Directory): Assignments {
    if ops == [] then held else RoleStep(RoleRun(held, ops[..|ops| - 1], directory), ops[|ops| - 1], directory).0
  }

  function ModelRun(model: Model, ops: seq<RoleOp>, directory: Directory): Model {
    if ops == [] then model else ModelStep(ModelRun(model, ops[..|ops| - 1], directory), ops[|ops| - 1], directory).0
  }

  predicate OneModel(held: Assignments) {
    held.roles == [] || held.policies == []
  }

  /**
   Any run is a run of the set machine: the member never changes model, and never holds both lists if it did not at
   first.
   */
  lemma {:induction false} RunRefinesModel(held: Assignments, ops: seq<RoleOp>, directory: Directory)
    ensures Abstract(RoleRun(held, ops, directory)) == ModelRun(Abstract(held), ops, directory)
    ensures Abstract(RoleRun(held, ops, directory)).Scoped? == Abstract(held).Scoped?
    ensures RoleRun(held, ops, directory) == held || OneModel(RoleRun(held, ops, directory))
  {
    if ops == [] {
    } else {
      var before := RoleRun(held, ops[..|ops| - 1], directory);
      RunRefinesModel(held, ops[..|ops| - 1], directory);
      StepRefinesModel(before, ops[|ops| - 1], directory);
      hide Abstract, HeldRoles, HeldGroups, StripPolicies, WithoutRole;
    }
  }

  // ----- what a policy revoke keeps -----

  /** The permission groups in order, each with everything else its policy says. */
  function Pairs(policies: seq<Policy>): seq<(Policy, PermissionGroup)> {
    if policies == [] then []
    else
      var last := policies[|policies| - 1];
      Pairs(policies[..|policies| - 1]) + PairsOf(last.(permissionGroups := []), last.permissionGroups)
  }

  function PairsOf(shell: Policy, groups: seq<PermissionGroup>): seq<(Policy, PermissionGroup)> {
    seq(|groups|, i requires 0 <= i < |groups| => (shell, groups[i]))
  }

  function OtherPair(groupId: string): ((Policy, PermissionGroup)) -> bool {
    (pair: (Policy, PermissionGroup)) => pair.1.id != groupId
  }

  function WithoutPairs(pairs: seq<(Policy, PermissionGroup)>, groupId: string): seq<(Policy, PermissionGroup)> {
    Filter(pairs, OtherPair(groupId))
  }

  lemma {:induction false} PairsOfOnePolicy(shell: Policy, groups: seq<PermissionGroup>, groupId: string)
    ensures WithoutPairs(PairsOf(shell, groups), groupId) == PairsOf(shell, WithoutGroup(groups, groupId))
  {
    if groups == [] {
    } else {
      var prefix, pairs := groups[..|groups| - 1], PairsOf(shell, groups);
      PairsOfOnePolicy(shell, prefix, groupId);
      assert pairs[..|pairs| - 1] == PairsOf(shell, prefix);
      LastFiltered(groups, OtherGroup(groupId));
      LastFiltered(pairs, OtherPair(groupId));
    }
  }

  /**
   Revoking one permission group takes exactly its pairs out; every other pair stays, in order, with its policy's
   terms.
   */
  lemma {:induction false} PolicyRevokeConserves(policies: seq<Policy>, groupId: string)
    ensures Pairs(StripPolicies(policies, groupId)) == WithoutPairs(Pairs(policies), groupId)
    ensures forall policy | policy in StripPolicies(policies, groupId) :: policy.permissionGroups != []
  {
    if policies == [] {
    } else {
      var prefix, last := policies[..|policies| - 1], policies[|policies| - 1];
      PolicyRevokeConserves(prefix, groupId);
      var shell, remaining := last.(permissionGroups := []), WithoutGroup(last.permissionGroups, groupId);
      FilterDistributes(Pairs(prefix), PairsOf(shell, last.permissionGroups), OtherPair(groupId));
      PairsOfOnePolicy(shell, last.permissionGroups, groupId);
      var kept := StripPolicies(prefix, groupId);
      if remaining == [] {
        assert Pairs(kept) + PairsOf(shell, []) == Pairs(kept);
      } else {
        var stripped := last.(permissionGroups := remaining);
        assert (kept + [stripped])[..|kept|] == kept;
        assert stripped.(permissionGroups := []) == shell;
      }
    }
  }

  /** Some policy says other than to allow this permission group. */
  predicate Denied(policies: seq<Policy>, groupId: string) {
    exists policy | policy in policies :: policy.access != "allow" && groupId in GroupIds(policy.permissionGroups)
  }

  lemma DeniedAppend(policies: seq<Policy>, policy: Policy, groupId: string)
    ensures Denied(policies + [policy], groupId) <==>
            Denied(policies, groupId) || (policy.access != "allow" && groupId in GroupIds(policy.permissionGroups))
  {
    hide GroupIds;
    assert forall p :: p in policies + [policy] <==> p in policies || p == policy;
  }

  /** Taking a permission group out of every policy lifts its denials too, and no others. */
  lemma {:induction false} StripLiftsDenialsExactly(policies: seq<Policy>, groupId: string, id: string)
    ensures Denied(StripPolicies(policies, groupId), id) <==> Denied(policies, id) && id != groupId
  {
    if policies == [] {
    } else {
      hide Denied, GroupIds, WithoutGroup;
      var prefix, last := policies[..|policies| - 1], policies[|policies| - 1];
      StripLiftsDenialsExactly(prefix, groupId, id);
      assert policies == prefix + [last];
      DeniedAppend(prefix, last, id);
      WithoutGroupExactly(last.permissionGroups, groupId);
      NoGroupIds(WithoutGroup(last.permissionGroups, groupId));
      DeniedAppend(StripPolicies(prefix, groupId),
        last.(permissionGroups := WithoutGroup(last.permissionGroups, groupId)), id);
    }
  }

  /** A Revoke on policies that is not refused lifts a denial exactly if it denied the role's own permission group. */
  lemma RevokeLiftsDenialsExactly(held: Assignments, roleId: string, directory: Directory, id: string)
    requires held.policies != [] && RoleStep(held, Revoke(roleId), directory).1.Ok?
    ensures Denied(RoleStep(held, Revoke(roleId), directory).0.policies, id) <==>
            Denied(held.policies, id) && id != directory.permissionGroups[roleId].id
  {
    StripLiftsDenialsExactly(held.policies, directory.permissionGroups[roleId].id, id);
    hide Denied, StripPolicies;
  }

  /** A Grant on policies adds one pair, at the end: the role's permission group, allowed on the whole account. */
  lemma PolicyGrantConserves(held: Assignments, roleId: string, directory: Directory)
    requires held.policies != [] && roleId in directory.permissionGroups
    ensures var (after, reply) := RoleStep(held, Grant(roleId), directory);
            && reply == Ok(())
            && Pairs(after.policies) ==
               Pairs(held.policies) + [(Policy("", [], [directory.accountResources], "allow"),
                                        PermissionGroup(directory.permissionGroups[roleId].id, ""))]
  {
    var policy := NewPolicy(directory, roleId);
    assert (held.policies + [policy])[..|held.policies|] == held.policies;
    assert policy.(permissionGroups := []) == Policy("", [], [directory.accountResources], "allow");
  }

  /**
   A request reaches the first listed member with the user's ID and nobody else, and nothing of that member but the
   two lists.
   */
  lemma RequestTouchesOneMember(members: map<string, AccountMember>, listed: seq<AccountMember>, userId: string,
                                op: RoleOp, directory: Directory, id: string)
    requires id in members
    ensures var (after, reply) := ProvisionRole(members, listed, USER_RESOURCE_TYPE, userId, op, directory);
            var found := FirstWithUserId(listed, userId);
            && after.Keys == members.Keys
            && after[id].(roles := [], policies := []) == members[id].(roles := [], policies := [])
            && if found.Some? && found.value.id == id != "" then
                 (AssignmentsOf(after[id]), reply) == RoleStep(AssignmentsOf(members[id]), op, directory)
               else after[id] == members[id]
    ensures FirstWithUserId(listed, userId).None? ==>
              ProvisionRole(members, listed, USER_RESOURCE_TYPE, userId, op, directory) == (members, Err(NotFound))
  {
    if FirstWithUserId(listed, userId).Some? && id == FirstWithUserId(listed, userId).value.id {
      StepRefinesModel(AssignmentsOf(members[id]), op, directory);
    }
    hide RoleStep, FirstWithUserId;
  }

  /** What stops a request before the lists are looked at; and a refusal changes nothing. */
  lemma StoppedExactly(members: map<string, AccountMember>, listed: seq<AccountMember>, resourceType: string,
                       userId: string, op: RoleOp, directory: Directory)
    ensures var (after, reply) := ProvisionRole(members, listed, resourceType, userId, op, directory);
            var found := FirstWithUserId(listed, userId);
            && (reply == Err(NotAUser) <==> resourceType != "user")
            && (reply == Err(MissingId) <==> resourceType == "user" && found.Some? && found.value.id == "")
            && (reply == Err(NotFound) <==>
                && resourceType == "user"
                && (|| found.None?
                    || (&& found.value.id != ""
                        && (|| found.value.id !in members
                            || (&& members[found.value.id].policies != []
                                && op.roleId !in directory.permissionGroups)))))
            && (reply.Err? ==> after == members)
  {
    var found := FirstWithUserId(listed, userId);
    if found.Some? && found.value.id in members {
      RoleRefusesExactly(AssignmentsOf(members[found.value.id]), op, directory);
    }
    hide FirstWithUserId, RoleStep;
  }

  lemma {:induction false} StripDistributes(a: seq<Policy>, b: seq<Policy>, groupId: string)
    ensures StripPolicies(a + b, groupId) == StripPolicies(a, groupId) + StripPolicies(b, groupId)
  {
    hide WithoutGroup;
    if b == [] {
      assert a + b == a;
    } else {
      var shorter, whole := b[..|b| - 1], a + b;
      StripDistributes(a, shorter, groupId);
      assert whole[|whole| - 1] == b[|b| - 1] && whole[..|whole| - 1] == a + shorter;
    }
  }

  /** Each policy is stripped on its own: it keeps its terms and its other groups in order, or goes if it has none. */
  lemma EachPolicyExactly(before: seq<Policy>, policy: Policy, after: seq<Policy>, groupId: string)
    ensures var middle := StripPolicies([policy], groupId);
            && StripPolicies(before + [policy] + after, groupId) ==
               StripPolicies(before, groupId) + middle + StripPolicies(after, groupId)
            && |middle| <= 1
            && (middle == [] <==> forall group | group in policy.permissionGroups :: group.id == groupId)
            && (middle != [] ==>
                  && middle[0].(permissionGroups := []) == policy.(permissionGroups := [])
                  && IsLargestPart(middle[0].permissionGroups, policy.permissionGroups, OtherGroup(groupId)))
  {
    StripDistributes(before + [policy], after, groupId);
    StripDistributes(before, [policy], groupId);
    assert [policy][..0] == [];
    FilterIsLargestPart(policy.permissionGroups, OtherGroup(groupId));
    FilterExactly(policy.permissionGroups, OtherGroup(groupId));
    var remaining := WithoutGroup(policy.permissionGroups, groupId);
    assert forall group :: group in remaining <==> group in policy.permissionGroups && group.id != groupId;
    assert remaining != [] ==> remaining[0] in remaining;
    hide IsLargestPart, WithoutGroup;
  }

  lemma {:induction false} StripNothing(policies: seq<Policy>, groupId: string)
    ensures |StripPolicies(policies, groupId)| <= |policies|
    ensures StripPolicies(policies, groupId) == policies <==>
            groupId !in HeldGroups(policies) && forall policy | policy in policies :: policy.permissionGroups != []
  {
    if policies == [] {
    } else {
      var prefix, last := policies[..|policies| - 1], policies[|policies| - 1];
      StripNothing(prefix, groupId);
      assert policies == prefix + [last];
      HeldGroupsAppend(prefix, last);
      WithoutGroupNothing(last.permissionGroups, groupId);
      var kept, remaining := StripPolicies(prefix, groupId), WithoutGroup(last.permissionGroups, groupId);
      var stripped := last.(permissionGroups := remaining);
      assert kept + [stripped] == prefix + [last] ==>
          kept == (prefix + [last])[..|kept|] && (|kept| == |prefix| ==> stripped == (prefix + [last])[|kept|]);
      hide HeldGroups, GroupIds;
    }
  }

  lemma WithoutGroupNothing(groups: seq<PermissionGroup>, groupId: string)
    ensures |WithoutGroup(groups, groupId)| <= |groups|
    ensures WithoutGroup(groups, groupId) == groups <==> groupId !in GroupIds(groups)
  {
    FilterKeepsAllExactly(groups, OtherGroup(groupId));
  }

  /**
   On policies, a Revoke undoes a Grant to the letter exactly when the permission group was not held before, no policy
   was empty, and there were no legacy roles for the write to clear.
   */
  lemma PolicyGrantThenRevoke(held: Assignments, roleId: string, directory: Directory)
    requires held.policies != [] && roleId in directory.permissionGroups
    ensures var granted := RoleStep(held, Grant(roleId), directory).0;
            RoleStep(granted, Revoke(roleId), directory) == (held, Ok(())) <==>
            && held.roles == []
            && directory.permissionGroups[roleId].id !in HeldGroups(held.policies)
            && forall policy | policy in held.policies :: policy.permissionGroups != []
  {
    var groupId := directory.permissionGroups[roleId].id;
    var policy := NewPolicy(directory, roleId);
    StripNothing(held.policies, groupId);
    assert (held.policies + [policy])[..|held.policies|] == held.policies;
    FilterOne(policy.permissionGroups[0], OtherGroup(groupId));
    assert WithoutGroup(policy.permissionGroups, groupId) == [];
    assert StripPolicies(held.policies + [policy], groupId) == StripPolicies(held.policies, groupId);
    hide HeldGroups;
  }

  lemma WithoutRoleNothing(roles: seq<AccountRole>, roleId: string)
    ensures WithoutRole(roles, roleId) == IdsOnly(roles) <==> roleId !in HeldRoles(roles)
  {
    IdsOnlyHolds(roles);
    FilterKeepsAllExactly(IdsOnly(roles), OtherRole(roleId));
  }

  lemma WithoutRoleAfterGrant(roles: seq<AccountRole>, roleId: string)
    ensures WithoutRole([AccountRole(roleId, "")] + IdsOnly(roles), roleId) == WithoutRole(roles, roleId)
  {
    var first := AccountRole(roleId, "");
    assert IdsOnly([first] + IdsOnly(roles)) == [first] + IdsOnly(roles);
    FilterDistributes([first], IdsOnly(roles), OtherRole(roleId));
    FilterOne(first, OtherRole(roleId));
  }

  /**
   On legacy roles, a Revoke leaves the role IDs that were there before the Grant exactly when the role was not among
   them and there were some.
   */
  lemma RoleGrantThenRevoke(held: Assignments, roleId: string, directory: Directory)
    requires held.policies == []
    ensures var granted := RoleStep(held, Grant(roleId), directory).0;
            RoleStep(granted, Revoke(roleId), directory) == (Assignments(IdsOnly(held.roles), []), Ok(())) <==>
            roleId !in HeldRoles(held.roles) && held.roles != []
  {
    WithoutRoleAfterGrant(held.roles, roleId);
    WithoutRoleNothing(held.roles, roleId);
    hide HeldRoles, WithoutRole;
  }
}
