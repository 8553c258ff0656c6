/**
 Syncing one group's grants page by page, and what all groups' grants expand to.
 */
module GroupSync {
  import opened Account
  import opened AccountRuns
  import opened Bags
  import opened Closure
  import opened Expansion
  import opened Folding
  import opened GroupRuns
  import opened Groups
  import opened Json
  import opened Paging
  import opened Rules
  import opened Sequences
  import opened Text
  import opened Users

  datatype Grant =
    | UserGrant(group: string, userId: string)
    | NestedGrant(group: string, nested: string)

  const GROUP_RESOURCE_TYPE := "group"

  // ----- specification -----

  function AsAccessUser(user: User): AccessUser {
    AccessUser(user.id, user.email)
  }

  /** The members on a page that can hold a grant. */
  function SyncedUsers(members: seq<AccountMember>): seq<AccessUser> {
    var synced := Synced(members);
    seq(|synced|, i requires 0 <= i < |synced| => AsAccessUser(synced[i].user))
  }

  function GrantFor(groupId: string, grp: AccessGroup): AccessUser -> Option<Grant> {
    (user: AccessUser) => if IsMember(grp, grp.included, user.email) then Some(UserGrant(groupId, user.id)) else None
  }

  /** One grant for each user the group's rules admit, in order. */
  function UserGrants(groupId: string, grp: AccessGroup, users: seq<AccessUser>): seq<Grant> {
    FilterMap(users, GrantFor(groupId, grp))
  }

  function DirectGrants(groupId: string, grp: AccessGroup, members: seq<AccountMember>): seq<Grant> {
    UserGrants(groupId, grp, SyncedUsers(members))
  }

  function NestedGrants(groupId: string, grp: AccessGroup, restricts: bool): seq<Grant> {
    if restricts then [] else NestedGrantsTo(groupId, NestedIds(grp.included))
  }

  function NestedGrantsTo(groupId: string, ids: seq<string>): seq<Grant> {
    seq(|ids|, i requires 0 <= i < |ids| => NestedGrant(groupId, ids[i]))
  }

  function GroupBag(token: Token): Token {
    if token.current.Some? then token else Pushed(token, PageState("", GROUP_RESOURCE_TYPE, ""))
  }

  predicate IsFirstPage(token: Token) {
    PageToken(GroupBag(token)) == ""
  }

  /** One Grants call: the page's direct grants, and on the first page the nested ones. */
  function GrantsPage(groups: GroupMap, members: Listing<AccountMember>, groupId: string, restricts: bool, token: Token)
    : Result<(seq<Grant>, Token), Error>
  {
    if groupId !in groups then Err(NotFound)
    else
      var grp, bag := groups[groupId], GroupBag(token);
      match ListPage(members, PageToken(bag))
      case Err(e) => Err(e)
      case Ok((page, next)) =>
        var nested := if IsFirstPage(token) then NestedGrants(groupId, grp, restricts) else [];
        Ok((DirectGrants(groupId, grp, page) + nested, if next == "" then BLANK else Advance(bag, next)))
  }

  // ----- the connector's code -----

  method CollectUsers(members: seq<AccountMember>) returns (users: seq<AccessUser>)
    ensures users == SyncedUsers(members)
  {
    users := [];
    for i := 0 to |members|
      invariant users == SyncedUsers(members[..i])
    {
      assert members[..i + 1] == members[..i] + [members[i]];
      FilterAppend(members[..i], members[i], HasUserId);
      var user := members[i].user;
      if user.id == "" {
        continue;
      }
      users := users + [AccessUser(user.id, user.email)];
    }
    assert members[..|members|] == members;
  }

  method EmitDirect(groupId: string, grp: AccessGroup, direct: seq<Json>, users: seq<AccessUser>)
    returns (rv: seq<Grant>)
    requires direct == DirectRules(grp.included)
    ensures rv == UserGrants(groupId, grp, users)
  {
    rv := [];
    for i := 0 to |users|
      invariant rv == UserGrants(groupId, grp, users[..i])
    {
      assert users[..i + 1][..i] == users[..i];
      var member := TestDirectRules(grp, direct, users[i].email);
      if !member {
        continue;
      }
      rv := rv + [UserGrant(groupId, users[i].id)];
    }
    assert users[..|users|] == users;
  }

  method EmitNested(groupId: string, nestedGroupIds: seq<string>) returns (rv: seq<Grant>)
    ensures rv == NestedGrantsTo(groupId, nestedGroupIds)
  {
    rv := [];
    for i := 0 to |nestedGroupIds|
      invariant rv == NestedGrantsTo(groupId, nestedGroupIds)[..i]
    {
      rv := rv + [NestedGrant(groupId, nestedGroupIds[i])];
    }
  }

  /** The answer is one RestrictsNestedExpansion may give; it is asked for on the first page only. */
  ghost predicate MayAnswer(groups: GroupMap, groupId: string, token: Token, restricts: bool) {
    groupId in groups && IsFirstPage(token) ==> MayRestrict(groups[groupId], restricts)
  }

  method Grants(client: Cloudflare, members: Listing<AccountMember>, groupId: string, token: Token)
    returns (r: Result<(seq<Grant>, Token), Error>)
    ensures exists restricts ::
              MayAnswer(client.groups, groupId, token, restricts) &&
                r == GrantsPage(client.groups, members, groupId, restricts, token)
  {
    hide ListPage, MayRestrict, Advance, SyncedUsers, UserGrants, NestedGrantsTo, DirectRules, NestedIds;
    ghost var restricts := false;
    var read := client.GetAccessGroup(groupId);
    if read.Err? {
      assert MayAnswer(client.groups, groupId, token, restricts);
      return Err(read.error);
    }
    var grp := read.value;
    var bag := new Bag();
    bag.Unmarshal(token);
    if bag.current.None? {
      bag.Push(PageState("", GROUP_RESOURCE_TYPE, ""));
    }
    assert bag.State() == GroupBag(token);
    var firstPage := PageToken(bag.State()) == "";
    var direct, nestedGroupIds := SplitIncludeRules(grp.included);
    if firstPage {
      var answer := RestrictsNestedExpansion(grp);
      restricts := answer;
      if answer {
        nestedGroupIds := [];
      }
    }
    assert MayAnswer(client.groups, groupId, token, restricts);
    var page := ListPage(members, PageToken(bag.State()));
    if page.Err? {
      return Err(page.error);
    }
    var users := CollectUsers(page.value.0);
    var rv := EmitDirect(groupId, grp, direct, users);
    assert rv == DirectGrants(groupId, grp, page.value.0);
    if firstPage {
      var nested := EmitNested(groupId, nestedGroupIds);
      assert nested == NestedGrants(groupId, grp, restricts) by { NoNestedGrants(groupId); }
      rv := rv + nested;
    } else {
      assert rv == rv + [];
    }
    if page.value.1 == "" {
      return Ok((rv, BLANK));
    }
    var next := bag.NextToken(page.value.1);
    return Ok((rv, next));
  }

  lemma NoNestedGrants(groupId: string)
    ensures NestedGrantsTo(groupId, []) == []
  {
  }

  // ----- a whole sync of one group -----

  /** Call Grants until the token comes back blank, giving up after so many calls. */
  function SyncGroup(groups: GroupMap, members: Listing<AccountMember>, groupId: string, restricts: bool, token: Token,
                     budget: nat)
    : Option<Sweep<Grant>>
    decreases budget
  {
    if budget == 0 then None
    else match GrantsPage(groups, members, groupId, restricts, token)
      case Err(_) => None
      case Ok((grants, next)) =>
        if next == BLANK then Some(Sweep(grants, 1))
        else match SyncGroup(groups, members, groupId, restricts, next, budget - 1)
          case None => None
          case Some(rest) => Some(Sweep(grants + rest.items, rest.requests + 1))
  }

  lemma DirectGrantsDistribute(groupId: string, grp: AccessGroup, a: seq<AccountMember>, b: seq<AccountMember>)
    ensures DirectGrants(groupId, grp, a + b) == DirectGrants(groupId, grp, a) + DirectGrants(groupId, grp, b)
  {
    FilterDistributes(a, b, HasUserId);
    assert SyncedUsers(a + b) == SyncedUsers(a) + SyncedUsers(b);
    hide SyncedUsers;
    FilterMapDistributes(SyncedUsers(a), SyncedUsers(b), GrantFor(groupId, grp));
  }

  function AtGroupPage(token: string): Token {
    Token([], Some(PageState(token, GROUP_RESOURCE_TYPE, "")))
  }

  lemma GrantsStep(groups: GroupMap, members: Listing<AccountMember>, groupId: string, restricts: bool, page: nat,
                   token: string)
    requires groupId in groups && Truthful(members) && 1 <= page <= LastPage(members)
    requires ParsePageToken(token) == Ok(page)
    ensures var grp := groups[groupId];
            var nested := if token == "" then NestedGrants(groupId, grp, restricts) else [];
            GrantsPage(groups, members, groupId, restricts, AtGroupPage(token)) ==
            Ok((DirectGrants(groupId, grp, PageOf(members, page)) + nested,
                if page < LastPage(members) then AtGroupPage(Itoa(page + 1)) else BLANK))
    ensures AtGroupPage(Itoa(page + 1)) != BLANK
  {
    hide LastPage, NextPageToken, ParsePageToken, Itoa, PageOf, HasNext, DirectGrants, NestedGrants;
    LastPageExactly(members, page);
    NextPageTokenExactly(members, page);
  }

  /** One call unfolds a sync. */
  lemma SyncStep(groups: GroupMap, members: Listing<AccountMember>, groupId: string, restricts: bool, token: Token,
                 budget: nat, grants: seq<Grant>, next: Token)
    requires budget > 0 && GrantsPage(groups, members, groupId, restricts, token) == Ok((grants, next))
    ensures next == BLANK ==>
              SyncGroup(groups, members, groupId, restricts, token, budget) == Some(Sweep(grants, 1))
    ensures next != BLANK && SyncGroup(groups, members, groupId, restricts, next, budget - 1).Some? ==>
              var rest := SyncGroup(groups, members, groupId, restricts, next, budget - 1).value;
              SyncGroup(groups, members, groupId, restricts, token, budget) ==
              Some(Sweep(grants + rest.items, rest.requests + 1))
  {
    hide GrantsPage;
  }

  /** From the second page on there are direct grants only. */
  lemma {:induction false} SyncFrom(groups: GroupMap, members: Listing<AccountMember>, groupId: string, restricts: bool,
                                    page: nat, budget: nat)
    requires groupId in groups && Truthful(members) && 2 <= page <= LastPage(members)
    requires page + budget > LastPage(members)
    ensures Start(members, page) <= |Served(members)|
    ensures SyncGroup(groups, members, groupId, restricts, AtGroupPage(Itoa(page)), budget) ==
            Some(Sweep(DirectGrants(groupId, groups[groupId], Served(members)[Start(members, page)..]),
                       LastPage(members) - page + 1))
    decreases budget
  {
    hide *;
    LastPageBounds(members);
    var from, to, items := Start(members, page), Start(members, page + 1), Served(members);
    var here := DirectGrants(groupId, groups[groupId], PageOf(members, page));
    TokenRoundTrip(page);
    PageSlice(members, page);
    GrantsStep(groups, members, groupId, restricts, page, Itoa(page));
    assert here + [] == here;
    if page < LastPage(members) {
      SyncFrom(groups, members, groupId, restricts, page + 1, budget - 1);
      SyncStep(groups, members, groupId, restricts, AtGroupPage(Itoa(page)), budget, here, AtGroupPage(Itoa(page + 1)));
      DirectGrantsDistribute(groupId, groups[groupId], items[from..to], items[to..]);
      Rejoin(items, from, to);
    } else {
      SyncStep(groups, members, groupId, restricts, AtGroupPage(Itoa(page)), budget, here, BLANK);
    }
  }

  /**
   A sync of one group emits the direct grants of the whole member list, in order, and its nested grants once, right
   after the first page's.
   */
  lemma GroupSyncExactly(groups: GroupMap, members: Listing<AccountMember>, groupId: string, restricts: bool,
                         budget: nat)
    requires groupId in groups && Truthful(members) && LastPage(members) <= budget
    ensures var grp, cut := groups[groupId], |PageOf(members, 1)|;
            && cut <= |Served(members)|
            && SyncGroup(groups, members, groupId, restricts, BLANK, budget) ==
               Some(Sweep(DirectGrants(groupId, grp, Served(members)[..cut]) + NestedGrants(groupId, grp, restricts) +
                          DirectGrants(groupId, grp, Served(members)[cut..]),
                          LastPage(members)))
            && DirectGrants(groupId, grp, Served(members)) ==
               DirectGrants(groupId, grp, Served(members)[..cut]) + DirectGrants(groupId, grp, Served(members)[cut..])
  {
    hide *;
    LastPageBounds(members);
    TokenRoundTrip(1);
    FirstToken();
    PageSlice(members, 1);
    GrantsStep(groups, members, groupId, restricts, 1, "");
    BlankStartsSync(groups, members, groupId, restricts, budget);
    var grp, items, cut := groups[groupId], Served(members), Start(members, 2);
    assert items[0..cut] == items[..cut] && |PageOf(members, 1)| == cut;
    var grants := DirectGrants(groupId, grp, items[..cut]) + NestedGrants(groupId, grp, restricts);
    DirectGrantsDistribute(groupId, grp, items[..cut], items[cut..]);
    assert items[..cut] + items[cut..] == items;
    if 1 < LastPage(members) {
      SyncFrom(groups, members, groupId, restricts, 2, budget - 1);
      SyncStep(groups, members, groupId, restricts, AtGroupPage(""), budget, grants, AtGroupPage(Itoa(2)));
    } else {
      assert items[cut..] == [];
      NoDirectGrants(groupId, grp);
      assert grants + [] == grants;
      SyncStep(groups, members, groupId, restricts, AtGroupPage(""), budget, grants, BLANK);
    }
  }

  lemma NoDirectGrants(groupId: string, grp: AccessGroup)
    ensures DirectGrants(groupId, grp, []) == []
  {
  }

  lemma BlankStartsSync(groups: GroupMap, members: Listing<AccountMember>, groupId: string, restricts: bool,
                        budget: nat)
    ensures SyncGroup(groups, members, groupId, restricts, BLANK, budget) ==
            SyncGroup(groups, members, groupId, restricts, AtGroupPage(""), budget)
  {
    hide ListPage, Advance, DirectGrants, NestedGrants;
    assert GroupBag(BLANK) == AtGroupPage("") == GroupBag(AtGroupPage(""));
    assert GrantsPage(groups, members, groupId, restricts, BLANK) ==
           GrantsPage(groups, members, groupId, restricts, AtGroupPage(""));
  }

  // ----- who gets a grant -----

  lemma DirectGrantsExactly(groupId: string, grp: AccessGroup, members: seq<AccountMember>, grant: Grant)
    ensures grant in DirectGrants(groupId, grp, members) <==>
            exists member | member in members ::
              && member.user.id != "" && IsMember(grp, grp.included, member.user.email)
              && grant == UserGrant(groupId, member.user.id)
  {
    hide IsMember;
    var synced, users := Synced(members), SyncedUsers(members);
    FilterExactly(members, HasUserId);
    FilterMapExactly(users, GrantFor(groupId, grp), grant);
    if user :| user in users && GrantFor(groupId, grp)(user) == Some(grant) {
      var i :| 0 <= i < |users| && users[i] == user;
      assert synced[i] in synced;
    }
    if member :| && member in members && member.user.id != "" && IsMember(grp, grp.included, member.user.email)
                 && grant == UserGrant(groupId, member.user.id) {
      var i :| 0 <= i < |synced| && synced[i] == member;
      assert users[i] in users && GrantFor(groupId, grp)(users[i]) == Some(grant);
    }
  }

  /** Each member with a user ID, and only such a member, gets one direct grant if the rules admit them. */
  function AdmittedCount(grp: AccessGroup, members: seq<AccountMember>): nat {
    if members == [] then 0
    else
      var last := members[|members| - 1];
      AdmittedCount(grp, members[..|members| - 1]) +
      if IsAdmitted(grp, last) then 1 else 0
  }

  predicate IsAdmitted(grp: AccessGroup, member: AccountMember) {
    member.user.id != "" && IsMember(grp, grp.included, member.user.email)
  }

  lemma OneGrant(groupId: string, grp: AccessGroup, member: AccountMember)
    ensures DirectGrants(groupId, grp, [member]) ==
            if IsAdmitted(grp, member) then [UserGrant(groupId, member.user.id)] else []
  {
    hide IsMember;
    FilterOne(member, HasUserId);
    if member.user.id == "" {
      assert SyncedUsers([member]) == [];
    } else {
      assert SyncedUsers([member]) == [AsAccessUser(member.user)];
      FilterMapOne(AsAccessUser(member.user), GrantFor(groupId, grp));
    }
  }

  lemma {:induction false} OneGrantEach(groupId: string, grp: AccessGroup, members: seq<AccountMember>)
    ensures |DirectGrants(groupId, grp, members)| == AdmittedCount(grp, members)
  {
    hide IsMember, DirectGrants;
    if members == [] {
      NoDirectGrants(groupId, grp);
    } else {
      var prefix, last := members[..|members| - 1], members[|members| - 1];
      OneGrantEach(groupId, grp, prefix);
      OneGrant(groupId, grp, last);
      DirectGrantsDistribute(groupId, grp, prefix, [last]);
      assert members == prefix + [last];
    }
  }

  /** The grants come in the order of the members: each stands behind those of the members admitted before. */
  lemma {:induction false} DirectGrantsInOrder(groupId: string, grp: AccessGroup, members: seq<AccountMember>, i: nat)
    requires i < |members| && IsAdmitted(grp, members[i])
    ensures AdmittedCount(grp, members[..i]) < |DirectGrants(groupId, grp, members)| == AdmittedCount(grp, members)
    ensures DirectGrants(groupId, grp, members)[AdmittedCount(grp, members[..i])] ==
            UserGrant(groupId, members[i].user.id)
  {
    hide IsMember, DirectGrants;
    var prefix, last := members[..|members| - 1], members[|members| - 1];
    OneGrantEach(groupId, grp, prefix);
    OneGrantEach(groupId, grp, members);
    assert members == prefix + [last];
    DirectGrantsDistribute(groupId, grp, prefix, [last]);
    OneGrant(groupId, grp, last);
    if i < |prefix| {
      DirectGrantsInOrder(groupId, grp, prefix, i);
      assert prefix[..i] == members[..i];
    }
  }

  lemma NestedGrantsExactly(groupId: string, grp: AccessGroup, restricts: bool, grant: Grant)
    ensures grant in NestedGrants(groupId, grp, restricts) <==>
            !restricts && grant.NestedGrant? && grant.group == groupId && grant.nested in NestedIds(grp.included)
  {
    hide NestedIds;
    var ids := NestedIds(grp.included);
    var all := NestedGrantsTo(groupId, ids);
    if !restricts && grant.NestedGrant? && grant.group == groupId && grant.nested in ids {
      var i :| 0 <= i < |ids| && ids[i] == grant.nested;
      assert all[i] == grant;
    }
  }

  /**
   What a sync of one group emits: a grant per admitted member, and one per nested group unless they are suppressed.
   */
  ghost predicate Emits(groups: GroupMap, members: seq<AccountMember>, groupId: string, restricts: bool, grant: Grant) {
    groupId in groups &&
    match grant
    case UserGrant(g, userId) =>
      g == groupId && userId != "" &&
      exists member | member in members ::
        member.user.id == userId && IsMember(groups[groupId], groups[groupId].included, member.user.email)
    case NestedGrant(g, nested) =>
      g == groupId && !restricts && nested in NestedIds(groups[groupId].included)
  }

  lemma SyncEmitsExactly(groups: GroupMap, members: Listing<AccountMember>, groupId: string, restricts: bool,
                         budget: nat, grant: Grant)
    requires groupId in groups && Truthful(members) && LastPage(members) <= budget
    ensures var sync := SyncGroup(groups, members, groupId, restricts, BLANK, budget);
            sync.Some? && (grant in sync.value.items <==> Emits(groups, Served(members), groupId, restricts, grant))
  {
    LastPageBounds(members);
    hide DirectGrants, NestedGrants, Truthful, LastPage, IsMember, NestedIds, Served;
    var grp, cut := groups[groupId], |PageOf(members, 1)|;
    GroupSyncExactly(groups, members, groupId, restricts, budget);
    DirectGrantsExactly(groupId, grp, Served(members), grant);
    NestedGrantsExactly(groupId, grp, restricts, grant);
    var a, n, b := DirectGrants(groupId, grp, Served(members)[..cut]), NestedGrants(groupId, grp, restricts),
                   DirectGrants(groupId, grp, Served(members)[cut..]);
    assert grant in a + n + b <==> grant in a + b || grant in n;
  }

  /** Distinct IDs get one grant each, in order. */
  lemma {:induction false} OneNestedGrantEach(groupId: string, ids: seq<string>, id: string)
    requires forall i, j | 0 <= i < j < |ids| :: ids[i] != ids[j]
    ensures multiset(NestedGrantsTo(groupId, ids))[NestedGrant(groupId, id)] == if id in ids then 1 else 0
    ensures |NestedGrantsTo(groupId, ids)| == |ids|
    ensures forall k | 0 <= k < |ids| :: NestedGrantsTo(groupId, ids)[k] == NestedGrant(groupId, ids[k])
  {
    if ids == [] {
    } else {
      var prefix, last := ids[..|ids| - 1], ids[|ids| - 1];
      OneNestedGrantEach(groupId, prefix, id);
      assert ids == prefix + [last];
      assert NestedGrantsTo(groupId, ids) == NestedGrantsTo(groupId, prefix) + [NestedGrant(groupId, last)];
    }
  }

  lemma NoNestedAmongDirect(groupId: string, grp: AccessGroup, members: seq<AccountMember>, nested: string)
    ensures multiset(DirectGrants(groupId, grp, members))[NestedGrant(groupId, nested)] == 0
  {
    DirectGrantsExactly(groupId, grp, members, NestedGrant(groupId, nested));
    hide DirectGrants;
  }

  /**
   A whole sync emits each nested grant it calls for once, and one direct grant per admitted member served; so it emits
   no others.
   */
  lemma SyncCountsExactly(groups: GroupMap, members: Listing<AccountMember>, groupId: string, restricts: bool,
                          budget: nat, nested: string)
    requires groupId in groups && Truthful(members) && LastPage(members) <= budget
    ensures var sync, ids := SyncGroup(groups, members, groupId, restricts, BLANK, budget),
                             NestedIds(groups[groupId].included);
            && sync.Some?
            && multiset(sync.value.items)[NestedGrant(groupId, nested)] ==
               (if !restricts && nested in ids then 1 else 0)
            && |sync.value.items| ==
               AdmittedCount(groups[groupId], Served(members)) + if restricts then 0 else |ids|
  {
    LastPageBounds(members);
    hide DirectGrants, Truthful, LastPage, IsMember, NestedIds, Served, SyncGroup, NestedGrantsTo, AdmittedCount;
    var grp, cut, ms := groups[groupId], |PageOf(members, 1)|, Served(members);
    GroupSyncExactly(groups, members, groupId, restricts, budget);
    OneGrantEach(groupId, grp, ms);
    NestedIdsExactly(grp.included);
    OneNestedGrantEach(groupId, NestedIds(grp.included), nested);
    NoNestedAmongDirect(groupId, grp, ms[..cut], nested);
    NoNestedAmongDirect(groupId, grp, ms[cut..], nested);
  }

  /** What a Grants call refuses: a group that is not there, and a page token that asks for no page. */
  lemma GrantsRefusesExactly(groups: GroupMap, members: Listing<AccountMember>, groupId: string, restricts: bool,
                             token: Token)
    ensures var r := GrantsPage(groups, members, groupId, restricts, token);
            && (r == Err(NotFound) <==> groupId !in groups)
            && (r == Err(BadPageToken) <==>
                && groupId in groups
                && token.current.Some? && ParsePageToken(token.current.value.token).Err?)
            && (r.Err? ==> r.error in {NotFound, BadPageToken})
  {
    hide ParsePageToken, Advance, DirectGrants, NestedGrants, NextPageToken;
    PageTokenExactly(PageToken(GroupBag(token)), 1);
    PageTokenExactly("", 1);
  }

  /** A sync goes on exactly while the list request names another page, whatever else is in the bag. */
  lemma GrantsGoOnExactly(groups: GroupMap, members: Listing<AccountMember>, groupId: string, restricts: bool,
                          token: Token)
    requires GrantsPage(groups, members, groupId, restricts, token).Ok?
    ensures var page := ListPage(members, if token.current.Some? then token.current.value.token else "");
            && page.Ok?
            && (GrantsPage(groups, members, groupId, restricts, token).value.1 == BLANK <==> page.value.1 == "")
  {
    hide ListPage, DirectGrants, NestedGrants;
    if page, next :| ListPage(members, PageToken(GroupBag(token))) == Ok((page, next)) {
      BlankExactly(GroupBag(token), next);
    }
  }

  // ----- the next sync after a step, and after a run -----

  /**
   After a step that decided the member's address the next sync emits a direct grant for them exactly if it was a Grant,
   or the group also has a listed member of the same user ID under another address.
   */
  lemma NextSyncReflects(groups: GroupMap, members: Listing<AccountMember>, groupId: string, restricts: bool,
                         budget: nat, op: Op, member: AccountMember)
    requires groupId in groups && Sparing(groups[groupId], op) && Decides(op, Step(groups[groupId], op).1)
    requires Truthful(members) && LastPage(members) <= budget
    requires member in Served(members) && member.user.id != "" && EqualFold(op.email, member.user.email)
    ensures var sync := SyncGroup(Edited(groups, groupId, op), members, groupId, restricts, BLANK, budget);
            var grp := groups[groupId];
            sync.Some? &&
            (UserGrant(groupId, member.user.id) in sync.value.items <==>
             || op.Grant?
             || exists other | other in Served(members) ::
                  && other.user.id == member.user.id && !EqualFold(op.email, other.user.email)
                  && IsMember(grp, grp.included, other.user.email))
  {
    var after := Edited(groups, groupId, op);
    SyncEmitsExactly(after, members, groupId, restricts, budget, UserGrant(groupId, member.user.id));
    var grp, edited := groups[groupId], after[groupId];
    forall other | other in Served(members)
      ensures IsMember(edited, edited.included, other.user.email) ==
              if EqualFold(op.email, other.user.email) then op.Grant? else IsMember(grp, grp.included, other.user.email)
    {
      StepEffect(grp, op, other.user.email);
      if EqualFold(op.email, other.user.email) {
        MembershipIsCaseBlind(edited, edited.included, op.email, other.user.email);
      }
    }
    hide IsMember, Truthful, LastPage, SyncGroup, Step, EqualFold, Decides, Sparing;
  }

  /**
   After any run of requests, a sync emits a direct grant for exactly the user IDs some listed member of which is in the
   group by the ledger of the run.
   */
  lemma SyncAfterRun(groups: GroupMap, requests: seq<Request>, members: Listing<AccountMember>, groupId: string,
                     restricts: bool, budget: nat, userId: string)
    requires groupId in groups && groupId != "" && RunSpares(groups[groupId], OpsOn(requests, groupId))
    requires Truthful(members) && LastPage(members) <= budget
    ensures var sync := SyncGroup(ServeAll(groups, requests), members, groupId, restricts, BLANK, budget);
            sync.Some? &&
            (UserGrant(groupId, userId) in sync.value.items <==>
             userId != "" && exists member | member in Served(members) ::
               member.user.id == userId && LedgerMember(groups[groupId], OpsOn(requests, groupId), member.user.email))
  {
    var after := ServeAll(groups, requests);
    AccountRefinesLedgers(groups, requests, groupId, "");
    SyncEmitsExactly(after, members, groupId, restricts, budget, UserGrant(groupId, userId));
    forall member | member in Served(members) {
      AccountRefinesLedgers(groups, requests, groupId, member.user.email);
    }
    hide IsMember, LedgerMember, Truthful, LastPage, SyncGroup, ServeAll, OpsOn, RunSpares;
  }

  // ----- expanding the grants of all groups -----

  /** What the emitted grants of all groups say about one user. */
  ghost function GrantGraph(groups: GroupMap, restricting: set<string>, members: seq<AccountMember>, userId: string)
    : Graph
  {
    Graph(set id | id in groups && Emits(groups, members, id, id in restricting, UserGrant(id, userId)),
          set id, nested |
            && id in groups && nested in NestedIds(groups[id].included)
            && Emits(groups, members, id, id in restricting, NestedGrant(id, nested)) ::
            (id, nested))
  }

  /** Held by expanding the emitted grants as a union. */
  ghost predicate Held(groups: GroupMap, restricting: set<string>, members: seq<AccountMember>, id: string,
                       userId: string)
  {
    TakenIn(GrantGraph(groups, restricting, members, userId), id)
  }

  lemma GrantGraphReads(groups: GroupMap, restricting: set<string>, members: seq<AccountMember>, userId: string)
    ensures var g := GrantGraph(groups, restricting, members, userId);
            && g.edges == Emitted(groups, restricting)
            && forall id :: id in g.base <==>
                 userId != "" && exists member | member in members ::
                   member.user.id == userId && id in DirectIn(groups, member.user.email)
  {
    hide IsMember, NestedIds;
  }

  /** A user holds what is derived for the addresses it is listed under. */
  lemma HeldExactly(groups: GroupMap, restricting: set<string>, members: seq<AccountMember>, id: string,
                    userId: string)
    ensures Held(groups, restricting, members, id, userId) <==>
            userId != "" && exists member | member in members ::
              member.user.id == userId && Derived(groups, restricting, id, member.user.email)
  {
    var g, edges := GrantGraph(groups, restricting, members, userId), Emitted(groups, restricting);
    GrantGraphReads(groups, restricting, members, userId);
    hide TakenIn, Leads, GrantGraph, Emitted, DirectIn;
    PathsExactly(g, id);
    if to: string, steps: nat :| Leads(edges, id, to, steps) && to in g.base {
      var member :| member in members && member.user.id == userId && to in DirectIn(groups, member.user.email);
      var union := Union(groups, restricting, member.user.email);
      assert Leads(union.edges, id, to, steps) && to in union.base;
      PathsExactly(union, id);
    }
    if member :| userId != "" && member in members && member.user.id == userId &&
                 Derived(groups, restricting, id, member.user.email) {
      PathsExactly(Union(groups, restricting, member.user.email), id);
      var to: string, steps: nat :| Leads(edges, id, to, steps) && to in DirectIn(groups, member.user.email);
      assert to in g.base;
    }
  }

  /**
   End to end: whoever the union of all emitted grants makes a member of a group is a true member of it, and all true
   members on the member list are made so where no reference is suppressed.
   */
  lemma SyncedMembershipIsSound(groups: GroupMap, restricting: set<string>, members: seq<AccountMember>, id: string,
                                userId: string)
    requires ValidAnswers(groups, restricting)
    ensures Held(groups, restricting, members, id, userId) ==>
              userId != "" && exists member | member in members ::
                member.user.id == userId && TrueMember(groups, id, member.user.email)
    ensures NothingSuppressed(groups, restricting, id) && userId != "" &&
            (exists member | member in members ::
               member.user.id == userId && TrueMember(groups, id, member.user.email)) ==>
              Held(groups, restricting, members, id, userId)
  {
    hide ValidAnswers, NothingSuppressed, Held, Derived, TrueMember;
    HeldExactly(groups, restricting, members, id, userId);
    forall member | member in members {
      ExpansionIsSound(groups, restricting, id, member.user.email);
    }
  }

  /** A group with no evaluable direct rule and no nested IDs reports nobody. */
  lemma SilentGroupEmitsNothing(groups: GroupMap, members: seq<AccountMember>, groupId: string, restricts: bool,
                                grant: Grant)
    requires groupId in groups
    requires !SomeRuleEvaluable(DirectRules(groups[groupId].included)) && NestedIds(groups[groupId].included) == []
    ensures !Emits(groups, members, groupId, restricts, grant)
  {
    var grp := groups[groupId];
    forall member | member in members
      ensures !IsMember(grp, grp.included, member.user.email)
    {
      NoEvaluableRuleNoMember(grp, member.user.email);
    }
    hide IsMember, NestedIds;
  }

  lemma NoEvaluableRuleNoMember(grp: AccessGroup, email: string)
    requires !SomeRuleEvaluable(DirectRules(grp.included))
    ensures !IsMember(grp, grp.included, email)
  {
    MatchesExactly(DirectRules(grp.included), email);
    forall rule: Json {
      EvaluableForAll(rule, email);
    }
  }
}
