/**
 Users: the two listings merged into one sync, the role IDs carried in a member's profile, and the search by user ID.
 */
module Users {
  import opened Account
  import opened Bags
  import opened Json
  import opened Paging
  import opened Sequences
  import opened Text

  const ACCESS_USERS := "access_users"
  const ACCOUNT_MEMBERS := "account_members"

  datatype AccessUser = AccessUser(id: string, email: string)

  /** A user resource; only one made from an account member carries role IDs. */
  datatype UserResource = UserResource(id: string, email: string, roleIds: Option<string>)

  // ----- role IDs in the profile -----

  function RoleIds(member: AccountMember): seq<string> {
    seq(|member.roles|, i requires 0 <= i < |member.roles| => member.roles[i].id)
  }

  function FromMember(member: AccountMember): UserResource {
    UserResource(member.user.id, member.user.email, Some(Join(RoleIds(member), ',')))
  }

  /** The role assignments a user's resource stands for. */
  function RoleGrants(resource: UserResource): seq<string> {
    match resource.roleIds
    case None => []
    case Some(csv) => if csv == "" then [] else Split(csv, ',')
  }

  method NewUserResourceFromMember(member: AccountMember) returns (resource: UserResource)
    ensures resource == FromMember(member)
  {
    var roleIds: seq<string> := [];
    for i := 0 to |member.roles|
      invariant roleIds == RoleIds(member)[..i]
    {
      roleIds := roleIds + [member.roles[i].id];
    }
    assert RoleIds(member)[..|member.roles|] == RoleIds(member);
    return UserResource(member.user.id, member.user.email, Some(Join(roleIds, ',')));
  }

  /**
   A member's roles come back from the profile, in order, exactly when no ID has a comma in it and the only one is not
   empty.
   */
  lemma RoleGrantsExactly(member: AccountMember)
    ensures RoleGrants(FromMember(member)) == RoleIds(member) <==>
            (forall id | id in RoleIds(member) :: ',' !in id) && RoleIds(member) != [""]
  {
    var ids := RoleIds(member);
    JoinIsEmptyExactly(ids, ',');
    if ids != [] {
      JoinThenSplit(ids, ',');
    }
  }

  /** The set of roles reported is the set held under the same condition. */
  lemma ReportedRolesExactly(member: AccountMember)
    ensures (forall id :: id in RoleGrants(FromMember(member)) <==> id in RoleIds(member)) <==>
            (forall id | id in RoleIds(member) :: ',' !in id) && RoleIds(member) != [""]
  {
    RoleGrantsExactly(member);
    SplitLeavesNone(Join(RoleIds(member), ','), ',');
    if RoleIds(member) == [""] {
      assert RoleGrants(FromMember(member)) == [] && "" in RoleIds(member);
    }
    hide Split, Join, RoleIds;
  }

  // ----- finding a member -----

  function FirstWithUserId(members: seq<AccountMember>, userId: string): Option<AccountMember> {
    if members == [] then None
    else if members[0].user.id == userId then Some(members[0])
    else FirstWithUserId(members[1..], userId)
  }

  /** The first member with this user ID, in list order, and None only when there is no such member. */
  lemma {:induction false} FirstWithUserIdExactly(members: seq<AccountMember>, userId: string)
    ensures match FirstWithUserId(members, userId)
            case None => forall member | member in members :: member.user.id != userId
            case Some(first) =>
              exists i | 0 <= i < |members| ::
                members[i] == first && first.user.id == userId && forall k | 0 <= k < i :: members[k].user.id != userId
  {
    if members != [] && members[0].user.id != userId {
      FirstWithUserIdExactly(members[1..], userId);
      match FirstWithUserId(members[1..], userId) {
        case None =>
          assert members == [members[0]] + members[1..];
        case Some(first) =>
          var i :| 0 <= i < |members[1..]| && members[1..][i] == first &&
                   forall k | 0 <= k < i :: members[1..][k].user.id != userId;
          forall k | 0 <= k < i + 1
            ensures members[k].user.id != userId
          {
            assert k > 0 ==> members[k] == members[1..][k - 1];
          }
          assert members[i + 1] == first;
      }
    }
  }

  lemma {:induction false} FirstAcross(a: seq<AccountMember>, b: seq<AccountMember>, userId: string)
    ensures FirstWithUserId(a + b, userId) ==
            var first := FirstWithUserId(a, userId);
            if first.Some? then first else FirstWithUserId(b, userId)
  {
    if a == [] {
      assert a + b == b;
    } else {
      FirstAcross(a[1..], b, userId);
      assert (a + b)[1..] == a[1..] + b;
    }
  }

  method ScanPage(members: seq<AccountMember>, userId: string) returns (found: Option<AccountMember>)
    ensures found == FirstWithUserId(members, userId)
  {
    for i := 0 to |members|
      invariant FirstWithUserId(members, userId) == FirstWithUserId(members[i..], userId)
    {
      if members[i].user.id == userId {
        return Some(members[i]);
      }
    }
    return None;
  }

  /**
   Pages are requested in turn until one has the member; none is requested after that. Whoever is found is the first in
   the whole list; nobody is found only where a sweep serves nobody with that ID, or where it serves everything.
   */
  method FindMemberByUserID(l: Listing<AccountMember>, userId: string)
    returns (found: Option<AccountMember>, ghost requests: nat)
    requires Truthful(l)
    ensures found == FirstWithUserId(Served(l), userId)
    ensures found.Some? || Followable(l) ==> found == FirstWithUserId(l.items, userId)
    ensures 1 <= requests <= LastPage(l)
    ensures FirstWithUserId(l.items[..Start(l, requests)], userId) == None
    ensures found.Some? ==> FirstWithUserId(PageOf(l, requests), userId) == found
    ensures found.None? ==> requests == LastPage(l)
  {
    var pageToken := "";
    requests := 1;
    LastPageBounds(l);
    TokenRoundTrip(1);
    assert l.items[..0] == [] && FirstWithUserId(l.items[..0], userId) == None;
    hide LastPage, Start, PageOf, FirstWithUserId, ListPage, ParsePageToken, Itoa, Followable, Served, Truthful;
    while true
      invariant 1 <= requests <= LastPage(l)
      invariant ParsePageToken(pageToken) == Ok(requests)
      invariant FirstWithUserId(l.items[..Start(l, requests)], userId) == None
      decreases LastPage(l) - requests
    {
      ListStep(l, requests, pageToken);
      var (members, next) := ListPage(l, pageToken).value;
      found := ScanPage(members, userId);
      PageInContext(l, requests, userId);
      if found.Some? {
        return;
      }
      if next == "" {
        EverythingServedExactly(l);
        return;
      }
      TokenRoundTrip(requests + 1);
      pageToken := next;
      requests := requests + 1;
    }
  }

  /** What one more page adds to a search that found nothing so far. */
  lemma PageInContext(l: Listing<AccountMember>, page: nat, userId: string)
    requires Truthful(l) && 1 <= page <= LastPage(l)
    requires FirstWithUserId(l.items[..Start(l, page)], userId) == None
    ensures var here := FirstWithUserId(PageOf(l, page), userId);
            if here.Some? then FirstWithUserId(l.items, userId) == here == FirstWithUserId(Served(l), userId)
            else if page < LastPage(l) then FirstWithUserId(l.items[..Start(l, page + 1)], userId) == None
            else FirstWithUserId(Served(l), userId) == None
  {
    PageSlice(l, page);
    var from, to, end, items := Start(l, page), Start(l, page + 1), Start(l, LastPage(l) + 1), l.items;
    hide FirstWithUserId, Start, LastPage, Truthful;
    assert items[..|items|] == items;
    FirstInPart(items, from, to, userId);
    if FirstWithUserId(items[..to], userId).Some? {
      FirstInPrefix(items, to, end, userId);
      FirstInPrefix(items, to, |items|, userId);
    }
  }

  lemma FirstInPart(members: seq<AccountMember>, from: nat, to: nat, userId: string)
    requires from <= to <= |members| && FirstWithUserId(members[..from], userId) == None
    ensures FirstWithUserId(members[..to], userId) == FirstWithUserId(members[from..to], userId)
  {
    FirstAcross(members[..from], members[from..to], userId);
    assert members[..from] + members[from..to] == members[..to];
  }

  lemma FirstInPrefix(members: seq<AccountMember>, to: nat, end: nat, userId: string)
    requires to <= end <= |members| && FirstWithUserId(members[..to], userId).Some?
    ensures FirstWithUserId(members[..end], userId) == FirstWithUserId(members[..to], userId)
  {
    FirstAcross(members[..to], members[to..end], userId);
    assert members[..to] + members[to..end] == members[..end];
  }

  // ----- listing all users -----

  function FromAccessUsers(users: seq<AccessUser>): seq<UserResource> {
    seq(|users|, i requires 0 <= i < |users| => UserResource(users[i].id, users[i].email, None))
  }

  predicate HasUserId(member: AccountMember) {
    member.user.id != ""
  }

  /** The members that can be synced: a pending invite has no user ID yet. */
  function Synced(members: seq<AccountMember>): seq<AccountMember> {
    Filter(members, HasUserId)
  }

  function FromMembers(members: seq<AccountMember>): seq<UserResource> {
    var synced := Synced(members);
    seq(|synced|, i requires 0 <= i < |synced| => FromMember(synced[i]))
  }

  function InitialBag(token: Token): Token {
    if token.current.Some? then token
    else Pushed(Pushed(token, PageState("", ACCOUNT_MEMBERS, "")), PageState("", ACCESS_USERS, ""))
  }

  /** One List call. */
  function UsersPage(users: Listing<AccessUser>, members: Listing<AccountMember>, token: Token)
    : Result<(seq<UserResource>, Token), Error>
  {
    var bag := InitialBag(token);
    if ResourceType(bag) == ACCESS_USERS then
      match ListPage(users, PageToken(bag))
      case Err(e) => Err(e)
      case Ok((page, next)) => Ok((FromAccessUsers(page), Advance(bag, next)))
    else if ResourceType(bag) == ACCOUNT_MEMBERS then
      match ListPage(members, PageToken(bag))
      case Err(e) => Err(e)
      case Ok((page, next)) => Ok((FromMembers(page), Advance(bag, next)))
    else Err(UnexpectedPageState)
  }

  method NewUserResources(users: seq<AccessUser>) returns (resources: seq<UserResource>)
    ensures resources == FromAccessUsers(users)
  {
    resources := [];
    for i := 0 to |users|
      invariant resources == FromAccessUsers(users)[..i]
    {
      resources := resources + [UserResource(users[i].id, users[i].email, None)];
    }
  }

  method NewMemberResources(members: seq<AccountMember>) returns (resources: seq<UserResource>)
    ensures resources == FromMembers(members)
  {
    resources := [];
    for i := 0 to |members|
      invariant resources == FromMembers(members[..i])
    {
      assert members[..i + 1] == members[..i] + [members[i]];
      FilterAppend(members[..i], members[i], HasUserId);
      if members[i].user.id == "" {
        continue;
      }
      var resource := NewUserResourceFromMember(members[i]);
      resources := resources + [resource];
    }
    assert members[..|members|] == members;
  }

  method List(users: Listing<AccessUser>, members: Listing<AccountMember>, token: Token)
    returns (r: Result<(seq<UserResource>, Token), Error>)
    ensures r == UsersPage(users, members, token)
  {
    hide ListPage, FromAccessUsers, FromMembers, Advance;
    var bag := new Bag();
    bag.Unmarshal(token);
    if bag.current.None? {
      bag.Push(PageState("", ACCOUNT_MEMBERS, ""));
      bag.Push(PageState("", ACCESS_USERS, ""));
    }
    assert bag.State() == InitialBag(token);
    hide InitialBag;
    var resources: seq<UserResource>;
    var next;
    if ResourceType(bag.State()) == ACCESS_USERS {
      var read := ListPage(users, PageToken(bag.State()));
      if read.Err? {
        return Err(read.error);
      }
      resources := NewUserResources(read.value.0);
      next := read.value.1;
    } else if ResourceType(bag.State()) == ACCOUNT_MEMBERS {
      var read := ListPage(members, PageToken(bag.State()));
      if read.Err? {
        return Err(read.error);
      }
      resources := NewMemberResources(read.value.0);
      next := read.value.1;
    } else {
      return Err(UnexpectedPageState);
    }
    var nextToken := bag.NextToken(next);
    return Ok((resources, nextToken));
  }

  /** What a whole sync yields, and the page state and page token of each of its calls. */
  datatype UserSync = UserSync(resources: seq<UserResource>, asked: seq<(string, string)>)

  /** Call List until the token comes back blank, giving up after so many calls. */
  function ListAll(users: Listing<AccessUser>, members: Listing<AccountMember>, token: Token, budget: nat)
    : Option<UserSync>
    decreases budget
  {
    if budget == 0 then None
    else match UsersPage(users, members, token)
      case Err(_) => None
      case Ok((resources, next)) =>
        var asked := (ResourceType(InitialBag(token)), PageToken(InitialBag(token)));
        if next == BLANK then Some(UserSync(resources, [asked]))
        else match ListAll(users, members, next, budget - 1)
          case None => None
          case Some(rest) => Some(UserSync(resources + rest.resources, [asked] + rest.asked))
  }

  lemma FromMembersDistributes(a: seq<AccountMember>, b: seq<AccountMember>)
    ensures FromMembers(a + b) == FromMembers(a) + FromMembers(b)
  {
    FilterDistributes(a, b, HasUserId);
  }

  /** A member is synced under its own ID and address exactly when it has an ID. */
  lemma SyncedMembersExactly(members: seq<AccountMember>, id: string, email: string)
    ensures (exists resource | resource in FromMembers(members) :: resource.id == id && resource.email == email) <==>
            id != "" && exists member | member in members :: member.user.id == id && member.user.email == email
  {
    var synced, resources := Synced(members), FromMembers(members);
    FilterExactly(members, HasUserId);
    if resource :| resource in resources && resource.id == id && resource.email == email {
      var i :| 0 <= i < |resources| && resources[i] == resource;
      assert synced[i] in synced;
    }
    if member :| id != "" && member in members && member.user.id == id && member.user.email == email {
      var i :| 0 <= i < |synced| && synced[i] == member;
      assert resources[i].id == id && resources[i].email == email;
    }
  }

  /** There is one resource per Access user, in order, under the user's own ID and address and without any role. */
  lemma AccessUsersReadExactly(users: seq<AccessUser>)
    ensures |FromAccessUsers(users)| == |users|
    ensures forall i | 0 <= i < |users| ::
              var resource := FromAccessUsers(users)[i];
              resource.id == users[i].id && resource.email == users[i].email && RoleGrants(resource) == []
  {
  }

  function CountSynced(members: seq<AccountMember>): nat {
    if members == [] then 0
    else CountSynced(members[..|members| - 1]) + if members[|members| - 1].user.id != "" then 1 else 0
  }

  /**
   There is one resource per member with a user ID, in order, under the user's own ID and address; where the IDs survive
   the profile it stands for the member's roles.
   */
  lemma {:induction false} MembersReadExactly(members: seq<AccountMember>, i: nat)
    requires i < |members| && members[i].user.id != ""
    ensures CountSynced(members[..i]) < |FromMembers(members)| == CountSynced(members)
    ensures var resource, member := FromMembers(members)[CountSynced(members[..i])], members[i];
            && resource.id == member.user.id && resource.email == member.user.email
            && (RoleGrants(resource) == RoleIds(member) <==>
                (forall id | id in RoleIds(member) :: ',' !in id) && RoleIds(member) != [""])
  {
    hide RoleGrants, RoleIds;
    var prefix, last := members[..|members| - 1], members[|members| - 1];
    MembersCounted(prefix);
    MembersCounted(members);
    assert members == prefix + [last];
    FromMembersDistributes(prefix, [last]);
    OneMember(last);
    if i == |prefix| {
      RoleGrantsExactly(last);
    } else {
      MembersReadExactly(prefix, i);
      assert prefix[..i] == members[..i];
    }
  }

  lemma OneMember(member: AccountMember)
    ensures FromMembers([member]) == if member.user.id == "" then [] else [FromMember(member)]
  {
    FilterOne(member, HasUserId);
  }

  lemma {:induction false} MembersCounted(members: seq<AccountMember>)
    ensures |FromMembers(members)| == CountSynced(members)
  {
    hide FromMembers, FromMember;
    if members == [] {
      NoMembers();
    } else {
      var prefix, last := members[..|members| - 1], members[|members| - 1];
      MembersCounted(prefix);
      assert members == prefix + [last];
      FromMembersDistributes(prefix, [last]);
      OneMember(last);
    }
  }

  lemma NoMembers()
    ensures FromMembers([]) == []
  {
  }

  /** What a List call refuses: a page state it does not know, and a page token that asks for no page. */
  lemma ListRefusesExactly(users: Listing<AccessUser>, members: Listing<AccountMember>, token: Token)
    ensures var r := UsersPage(users, members, token);
            && (r == Err(UnexpectedPageState) <==>
                token.current.Some? && token.current.value.resourceType !in {"access_users", "account_members"})
            && (r == Err(BadPageToken) <==>
                && token.current.Some? && token.current.value.resourceType in {"access_users", "account_members"}
                && ParsePageToken(token.current.value.token).Err?)
            && (r.Err? ==> r.error in {UnexpectedPageState, BadPageToken})
  {
    hide ParsePageToken, Advance, FromAccessUsers, FromMembers, NextPageToken;
    PageTokenExactly(PageToken(InitialBag(token)), 1);
    PageTokenExactly("", 1);
  }

  /** A List call that is answered moves the page state it was for to the next page, or drops it after the last. */
  lemma ListGoesOnExactly(users: Listing<AccessUser>, members: Listing<AccountMember>, token: Token)
    requires token.current.Some? && UsersPage(users, members, token).Ok?
    ensures var stack, top, after := Stack(token), token.current.value, UsersPage(users, members, token).value.1;
            var below := stack[..|stack| - 1];
            if top.resourceType == "access_users" then
              var page := ListPage(users, top.token);
              page.Ok? && Stack(after) == below + if page.value.1 == "" then [] else [top.(token := page.value.1)]
            else
              var page := ListPage(members, top.token);
              page.Ok? && Stack(after) == below + if page.value.1 == "" then [] else [top.(token := page.value.1)]
  {
    hide ListPage, FromAccessUsers, FromMembers, Advance;
    var stack, top := Stack(token), token.current.value;
    var below := stack[..|stack| - 1];
    assert below + [] == below && below + [top] == stack;
    if top.resourceType == "access_users" {
      AdvanceTouchesTopOnly(token, ListPage(users, top.token).value.1);
    } else {
      AdvanceTouchesTopOnly(token, ListPage(members, top.token).value.1);
    }
  }

  /** The token at some page of the Access users, with the account members still to come. */
  function AtAccessUsers(token: string): Token {
    Token([PageState("", ACCOUNT_MEMBERS, "")], Some(PageState(token, ACCESS_USERS, "")))
  }

  function AtMembers(token: string): Token {
    Token([], Some(PageState(token, ACCOUNT_MEMBERS, "")))
  }

  lemma AccessUsersStep(users: Listing<AccessUser>, members: Listing<AccountMember>, page: nat, token: string)
    requires Truthful(users) && 1 <= page <= LastPage(users)
    requires ParsePageToken(token) == Ok(page)
    ensures UsersPage(users, members, AtAccessUsers(token)) ==
            Ok((FromAccessUsers(PageOf(users, page)),
                if page < LastPage(users) then AtAccessUsers(Itoa(page + 1)) else AtMembers("")))
    ensures AtAccessUsers(Itoa(page + 1)) != BLANK && AtMembers("") != BLANK
  {
    hide LastPage, NextPageToken, ParsePageToken, Itoa, PageOf, HasNext, FromAccessUsers;
    LastPageExactly(users, page);
    NextPageTokenExactly(users, page);
    var next := if page < LastPage(users) then Itoa(page + 1) else "";
    assert Itoa(page + 1) != "";
    AdvanceOfTwo(PageState("", ACCOUNT_MEMBERS, ""), PageState(token, ACCESS_USERS, ""), next);
  }

  lemma MembersStep(users: Listing<AccessUser>, members: Listing<AccountMember>, page: nat, token: string)
    requires Truthful(members) && 1 <= page <= LastPage(members)
    requires ParsePageToken(token) == Ok(page)
    ensures UsersPage(users, members, AtMembers(token)) ==
            Ok((FromMembers(PageOf(members, page)),
              if page < LastPage(members) then AtMembers(Itoa(page + 1)) else BLANK))
    ensures AtMembers(Itoa(page + 1)) != BLANK
  {
    hide LastPage, NextPageToken, ParsePageToken, Itoa, PageOf, HasNext, FromMembers;
    LastPageExactly(members, page);
    NextPageTokenExactly(members, page);
    assert ACCOUNT_MEMBERS != ACCESS_USERS;
    assert Itoa(page + 1) != "";
  }

  /** The calls for these pages of one endpoint, each once and in order. */
  function Calls(endpoint: string, from: nat, to: nat): seq<(string, string)>
    decreases to + 1 - from
  {
    if from > to then [] else [(endpoint, TokenFor(from))] + Calls(endpoint, from + 1, to)
  }

  /** One call unfolds a sync. */
  lemma ListAllStep(users: Listing<AccessUser>, members: Listing<AccountMember>, token: Token, budget: nat,
                    resources: seq<UserResource>, next: Token)
    requires budget > 0 && token.current.Some? && UsersPage(users, members, token) == Ok((resources, next))
    ensures var asked := [(ResourceType(token), PageToken(token))];
            && (next == BLANK ==> ListAll(users, members, token, budget) == Some(UserSync(resources, asked)))
            && (next != BLANK && ListAll(users, members, next, budget - 1).Some? ==>
                  var rest := ListAll(users, members, next, budget - 1).value;
                  ListAll(users, members, token, budget) ==
                    Some(UserSync(resources + rest.resources, asked + rest.asked)))
  {
    hide UsersPage;
  }

  lemma TokenStates(token: string)
    ensures AtMembers(token).current.Some? && AtAccessUsers(token).current.Some?
    ensures ResourceType(AtMembers(token)) == ACCOUNT_MEMBERS && PageToken(AtMembers(token)) == token
    ensures ResourceType(AtAccessUsers(token)) == ACCESS_USERS && PageToken(AtAccessUsers(token)) == token
  {
  }

  lemma CallsStep(endpoint: string, page: nat, to: nat)
    requires page <= to
    ensures Calls(endpoint, page, to) == [(endpoint, TokenFor(page))] + Calls(endpoint, page + 1, to)
    ensures page == to ==> Calls(endpoint, page, to) == [(endpoint, TokenFor(page))]
    ensures page >= 1 ==> TokenFor(page + 1) == Itoa(page + 1)
  {
  }

  lemma {:induction false} MembersFrom(users: Listing<AccessUser>, members: Listing<AccountMember>, page: nat,
                                       budget: nat)
    requires Truthful(members) && 1 <= page <= LastPage(members)
    requires page + budget > LastPage(members)
    ensures Start(members, page) <= |Served(members)|
    ensures ListAll(users, members, AtMembers(TokenFor(page)), budget) ==
            Some(UserSync(FromMembers(Served(members)[Start(members, page)..]),
                          Calls(ACCOUNT_MEMBERS, page, LastPage(members))))
    decreases budget
  {
    hide *;
    LastPageBounds(members);
    var from, to, items := Start(members, page), Start(members, page + 1), Served(members);
    var token, last := TokenFor(page), LastPage(members);
    TokenRoundTrip(page);
    TokenStates(token);
    PageSlice(members, page);
    MembersStep(users, members, page, token);
    CallsStep(ACCOUNT_MEMBERS, page, last);
    if page < last {
      MembersFrom(users, members, page + 1, budget - 1);
      ListAllStep(users, members, AtMembers(token), budget, FromMembers(items[from..to]),
        AtMembers(TokenFor(page + 1)));
      FromMembersDistributes(items[from..to], items[to..]);
      Rejoin(items, from, to);
    } else {
      ListAllStep(users, members, AtMembers(token), budget, FromMembers(items[from..]), BLANK);
    }
  }

  lemma FromAccessUsersDistributes(a: seq<AccessUser>, b: seq<AccessUser>)
    ensures FromAccessUsers(a + b) == FromAccessUsers(a) + FromAccessUsers(b)
  {
  }

  lemma {:induction false} AccessUsersFrom(users: Listing<AccessUser>, members: Listing<AccountMember>, page: nat,
                                           budget: nat)
    requires Truthful(users) && Truthful(members) && 1 <= page <= LastPage(users)
    requires page + budget > LastPage(users) + LastPage(members)
    ensures Start(users, page) <= |Served(users)|
    ensures ListAll(users, members, AtAccessUsers(TokenFor(page)), budget) ==
            Some(UserSync(FromAccessUsers(Served(users)[Start(users, page)..]) + FromMembers(Served(members)),
                          Calls(ACCESS_USERS, page, LastPage(users)) + Calls(ACCOUNT_MEMBERS, 1, LastPage(members))))
    decreases budget
  {
    hide *;
    LastPageBounds(users);
    LastPageBounds(members);
    var from, to, items := Start(users, page), Start(users, page + 1), Served(users);
    var token, last, rest := TokenFor(page), LastPage(users), FromMembers(Served(members));
    TokenRoundTrip(page);
    TokenStates(token);
    PageSlice(users, page);
    AccessUsersStep(users, members, page, token);
    CallsStep(ACCESS_USERS, page, last);
    if page < last {
      AccessUsersFrom(users, members, page + 1, budget - 1);
      var here, later := FromAccessUsers(items[from..to]), FromAccessUsers(items[to..]);
      ListAllStep(users, members, AtAccessUsers(token), budget, here, AtAccessUsers(TokenFor(page + 1)));
      FromAccessUsersDistributes(items[from..to], items[to..]);
      Rejoin(items, from, to);
      assert here + (later + rest) == here + later + rest;
      var asked, mine, theirs := [(ACCESS_USERS, token)], Calls(ACCESS_USERS, page + 1, last),
                                 Calls(ACCOUNT_MEMBERS, 1, LastPage(members));
      assert asked + (mine + theirs) == asked + mine + theirs;
    } else {
      MembersFrom(users, members, 1, budget - 1);
      FirstToken();
      assert Served(members)[0..] == Served(members);
      ListAllStep(users, members, AtAccessUsers(token), budget, FromAccessUsers(items[from..]), AtMembers(""));
    }
  }

  /**
   A user sync yields the Access users that are served and then the account members that are and have a user ID, in
   order: all of them where every page with a successor can be told from the last. It asks for each page of the one
   endpoint once and in order, then for each of the other's, and never meets a page state it does not know.
   */
  lemma UserSyncIsComplete(users: Listing<AccessUser>, members: Listing<AccountMember>, budget: nat)
    requires Truthful(users) && Truthful(members)
    requires LastPage(users) + LastPage(members) <= budget
    ensures ListAll(users, members, BLANK, budget) ==
            Some(UserSync(FromAccessUsers(Served(users)) + FromMembers(Served(members)),
                          Calls(ACCESS_USERS, 1, LastPage(users)) + Calls(ACCOUNT_MEMBERS, 1, LastPage(members))))
    ensures Served(users) == users.items <==> Followable(users)
    ensures Served(members) == members.items <==> Followable(members)
  {
    hide *;
    LastPageBounds(users);
    LastPageBounds(members);
    EverythingServedExactly(users);
    EverythingServedExactly(members);
    AccessUsersFrom(users, members, 1, budget);
    FirstToken();
    assert Served(users)[0..] == Served(users);
    BlankStartsSync(users, members, budget);
  }

  /**
   One by one: each Access user as a resource under its ID and address without any role, then each member with a user ID
   under its own, with the roles it holds where their IDs survive the profile.
   */
  ghost predicate ReadsAs(resources: seq<UserResource>, users: seq<AccessUser>, members: seq<AccountMember>) {
    && |resources| == |users| + CountSynced(members)
    && (forall i | 0 <= i < |users| ::
          && resources[i].id == users[i].id && resources[i].email == users[i].email
          && RoleGrants(resources[i]) == [])
    && (forall i | 0 <= i < |members| && members[i].user.id != "" ::
          && |users| + CountSynced(members[..i]) < |resources|
          && var resource := resources[|users| + CountSynced(members[..i])];
          && resource.id == members[i].user.id && resource.email == members[i].user.email
          && (RoleGrants(resource) == RoleIds(members[i]) <==>
              (forall id | id in RoleIds(members[i]) :: ',' !in id) && RoleIds(members[i]) != [""]))
  }

  lemma ResourcesReadExactly(users: seq<AccessUser>, members: seq<AccountMember>)
    ensures ReadsAs(FromAccessUsers(users) + FromMembers(members), users, members)
  {
    hide FromAccessUsers, FromMembers, CountSynced, RoleGrants, RoleIds;
    AccessUsersReadExactly(users);
    MembersCounted(members);
    var first, second := FromAccessUsers(users), FromMembers(members);
    forall i | 0 <= i < |members| && members[i].user.id != ""
      ensures CountSynced(members[..i]) < |second|
      ensures (first + second)[|users| + CountSynced(members[..i])] == second[CountSynced(members[..i])]
    {
      MembersReadExactly(members, i);
    }
    forall i | 0 <= i < |members| && members[i].user.id != "" {
      MembersReadExactly(members, i);
    }
  }

  /** What a whole sync yields, resource by resource. */
  lemma UserSyncExactly(users: Listing<AccessUser>, members: Listing<AccountMember>, budget: nat)
    requires Truthful(users) && Truthful(members)
    requires LastPage(users) + LastPage(members) <= budget
    ensures var sync := ListAll(users, members, BLANK, budget);
            sync.Some? && ReadsAs(sync.value.resources, Served(users), Served(members))
  {
    hide *;
    LastPageBounds(users);
    LastPageBounds(members);
    UserSyncIsComplete(users, members, budget);
    ResourcesReadExactly(Served(users), Served(members));
  }

  lemma BlankStartsSync(users: Listing<AccessUser>, members: Listing<AccountMember>, budget: nat)
    ensures ListAll(users, members, BLANK, budget) == ListAll(users, members, AtAccessUsers(""), budget)
  {
    BlankStartsAtAccessUsers(users, members);
    hide UsersPage, InitialBag;
  }

  lemma BlankStartsAtAccessUsers(users: Listing<AccessUser>, members: Listing<AccountMember>)
    ensures UsersPage(users, members, BLANK) == UsersPage(users, members, AtAccessUsers(""))
    ensures InitialBag(BLANK) == AtAccessUsers("") == InitialBag(AtAccessUsers(""))
  {
    hide ListPage, Advance;
  }
}
