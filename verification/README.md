# Verified model of the Cloudflare Zero Trust connector

The connector reads Access groups, account members and roles from a Cloudflare account, reports who holds what, and
grants and revokes by rewriting what it read. This project models the parts where a wrong step is costly and proves what
they promise, for all inputs and all runs.

| file | models |
|---|---|
| `folding.dfy`, `json.dfy`, `text.dfy`, `sequences.dfy` | case-blind comparison, decoded JSON, splitting, trimming and decimal numbers, filtering |
| `rules.dfy`, `narrowing.dfy` | the rule engine: three-valued evaluation, the three lists, nested references, which rules can keep anybody out |
| `account.dfy` | the remote state, and what each read returns and each write stores |
| `groups.dfy` | `Grant` and `Revoke` on a group, and the decision behind a revoke |
| `group_runs.dfy`, `account_runs.dfy` | runs of them on one group and on all groups, against a ledger of addresses |
| `mixed_rules.dfy` | rules that name an address and something else besides, and exactly what a revoke then changes |
| `closure.dfy`, `expansion.dfy` | nested groups: the union C1 expands, against what the rules mean, on cyclic graphs |
| `paging.dfy`, `bag.dfy` | page tokens, the sweep over a paginated endpoint, the stack that holds several sweeps |
| `users.dfy`, `group_sync.dfy` | the page-by-page syncs of users and of group grants, the search by user ID, roles in the profile |
| `roles.dfy`, `role_runs.dfy` | `Grant` and `Revoke` of account roles, on legacy roles and on policies; runs of them on one member and on all members |
| `ratelimit.dfy` | the structured rate-limit headers |

Functions are the specification; the methods beside them follow the connector's loops and updates and are proved equal to
it. The lemmas then say what the specification means.

The folding `Folding.FOLD` and the lower-casing `RateLimits.LOWER` have no fixed value: every result holds for every
rune-wise folding that is idempotent, the usual one on ASCII, and under which only `@` folds to `@`, and for every
rune-wise lower-casing that is idempotent and the usual one on ASCII. A name ending in `Exactly` states an if-and-only-if
or an equation.

## What turned out false, and when it holds

- Revoking one address changes nobody else's membership exactly when no direct Include rule naming the address also names
  everyone, or a Require rule names one address (`MixedRules.RevokeSparesOthersExactly`, `MixedRules.Spares`). The group
  keeps its nested groups exactly when each reference that goes is repeated in a rule that stays
  (`MixedRules.RevokeKeepsReferencesExactly`), and every rule with a reference exactly when none of them names the address
  (`MixedRules.RevokeKeepsNestingExactly`, `Groups.RevokeKeepsTheMost`). Rules with a single key, as the comment on
  `ruleKey` describes them, never break either (`GroupRuns.SingleKeyIsPlain`, `GroupRuns.PlainStepSpares`);
  `MixedRules.TwoKeyRuleRevokesEverybody` is a rule that does. The last step on an address decides its membership after
  every run exactly when no single Revoke on the group as it was at first would take others along
  (`GroupRuns.LedgerAlwaysHoldsExactly`), and along one run exactly when every Revoke that writes spares the others
  (`GroupRuns.LedgerHoldsExactly`).
- An edit need not stay with its own address: one that takes others along or loses a reference may change what nesting
  derives for anybody. For any edit and any user, nothing changes in any group exactly when the edited group would take
  the user in as before, which its lists and the other groups decide (`Expansion.EditChangesNothingExactly`).
- The comment in `pkg/connector/helpers.go:113-115` guards against an empty address, but a primary address that is itself
  empty is returned before the guard is reached (`Groups.EmptyEmailExactly`). A Grant then writes a rule naming nobody
  (`Groups.WrittenGrantIsMember`).
- `docs/connector.mdx:141` says that revoking the last `email` rule of a list is refused. The code refuses only when no rule
  of any kind would be left (`GroupRuns.LastRuleExactly`); the model follows the code.
- The true members of a group are exactly the derived ones and those whose way in is a suppressed reference: a group whose
  references are not emitted lets them through, does not admit them itself, and refers to a group they belong to without
  coming back to it (`Expansion.ExpansionExactly`). A group is reported in full exactly when all of those are derived
  anyway (`Expansion.ReportedInFullExactly`); `Expansion.SuppressionHidesMembers` is an account where they are not.
  `restrictsNestedExpansion` may suppress without need exactly when nobody can be kept out and there is an evaluable
  Exclude rule, or a Require rule for everyone with another key (`Narrowing.RestrictsExactly`,
  `Narrowing.EmptyExcludeStillRestricts`).
- Role IDs survive the profile only if none contains a comma and the list is not one empty ID (`Users.RoleGrantsExactly`).
  After any run of requests a sync then reports what a member on legacy roles holds; of a member on policies it reports
  nothing, so a role granted there does not show (`RoleRuns.RoleSyncAfterRun`).
- Revoking a role on policies takes its permission group out of policies that deny it as well, so a Revoke can lift a
  denial, and lifts no other (`Roles.RevokeLiftsDenialsExactly`).
- A sweep over a paginated endpoint whose metadata is true, where there is any, returns every item exactly when the
  server honours the page size or every page with a successor says how many pages there are
  (`Paging.SweepIsCompleteExactly`). The syncs and the search are stated for what a sweep serves, everything or not
  (`Paging.Served`).
- The remaining count and the delay taken from the rate-limit header do not depend on the order of its items. The name
  chosen, and through it the limit, and whether there is a reset time at all do, exactly when items that tie for throttling
  first differ in one of them (`RateLimits.OrderDoesNotMatterExactly`, `RateLimits.HavingResetDependsOnOrder`). A delay of
  more than 9223372036 seconds wraps (`RateLimits.ResetExactly`).
- After a Revoke the next sync still emits the member's direct grant exactly when another listed member with the same user
  ID and another address is in the group (`GroupSync.NextSyncReflects`).

## Model

| member | source | states |
|---|---|---|
| `Folding.EmailDomainFolds` | pkg/connector/access_rules_helper.go:335-341 | taking the text after the last `@` commutes with case folding |
| `Folding.AsciiFoldExactly` | pkg/connector/access_rules_helper.go:93-123 | two addresses in ASCII are one exactly when they differ in the case of letters only |
| `Rules.EvaluationIsCaseBlind` | pkg/connector/access_rules_helper.go:93-123 | two spellings of one address get the same answer from every rule |
| `Rules.EvaluableExactly` | pkg/connector/access_rules_helper.go:93-123 | a rule can be decided exactly when it has the key `everyone`, or an object under `email` or `email_domain` |
| `Rules.MatchExactly` | pkg/connector/access_rules_helper.go:93-123 | a rule matches exactly when it has `everyone`; or names the address in any case; or, with no object under `email`, the domain of it |
| `Rules.NamesExactly` | pkg/connector/access_rules_helper.go:197-226 | the address a rule names, and the group it refers to, are the texts written in its objects |
| `Rules.EmailRuleExactly` | pkg/connector/groups.go:306-308 | the rule a Grant writes is the one that holds the address and nothing else |
| `Rules.DomainRuleExactly` | pkg/connector/access_rules_helper.go:114-120 | a domain rule matches the addresses whose text after their last `@` is the domain in any case, and no others; an empty domain matches none |
| `Rules.EvaluableForAll` | pkg/connector/access_rules_helper.go:125-129 | whether a rule can be decided is independent of the user it is tried on |
| `Narrowing.CanMatchExactly` | pkg/connector/access_rules_helper.go:93-123 | which rules match at least one address, read off the rule alone |
| `Rules.AnyRuleMatches` | pkg/connector/access_rules_helper.go:139-149 | the early-return loop computes the OR of the list |
| `Rules.AllRulesMatch` | pkg/connector/access_rules_helper.go:151-161 | the early-return loop computes the AND of the list |
| `Rules.HasEvaluableRule` | pkg/connector/access_rules_helper.go:163-174 | found exactly when some rule of the list can be decided |
| `Rules.MatchesExactly` | pkg/connector/access_rules_helper.go:139-149 | the OR is true exactly when some rule matches, so an unevaluable rule counts as false |
| `Rules.NoneFailsExactly` | pkg/connector/access_rules_helper.go:151-161 | the AND is true exactly when no rule fails, so an unevaluable rule counts as true |
| `Rules.UnevaluableIsNeutral` | pkg/connector/access_rules_helper.go:15-22 | leaving an unevaluable rule out of any of the three lists, wherever it stands, never changes an answer |
| `Rules.SkippingErrsOnOneSide` | pkg/connector/access_rules_helper.go:36-39 | for every way Cloudflare might decide the skipped rules: skipping Include rules only hides members, skipping Require and Exclude rules only adds some |
| `Rules.SplitIncludeRules` | pkg/connector/access_rules_helper.go:197-226 | the loop with its `seen` map yields the direct rules and the nested IDs |
| `Rules.NestedIdsExactly` | pkg/connector/access_rules_helper.go:206-226 | the nested IDs are the non-empty IDs referred to, none twice |
| `Rules.NestedIdsInOrder` | pkg/connector/access_rules_helper.go:206-226 | they come in order of first appearance |
| `Rules.MemberExactly` | pkg/connector/access_rules_helper.go:176-195 | a member is whom some direct Include rule matches, no Require rule fails and no Exclude rule matches |
| `Rules.MembershipIsCaseBlind` | pkg/connector/access_rules_helper.go:189-195 | two spellings of one address are members together |
| `Rules.FoldedAddressIsSameMember` | pkg/connector/access_rules_helper.go:189-195 | so membership is a function of the folded address |
| `Rules.RuleKey` | pkg/connector/access_rules_helper.go:73-84 | the answer is some key of the rule, any of them, or empty when there is none |
| `Rules.RestrictsNestedExpansion` | pkg/connector/access_rules_helper.go:343-375 | the answer is one that some choice of keys allows |
| `Rules.UnrestrictedAdmitsEveryone` | pkg/connector/access_rules_helper.go:343-357 | answering false is safe for every choice of keys: Require and Exclude keep nobody out |
| `Narrowing.NarrowsExactly` | pkg/connector/access_rules_helper.go:353-357 | somebody is kept out exactly when a Require rule asks for less than everyone or an Exclude rule can match |
| `Narrowing.RestrictsExactly` | pkg/connector/access_rules_helper.go:343-375 | every answer that may be given says whether anybody can be kept out, unless nobody can and there is an evaluable Exclude rule or a Require rule for everyone with another key |
| `Narrowing.SingleKeyIsNoMore` | pkg/connector/access_rules_helper.go:73-84 | a rule for everyone with a single key has no other key to pick, so only an Exclude rule is in the way then |
| `Narrowing.EmptyExcludeStillRestricts` | pkg/connector/access_rules_helper.go:358-363 | the exception: an Exclude rule naming no address suppresses expansion and keeps nobody out |
| `Account.Cloudflare.UpdateAccessGroupInclude` | pkg/client/client.go:300-323 | replaces one group's Include list, carries its other fields over and touches no other group |
| `Account.Cloudflare.UpdateAccountMember` | pkg/client/client.go:248-266 | accepts a body with roles or policies but not both or neither, and replaces both lists with it |
| `Groups.GetEmailFromUserTrait` | pkg/connector/helpers.go:100-126 | the first primary address, else the profile's, else a display name with an `@` |
| `Groups.EmptyEmailExactly` | pkg/connector/helpers.go:113-119 | the address returned is empty exactly when the first primary address is |
| `Groups.PrincipalEmailExactly` | pkg/connector/helpers.go:100-126 | the address acted on is that of the first entry marked primary; without one the profile's, without that a display name with an `@`; there is none exactly for no user, or for one with none of these |
| `Groups.PrimaryAddressExactly` | pkg/connector/helpers.go:106-111 | the primary address used is that of the first entry marked primary |
| `Groups.FilterIncludeEmail` | pkg/connector/groups.go:419-435 | the loop drops exactly the rules naming the address and reports whether there was one |
| `Groups.DecideRevoke` | pkg/connector/groups.go:388-417 | the decision and the list to write |
| `Groups.RevokeDecisionExactly` | pkg/connector/groups.go:374-417 | not a member, blocked by a matching rule that is not the user's own, or removable: each exactly when; a user no rule names stays a member of the filtered list |
| `Groups.RevokeKeepsTheMost` | pkg/connector/groups.go:419-424 | the list written is the largest part of Include under which the user is no member, exactly when no group reference names the address |
| `Groups.RevokeExactly` | pkg/connector/groups.go:334-371 | nothing to do exactly for no member; refused exactly while a matching rule is not the user's own, or where all rules are; else it writes, in order, the rules not naming the user, and touches nothing else |
| `Groups.GroupBuilder.Grant` | pkg/connector/groups.go:262-315 | the whole remote state after a Grant, on every path, and the answer |
| `Groups.GroupBuilder.Revoke` | pkg/connector/groups.go:317-372 | the whole remote state after a Revoke, on every path, and the answer |
| `Groups.GrantExactly` | pkg/connector/groups.go:286-312 | a Grant is refused exactly when a Require rule fails or an Exclude rule matches, has nothing to do exactly when a direct rule matches already, and else appends one rule |
| `Groups.WrittenGrantIsMember` | pkg/connector/groups.go:294-312 | a Grant that writes makes the user a member, exactly when the address is not empty |
| `GroupRuns.GrantThenRevokeDecision` | pkg/connector/groups.go:286-308 | after a Grant that wrote, a revoke is never blocked, and it writes the original list exactly when no group reference names the address |
| `GroupRuns.GrantThenRevokeIsIdentity` | pkg/connector/groups.go:286-371 | Grant then Revoke restores the group exactly when the original list was also not empty |
| `GroupRuns.LastRuleExactly` | pkg/connector/groups.go:355-365 | the refusal for an emptied list happens exactly to a member whom every rule of the list names |
| `GroupRuns.RevokeIsCaseBlind` | pkg/connector/groups.go:397-435 | another spelling of the address gets the same decision and the same list |
| `GroupRuns.SingleKeyIsPlain` | pkg/connector/access_rules_helper.go:73-75 | a rule with one key that names an address names neither everyone nor a group |
| `GroupRuns.StepEffect` | pkg/connector/groups.go:262-372 | success decides the named address, refusal changes nothing, every other address is untouched; only a Revoke that takes others along is shut out, by the exact condition for it |
| `GroupRuns.EveryoneLeavesNothingToWrite` | pkg/connector/groups.go:286-417 | a step after which the list holds a direct rule for everyone wrote nothing |
| `GroupRuns.StepFrame` | pkg/connector/groups.go:307-370 | any step keeps ID, name, Require and Exclude, and a list that was not empty stays so; unless an empty address is granted the rules naming no address stay in order; without mixed rules no address comes to be named twice |
| `GroupRuns.StepKeepsNesting` | pkg/connector/groups.go:307-370 | a Grant changes no nested ID, and without mixed rules neither does a Revoke |
| `GroupRuns.RunFrame` | pkg/connector/groups.go:262-372 | the same along any run of any group; without mixed rules the nested IDs never change |
| `GroupRuns.RunRefinesLedger` | pkg/connector/groups.go:262-372 | after any run whose Revokes spare others, membership of any address is what the last step that decided it made it, else what it was |
| `GroupRuns.LedgerHoldsExactly` | pkg/connector/groups.go:262-372 | the ledger is right about every address all along a run exactly when every Revoke that writes spares others |
| `GroupRuns.LedgerAlwaysHoldsExactly` | pkg/connector/groups.go:262-372 | the ledger is right after every run exactly when, on the group as it is at first, no single Revoke that writes takes others along |
| `GroupRuns.PlainRunSpares` | pkg/connector/groups.go:262-372 | where no rule naming an address names everyone or a group too, every run spares others |
| `AccountRuns.GroupsAreIndependent` | pkg/client/client.go:300-323 | a run of requests does to each group what that group's own steps do |
| `AccountRuns.AccountRefinesLedgers` | pkg/connector/groups.go:262-372 | the ledger theorem for every group of an account under any run of requests that spares others in that group |
| `AccountRuns.StoppedExactly` | pkg/connector/groups.go:262-300 | a request stops with its own error exactly for a principal that is no user, has no address, or a group that is not there or has no ID; an answer without a write leaves all groups alone |
| `AccountRuns.ServedGrantExactly` | pkg/connector/groups.go:262-315 | a Grant that reaches its group makes its address a member, or is refused exactly when a Require rule fails or an Exclude rule matches; no other group changes |
| `AccountRuns.ServedRevokeExactly` | pkg/connector/groups.go:317-372 | a Revoke that reaches its group leaves its address no direct member, or is refused exactly when a rule not its own matches or no rule would be left; no other group changes |
| `MixedRules.RevokeSparesOthersExactly` | pkg/connector/groups.go:419-435 | a revoke leaves everybody else a member as before exactly when no dropped direct rule also names everyone, or a Require rule names one address |
| `MixedRules.RevokeKeepsReferencesExactly` | pkg/connector/groups.go:419-424 | a revoke keeps the set of nested IDs exactly when each ID that a dropped rule refers to is referred to by a rule that stays; it never adds one |
| `MixedRules.RevokeKeepsNestingExactly` | pkg/connector/groups.go:419-424 | every rule with a group reference survives exactly when none of them names the address |
| `MixedRules.TwoKeyRuleRevokesEverybody` | pkg/connector/groups.go:427-431 | a rule with `everyone` and `email` goes with its address and takes everybody along |
| `Expansion.DerivedIsLeastFixpoint` | pkg/connector/groups.go:215-248 | what the emitted edges derive is the least set closed under direct membership and union |
| `Expansion.TrueIsLeastFixpoint` | pkg/connector/access_rules_helper.go:9-13 | true membership is the least set closed under the three lists with nesting |
| `Expansion.ExpansionIsSound` | pkg/connector/access_rules_helper.go:343-357 | on any graph, cyclic or not, and for any choice of keys, whoever is derived is a true member; all true members are derived where no reachable reference is suppressed |
| `Expansion.ExpansionExactly` | pkg/connector/groups.go:215-233 | true members are exactly the derived ones and those whom a restricting group, reached along emitted edges, lets through without admitting them and who are in a group it refers to without coming back through it |
| `Expansion.ReportedInFullExactly` | pkg/connector/groups.go:215-233 | the members reported for a group are all the true ones exactly when everybody whose way in is such a reference is derived anyway |
| `Expansion.ExpansionErrsOnOneSide` | pkg/connector/access_rules_helper.go:36-39 | on any graph and for every way Cloudflare might decide the skipped rules: with evaluable Require and Exclude rules only genuine members are derived, with evaluable Include rules only those whose way in is a suppressed reference are missed |
| `Expansion.SuppressionHidesMembers` | pkg/connector/groups.go:226-233 | a two-group account whose true member is not reported |
| `Expansion.DerivedExactly` | pkg/connector/groups.go:215-248 | derived membership is direct membership of a group some path of emitted edges leads to |
| `Expansion.TrueExactly` | pkg/connector/access_rules_helper.go:9-13 | true membership is admission at the end of some path of references all of whose groups let the user through |
| `Expansion.ExpansionSaturates` | pkg/connector/access_rules_helper.go:346-348 | expansion is complete after as many rounds as there are groups |
| `Expansion.EditKeepsEdgesExactly` | pkg/connector/groups.go:307-370 | a Grant or Revoke changes no answer about restriction and adds no emitted edge; it drops none exactly when the group emits none or each reference that goes is repeated in a rule that stays |
| `Expansion.EditReachesUpstream` | pkg/connector/groups.go:235-248 | whatever the rules, an edit changes what is derived only in groups whose emitted edges lead to the edited one |
| `Expansion.EditChangesNothingExactly` | pkg/connector/groups.go:262-372 | for any edit and any user, nothing derived changes in any group exactly when the edited group, with its lists before and after and the other groups as they are, would take the user in alike |
| `Expansion.EditIsLocal` | pkg/connector/groups.go:235-248 | an edit that spares others and loses no emitted reference changes what is derived only for its own address |
| `Expansion.EditHasDirection` | pkg/connector/groups.go:262-372 | whatever the rules, a Grant takes nobody out of any group, a Revoke lets nobody into any |
| `Text.ItoaRoundTrip` | pkg/client/helpers.go:32-38 | a printed page number has no leading zero and parses back, as far as 64 bits go, with a sign too |
| `Text.ParseIntExactly` | pkg/client/helpers.go:32-38 | a number is digits behind at most one sign and within 64 bits; leading zeros do not count |
| `Paging.TokenRoundTrip` | pkg/client/helpers.go:25-41 | the token for a page is read back as that page |
| `Paging.PageTokenExactly` | pkg/client/helpers.go:25-41 | the empty token asks for the first page, a number from 1 on for its page, and anything else is refused |
| `Paging.PagesIsCeiling` | pkg/client/helpers.go:59-61 | the division standing in for total_pages counts the pages |
| `Paging.PagesExactly` | pkg/client/helpers.go:51-54 | a page has a successor exactly when the pages up to it do not hold all items |
| `Paging.NextPageTokenReadsExactly` | pkg/client/helpers.go:51-72 | whatever the metadata says, another page is asked for exactly while total_pages exceeds the page, or else while the pages so far do not hold total_count, or else after a page of 50 |
| `Paging.NextPageTokenExactly` | pkg/client/helpers.go:51-72 | by any of the three routes, on any page, a token for the next page is returned exactly while total_pages, or total_count over per_page, says there is one, and with neither exactly after a full page |
| `Paging.LastPageExactly` | pkg/client/helpers.go:51-72 | up to the last page asked for, a page names a successor exactly while it is not the last |
| `Paging.EverythingServedExactly` | pkg/client/helpers.go:65-69 | for any mixture of metadata, the pages up to there hold everything exactly when the page size is honoured or every page with a successor carries metadata |
| `Paging.SweepReturnsServed` | pkg/client/helpers.go:51-72 | a sweep returns the items of those pages, each once and in order, in one request a page, and stops |
| `Paging.SweepCollectsEverything` | pkg/client/helpers.go:51-72 | for any mixture of metadata of a complete listing a sweep ends with every item once, in order, after the stated number of requests |
| `Paging.RequestCount` | pkg/client/helpers.go:51-54 | the requests of a complete sweep with metadata on every page, and with none |
| `Paging.SweepIsCompleteExactly` | pkg/client/helpers.go:51-72 | whatever mixture of pages carries metadata, a sweep ends, and returns all items exactly when the page size is honoured or every page with a successor carries metadata |
| `Bags.Bag.NextToken` | vendor/github.com/conductorone/baton-sdk/pkg/pagination/pagination.go:94-116 | the token for the advanced bag, as a function of its state |
| `Bags.StackReads` | vendor/github.com/conductorone/baton-sdk/pkg/pagination/pagination.go:94-102 | pushing and popping work at the top of the stack; a bag with nothing current starts one with the token |
| `Bags.BlankExactly` | vendor/github.com/conductorone/baton-sdk/pkg/pagination/pagination.go:104-116 | the token is blank exactly when the only state there was has no next page |
| `Bags.AdvanceTouchesTopOnly` | pkg/connector/users.go:224-227 | advancing replaces the top state's token or removes the top state, and leaves the rest of the stack |
| `Users.NewUserResourceFromMember` | pkg/connector/users.go:95-136 | the resource carries the member's role IDs joined in order |
| `Users.RoleGrantsExactly` | pkg/connector/users.go:245-262 | the role grants are the member's roles in order exactly when no ID has a comma and the list is not one empty ID |
| `Users.ReportedRolesExactly` | pkg/connector/users.go:245-262 | the set of roles reported is the set held under the same condition |
| `Users.FirstWithUserIdExactly` | pkg/connector/helpers.go:74-78 | the member found is the first in list order with the ID, none only when there is none |
| `Users.FindMemberByUserID` | pkg/connector/helpers.go:79-98 | the page loop ends at the first page that has the member, with the first in list order; whom it misses is not served |
| `Users.List` | pkg/connector/users.go:158-233 | one List call: the page's resources and the next token |
| `Users.AccessUsersReadExactly` | pkg/connector/users.go:184-192 | one resource per Access user, in order, under its ID and address and without any role |
| `Users.MembersReadExactly` | pkg/connector/users.go:202-218 | one resource per member with a user ID, in order, under its ID and address, with the roles it holds where their IDs survive the profile |
| `Users.ListRefusesExactly` | pkg/connector/users.go:158-233 | a List call is refused exactly for a page state it does not know or a page token that asks for no page |
| `Users.ListGoesOnExactly` | pkg/connector/users.go:224-233 | a call that is answered moves its own page state to the page the listing names next, or drops it where none is named, whatever else is on the stack |
| `Users.SyncedMembersExactly` | pkg/connector/users.go:202-218 | a member is synced under its own ID and address exactly when it has an ID |
| `Users.UserSyncIsComplete` | pkg/connector/users.go:154-157 | a sync yields the Access users served, then the members served that have a user ID, in order, and all there are exactly when the listings can be followed; it asks for the pages of the one endpoint from the first to the last, then of the other, each once, and ends |
| `Users.UserSyncExactly` | pkg/connector/users.go:154-157 | the resources of a whole sync, one by one and in order: the Access users served, then the members served that have a user ID, and what each stands for |
| `GroupSync.Grants` | pkg/connector/groups.go:109-260 | one Grants call: the page's direct grants, the nested grants on the first page unless suppressed, and the next token |
| `GroupSync.GroupSyncExactly` | pkg/connector/groups.go:215-248 | a whole sync emits the direct grants of the members served, in order, and the nested grants once |
| `GroupSync.DirectGrantsExactly` | pkg/connector/groups.go:132-213 | a user gets a direct grant exactly when a listed member with that non-empty ID is admitted |
| `GroupSync.OneGrantEach` | pkg/connector/groups.go:202-213 | there are as many direct grants as admitted members with a user ID |
| `GroupSync.DirectGrantsInOrder` | pkg/connector/groups.go:202-213 | the grants come in the order of the members |
| `GroupSync.SyncEmitsExactly` | pkg/connector/groups.go:109-260 | the grants a whole sync emits for the members served, direct and nested, and no others |
| `GroupSync.SyncCountsExactly` | pkg/connector/groups.go:235-248 | a whole sync emits each nested grant it calls for once, and as many grants besides as members served are admitted |
| `GroupSync.GrantsRefusesExactly` | pkg/connector/groups.go:109-130 | a Grants call is refused exactly for a group that is not there or a page token that asks for no page |
| `GroupSync.GrantsGoOnExactly` | pkg/connector/groups.go:250-259 | the token returned is blank exactly when the member list names no next page |
| `GroupSync.NextSyncReflects` | pkg/connector/groups.go:294-298 | after a step that decided the address the next sync emits the member's direct grant exactly if it was a Grant, or a listed member of the same user ID and another address is in the group |
| `GroupSync.SyncAfterRun` | pkg/connector/groups.go:109-260 | after any run of requests that spares others, a sync emits direct grants for exactly the user IDs some member served under which the ledger of the run makes a member |
| `GroupSync.HeldExactly` | pkg/connector/groups.go:215-248 | expanding the grants of all groups gives a user exactly the groups derived for an address it is listed under |
| `GroupSync.SyncedMembershipIsSound` | pkg/connector/groups.go:215-248 | end to end: the union of all emitted grants yields true members only, and all of them where nothing is suppressed |
| `GroupSync.SilentGroupEmitsNothing` | pkg/connector/groups.go:171-180 | a group with no evaluable direct rule and no nested IDs emits no grant |
| `Roles.RemovePermissionGroup` | pkg/connector/roles.go:238-257 | the nested loops strip one permission group and drop emptied policies |
| `Roles.RoleBuilder.GetMemberId` | pkg/connector/roles.go:186-200 | the ID of the first member with the user's ID, or not found |
| `Roles.RoleBuilder.Grant` | pkg/connector/roles.go:106-184 | the whole remote state after a Grant, on every path, and the answer |
| `Roles.RoleBuilder.Revoke` | pkg/connector/roles.go:202-296 | the whole remote state after a Revoke, on every path, and the answer |
| `Roles.RequestTouchesOneMember` | pkg/connector/roles.go:186-296 | a request reaches the first listed member with the user's ID, and of that member only the two lists |
| `Roles.StoppedExactly` | pkg/connector/roles.go:106-200 | a request stops with its own error exactly for a principal that is no user, a user that is no listed member or one without an ID, or a member or permission group that is not there; a refusal leaves all members alone |
| `Roles.StepRefinesModel` | pkg/connector/roles.go:106-296 | each step is a set insert or remove, refused exactly when it would leave nothing or the role has no permission group; a refusal changes nothing |
| `Roles.RoleRefusesExactly` | pkg/connector/roles.go:126-296 | a step is refused exactly for a role without a permission group, or for a Revoke that would leave nothing |
| `Roles.RunRefinesModel` | pkg/connector/roles.go:134-136 | along any run the member follows the set machine, never changes model, and once written never holds both lists |
| `Roles.PolicyRevokeConserves` | pkg/connector/roles.go:238-257 | the ordered pairs of policy terms and permission group lose exactly the target's; no policy is left empty |
| `Roles.EachPolicyExactly` | pkg/connector/roles.go:232-257 | each policy is stripped on its own: it keeps its terms and its other groups in order, and goes exactly if it has none |
| `Roles.RevokeLiftsDenialsExactly` | pkg/connector/roles.go:238-257 | a Revoke on policies leaves denied exactly what was denied before, other than the role's own permission group |
| `Roles.PolicyGrantConserves` | pkg/connector/roles.go:137-151 | a Grant on policies adds one pair at the end: the role's permission group, allowed on the whole account |
| `Roles.RoleGrantConserves` | pkg/connector/roles.go:164-173 | a Grant on legacy roles puts the role in front of those held, by ID only |
| `Roles.RoleRevokeConserves` | pkg/connector/roles.go:270-288 | a Revoke on legacy roles that is not refused leaves every other role, in order, by ID only |
| `Roles.PolicyGrantThenRevoke` | pkg/connector/roles.go:134-257 | on policies Grant then Revoke is the identity exactly when the group was not held, no policy was empty and there were no legacy roles |
| `Roles.RoleGrantThenRevoke` | pkg/connector/roles.go:164-288 | on legacy roles it restores the role IDs exactly when the role was not held and some other was |
| `RoleRuns.MembersAreIndependent` | pkg/connector/roles.go:186-296 | a run of requests does to each member what that member's own steps do |
| `RoleRuns.AccountRefinesModels` | pkg/connector/roles.go:106-296 | after any run of requests on an account each member follows the set machine of its own steps, on its own model |
| `RoleRuns.RoleSyncAfterRun` | pkg/connector/users.go:245-262 | after any run of requests a sync reports for a member on legacy roles exactly what the set machine holds, exactly when no ID has a comma and the only one is not empty; for a member on policies, and on them only at first, nothing |
| `RateLimits.ParseStructuredList` | pkg/client/helpers.go:226-249 | the nested loops yield the items of all header lines in order |
| `RateLimits.LinesDoNotMatter` | pkg/client/helpers.go:226-228 | splitting the list across header lines does not change the items (section 3.1 of RFC 8941) |
| `RateLimits.KeysAreLower` | pkg/client/helpers.go:237-246 | every parameter key parsed is lower-cased |
| `RateLimits.PrintThenParse` | pkg/client/helpers.go:226-249 | printing a list and parsing it back restores every named item, its keys in lower case, whatever the whitespace and quotes; a parameter without a value, and an item without a name, are ignored |
| `RateLimits.SelectItem` | pkg/client/helpers.go:163-181 | the loop with its four variables computes the choice |
| `RateLimits.UsableExactly` | pkg/client/helpers.go:164-179 | an item is usable exactly if its r is a number from 0 on, and its t too if it has one; r is the count and t the delay |
| `RateLimits.ThrottlesFirstExactly` | pkg/client/helpers.go:152-155 | the choice is the usable item with the fewest requests remaining, of those one with the latest reset, and of those the first; none exactly when no item is usable |
| `RateLimits.OrderDoesNotMatter` | pkg/client/helpers.go:152-155 | the remaining count and delay chosen depend on the set of items only |
| `RateLimits.OrderDoesNotMatterExactly` | pkg/client/helpers.go:163-181 | every reordering of the items gives the same choice, name and reset included, exactly when the items that tie for throttling first agree |
| `RateLimits.HavingResetDependsOnOrder` | pkg/client/helpers.go:170-180 | two items that tie and whose order decides whether there is a reset time |
| `RateLimits.ParseStructuredRateLimit` | pkg/client/helpers.go:156-217 | the description for every status and header |
| `RateLimits.DescriptionExactly` | pkg/client/helpers.go:182-216 | over the limit on a 429 only, fine exactly while requests remain, nothing without a usable item; else the count of the one that throttles first, the quota of the policy of its name, and a reset exactly if it has a delay |
| `RateLimits.DocumentedHeader` | pkg/client/helpers.go:144-155 | headers in the documented form are described by the numbers in them: r of q remaining, none on a 429, and a reset t seconds ahead |
| `RateLimits.QuotaExactly` | pkg/client/helpers.go:186-195 | the limit is the positive quota of the first policy with the chosen name, else 0 |
| `RateLimits.QuotaReadsExactly` | pkg/client/helpers.go:191-193 | a policy's quota is the positive number under q |
| `RateLimits.ResetExactly` | pkg/client/helpers.go:213-215 | the reset lies the stated seconds ahead exactly up to 9223372036 of them, and wraps in 64 bits of nanoseconds beyond |
| `RateLimits.LaterResetWins` | pkg/client/helpers.go:137-142 | on a 429 with Retry-After the reset is the later of the two |
| `RateLimits.RetryAfterExactly` | pkg/client/helpers.go:126-142 | the structured headers decide wherever they are usable, but for the reset on a 429 exactly when Retry-After is later; the SDK's parser decides elsewhere |

## Left out

- HTTP transport, authentication, URL building, caching, the JSON envelope and error wrapping: input and output. A request that fails in transport changes nothing and is not a step.
- JSON encoding of the bag: a page token is modelled as what it decodes to, and a corrupt token is not modelled.
- Concurrent edits: each Grant and Revoke is one step against a server that stores exactly the body written to it.
- `RolePermissionGroup`: the lookup by role name is a finite map from role ID to permission group, not assumed injective.
- The SDK's own rate-limit parser is a parameter of `RateLimits.ExtractRateLimit`.
- Logging, rule descriptions, resource profiles other than role IDs, entitlements, account status and dates: display only.
- `hasEvaluableRule` only decides a log line in the connector; what it stands for is `GroupSync.SilentGroupEmitsNothing`.
- Membership reached through nesting is outside Grant and Revoke, as in the connector; `Expansion` relates the two.
- Invalid UTF-8 in strings: a string is a sequence of Unicode scalar values.
- Paging arithmetic is on unbounded integers; lists are taken to be short enough for page numbers to fit 64 bits.
- Paging.SweepIsCompleteExactly: a server that states a wrong number of pages is not covered, since a sweep over it need not end.
- GroupRuns.RunRefinesLedger: runs in which a Revoke takes others along are excluded; `GroupRuns.LedgerAlwaysHoldsExactly` and `GroupRuns.LedgerHoldsExactly` say that the ledger is then wrong about somebody.
