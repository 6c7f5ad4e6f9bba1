# kolnations — a Dafny model of the nation API and its pages

kolnations lets wallet holders found "nations", have other wallets join them,
and let a nation's founder claim one US state as its territory. Each claimed
state earns the nation an hourly reward. This project models the core of that
system in Dafny:

- **The two documents.** `Nation` (a trimmed unique name of at most 50
  UTF-16 code units, a lower-case founder address, `memberCount`, `members`, and a
  sparse-unique `territory`) and `User` (a lower-case unique address and an
  optional `nationId`). The schema's casting and validation are modelled as
  `NationModel.Build`.
- **The store.** `Store.State` holds the users keyed by address, the nations
  keyed by id, and an id counter standing for ObjectId freshness.
  `Store.Valid` is the cross-document invariant:
  - every user is stored under its own lower-case address;
  - every nation is consistent: `memberCount == |members|`, the founder is a
    member, no member is listed twice ignoring case, and the name is storable;
  - a user's `nationId` names an existing nation that lists the user;
  - every member of a nation is a user pointing back at it;
  - names are unique, and so are territories that are present.
- **The API routes.** Each is a pure function from a state to a new state or
  an `ApiErrors.ApiError`. The errors carry the route's HTTP status and
  message, and are checked in the route's own order:
  - `auth/phantom`: `AuthRoute.Authenticate`;
  - `nations/create`: `CreateRoute.Create`;
  - `nations/join`: `JoinRoute.Join`;
  - `nations/leave`: `LeaveRoute.Leave`;
  - `nations/delete`: `DeleteRoute.Delete`;
  - `nations/claim`: `ClaimRoute.Claim`;
  - `nations/user`: `UserRoute.GetUserNation`;
  - `nations/search` and `nations`: the methods `Listing.Search` and
    `Listing.ListAll`.

  Every route that writes is proved to preserve `Valid`.
- **The pages.**
  - The explore page (`ExplorePage`): the per-state member requirement
    with its `|| 1` default; the map colour buckets; the claimed-territories
    map; the claim guard and its order of checks; the search box; and the
    optimistic updates of the nation list after a join, leave, delete or
    claim, each proved to agree with what the server did.
  - The leaderboard (`LeaderboardPage`): the nations holding a territory,
    most members first, top seven, with their hourly earnings.
  - The rewards page (`RewardsPage`): the sort state machine `toggleSort`,
    the search over state names, and the sort by name, rate or requirement.
- **The tables.** The two per-state tables (`StateTable`) are transcribed
  entry by entry. Rates are integer thousandths, which represent every rate in
  the table exactly.

JavaScript semantics are modelled explicitly:
- `toLowerCase` (`Text.Lower`) folds only A–Z.
- `trim` (`Text.Trim`) removes ECMAScript white space and line terminators.
- `includes` (`Text.Contains`) is a literal substring test.
- A missing or empty string field is `""`, and a missing `nationId` is `None`.
- `Array.prototype.sort` is a stable insertion sort (`Sorting.SortBy`) over the
  comparator read as "may precede".

The routes look users up with the address as the request spelled it. The
`lowercase` setter on `User.address` also applies when Mongoose casts a query
filter, so the model looks users up by `Lower(address)`. Members are stored
as spelled in the request, so membership is compared ignoring case
(`NationModel.MemberKeys`).

Two behaviours of the code are worth knowing before reading the model:
- **No server-side member threshold.** The how-it-works page
  (`src/app/how-it-works/page.tsx:82-85`) promises that each state needs a
  minimum number of members before it can be claimed. `claim/route.ts` checks
  no member count; only the explore page's guard
  (`src/app/explore/page.tsx:353-358`) does. `ExplorePage.ThresholdIsClientOnly`
  exhibits a one-member nation that the page refuses California but the
  server grants it.
- **Name validation errors are status 500.** An empty-after-trim or over-long
  name is a schema validation error, not a duplicate key. The create route's
  catch block answers it with status 500 (`create/route.ts:62-90`), not as a
  client error.

## Model

| member | source | states |
|---|---|---|
| Text.TrimSlice | src/models/Nation.ts:19 | `trim` keeps a slice of the input: only white space is cut before and after it, and nothing is kept exactly when the input is all white space. |
| Text.ContainsIffOccurs | src/app/explore/page.tsx:173-176 | `includes` holds exactly when the pattern occurs at some position of the string. |
| Text.Utf16LengthExtremes | src/models/Nation.ts:20 | A string's UTF-16 length equals its character count exactly when no character is astral, and twice it exactly when every character is. |
| NationModel.Build | src/models/Nation.ts:15-40 | Creating a document fails with the "provide a name" error when the trimmed name is empty, and with the length error when it exceeds 50 UTF-16 code units. It fails with the "provide a founder" error exactly when the name is storable and no founder is given, and succeeds exactly when the name is storable and a founder is given. The document then has the trimmed name, the lower-cased founder, the given count and members, and no territory. |
| NationModel.AstralNameTooLong | src/models/Nation.ts:20 | A name of 26 astral characters is 52 code units long and is refused with the length error, though it has only 26 characters. |
| NationModel.TrimmedName | src/models/Nation.ts:15-21 | A trimmed name is storable exactly when it is non-empty and at most 50 code units long; a stored name is its own trim. |
| NationModel.DefaultsAreInconsistent | src/models/Nation.ts:27-34 | A document built from the schema defaults alone (`memberCount` 1, `members` empty) breaks `memberCount == members.length`, so the routes must pass both. |
| NationModel.RemoveMemberKeys | src/app/api/nations/leave/route.ts:62-64 | After the leave filter, the member keys are exactly the old ones minus the leaver's, compared ignoring case. |
| NationModel.RemoveMemberOnce | src/app/api/nations/leave/route.ts:60-64 | On a list without duplicates, the filter removes exactly one entry when the key is a member and none otherwise, and keeps the list free of duplicates. |
| UserModel.NewUser | src/models/User.ts:12-22 | A new user document has the lower-cased address, which is a stored address when non-empty, and no nation. |
| Store.MemberOfOneNation | src/models/User.ts:18-22 | In a valid store an address is a member of at most one nation. |
| Store.FounderIsAffiliated | src/app/api/nations/create/route.ts:45-55 | In a valid store every nation's founder is a user whose `nationId` is that nation. |
| AuthRoute.Authenticate | src/app/api/auth/phantom/route.ts:13-36 | No address gives 400 "Wallet address is required"; otherwise the call succeeds. A known user is returned unchanged. An unknown address creates exactly one user under its lower-cased form, with no nation, and nothing else changes. |
| AuthRoute.AuthenticateIdempotent | src/app/api/auth/phantom/route.ts:20-28 | Authenticating twice gives the same state and user as authenticating once. |
| AuthRoute.AuthenticateIgnoresCase | src/app/api/auth/phantom/route.ts:21-27 | Addresses differing only in letter case authenticate to the same user. |
| AuthRoute.AuthenticateEchoesAddress | src/app/api/auth/phantom/route.ts:30-35 | In a valid store the returned user's address is the lower-cased request address. |
| AuthRoute.AuthenticatePreservesValid | src/app/api/auth/phantom/route.ts:24-28 | Authentication keeps the store invariant. |
| CreateRoute.Create | src/app/api/nations/create/route.ts:15-73 | Errors come in the route's order: missing name or address, unknown user (404), user already in a nation. Once those pass, an empty trimmed name gives the "provide a name" error, an over-long one the length error, and a storable but taken name the 400 duplicate error; the founder error never occurs. Success holds exactly when all pass. The new nation gets a fresh id, the trimmed name, the lower-case founder, the single member and count 1, and no territory; the creator now points at it. |
| CreateRoute.CreatedNationConsistent | src/app/api/nations/create/route.ts:46-51 | A freshly created nation lists its founder, has count one, and satisfies the per-document invariant. |
| CreateRoute.CreatePreservesValid | src/app/api/nations/create/route.ts:45-55 | Creating a nation keeps the store invariant. |
| JoinRoute.Join | src/app/api/nations/join/route.ts:15-61 | Errors come in the route's order: missing field, unknown user, already affiliated, unknown nation; the 404 "Nation not found" is answered exactly when the earlier checks pass and the id names no nation. On success the count rises by one, the address is appended as spelled, and the user points at the nation; nothing else changes. |
| JoinRoute.JoinedNationConsistent | src/app/api/nations/join/route.ts:58-61 | In a valid store the joined nation stays consistent, and its member keys gain exactly the joiner's. |
| JoinRoute.JoinPreservesValid | src/app/api/nations/join/route.ts:54-61 | Joining keeps the store invariant. |
| LeaveRoute.Leave | src/app/api/nations/leave/route.ts:15-69 | Errors come in the route's order: missing address, unknown user, not a member; the founder error is answered exactly when the nation exists and the leaver is its founder, ignoring case. Leaving succeeds exactly when the user has a nation that is gone or that it did not found. A user whose nation is gone is just detached. Otherwise the count falls by one (not below zero), every spelling of the address leaves `members`, and the user is detached. |
| LeaveRoute.FounderCannotLeaveOwnNation | src/app/api/nations/leave/route.ts:52-58 | In a valid store the founder, whatever the case of its address, always gets the "founders cannot leave" error. |
| LeaveRoute.LeftNationConsistent | src/app/api/nations/leave/route.ts:60-65 | In a valid store a successful leave removes exactly the leaver from the member keys and keeps the nation consistent. |
| LeaveRoute.LeavePreservesValid | src/app/api/nations/leave/route.ts:39-69 | Leaving keeps the store invariant. |
| LeaveRoute.JoinThenLeave | src/app/api/nations/leave/route.ts:60-69 | Leaving right after a successful join restores the store exactly as it was before the join. |
| LeaveRoute.LeaveUndoesJoin | src/app/api/nations/leave/route.ts:60-69 | If a user with no nation joins a consistent nation that does not list it, leaving the resulting store gives back the original store exactly. |
| DeleteRoute.Detach | src/app/api/nations/delete/route.ts:48-55 | Exactly the users pointing at the nation lose their `nationId`; every other field and user is unchanged. |
| DeleteRoute.Delete | src/app/api/nations/delete/route.ts:15-58 | Errors come in the route's order: missing field, unknown user, unknown nation. The founder error holds exactly when the requester is not the founder, ignoring case. On success the nation is removed and its users are detached. |
| DeleteRoute.DeleteFreesMembers | src/app/api/nations/delete/route.ts:48-55 | After a deletion no user refers to the nation, and every former member is a user with no nation. |
| DeleteRoute.DeleteFreesTerritory | src/app/api/nations/delete/route.ts:57-58 | After a deletion no remaining nation holds the deleted nation's territory. |
| DeleteRoute.DeleteFreesFounder | src/app/api/nations/delete/route.ts:48-55 | After a deletion the founder is a user with no nation. |
| DeleteRoute.DeletePreservesValid | src/app/api/nations/delete/route.ts:48-58 | Deleting keeps the store invariant. |
| ClaimRoute.Claim | src/app/api/nations/claim/route.ts:9-54 | Errors come in the route's order: missing field, unknown nation, not the founder (403), nation already has a territory, territory held by some nation; each of the last three is answered exactly when the earlier checks pass and its own condition holds. Success holds exactly when all pass, and then only the territory of that nation changes. |
| ClaimRoute.ClaimIsOneTime | src/app/api/nations/claim/route.ts:35-41 | After a successful claim, any further claim by the same nation is refused with "already has a territory". |
| ClaimRoute.ClaimedTerritoryIsTaken | src/app/api/nations/claim/route.ts:43-50 | After a successful claim, another nation's otherwise valid claim of the same territory is refused with "already claimed". |
| ClaimRoute.ClaimWithSingleMember | src/app/api/nations/claim/route.ts:27-54 | There is a valid store in which a one-member nation's founder claims Texas successfully: the route checks no member count. |
| ClaimRoute.ClaimPreservesValid | src/app/api/nations/claim/route.ts:52-54 | Claiming keeps the store invariant, territories stay unique included. |
| UserRoute.GetUserNation | src/app/api/nations/user/route.ts:14-52 | Missing address and unknown user are errors. "No nation" is answered exactly when the user has none. "Nation not found" is answered exactly when the user's nation is gone. When the user's nation exists it is returned, as stored and with its id. |
| UserRoute.ValidStateFindsNation | src/app/api/nations/user/route.ts:39-46 | In a valid store the lookup never answers "Nation not found". |
| UserRoute.UserNationListsUser | src/app/api/nations/user/route.ts:39-52 | In a valid store the nation returned lists the user among its members. |
| UserRoute.CreateThenGetUserNation | src/app/api/nations/create/route.ts:53-55 | After creating a nation, the creator's lookup returns that nation with its id. |
| UserRoute.JoinThenGetUserNation | src/app/api/nations/join/route.ts:54-61 | After joining, the user's lookup returns the joined nation as updated. |
| UserRoute.LeaveThenGetUserNation | src/app/api/nations/leave/route.ts:67-69 | After leaving, the user's lookup answers "no nation". |
| UserRoute.DeleteThenGetUserNation | src/app/api/nations/delete/route.ts:48-55 | After a deletion every former member's lookup, the founder's included, answers "no nation". |
| Listing.Collect | src/app/api/nations/search/route.ts:14-26 | The query finds every nation matching the filter exactly once: a blank query matches all; otherwise the name or the founder contains it, ignoring case. |
| Listing.Search | src/app/api/nations/search/route.ts:14-32 | The response lists exactly the matching nations, each once, newest first; the count is their number. |
| Listing.ListAll | src/app/api/nations/route.ts:10-17 | The response lists every nation exactly once, newest first; the count is the number of nations. |
| Sorting.SortBy | src/app/nations/page.tsx:38-40 | A sort with a total-preorder comparator returns a permutation of its input, ordered by the comparator. |
| Sorting.SortByStable | src/app/nations/page.tsx:38-40 | The sort is stable: the elements tied with any given one appear in the result in their input order. |
| Seqs.FilterSubsequence | src/app/explore/page.tsx:173-176 | `filter` keeps its result in the input's order: the result is a subsequence of the input. |
| StateTable.RateForMonotone | src/app/nations/page.tsx:117-118 | The formula base rate plus members times multiplier never falls as members grow. |
| StateTable.RequirementsAtLeastOne | src/app/explore/page.tsx:39-90 | Every state of the requirement table needs at least one member. |
| StateTable.RequirementNamesDistinct | src/app/explore/page.tsx:39-90 | No state is listed twice in the requirement table. |
| StateTable.TablesAgree | src/app/rewards/page.tsx:30-81 | The reward table lists the same states as the requirement table, in the same order, with the same requirements. |
| StateTable.BaseRatesAtLeast | src/app/rewards/page.tsx:30-81 | Every base rate of the reward table is at least 0.15 an hour. |
| StateTable.Lookup | src/app/rewards/page.tsx:162-163 | A state's lookup returns that state's row of the reward table; it is absent exactly when no row has that name. |
| ExplorePage.RequiredMembers | src/app/explore/page.tsx:354 | The requirement is at least one, and one for a state missing from the table. |
| ExplorePage.FindRequirementAt | src/app/explore/page.tsx:354 | In a table with distinct names, looking up an entry's name yields that entry's value. |
| ExplorePage.RequiredMembersOfTable | src/app/explore/page.tsx:354 | Every state of the table needs exactly the number the table gives it. |
| ExplorePage.RequiredMembersMatchesRewards | src/app/explore/page.tsx:354 | The explore page's requirement for each state equals the reward table's. |
| ExplorePage.ShadeFor | src/app/explore/page.tsx:464-471 | The shade is the darkest for 10 or more members, medium for 5 to 9, light for 3 or 4, and the lightest below 3, each iff. |
| ExplorePage.ShadeMonotone | src/app/explore/page.tsx:467-470 | A state that needs more members is never drawn lighter. |
| ExplorePage.UnknownStateIsLightest | src/app/explore/page.tsx:464-471 | A state missing from the table is drawn `#93c5fd`. |
| ExplorePage.ClaimedMap | src/app/explore/page.tsx:148-153 | The map's keys are exactly the territories held in the list; each maps to an entry of the list holding it. |
| ExplorePage.ShownTerritoriesAreClaimed | src/app/explore/page.tsx:148-153 | Built from a list showing the store, the map knows every territory some nation holds. |
| ExplorePage.ClaimGuard | src/app/explore/page.tsx:343-387 | The page does nothing exactly when there is no connection, no nation or no address. Otherwise the checks run in order: not the founder, too few members (with the required number), state already claimed (with the holder's name), nation already holding a territory. The request is sent, with the nation id, address and state, exactly when all pass. |
| ExplorePage.ThresholdBoundary | src/app/explore/page.tsx:354-358 | A nation with exactly the required number of members passes the threshold; one member fewer is refused. |
| ExplorePage.GuardedClaimSucceeds | src/app/explore/page.tsx:343-387 | A claim the page sends from a list showing the current store is one the server accepts. |
| ExplorePage.ThresholdIsClientOnly | src/app/explore/page.tsx:353-358 | There is a valid store in which the page refuses California to a one-member nation (15 needed), while the server grants the same claim. |
| ExplorePage.SearchFilter | src/app/explore/page.tsx:169-179 | A blank term keeps the list. Otherwise the result is a subsequence of the list (original order kept) holding every entry whose name or founder contains the term, ignoring case, as often as the list does, and no other entry. |
| ExplorePage.SearchFilterKeepsOrder | src/app/explore/page.tsx:173-176 | Filtering keeps the newest-first order. |
| ExplorePage.UpdateWhere | src/app/explore/page.tsx:238-244 | The update changes only the nation with the given id and keeps every entry's position and id. |
| ExplorePage.RemoveNation | src/app/explore/page.tsx:328-330 | The result is a subsequence of the list (order kept) holding every entry of another nation as often as the list does, and no entry of the removed nation. |
| ExplorePage.JoinUpdateMatchesServer | src/app/explore/page.tsx:238-244 | If the page's counts matched the store, they still match after a successful join and the page's increment. |
| ExplorePage.LeaveUpdateMatchesServer | src/app/explore/page.tsx:280-288 | If the page's counts matched the store, they still match after a successful leave and the page's clamped decrement. |
| ExplorePage.DeleteUpdateMatchesServer | src/app/explore/page.tsx:327-330 | After a deletion the page's counts still match, and no other nation is dropped. |
| ExplorePage.ClaimUpdateMatchesServer | src/app/explore/page.tsx:398-405 | A page showing the store still shows it exactly once it records a claim the server accepted. |
| LeaderboardPage.WithTerritory | src/app/nations/page.tsx:35 | The result is a subsequence of the list (order kept) holding every nation with a non-empty territory as often as the list does, and no other entry. |
| LeaderboardPage.Ranked | src/app/nations/page.tsx:34-40 | The ranking is a permutation of the nations with a territory, in non-increasing order of member count. |
| LeaderboardPage.TopRows | src/app/nations/page.tsx:175 | At most seven rows are shown: the first seven of the ranking, or all of it when shorter. |
| LeaderboardPage.OutrankingNationIsShown | src/app/nations/page.tsx:175 | A nation with a territory and more members than some shown row is itself shown. |
| LeaderboardPage.HourlyRate | src/app/nations/page.tsx:111-119 | A nation earns nothing without a territory or with one outside the table; otherwise its state's rate for its member count. |
| LeaderboardPage.TableStateEarns | src/app/nations/page.tsx:111-119 | A nation holding a state of the table earns at least 0.15 an hour. |
| LeaderboardPage.HourlyRateMonotone | src/app/nations/page.tsx:117-118 | Earnings never fall when a nation gains members. |
| RewardsPage.ToggleSort | src/app/rewards/page.tsx:195-202 | Toggling selects the criterion. The current criterion flips its direction; a different criterion starts descending. |
| RewardsPage.ToggleTwice | src/app/rewards/page.tsx:196-197 | Toggling the current criterion twice restores the sort. |
| RewardsPage.SelectThenToggle | src/app/rewards/page.tsx:195-202 | Choosing a new criterion and toggling it again ends ascending on it. |
| RewardsPage.AllSortsReachable | src/app/rewards/page.tsx:103-104 | From the initial sort (rate, descending) every sort state is reachable in at most two toggles. |
| RewardsPage.FilteredRows | src/app/rewards/page.tsx:170-172 | The result is a subsequence of the table (table order kept) holding every row whose state name contains the term, ignoring case, as often as the table does, and no other row. |
| RewardsPage.EmptyTermListsAll | src/app/rewards/page.tsx:170-172 | An empty term lists all fifty states in table order. |
| RewardsPage.PrecedesIsPreorder | src/app/rewards/page.tsx:179-191 | Every criterion and direction gives a total preorder, so the sort is well defined. |
| RewardsPage.SortRows | src/app/rewards/page.tsx:175-192 | The sort returns a permutation of the filtered rows, ordered by the chosen criterion and direction. |
| RewardsPage.SortedStatesArePermutation | src/app/rewards/page.tsx:175-192 | The sorted list names the same states as the filtered list, each as often. |
| RewardsPage.RequirementOrder | src/app/rewards/page.tsx:187-191 | Sorting by requirement gives non-decreasing requirements ascending and non-increasing ones descending. |
| RewardsPage.StateHourlyRate | src/app/rewards/page.tsx:161-167 | A state outside the table earns nothing; a table state earns exactly its base rate plus the member count times its member multiplier, hence at least its base rate. |

## Left out

- Persistence, the network and the database connection: the store is an immutable value, and each route is one function from state to state.
- Concurrency: two requests never interleave in the model. The routes write the user and the nation in two separate saves, and the claim route's check-then-write is a race window. The model treats every route as atomic.
- Storage failures, ObjectId cast errors and other exceptions that end in the generic status-500 catch blocks. An unparsable `nationId` cannot be represented, since a request's id is an `Option<NationId>` of a number. The join, delete and claim routes pass such a string through their required-field check and answer it with status 500 only when the nation lookup throws a cast error, after their earlier checks.
- The `nation` echoed in the "already have a nation" and "already belong to a nation" responses, and the response messages of successful calls.
- `createdAt`/`updatedAt`: `createdAt` is an abstract number supplied by the caller, and `updatedAt` is not modelled.
- Floating point: rates are exact integer thousandths. JavaScript's rounding of `0.02 * n` is not modelled.
- The search route passes the query to MongoDB as a regular expression. The model matches it as a literal substring, ignoring case. Regex metacharacters, and a malformed pattern (a 500 in the route), are not modelled.
- `Text.Lower`: folds only ASCII letters, not the full Unicode case mapping of `toLowerCase`.
- Sorting.SortBy: models `localeCompare` as code-point lexicographic order (`Sorting.LexLeq`), not the locale collation.
- RewardsPage.SortedStatesArePermutation: sorts the table rows rather than the names with per-name lookups. Both orders agree because no state name repeats (`StateTable.TablesAgree` with `StateTable.RequirementNamesDistinct`), but the equivalence itself is not stated as a lemma.
- ExplorePage.GuardedClaimSucceeds: requires a non-empty state name. The map only offers real states, and the server refuses an empty territory as a missing field.
- The explore page's client-side re-sort of the fetched list, and the state the pages keep for loading, errors and success messages. Client-side rejections are modelled by their reason, not their message text.
- Strings are sequences of Unicode scalar values, so a JavaScript string holding a lone surrogate cannot be represented; `Text.Utf16Length` counts every other string's `length` exactly.
- Object lookups in the pages (`stateRequirements[name]`) would find inherited keys such as `constructor` in JavaScript; the model treats every name outside the table as absent.
- Mongoose re-runs validation on `save()` after join, leave and claim; in a valid store those documents stay valid, so that path cannot fail.
- The create page, the wallet context, the navigation bar, the map rendering and the static pages are not part of this model.
