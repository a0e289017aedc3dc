# Locus listing service: a Dafny model

The service serves RNA locus records from two PostgreSQL tables:
- `rnc_locus`: one row per locus;
- `rnc_locus_members`: one row per member region, pointing at its locus through `locus_id`.

A caller logs in at `POST /api/login` and receives a signed token carrying their role: `admin`, `normal` or `limited`. `GET /api/locus` then lists loci:
- it filters by locus id, assembly, member region and membership status;
- it sorts on a whitelisted column;
- it pages with `page` and `rows`.

The role decides how the request is answered:
- An admin may ask for `sideload=locusMembers`. They get one object per locus, meant to carry the locus's members in a `locusMembers` list. As written, the code selects the member key under the wrong name, so such a request fails with a 500 or lists no members (see Findings); the model uses the corrected selection.
- A normal caller gets locus rows as the store returns them.
- A limited caller is confined to three fixed regions. Their page is deduplicated by locus id.

The model has these modules:
- `Schema` (`schema.dfy`): the two tables as records; the primary keys, the foreign reference and column widths as predicates; the two relations.
- `Auth` (`auth.dfy`): the fixed user table and the login decision.
- `LocusPlan` (`plan.dfy`): what the handler decides before touching the store. This covers the predicates on each table, whether to join, the sort column and direction, the page window and the branch.
- `Store` (`store.dfy`): running a plan on in-memory tables. It does a left join, applies the WHERE conjunction with SQL NULL semantics, orders with PostgreSQL's NULL placement, then applies OFFSET and LIMIT.
- `Sideload` (`sideload.dfy`): grouping the admin's joined rows into locus objects. It uses a `Map` plus its insertion order, proved equal to a declarative definition.
- `Dedupe` (`dedupe.dfy`): the limited role's `new Map(pairs).values()`, proved equal to a declarative definition.
- `FirstOccurrence` (`first_occurrence.dfy`): distinct values in order of first occurrence. Both groupings are specified with it.
- `LocusRoute` (`locus_route.dfy`): the handler end to end, and what the three branches return.

Modelling choices:
- Query parameters arrive already parsed:
  - `id` and `regionId` are one integer or a list of integers. An empty `id=` or `regionId=` parses to absent, because the handler tests them for truthiness (routes/locus.js:27,40);
  - `page` and `rows` are integers;
  - string parameters keep the empty string, which the handler treats as absent (it is falsy).
- A login body field is modelled as missing, a string, or a non-string value with its JavaScript truthiness.
- The member column read as `memberId` is taken to be the member key `locusMemberId` (see Findings).

## Model

| member | source | states |
|---|---|---|
| Schema.MembersOfLocus | models/schema.js:16-18 | A locus's members are exactly the member rows whose `locusId` is that locus's id. There are never more of them than member rows. |
| Schema.MembersOfLocusCounts | models/schema.js:16-18 | The relation holds each member of the locus as often as the member table does, and no other member. |
| Schema.FindLocus | models/schema.js:5 | Looking up a key finds a locus carrying that key exactly when one exists. |
| Schema.LocusOf | models/schema.js:27-32 | A member without a reference has no locus. A found locus is in the table and carries the member's `locusId`. In a well-formed store, every member with a reference has its locus. |
| Schema.FindLocusUnique | models/schema.js:5 | Under the primary key, looking up a locus's id returns that very locus. |
| Schema.MemberHasOneLocus | models/schema.js:21-23 | Many-to-one: in a well-formed store, a member refers to a locus exactly when its relation yields that locus. |
| Schema.MemberCountUnconstrained | models/schema.js:13 | `memberCount` is only a stored integer. A well-formed store may claim five members for a locus that has none. |
| Auth.FindUser | routes/auth.js:18 | The lookup returns the first table index whose username and password both equal the request's, and none when no entry matches. |
| Auth.Login | routes/auth.js:12-23 | The result is 400 exactly when the body is missing or either field is falsy. It is 401 exactly when both fields are truthy and no entry matches. Otherwise it is the id, username and role of the first matching entry. |
| Auth.CredentialTable | routes/auth.js:6-10 | There are three users with ids 1 to 3 and distinct usernames, one per role: admin, normal, limited. |
| Auth.MatchIsUnique | routes/auth.js:6-18 | At most one entry matches any credentials, so the lookup does not depend on table order. |
| Auth.LoginIdentities | routes/auth.js:18-23 | A successful login yields one of exactly three payloads. |
| Auth.EveryUserCanLogIn | routes/auth.js:6-23 | Each entry's own username and password authenticate as that entry. |
| Auth.OneFieldIsNotEnough | routes/auth.js:14-21 | A right username with a wrong password authenticates nobody. A right password under another name does not authenticate that user. |
| LocusPlan.LocusConditions | routes/locus.js:26-33 | There is an id-list predicate exactly when `id` is given, holding its values. There is an assembly predicate exactly when `assemblyId` is truthy. Both are on locus columns. |
| LocusPlan.MemberConditions | routes/locus.js:35-47 | The limited role's only region predicate is the fixed list 86118093, 86696489, 88186467. Other roles get a region predicate exactly when they give `regionId`. Every role gets a status predicate exactly when `membershipStatus` is truthy. All of them are on member columns. |
| LocusPlan.LimitedIgnoresRegionId | routes/locus.js:38-43 | The caller's `regionId` makes no difference to the limited role's member predicates. |
| LocusPlan.SortFieldOf | routes/locus.js:49-50 | A whitelisted `sortBy` (`id`, `locusStart`, `locusStop`, `memberCount`) names the sort column. Any other value, or none, sorts by `id`. |
| LocusPlan.DirectionOf | routes/locus.js:51 | The sort is descending exactly when `sortOrder` is given and lower-cases to "desc". Otherwise it is ascending. |
| LocusPlan.DirectionIgnoresCase | routes/locus.js:51 | "DESC" and "Desc" sort descending; "descending" sorts ascending. |
| LocusPlan.BranchOf | routes/locus.js:65-127 | Grouping happens exactly for an admin whose `sideload` is "locusMembers". Deduplication happens exactly for the limited role. |
| LocusPlan.WhereClause | routes/locus.js:113-116 | The three WHERE arms all send the same conjunction: the locus predicates, then the member predicates. These arms are the sideload query, the limited role, and the member list added only when non-empty. |
| LocusPlan.WhereFits | routes/locus.js:26-47 | The predicates bind only values that fit an `integer` column exactly when every id does and, outside the limited role, every region id does. The limited role's fixed regions always fit. |
| LocusPlan.BuildPlan | routes/locus.js:11-111 | The plan holds both predicate lists, with their conjunction as WHERE. It also holds the branch, the sort column and the direction. The limit is `rows` (default 1000) and the offset is `(page - 1) * rows` (default page 1), with no clamping. The store accepts the plan exactly when the request fits: limit and offset within 0 and the largest `bigint`, ids and (outside the limited role) region ids within `integer`. The sideload query is joined; otherwise the query is joined exactly when there is a member predicate or the role is limited. |
| LocusPlan.DefaultPaging | routes/locus.js:17-24 | Without `page` and `rows`, the window is offset 0, limit 1000. |
| LocusPlan.PageWindow | routes/locus.js:24 | Page `n` of size `k` has offset `(n - 1) * k` and limit `k`. |
| LocusPlan.NonPositivePage | routes/locus.js:24 | The page is not clamped: page 0 or below with a positive size gives a negative offset. |
| LocusPlan.LimitedPlanIgnoresSideloadAndRegion | routes/locus.js:38-39 | The limited role's plan does not change with `sideload` or `regionId`. It is always joined, always deduplicated, and always filtered by the fixed region list. |
| LocusPlan.UnfilteredReadsLociOnly | routes/locus.js:107-111 | A normal or admin non-sideload request without member filters reads the locus table alone. |
| Store.JoinOne | routes/locus.js:75 | A locus's joined rows are never empty. Each pairs the locus with one of its members, or with nothing when it has none. |
| Store.JoinOneCounts | routes/locus.js:75 | A locus's joined rows hold each of its members as often as the member table does, or exactly one member-less row when it has none. |
| Store.LeftJoin | routes/locus.js:75 | The left join holds exactly the pairs of a locus with one of its members, plus a member-less row for each locus without members. |
| Store.LeftJoinCounts | routes/locus.js:75 | Bag semantics: a pair occurs as often as its locus times its member occur in the tables, and a member-less row once per copy of a locus without members. |
| Store.JoinRowsOccurOnce | routes/locus.js:75 | Under both primary keys the join never yields the same row twice. |
| Store.BaseRows | routes/locus.js:107-111 | Joined, the scan holds exactly the left join's pairs. Unjoined, it holds exactly the loci, with null member columns. |
| Store.BaseRowsCounts | routes/locus.js:107-111 | Joined, the scan counts rows as the left join does. Unjoined, it has one member-less row per copy of each locus and no other row. |
| Store.Filter | routes/locus.js:118-119 | A row survives the WHERE clause as often as it occurs exactly when it satisfies every predicate. A predicate on a member column is not satisfied by a NULL member. |
| Store.EmptyWhereKeepsAll | routes/locus.js:113-119 | An empty conjunction filters nothing out. |
| Store.KeyOrderIsTotalPreorder | routes/locus.js:122 | The sort order is total and transitive in both directions, with NULL placement included. |
| Store.Insert | routes/locus.js:122 | Inserting a row into an ordered sequence adds exactly that row and keeps the sequence ordered. |
| Store.SortRows | routes/locus.js:122 | The sorted rows are a permutation of the input, ordered by the key. |
| Store.Window | routes/locus.js:120-121 | OFFSET then LIMIT: at most `limit` rows, starting at position `offset`. |
| Store.WindowKeepsOrder | routes/locus.js:120-122 | A window of an ordered sequence is ordered. |
| Store.Evaluate | routes/locus.js:118-122 | The query is refused exactly when the limit or offset is negative or beyond `bigint`, or an id or region id in the WHERE clause is beyond `integer`. Otherwise it returns at most `limit` rows, each from the scan and satisfying the WHERE clause, in key order. |
| Store.EvaluateIsPageOfOrderedMatches | routes/locus.js:118-122 | The page is the window at `offset` of some key-ordered permutation of the matching rows. |
| Store.FirstPageHoldsAllMatches | routes/locus.js:118-122 | A first page as large as the match set returns every matching row, as often as it matches. |
| Store.MemberFilterActsAsInnerJoin | routes/locus.js:109-119 | Under a member predicate, every returned row carries a real member of its locus that satisfies the predicate. |
| Sideload.SelectRows | routes/locus.js:66-73 | The select list loses nothing: each joined row can be read back from its result row. Each result row has its row's locus columns, a member key exactly when the row has a member, and all four member columns null otherwise. |
| Sideload.MembersFor | routes/locus.js:94-101 | A locus's listed members are exactly those taken from its rows whose member key is truthy. |
| Sideload.Positions | routes/locus.js:82-94 | The positions of the rows that list a member under a locus: all of them, only them, in increasing order. |
| Sideload.MembersForInRowOrder | routes/locus.js:82-101 | The list has one entry per listing row, in row order: its k-th entry is the member of the k-th such row. |
| Sideload.GroupOfExtension | routes/locus.js:82-102 | One more row changes only its own locus's object. The object is created with that row's locus columns if new, and gains that row's member if its key is truthy. |
| Sideload.AddRowEffect | routes/locus.js:82-102 | One `forEach` step appends the row's id to the insertion order only when it is new, and creates that id's object from the row's locus columns only then. It adds the row's member only when the key is truthy, and leaves every other id's object unchanged. |
| Sideload.AddRowKeepsMap | routes/locus.js:82-102 | One `forEach` step keeps the map and its insertion order equal to the grouping of the rows seen so far. |
| Sideload.MapValuesInOrder | routes/locus.js:104 | Reading the map's values in insertion order gives the declarative grouping. |
| Sideload.GroupLoci | routes/locus.js:81-104 | The `Map`-based loop returns exactly the declarative grouping. |
| Sideload.GroupSpecShape | routes/locus.js:81-104 | The objects have pairwise distinct ids, exactly the ids of the rows, in order of first occurrence, and never outnumber the rows. Each object holds its id's first-row locus columns and every member of its rows. |
| Sideload.AsWrittenListsNoMembers | routes/locus.js:69-101 | With the member key selected as written, every sideloaded locus has an empty `locusMembers`. |
| Sideload.SideloadListsEveryMember | routes/locus.js:94-101 | With the member key selected, every joined row whose key is truthy puts its member under its locus. |
| Dedupe.LastWithId | routes/locus.js:126 | The value kept for an id is an item with that id that no later item with the same id follows. |
| Dedupe.LastWithIdOfExtension | routes/locus.js:126 | A later pair replaces the value kept for its own id and no other. |
| Dedupe.SetKeepsMap | routes/locus.js:126 | Adding one pair keeps the map and its insertion order equal to the declarative dedupe of the items seen so far. |
| Dedupe.MapValuesInOrder | routes/locus.js:126 | Reading the map's values in insertion order gives the declarative dedupe. |
| Dedupe.DedupeById | routes/locus.js:124-127 | The `Map`-based dedupe returns exactly the declarative dedupe. |
| Dedupe.DedupeSpecShape | routes/locus.js:124-127 | The output has pairwise distinct ids, exactly the ids of the input, in order of first occurrence, each item taken from the input, and is never longer than it. |
| Dedupe.DedupeKeepsFirstRecord | routes/locus.js:126 | When same-id items are equal, the kept item is the first one with that id. |
| Dedupe.DedupeOfDistinctIsIdentity | routes/locus.js:124-127 | Input without repeated ids comes back unchanged. |
| FirstOccurrence.Distinct | routes/locus.js:81-83 | The list has the same values as the input, with no repeats, and is never longer. |
| FirstOccurrence.FirstIndex | routes/locus.js:83 | The position holds the value, and no earlier position does. |
| FirstOccurrence.DistinctKeepsFirstOccurrenceOrder | routes/locus.js:81-83 | The distinct values are listed in order of their first occurrence. |
| FirstOccurrence.DistinctOfUnique | routes/locus.js:126 | A list without repeats is its own distinct list. |
| LocusRoute.LimitedRowsAreAllowListed | routes/locus.js:36-122 | Every row the limited role receives belongs to a locus with a member in one of the three fixed regions. |
| LocusRoute.LimitedSeesNothingWithoutAllowListedMembers | routes/locus.js:36-122 | With no member in a fixed region, the limited role's answer is empty and not an error. |
| LocusRoute.SideloadMembersBelong | routes/locus.js:65-104 | Every listed member is a member of its locus in the tables and satisfies the member filters. |
| LocusRoute.LimitedResultShape | routes/locus.js:124-127 | The limited answer has no repeated id, and each locus has an allow-listed member. |
| LocusRoute.ListLoci | routes/locus.js:9-133 | The response is a 500 exactly when the request does not fit: a limit or offset that is negative or beyond `bigint`, or an id or (outside the limited role) a region id beyond `integer`. It is grouped objects exactly for an admin asking `sideload=locusMembers`, never more than `rows` of them. Normal and admin get the page's locus columns. Limited gets the page deduplicated by id, with distinct ids, every locus allow-listed. |
| LocusRoute.LimitedDedupeKeepsFirstRow | routes/locus.js:124-127 | In a well-formed store, the limited role's dedupe keeps each locus's first row and drops only repeats. |
| LocusRoute.ScannedLociAreRecords | models/schema.js:5 | In a well-formed store, scanned rows that share a locus id carry identical locus columns. |
| LocusRoute.NormalRoleRepeatsLoci | routes/locus.js:107-129 | A normal caller filtering on a region gets a locus once per matching member: two members give the same locus twice. |
| LocusRoute.SideloadPageCanHoldFewerLoci | routes/locus.js:66-79 | The sideload query pages over joined rows. With `rows=2`, a page can hold a single locus while two loci match. |

## Left out

- Express plumbing is not modelled: routing, JSON bodies and the response status codes other than the three login outcomes and the 500 branch. The authentication middleware that sets `req.user` is not part of this model; the role arrives as a parameter.
- Signing the token (`jwt.sign`, the secret, the one-hour expiry) is left out. A successful login is modelled as the payload it signs.
- SQL generation by the query builder is not modelled. The store is modelled by what the query means. Whether the builder drops a negative limit before sending it is not modelled; a negative LIMIT or OFFSET is taken to be refused, giving a 500.
- The order of the join's rows before ORDER BY is not a promise of PostgreSQL, so the join is stated as a bag (`Store.LeftJoinCounts`). The table order the definitions happen to produce is only visible among rows with equal sort keys.
- Other store failures (lost connection, timeouts, a string parameter PostgreSQL cannot decode) are left out. They all end in the same 500 branch.
- An `id` or `regionId` list with no values cannot come from a query string; the model evaluates such a list as matching no row.
- LocusPlan.BuildPlan: the offset `(page - 1) * rows` is the exact integer product, while the source computes it as a JavaScript double (routes/locus.js:24). Above 2^53 the double is rounded, so near the largest `bigint` the source can round an offset that fits up past it (`page=4&rows=3074457345618258432` gives 2^63). `StoreAccepts` and `RequestFits` judge the exact product.
- LocusRoute.ListLoci: for the same reason the 500 boundary near the largest `bigint` is the exact product's, not the rounded double's; the two differ only for offsets above 2^53.
- `Number()` and `String()` coercion of raw query strings is not modelled, nor are `NaN` pages or sizes and non-integer numbers. Parameters arrive parsed.
- `toLowerCase` is modelled on ASCII letters only. Characters outside ASCII cannot lower-case into "desc", so the direction is unaffected.
- The order among rows with equal sort keys is the store's choice. `Store.Evaluate` fixes one; the lemmas about it only use the key order.
- Roles other than the three are left out: any other role string would be handled as `normal`.
- Column widths (32-bit integers, `varchar(255)`) are stated in `Schema.WellFormed` but are not enforced on writes, since the service never writes.
- Logging in the catch block is left out, because it is I/O.
- tests/locus.test.js is not modelled.

Two behaviours of the code worth knowing:
- The limited role's dedupe runs on the page the store returned, after LIMIT and OFFSET. It keeps the position of an id's first row but the value of its last row. Under the primary key those rows are equal (`LocusRoute.LimitedDedupeKeepsFirstRow`).
- The limited role's loci are guaranteed only one member in the fixed regions. Their other members are not constrained: the join only requires some qualifying member.

## Findings

| source | as written | input that shows it | evidently intended | confidence | as-written member | corrected member |
|---|---|---|---|---|---|---|
| routes/locus.js:69 | `memberId` selects `rncLocusMembers.id`, but models/schema.js:21 names the member key `locusMemberId`. No row carries a member key, so `if (row.memberId)` never holds. | Any admin `GET /api/locus?sideload=locusMembers` over a locus with a member. The query builder may fail on the undefined select entry, so every such request is a 500 (routes/locus.js:130-133). If it instead reads the entry as a null column, the locus's `locusMembers` comes back empty; the as-written member models this second reading. | Select the member key `locusMemberId`, so each joined member is listed under its locus. | medium, not executed | Sideload.AsWrittenListsNoMembers | Sideload.SideloadListsEveryMember |

The rest of the model uses the corrected selection (`Sideload.SelectRow`).
