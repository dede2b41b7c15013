# FriendsMatch core in Dafny

FriendsMatch lets people list their interests, discover other people who
share them, send friend requests, and keep a friends list. This project models
the logic behind that. It covers the backend's REST handlers and two pure
helpers of the profile screen.

- `Tables` (tables.dfy): the rows of `profiles`, `user_interests`,
  `friend_requests` and `friendships`. Ids are strings, interest ids are
  integers, and the `interests` catalog maps an id to its name.
- `Discover` (discover.dfy): `GET /api/discover`. It reads the caller's
  interest ids and keeps the other users' rows for those interests. The
  `forEach` grouping becomes the loop of `GroupByUser`. The results are sorted
  by `matchCount`, most shared interests first, and the first 20 are returned.
  JavaScript's `sort` is stable, so users with equal counts stay in order of
  first appearance. The model proves that its insertion sort is the only sort
  by count that keeps that order (`StableSortIsSortByCount`).
- `FriendGraph` (friendship.dfy): the pure parts of the friend endpoints.
  These are finding the responded request, the status written, the canonical
  friendship row, the pending list with sender details, the other side of each
  friendship, the friends list with the friends' interests, and deleting a
  pair in either orientation.
- `LexOrder` (lex_order.dfy): the default string order of `Array.prototype.sort`
  and the sorted pair `[a, b].sort()`.
- `ProfileRows` (profile.dfy): the lazily created profile, the default username
  `user_<first 8 characters of the id>`, the upsert defaults (`x || ''`), and
  replacing a user's interests (delete all, then insert the selection).
- `Api` (store.dfy): class `Store` holds the tables as fields. It has one
  method per endpoint that writes. `Valid()` holds the table constraints and
  every method keeps it. Three client methods go through accept, reject, late
  accept, repeated accept and repeated removal.
- `ProfileView` (profile_view.dfy): `toggleInterest` and the checks of
  `uploadAvatar`: an `image/` MIME prefix, a 5 MiB cap and the stored name
  `<userId>-<timestamp>.<ext>`.
- `Seqs` and `Wrappers`: duplicate removal in first-appearance order,
  `Option`, `Result`.

Some of the code's behaviour is easy to misread. The model follows the code:
- The friendship row is `[sender, receiver].sort()`, so `user1 <= user2`, not
  `<`. A request to oneself that is accepted gives the row `(a, a)`.
- `matchingInterests` in the friends list holds all of the friend's interests,
  not only the ones shared with the caller.
- `respond` does not check that the request is still pending. A rejected
  request can be accepted later.
- Sending does not reject a request to oneself or a second request for the
  same pair.
- Discover does not leave out users who are already friends.
- Accepting a request twice fails on the second friendship insert. The status
  update has already been written by then, because the two writes are not one
  transaction.

## Model

| member | source | states |
|---|---|---|
| Discover.MyInterestIds | backend/server.js:246-255 | an interest id is in the caller's list exactly when the caller has a row for it |
| Discover.Matches | backend/server.js:258-262 | a row is kept exactly when it belongs to another user and its interest is one of the caller's; each kept row carries the catalog name of its interest |
| Discover.GroupByUser | backend/server.js:267-279 | the dictionary loop produces one entry per user in order of first appearance, and each entry holds that user's interest names in row order |
| Discover.GroupStep | backend/server.js:268-278 | one more row adds its interest name and one to its own user's entry and leaves every other entry unchanged |
| Discover.UsersStep | backend/server.js:270-276 | one more row adds its user to the keys exactly when the user is new |
| Discover.GroupsFor | backend/server.js:267-279 | the groups line up one-to-one with the given user ids |
| Discover.CountIsNamesLength | backend/server.js:276-277 | `matchCount` equals the length of `matchingInterests` |
| Discover.CountPositive | backend/server.js:270-277 | a user has a group exactly when at least one of their rows matched |
| Discover.GroupingFacts | backend/server.js:267-282 | the grouped ids are distinct and are exactly the users with matching rows; every entry is that user's names and count, the count equals the user's row count and is at least 1 |
| Discover.SumCountsIsRowCount | backend/server.js:267-279 | the counts summed over all groups equal the number of matching rows |
| Discover.SortByCount | backend/server.js:283 | the sort is a permutation with the same members and is non-increasing by `matchCount`; distinct users stay distinct |
| Discover.Insert | backend/server.js:283 | inserting one candidate adds exactly that candidate to the multiset |
| Discover.InsertSorted | backend/server.js:283 | inserting by count into a sorted list keeps it sorted |
| Discover.InsertDistinct | backend/server.js:283 | inserting a new user into a list of distinct users keeps the users distinct |
| Discover.SortByCountStable | backend/server.js:283 | for every count, the candidates with that count keep their relative order (stable sort) |
| Discover.SortedUnique | backend/server.js:283 | two lists sorted by count with the same order inside each count are equal |
| Discover.StableSortIsSortByCount | backend/server.js:283 | any stable sort by count gives the same result as the model's sort |
| Discover.WithCountMembers | backend/server.js:283 | the candidates with a given count are exactly the members with that count |
| Discover.InsertWithCount | backend/server.js:283 | an insertion adds the new candidate in front of the others with the same count |
| Discover.SumCountsOfGroups | backend/server.js:267-279 | the counts of the groups of some users add up to those users' row count |
| Discover.FindMatches | backend/server.js:244-287 | no interests gives the empty list; otherwise the first min(20, groups) of the stable sort: at most 20 candidates, sorted by count, distinct, never the caller; each candidate's names are exactly the names of the interests it shares with the caller, and, when no `user_interests` row is stored twice, its count is the number of those shared interest ids |
| Discover.SharedCount | backend/server.js:258-279 | with no row stored twice, the rows kept for another user number exactly the interest ids that user shares with the caller |
| Discover.MatchCountIds | backend/server.js:258-262 | with no row stored twice, the rows kept for another user number exactly that user's distinct ids among the caller's |
| Discover.MatchNames | backend/server.js:258-277 | the names collected for another user are exactly the catalog names of the interests both that user and the caller have |
| Discover.NamesOfMembers | backend/server.js:277 | a name is collected for a user exactly when one of that user's rows carries it |
| Discover.GroupingUsers | backend/server.js:258-282 | the grouping lists each user once and never the caller |
| Discover.RankedFacts | backend/server.js:282-284 | the first 20 of the sorted groups stay sorted and distinct, and each is its user's group from the grouping, without the caller |
| Discover.ChessAndHikingExample | backend/server.js:244-287 | caller A with Chess and Hiking and user B with Chess gives exactly one candidate, B, with `["Chess"]` and count 1 |
| FriendGraph.StatusFor | backend/server.js:397 | the written status is never pending, and is accepted exactly when `accept` holds |
| FriendGraph.FindRequest | backend/server.js:400-411 | the request found has the given id and the caller as receiver; when none is found, no request has both |
| FriendGraph.PendingFor | backend/server.js:347-351 | a request is listed exactly when the caller is its receiver and it is pending |
| FriendGraph.Format | backend/server.js:359-368 | the view copies id, sender, status and time, and the sender's profile columns are present exactly when the sender has a profile |
| FriendGraph.PendingRequests | backend/server.js:345-368 | one formatted view per pending request for the caller, in table order |
| FriendGraph.PendingRequestsExact | backend/server.js:345-368 | every listed view comes from a pending request to the caller, and every such request is listed |
| FriendGraph.CanonicalFriendship | backend/server.js:413-422 | the inserted row is the sender and receiver in sorted order, `user1 <= user2` |
| FriendGraph.CanonicalFriendshipSymmetric | backend/server.js:415 | a request from a to b and one from b to a give the same row |
| FriendGraph.PairRowUnique | backend/server.js:415-422 | in a canonical table without duplicate rows, at most one row joins a given pair |
| FriendGraph.RemovePair | backend/server.js:526-532 | the rows left are exactly those not joining the two users, and every other row keeps its count |
| FriendGraph.RemovePairAppend | backend/server.js:526-532 | deleting from a table is deleting from each part, so the rows that stay keep their order |
| FriendGraph.RemovePairDistinct | backend/server.js:526-532 | deleting keeps a table without duplicate rows |
| FriendGraph.RemovePairAbsent | backend/server.js:526-537 | deleting a pair with no row changes nothing |
| FriendGraph.RemovePairIdempotent | backend/server.js:526-537 | deleting the same pair twice is the same as deleting it once |
| FriendGraph.RemovePairSymmetric | backend/server.js:529 | the delete removes the same rows whichever user calls it |
| FriendGraph.FriendIds | backend/server.js:470-472 | at most one friend id per row |
| FriendGraph.FriendIdsOfRow | backend/server.js:470-472 | a row yields its other side when the caller is on it, and nothing otherwise |
| FriendGraph.FriendIdsAppend | backend/server.js:455-472 | the ids of a table are the ids of its parts in turn, so there is one id per row that has the caller on it, in row order |
| FriendGraph.FriendIdsExact | backend/server.js:455-472 | u is listed for the caller exactly when a row joins the caller and u in either orientation |
| FriendGraph.FriendsBothWays | backend/server.js:413-422 | after an accepted request, each side lists the other as a friend |
| FriendGraph.RemovedFromBothLists | backend/server.js:526-532 | after removal, neither user lists the other |
| FriendGraph.ViewsOf | backend/server.js:474-497 | each view is the friend's profile plus all of the friend's interest names |
| FriendGraph.ViewsOfIds | backend/server.js:474-477 | the ids with a view are exactly the requested ids that have a profile, each once |
| FriendGraph.FriendsExact | backend/server.js:455-497 | the friends list holds, once each, exactly the friends who have a profile, each with their profile and all their interest names |
| LexOrder.LessIrreflexive | backend/server.js:415 | no id sorts before itself |
| LexOrder.LessAsymmetric | backend/server.js:415 | two ids never sort before each other |
| LexOrder.LessTotal | backend/server.js:415 | of two different ids, one sorts before the other |
| LexOrder.LessEqAntisymmetric | backend/server.js:415 | two ids that each sort no later than the other are equal |
| LexOrder.SortPair | backend/server.js:415 | `[a, b].sort()` is a or b in order, the smaller one first |
| LexOrder.SortPairSymmetric | backend/server.js:415 | sorting `[a, b]` and `[b, a]` gives the same pair |
| LexOrder.SortPairUnique | backend/server.js:415 | the sorted pair is the only ordered arrangement of the two |
| Tables.InterestNames | backend/server.js:484-494 | a name is listed exactly when the user has a row for an interest with that name |
| ProfileRows.OrEmpty | backend/server.js:184-189 | `x \|\| ''` is the value when given and not empty, and `''` otherwise |
| ProfileRows.DefaultUsername | backend/server.js:110 | a non-empty metadata username is used; otherwise `user_` and at most the first 8 characters of the id |
| ProfileRows.NewProfile | backend/server.js:104-116 | a new row has the id, the username and both times set, and nothing else |
| ProfileRows.Upserted | backend/server.js:180-193 | the upserted row keeps its creation time, sets every text column to the value or `''`, and sets age and the update time |
| ProfileRows.WithoutUser | backend/server.js:207-210 | the delete removes the caller's rows and keeps every other user's interests |
| ProfileRows.RowsFor | backend/server.js:218-221 | one row for the caller per selected id, in order |
| ProfileRows.InterestIdsOfAppend | backend/server.js:207-225 | a user's interest ids in two tables put together are the ids of each in turn |
| ProfileRows.InterestIdsOfRowsFor | backend/server.js:218-221 | the inserted rows give the caller the selection and nobody else anything |
| ProfileRows.ReplaceInterestsEffect | backend/server.js:202-233 | afterwards the caller has exactly the selection when the insert is accepted, and none otherwise; other users keep their interests |
| ProfileRows.ReplaceInterestsValid | backend/server.js:202-233 | the replacement keeps every row in the catalog and no row twice |
| ProfileRows.AppendRows | backend/server.js:223-225 | inserting rows that meet the constraints and repeat no existing row keeps the constraints |
| ProfileRows.KeptUnique | backend/server.js:207-210 | deleting a user's rows keeps the table without duplicates |
| ProfileRows.InterestEntries | backend/server.js:130-146 | one entry per interest row of the user, with the same ids in the same order; each entry has a name exactly when the catalog has that id, and then it is the catalog name |
| Api.Store.constructor | backend/server.js:72-542 | an empty store satisfies the table constraints |
| Api.Store.GetProfile | backend/server.js:93-146 | an existing profile is returned as is; a missing one is created with the default username and stored; the interests come with their names |
| Api.Store.UpdateProfile | backend/server.js:180-233 | the profile row becomes the upserted row; the interests are replaced only when a list is given; other tables are unchanged |
| Api.Store.SendRequest | backend/server.js:308-316 | a pending request with a fresh id is appended, from the caller to the receiver |
| Api.Store.Respond | backend/server.js:397-428 | no request with that id for the caller gives an error and no change; otherwise the status is written, and on accept the canonical row is added or, if already there, a duplicate error is returned with the status kept |
| Api.Store.RemoveFriend | backend/server.js:526-537 | the friendships become the table without the pair's rows |
| ProfileView.RemoveAll | frontend/src/Components/Profile/ProfileView.js:71 | `filter(i => i !== id)` removes every copy of the id and keeps the others |
| ProfileView.RemoveAllAppend | frontend/src/Components/Profile/ProfileView.js:71 | filtering a joined list is filtering each part, so the order is kept |
| ProfileView.RemoveAllAbsent | frontend/src/Components/Profile/ProfileView.js:71 | filtering out an absent id changes nothing |
| ProfileView.Toggle | frontend/src/Components/Profile/ProfileView.js:69-73 | only the given id changes membership; a present id has every copy removed; an absent id is appended |
| ProfileView.ToggleTwice | frontend/src/Components/Profile/ProfileView.js:69-73 | toggling twice restores membership, and restores the list itself when the id was absent |
| ProfileView.Decimal | frontend/src/Components/Profile/ProfileView.js:95 | `${Date.now()}` is a non-empty string of decimal digits |
| ProfileView.DecimalRoundTrip | frontend/src/Components/Profile/ProfileView.js:95 | the digits read back as the same number |
| ProfileView.Extension | frontend/src/Components/Profile/ProfileView.js:94 | `split('.').pop()` is the suffix after the last dot, or the whole name when there is no dot |
| ProfileView.ExtensionAfterDot | frontend/src/Components/Profile/ProfileView.js:94 | the text after a final dot is the extension |
| ProfileView.AvatarPathExtension | frontend/src/Components/Profile/ProfileView.js:94-95 | the stored name keeps the file's extension: the text after its last dot is the extension of the chosen file |
| ProfileView.AvatarPathOwner | frontend/src/Components/Profile/ProfileView.js:95 | the stored name starts with `<userId>-` |
| ProfileView.CheckUpload | frontend/src/Components/Profile/ProfileView.js:79-95 | no file stops the upload; a non-`image/` type is refused; a size over 5 MiB is refused; otherwise the file goes under `<userId>-<time>.<ext>` |
| ProfileView.SizeLimitInclusive | frontend/src/Components/Profile/ProfileView.js:89-92 | exactly 5 MiB is accepted, and one byte more is refused |
| Seqs.Distinct | backend/server.js:470-477 | no element is listed twice, and the elements are exactly those of the input |
| Seqs.DistinctInOrder | backend/server.js:267-282 | the elements come in order of their first occurrence, the key order of `Object.values` on the grouping |
| Seqs.FirstIndex | backend/server.js:267-282 | the position found holds the element and no earlier position does |

## Left out

- The Express app, CORS and JSON middleware, logging, HTTP status codes and
  `app.listen` are not modelled. Outcomes are `Result` and `Option` values.
- Bearer-token authentication via `supabase.auth.getUser` is not modelled. The
  acting user id is a parameter that is trusted.
- Supabase clients, row-level security, PostgREST query strings and joins are
  not modelled. The tables are values in memory and each filter is written
  out.
- The store's schema is not part of the repository. The model assumes that
  `user_interests` references the catalog and holds no pair twice, that
  friendships hold no pair twice, and that request ids are fresh.
- The profile upsert sends no `created_at`. The model assumes the column
  defaults to the time of the request for a new row and is kept for an
  existing row.
- The grouping's key order is insertion order only because user ids are
  UUIDs. `Object.values` lists keys that look like integers first, in
  numeric order, and the model does not cover such keys.
- A batch insert of interests either succeeds whole or fails whole. A failure
  is swallowed and leaves the user with no interests. Failures of other reads
  and writes are not modelled, so the `[]` fallbacks for a failed read never
  occur here.
- SQL gives no row order. The model uses table order wherever order is
  visible: discover groups, pending requests, friend ids. The friends list
  is in order of the first row for each friend. The store may return
  profiles in another order.
- Discover entries carry the user id but not the joined profile columns.
- `GET /api/interests` is a plain read of the catalog and is not modelled.
- Time stamps (`new Date().toISOString()`, `Date.now()`) are inputs.
- `parseInt(age)` is not modelled. The age arrives already parsed, and a
  falsy age is `None`.
- The `Promise.all` fan-out of the friends list is a sequential map.
- Storage upload, the public URL, `alert` and React state are not modelled.
  Neither are the other screens and the axios wrapper in
  frontend/src/Services/api.js.
- JavaScript compares strings by UTF-16 code unit and the model compares by
  character. These agree on the ASCII UUID ids.
- ProfileView.Toggle: the "id already present" case states membership and
  multiplicities of the other ids. The kept order follows from
  `RemoveAllAppend` but is not stated on its own.
