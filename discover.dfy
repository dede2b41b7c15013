/** `GET /api/discover`: the other users who share an interest with the
    caller, grouped per user, ranked by the number of shared interests and
    cut to the first twenty. */
module Discover {
  import opened Seqs
  import opened Tables

  /** `.slice(0, 20)` */
  const MaxResults := 20

  /** A `user_interests` row joined with the name of its interest. */
  datatype MatchRow = MatchRow(userId: UserId, interestId: InterestId, interestName: string)

  /** One entry of the response. The profile columns the handler spreads
      into it are a lookup by `userId` and are not carried. */
  datatype Candidate = Candidate(userId: UserId, matchingInterests: seq<string>, matchCount: nat)

  // ---------------------------------------------------------------------
  // The two queries
  // ---------------------------------------------------------------------

  /** The caller's interest ids, `select('interest_id').eq('user_id', me)`. */
  function MyInterestIds(me: UserId, rows: seq<UserInterest>): (ids: seq<InterestId>)
    ensures forall i :: i in ids <==> UserInterest(me, i) in rows
  {
    if rows == [] then []
    else (if rows[0].userId == me then [rows[0].interestId] else []) + MyInterestIds(me, rows[1..])
  }

  /** `.in('interest_id', ids).neq('user_id', me)`, joined with
      `interests(name)`, in table order. */
  function Matches(me: UserId, ids: seq<InterestId>, rows: seq<UserInterest>, catalog: Catalog): (m: seq<MatchRow>)
    requires InterestsInCatalog(rows, catalog)
    ensures forall r :: r in m ==>
      && r.userId != me && r.interestId in ids
      && UserInterest(r.userId, r.interestId) in rows
      && r.interestId in catalog && r.interestName == catalog[r.interestId]
    ensures forall x :: x in rows && x.userId != me && x.interestId in ids ==>
      MatchRow(x.userId, x.interestId, catalog[x.interestId]) in m
  {
    if rows == [] then []
    else
      var x := rows[0];
      (if x.userId != me && x.interestId in ids then [MatchRow(x.userId, x.interestId, catalog[x.interestId])] else [])
      + Matches(me, ids, rows[1..], catalog)
  }

  // ---------------------------------------------------------------------
  // Grouping by user
  // ---------------------------------------------------------------------

  function UserIdsOf(rows: seq<MatchRow>): (us: seq<UserId>)
  {
    seq(|rows|, k requires 0 <= k < |rows| => rows[k].userId)
  }

  /** The keys of `userMatches` in insertion order, which is the order
      `Object.values` lists them in. */
  function Users(rows: seq<MatchRow>): seq<UserId>
  {
    Distinct(UserIdsOf(rows))
  }

  /** How many rows belong to `u`. */
  function Count(rows: seq<MatchRow>, u: UserId): nat
  {
    if rows == [] then 0
    else Count(rows[..|rows| - 1], u) + (if rows[|rows| - 1].userId == u then 1 else 0)
  }

  /** The interest names of the rows of `u`, in row order. */
  function NamesOf(rows: seq<MatchRow>, u: UserId): seq<string>
  {
    if rows == [] then []
    else NamesOf(rows[..|rows| - 1], u) + (if rows[|rows| - 1].userId == u then [rows[|rows| - 1].interestName] else [])
  }

  /** The entry the loop leaves in `userMatches[u]`. */
  function Group(rows: seq<MatchRow>, u: UserId): Candidate
  {
    Candidate(u, NamesOf(rows, u), Count(rows, u))
  }

  function GroupsFor(rows: seq<MatchRow>, us: seq<UserId>): (g: seq<Candidate>)
    ensures |g| == |us|
    ensures forall k :: 0 <= k < |us| ==> g[k] == Group(rows, us[k])
  {
    if us == [] then [] else [Group(rows, us[0])] + GroupsFor(rows, us[1..])
  }

  /** `Object.values(userMatches)` after the loop. */
  function Grouping(rows: seq<MatchRow>): seq<Candidate>
  {
    GroupsFor(rows, Users(rows))
  }

  lemma {:induction false} CountIsNamesLength(rows: seq<MatchRow>, u: UserId)
    ensures |NamesOf(rows, u)| == Count(rows, u)
    decreases |rows|
  {
    if rows != [] {
      CountIsNamesLength(rows[..|rows| - 1], u);
    }
  }

  /** A user has rows exactly when it is one of the grouping's keys. */
  lemma {:induction false} CountPositive(rows: seq<MatchRow>, u: UserId)
    ensures Count(rows, u) > 0 <==> u in UserIdsOf(rows)
    decreases |rows|
  {
    if rows != [] {
      var init := rows[..|rows| - 1];
      CountPositive(init, u);
      assert UserIdsOf(rows) == UserIdsOf(init) + [rows[|rows| - 1].userId];
    }
  }

  /** One more row adds its name and one to its own user's entry and
      leaves every other entry as it was. */
  lemma GroupStep(rows: seq<MatchRow>, i: nat, u: UserId)
    requires i < |rows|
    ensures u == rows[i].userId ==>
      Group(rows[..i + 1], u) == Candidate(u, NamesOf(rows[..i], u) + [rows[i].interestName], Count(rows[..i], u) + 1)
    ensures u != rows[i].userId ==> Group(rows[..i + 1], u) == Group(rows[..i], u)
  {
    assert rows[..i + 1][..i] == rows[..i];
  }

  /** One more row adds its user to the keys when the user is new. */
  lemma UsersStep(rows: seq<MatchRow>, i: nat)
    requires i < |rows|
    ensures Users(rows[..i + 1]) ==
      if rows[i].userId in Users(rows[..i]) then Users(rows[..i]) else Users(rows[..i]) + [rows[i].userId]
  {
    var ids := UserIdsOf(rows[..i + 1]);
    assert ids[..|ids| - 1] == UserIdsOf(rows[..i]);
  }

  /** The loop of the handler: one pass over the rows that creates an entry
      the first time a user is seen, then appends the interest name and
      increments the count. */
  method GroupByUser(rows: seq<MatchRow>) returns (groups: seq<Candidate>)
    ensures groups == Grouping(rows)
  {
    var userMatches: map<UserId, Candidate> := map[];
    var keys: seq<UserId> := [];
    for i := 0 to |rows|
      invariant keys == Users(rows[..i])
      invariant forall u :: u in userMatches <==> u in keys
      invariant forall u :: u in userMatches ==> userMatches[u] == Group(rows[..i], u)
    {
      var r := rows[i];
      UsersStep(rows, i);
      if r.userId !in userMatches {
        CountPositive(rows[..i], r.userId);
        CountIsNamesLength(rows[..i], r.userId);
        userMatches := userMatches[r.userId := Candidate(r.userId, [], 0)];
        keys := keys + [r.userId];
      }
      var entry := userMatches[r.userId];
      userMatches := userMatches[r.userId := entry.(
        matchingInterests := entry.matchingInterests + [r.interestName],
        matchCount := entry.matchCount + 1)];
      forall u | u in userMatches
        ensures userMatches[u] == Group(rows[..i + 1], u)
      {
        GroupStep(rows, i, u);
      }
    }
    assert rows[..|rows|] == rows;
    groups := seq(|keys|, k requires 0 <= k < |keys| => userMatches[keys[k]]);
  }

  // ---------------------------------------------------------------------
  // Facts about the grouping
  // ---------------------------------------------------------------------

  function CandidateIds(g: seq<Candidate>): seq<UserId>
  {
    seq(|g|, k requires 0 <= k < |g| => g[k].userId)
  }

  /** One entry per user that has rows, none twice; each entry counts that
      user's rows and lists as many names as it counts. */
  lemma GroupingFacts(rows: seq<MatchRow>)
    ensures CandidateIds(Grouping(rows)) == Users(rows)
    ensures AllDistinct(CandidateIds(Grouping(rows)))
    ensures forall u :: u in CandidateIds(Grouping(rows)) <==> u in UserIdsOf(rows)
    ensures forall c :: c in Grouping(rows) ==>
      && c == Group(rows, c.userId)
      && c.matchCount == Count(rows, c.userId) == |c.matchingInterests|
      && c.matchCount >= 1
  {
    var g := Grouping(rows);
    forall c | c in g
      ensures c == Group(rows, c.userId)
      ensures c.matchCount == Count(rows, c.userId) == |c.matchingInterests| && c.matchCount >= 1
    {
      var k :| 0 <= k < |g| && g[k] == c;
      CountIsNamesLength(rows, c.userId);
      CountPositive(rows, c.userId);
    }
  }

  function SumCounts(g: seq<Candidate>): nat
  {
    if g == [] then 0 else g[0].matchCount + SumCounts(g[1..])
  }

  /** Sum over `us` of the number of rows of each. */
  function RowsOfUsers(rows: seq<MatchRow>, us: seq<UserId>): nat
  {
    if us == [] then 0 else Count(rows, us[0]) + RowsOfUsers(rows, us[1..])
  }

  lemma {:induction false} SumCountsOfGroups(rows: seq<MatchRow>, us: seq<UserId>)
    ensures SumCounts(GroupsFor(rows, us)) == RowsOfUsers(rows, us)
    decreases |us|
  {
    if us != [] {
      var g := GroupsFor(rows, us);
      assert g[1..] == GroupsFor(rows, us[1..]);
      SumCountsOfGroups(rows, us[1..]);
    }
  }

  lemma {:induction false} RowsOfUsersAppendRow(rows: seq<MatchRow>, r: MatchRow, us: seq<UserId>)
    requires AllDistinct(us)
    ensures RowsOfUsers(rows + [r], us) == RowsOfUsers(rows, us) + (if r.userId in us then 1 else 0)
    decreases |us|
  {
    if us != [] {
      assert (rows + [r])[..|rows + [r]| - 1] == rows;
      RowsOfUsersAppendRow(rows, r, us[1..]);
      assert us == [us[0]] + us[1..];
    }
  }

  lemma {:induction false} RowsOfUsersAppendUser(rows: seq<MatchRow>, us: seq<UserId>, v: UserId)
    ensures RowsOfUsers(rows, us + [v]) == RowsOfUsers(rows, us) + Count(rows, v)
    decreases |us|
  {
    if us != [] {
      assert (us + [v])[1..] == us[1..] + [v];
      RowsOfUsersAppendUser(rows, us[1..], v);
    }
  }

  /** Summed over all entries, the counts add up to the number of rows:
      every row is counted once, for its own user. */
  lemma {:induction false} SumCountsIsRowCount(rows: seq<MatchRow>)
    ensures SumCounts(Grouping(rows)) == |rows|
    decreases |rows|
  {
    SumCountsOfGroups(rows, Users(rows));
    if rows != [] {
      var init, r := rows[..|rows| - 1], rows[|rows| - 1];
      assert rows == init + [r];
      assert UserIdsOf(rows) == UserIdsOf(init) + [r.userId];
      SumCountsIsRowCount(init);
      SumCountsOfGroups(init, Users(init));
      var us := Users(init);
      RowsOfUsersAppendRow(init, r, us);
      if r.userId !in us {
        RowsOfUsersAppendUser(rows, us, r.userId);
        CountPositive(init, r.userId);
      }
    }
  }

  // ---------------------------------------------------------------------
  // `.sort((a, b) => b.matchCount - a.matchCount)`, a stable sort
  // ---------------------------------------------------------------------

  predicate SortedByCount(s: seq<Candidate>)
  {
    forall i, j :: 0 <= i < j < |s| ==> s[i].matchCount >= s[j].matchCount
  }

  /** No user has two entries. */
  predicate DistinctUsers(s: seq<Candidate>)
  {
    forall i, j :: 0 <= i < j < |s| ==> s[i].userId != s[j].userId
  }

  /** Puts `c` in front of the first entry whose count is not larger. */
  function Insert(c: Candidate, s: seq<Candidate>): (r: seq<Candidate>)
    ensures multiset(r) == multiset(s) + multiset{c}
    ensures forall x :: x in r <==> x == c || x in s
    ensures |r| == |s| + 1
  {
    if s == [] then [c]
    else if s[0].matchCount > c.matchCount then
      assert s == [s[0]] + s[1..];
      [s[0]] + Insert(c, s[1..])
    else [c] + s
  }

  lemma {:induction false} InsertSorted(c: Candidate, s: seq<Candidate>)
    requires SortedByCount(s)
    ensures SortedByCount(Insert(c, s))
    decreases |s|
  {
    if s != [] && s[0].matchCount > c.matchCount {
      var rest := Insert(c, s[1..]);
      InsertSorted(c, s[1..]);
      var r := [s[0]] + rest;
      forall i, j | 0 <= i < j < |r|
        ensures r[i].matchCount >= r[j].matchCount
      {
        if i == 0 {
          assert r[j] in rest;
          if r[j] != c {
            var k :| 0 <= k < |s[1..]| && s[1..][k] == r[j];
            assert s[k + 1] == r[j];
          }
        } else {
          assert r[i] == rest[i - 1] && r[j] == rest[j - 1];
        }
      }
    }
  }

  lemma {:induction false} InsertDistinct(c: Candidate, s: seq<Candidate>)
    requires DistinctUsers(s)
    requires forall x :: x in s ==> x.userId != c.userId
    ensures DistinctUsers(Insert(c, s))
    decreases |s|
  {
    if s != [] && s[0].matchCount > c.matchCount {
      var rest := Insert(c, s[1..]);
      assert forall x :: x in s[1..] ==> x in s;
      InsertDistinct(c, s[1..]);
      var r := [s[0]] + rest;
      forall i, j | 0 <= i < j < |r|
        ensures r[i].userId != r[j].userId
      {
        if i == 0 {
          assert r[j] in rest;
          if r[j] != c {
            var k :| 0 <= k < |s[1..]| && s[1..][k] == r[j];
            assert s[k + 1] == r[j];
          }
        } else {
          assert r[i] == rest[i - 1] && r[j] == rest[j - 1];
        }
      }
    }
  }

  /** Each entry goes in front of the later entries of equal count, so the
      sort keeps their first-appearance order. */
  function SortByCount(s: seq<Candidate>): (r: seq<Candidate>)
    ensures multiset(r) == multiset(s)
    ensures forall x :: x in r <==> x in s
    ensures |r| == |s|
    ensures SortedByCount(r)
    ensures DistinctUsers(s) ==> DistinctUsers(r)
  {
    if s == [] then [] else
      assert s == [s[0]] + s[1..];
      var rest := SortByCount(s[1..]);
      InsertSorted(s[0], rest);
      if DistinctUsers(s) then InsertDistinct(s[0], rest); Insert(s[0], rest)
      else Insert(s[0], rest)
  }

  /** The entries with count `n`, in order. */
  function WithCount(s: seq<Candidate>, n: nat): seq<Candidate>
  {
    if s == [] then []
    else (if s[0].matchCount == n then [s[0]] else []) + WithCount(s[1..], n)
  }

  lemma {:induction false} WithCountMembers(s: seq<Candidate>, n: nat)
    ensures forall c :: c in WithCount(s, n) <==> c in s && c.matchCount == n
    decreases |s|
  {
    if s != [] {
      WithCountMembers(s[1..], n);
      assert s == [s[0]] + s[1..];
    }
  }

  lemma WithCountCons(x: Candidate, s: seq<Candidate>, n: nat)
    ensures WithCount([x] + s, n) == (if x.matchCount == n then [x] else []) + WithCount(s, n)
  {
    assert ([x] + s)[1..] == s;
  }

  lemma {:induction false} InsertWithCount(c: Candidate, s: seq<Candidate>, n: nat)
    ensures WithCount(Insert(c, s), n) == (if c.matchCount == n then [c] else []) + WithCount(s, n)
    decreases |s|
  {
    if s == [] {
      WithCountCons(c, [], n);
    } else if s[0].matchCount > c.matchCount {
      InsertWithCount(c, s[1..], n);
      InsertPastHead(c, s, n);
    } else {
      WithCountCons(c, s, n);
    }
  }

  /** Putting an entry with a larger count in front of both sides keeps
      the per-count subsequences related. */
  lemma PastHeadCounts(x: Candidate, c: Candidate, rest: seq<Candidate>, tail: seq<Candidate>, n: nat)
    requires x.matchCount > c.matchCount
    requires WithCount(rest, n) == (if c.matchCount == n then [c] else []) + WithCount(tail, n)
    ensures WithCount([x] + rest, n) == (if c.matchCount == n then [c] else []) + WithCount([x] + tail, n)
  {
    WithCountCons(x, rest, n);
    WithCountCons(x, tail, n);
    if x.matchCount == n {
      assert c.matchCount != n;
    }
  }

  /** The step of `InsertWithCount` where `c` goes past the head of `s`. */
  lemma InsertPastHead(c: Candidate, s: seq<Candidate>, n: nat)
    requires s != [] && s[0].matchCount > c.matchCount
    requires WithCount(Insert(c, s[1..]), n) == (if c.matchCount == n then [c] else []) + WithCount(s[1..], n)
    ensures WithCount(Insert(c, s), n) == (if c.matchCount == n then [c] else []) + WithCount(s, n)
  {
    assert Insert(c, s) == [s[0]] + Insert(c, s[1..]);
    PastHeadCounts(s[0], c, Insert(c, s[1..]), s[1..], n);
    assert [s[0]] + s[1..] == s;
  }

  /** Stability: for every count, the entries with that count keep their
      relative order. */
  lemma {:induction false} SortByCountStable(s: seq<Candidate>, n: nat)
    ensures WithCount(SortByCount(s), n) == WithCount(s, n)
    decreases |s|
  {
    if s != [] {
      SortByCountStable(s[1..], n);
      InsertWithCount(s[0], SortByCount(s[1..]), n);
    }
  }

  /** Two sorted sequences with the same per-count subsequences start with
      the same count. */
  lemma HeadCountsAgree(t: seq<Candidate>, u: seq<Candidate>)
    requires SortedByCount(t) && SortedByCount(u) && t != [] && u != []
    requires forall n :: WithCount(t, n) == WithCount(u, n)
    ensures t[0].matchCount == u[0].matchCount
  {
    var a, b := t[0].matchCount, u[0].matchCount;
    WithCountMembers(t, a);
    WithCountMembers(u, a);
    WithCountMembers(t, b);
    WithCountMembers(u, b);
    assert t[0] in WithCount(t, a);
    assert WithCount(u, a) == WithCount(t, a);
    var y := t[0];
    assert y in u;
    var k :| 0 <= k < |u| && u[k] == y;
    assert a <= b;
    assert u[0] in WithCount(u, b);
    assert WithCount(t, b) == WithCount(u, b);
    var x := u[0];
    assert x in t;
    var m :| 0 <= m < |t| && t[m] == x;
    assert b <= a;
  }

  /** Two sorted sequences with the same per-count subsequences have the
      same head, and their tails again have the same per-count
      subsequences. */
  lemma HeadsAndTailsAgree(t: seq<Candidate>, u: seq<Candidate>)
    requires SortedByCount(t) && SortedByCount(u) && t != [] && u != []
    requires forall n :: WithCount(t, n) == WithCount(u, n)
    ensures t[0] == u[0]
    ensures forall n :: WithCount(t[1..], n) == WithCount(u[1..], n)
  {
    HeadCountsAgree(t, u);
    var a := t[0].matchCount;
    assert t == [t[0]] + t[1..] && u == [u[0]] + u[1..];
    WithCountCons(t[0], t[1..], a);
    WithCountCons(u[0], u[1..], a);
    var tl, ul := WithCount(t[1..], a), WithCount(u[1..], a);
    assert [t[0]] + tl == [u[0]] + ul;
    assert t[0] == ([t[0]] + tl)[0] == ([u[0]] + ul)[0] == u[0];
    assert tl == ([t[0]] + tl)[1..] == ([u[0]] + ul)[1..] == ul;
    forall n
      ensures WithCount(t[1..], n) == WithCount(u[1..], n)
    {
      if n != a {
        WithCountCons(t[0], t[1..], n);
        WithCountCons(u[0], u[1..], n);
        calc {
          WithCount(t[1..], n);
          [] + WithCount(t[1..], n);
          WithCount([t[0]] + t[1..], n);
          WithCount(t, n);
          WithCount(u, n);
          WithCount([u[0]] + u[1..], n);
          [] + WithCount(u[1..], n);
          WithCount(u[1..], n);
        }
      }
    }
  }

  /** A sorted sequence is fixed by its per-count subsequences, so every
      stable sort by count descending gives `SortByCount`'s result. */
  lemma {:induction false} SortedUnique(t: seq<Candidate>, u: seq<Candidate>)
    requires SortedByCount(t) && SortedByCount(u)
    requires forall n :: WithCount(t, n) == WithCount(u, n)
    ensures t == u
    decreases |t|
  {
    if t == [] || u == [] {
      var v := if t == [] then u else t;
      if v != [] {
        WithCountMembers(v, v[0].matchCount);
        assert false;
      }
    } else {
      HeadsAndTailsAgree(t, u);
      SortedUnique(t[1..], u[1..]);
      assert t == [t[0]] + t[1..] && u == [u[0]] + u[1..];
    }
  }

  lemma StableSortIsSortByCount(s: seq<Candidate>, t: seq<Candidate>)
    requires SortedByCount(t)
    requires forall n :: WithCount(t, n) == WithCount(s, n)
    ensures t == SortByCount(s)
  {
    forall n ensures WithCount(t, n) == WithCount(SortByCount(s), n) {
      SortByCountStable(s, n);
    }
    SortedUnique(t, SortByCount(s));
  }

  // ---------------------------------------------------------------------
  // The endpoint
  // ---------------------------------------------------------------------

  function Min(a: int, b: int): int
  {
    if a <= b then a else b
  }

  /** The response: empty for a caller without interests, otherwise the
      first twenty of the grouping sorted by count. */
  function Ranked(me: UserId, rows: seq<UserInterest>, catalog: Catalog): seq<Candidate>
    requires InterestsInCatalog(rows, catalog)
  {
    var ids := MyInterestIds(me, rows);
    if ids == [] then []
    else
      var sorted := SortByCount(Grouping(Matches(me, ids, rows, catalog)));
      sorted[..Min(MaxResults, |sorted|)]
  }

  method FindMatches(me: UserId, rows: seq<UserInterest>, catalog: Catalog) returns (result: seq<Candidate>)
    requires InterestsInCatalog(rows, catalog)
    ensures result == Ranked(me, rows, catalog)
    ensures MyInterestIds(me, rows) == [] ==> result == []
    ensures |result| <= MaxResults
    ensures SortedByCount(result)
    ensures DistinctUsers(result)
    ensures forall c :: c in result ==>
      && c.userId != me
      && c.matchCount == |c.matchingInterests| >= 1
      && c.matchCount == Count(Matches(me, MyInterestIds(me, rows), rows, catalog), c.userId)
    ensures forall c :: c in result ==> forall n :: n in c.matchingInterests <==>
      exists i :: UserInterest(c.userId, i) in rows && UserInterest(me, i) in rows && catalog[i] == n
    ensures InterestRowsUnique(rows) ==>
      forall c :: c in result ==> c.matchCount == |SharedInterests(me, rows, c.userId)|
  {
    var ids := MyInterestIds(me, rows);
    if |ids| == 0 {
      return [];
    }
    var matches := Matches(me, ids, rows, catalog);
    var groups := GroupByUser(matches);
    var sorted := SortByCount(groups);
    result := sorted[..Min(MaxResults, |sorted|)];
    RankedFacts(matches, result, me);
    forall c | c in result
      ensures forall n :: n in c.matchingInterests <==>
        exists i :: UserInterest(c.userId, i) in rows && UserInterest(me, i) in rows && catalog[i] == n
      ensures InterestRowsUnique(rows) ==> c.matchCount == |SharedInterests(me, rows, c.userId)|
    {
      MatchNames(me, rows, catalog, c.userId);
      if InterestRowsUnique(rows) {
        SharedCount(me, rows, catalog, c.userId);
      }
    }
  }

  // ---------------------------------------------------------------------
  // What a candidate's count and names mean
  // ---------------------------------------------------------------------

  /** The ids of the interests `u` shares with `me`. */
  function SharedInterests(me: UserId, rows: seq<UserInterest>, u: UserId): set<InterestId>
  {
    set x | x in rows && x.userId == u && UserInterest(me, x.interestId) in rows :: x.interestId
  }

  /** The ids among `ids` that `u` has a row for in `rows`. */
  function IdsOfUserIn(ids: seq<InterestId>, rows: seq<UserInterest>, u: UserId): set<InterestId>
  {
    set x | x in rows && x.userId == u && x.interestId in ids :: x.interestId
  }

  lemma {:induction false} CountAppend(a: seq<MatchRow>, b: seq<MatchRow>, u: UserId)
    ensures Count(a + b, u) == Count(a, u) + Count(b, u)
    decreases |b|
  {
    if b == [] {
      assert a + b == a;
    } else {
      var ab := a + b;
      assert ab[..|ab| - 1] == a + b[..|b| - 1];
      CountAppend(a, b[..|b| - 1], u);
    }
  }

  /** With no row stored twice, the rows `Matches` keeps for another user
      are one per interest id that user shares. */
  lemma {:induction false} MatchCountIds(me: UserId, ids: seq<InterestId>, rows: seq<UserInterest>, catalog: Catalog, u: UserId)
    requires InterestsInCatalog(rows, catalog) && InterestRowsUnique(rows) && u != me
    ensures Count(Matches(me, ids, rows, catalog), u) == |IdsOfUserIn(ids, rows, u)|
    decreases |rows|
  {
    if rows == [] {
      assert IdsOfUserIn(ids, rows, u) == {};
    } else {
      UniqueTail(rows, catalog);
      MatchCountIds(me, ids, rows[1..], catalog, u);
      MatchesCountCons(me, ids, rows, catalog, u);
      IdsOfUserInCons(ids, rows, u);
    }
  }

  /** The rows after the first keep the table's constraints and do not
      repeat the first. */
  lemma UniqueTail(rows: seq<UserInterest>, catalog: Catalog)
    requires rows != [] && InterestsInCatalog(rows, catalog) && InterestRowsUnique(rows)
    ensures InterestsInCatalog(rows[1..], catalog) && InterestRowsUnique(rows[1..])
    ensures forall y :: y in rows[1..] ==> y != rows[0]
  {
    var tail := rows[1..];
    assert forall y :: y in tail ==> y in rows;
    forall i, j | 0 <= i < j < |tail| ensures tail[i] != tail[j] {
      assert tail[i] == rows[i + 1] && tail[j] == rows[j + 1];
    }
    forall y | y in tail ensures y != rows[0] {
      var j :| 0 <= j < |tail| && tail[j] == y;
      assert y == rows[j + 1];
    }
  }

  /** The first row adds one to `u`'s count exactly when it is `u`'s and
      matches. */
  lemma MatchesCountCons(me: UserId, ids: seq<InterestId>, rows: seq<UserInterest>, catalog: Catalog, u: UserId)
    requires rows != [] && InterestsInCatalog(rows, catalog) && InterestsInCatalog(rows[1..], catalog) && u != me
    ensures Count(Matches(me, ids, rows, catalog), u) ==
      Count(Matches(me, ids, rows[1..], catalog), u) + (if rows[0].userId == u && rows[0].interestId in ids then 1 else 0)
  {
    var x := rows[0];
    var h := if x.userId != me && x.interestId in ids then [MatchRow(x.userId, x.interestId, catalog[x.interestId])] else [];
    assert Matches(me, ids, rows, catalog) == h + Matches(me, ids, rows[1..], catalog);
    CountAppend(h, Matches(me, ids, rows[1..], catalog), u);
    if h != [] {
      assert h[..0] == [];
    }
  }

  /** The first row adds its id to `u`'s shared ids exactly when it is
      `u`'s and matches, and the id is new then. */
  lemma IdsOfUserInCons(ids: seq<InterestId>, rows: seq<UserInterest>, u: UserId)
    requires rows != [] && forall y :: y in rows[1..] ==> y != rows[0]
    ensures rows[0].userId == u && rows[0].interestId in ids ==>
      && rows[0].interestId !in IdsOfUserIn(ids, rows[1..], u)
      && IdsOfUserIn(ids, rows, u) == IdsOfUserIn(ids, rows[1..], u) + {rows[0].interestId}
    ensures !(rows[0].userId == u && rows[0].interestId in ids) ==>
      IdsOfUserIn(ids, rows, u) == IdsOfUserIn(ids, rows[1..], u)
  {
    var x, tail := rows[0], rows[1..];
    assert rows == [x] + tail;
  }

  /** A candidate's `matchCount` is the number of interests it shares with
      the caller, when no `user_interests` row is stored twice. */
  lemma SharedCount(me: UserId, rows: seq<UserInterest>, catalog: Catalog, u: UserId)
    requires InterestsInCatalog(rows, catalog) && InterestRowsUnique(rows) && u != me
    ensures Count(Matches(me, MyInterestIds(me, rows), rows, catalog), u) == |SharedInterests(me, rows, u)|
  {
    MatchCountIds(me, MyInterestIds(me, rows), rows, catalog, u);
    assert IdsOfUserIn(MyInterestIds(me, rows), rows, u) == SharedInterests(me, rows, u);
  }

  /** The names collected for `u` are the names of `u`'s rows. */
  lemma {:induction false} NamesOfMembers(rows: seq<MatchRow>, u: UserId)
    ensures forall n :: n in NamesOf(rows, u) <==> exists r :: r in rows && r.userId == u && r.interestName == n
    decreases |rows|
  {
    if rows != [] {
      var init, last := rows[..|rows| - 1], rows[|rows| - 1];
      NamesOfMembers(init, u);
      assert rows == init + [last];
      assert forall r :: r in rows <==> r in init || r == last;
    }
  }

  /** A candidate's `matchingInterests` are exactly the names of the
      interests it shares with the caller. */
  lemma MatchNames(me: UserId, rows: seq<UserInterest>, catalog: Catalog, u: UserId)
    requires InterestsInCatalog(rows, catalog) && u != me
    ensures forall n :: n in NamesOf(Matches(me, MyInterestIds(me, rows), rows, catalog), u) <==>
      exists i :: UserInterest(u, i) in rows && UserInterest(me, i) in rows && catalog[i] == n
  {
    var m := Matches(me, MyInterestIds(me, rows), rows, catalog);
    NamesOfMembers(m, u);
    forall n | exists i :: UserInterest(u, i) in rows && UserInterest(me, i) in rows && catalog[i] == n
      ensures n in NamesOf(m, u)
    {
      var i :| UserInterest(u, i) in rows && UserInterest(me, i) in rows && catalog[i] == n;
      assert MatchRow(u, i, catalog[i]) in m;
    }
    forall n | n in NamesOf(m, u)
      ensures exists i :: UserInterest(u, i) in rows && UserInterest(me, i) in rows && catalog[i] == n
    {
      var r :| r in m && r.userId == u && r.interestName == n;
      assert UserInterest(u, r.interestId) in rows;
    }
  }

  /** The grouping lists each user once, and never a user without rows. */
  lemma GroupingUsers(matches: seq<MatchRow>, me: UserId)
    requires forall r :: r in matches ==> r.userId != me
    ensures DistinctUsers(Grouping(matches))
    ensures forall c :: c in Grouping(matches) ==> c.userId != me
  {
    var g := Grouping(matches);
    GroupingFacts(matches);
    forall i, j | 0 <= i < j < |g| ensures g[i].userId != g[j].userId {
      assert CandidateIds(g)[i] == g[i].userId && CandidateIds(g)[j] == g[j].userId;
    }
    forall c | c in g
      ensures c.userId != me
    {
      assert c.userId in UserIdsOf(matches);
      var k :| 0 <= k < |matches| && UserIdsOf(matches)[k] == c.userId;
      assert matches[k] in matches;
    }
  }

  /** A prefix of a sorted list of distinct users is one too. */
  lemma PrefixSortedDistinct(s: seq<Candidate>, k: nat)
    requires k <= |s| && SortedByCount(s) && DistinctUsers(s)
    ensures SortedByCount(s[..k]) && DistinctUsers(s[..k])
    ensures forall c :: c in s[..k] ==> c in s
  {
  }

  /** What the first twenty of the sorted grouping inherit from it. */
  lemma RankedFacts(matches: seq<MatchRow>, result: seq<Candidate>, me: UserId)
    requires forall r :: r in matches ==> r.userId != me
    requires var sorted := SortByCount(Grouping(matches)); result == sorted[..Min(MaxResults, |sorted|)]
    ensures SortedByCount(result)
    ensures DistinctUsers(result)
    ensures forall c :: c in result ==>
      && c.userId != me
      && c.matchCount == |c.matchingInterests| >= 1
      && c.matchCount == Count(matches, c.userId)
      && c.matchingInterests == NamesOf(matches, c.userId)
  {
    var g := Grouping(matches);
    var sorted := SortByCount(g);
    GroupingFacts(matches);
    GroupingUsers(matches, me);
    PrefixSortedDistinct(sorted, Min(MaxResults, |sorted|));
    assert forall c :: c in result ==> c in g;
  }

  /** `Ranked` unfolded once, for a caller with interests. */
  lemma RankedOf(me: UserId, rows: seq<UserInterest>, catalog: Catalog,
                 ids: seq<InterestId>, matches: seq<MatchRow>, sorted: seq<Candidate>)
    requires InterestsInCatalog(rows, catalog)
    requires MyInterestIds(me, rows) == ids && ids != []
    requires Matches(me, ids, rows, catalog) == matches
    requires SortByCount(Grouping(matches)) == sorted
    ensures Ranked(me, rows, catalog) == sorted[..Min(MaxResults, |sorted|)]
  {
  }

  /** A caller interested in Chess and Hiking, a user interested in Chess
      and a user with no interests: only the second user is offered, with
      one match. */
  lemma ChessAndHikingExample(rows: seq<UserInterest>, catalog: Catalog)
    requires rows == [UserInterest("A", 1), UserInterest("A", 2), UserInterest("B", 1)]
    requires catalog == map[1 := "Chess", 2 := "Hiking"]
    requires InterestsInCatalog(rows, catalog)
    ensures Ranked("A", rows, catalog) == [Candidate("B", ["Chess"], 1)]
  {
    var c := Candidate("B", ["Chess"], 1);
    ExampleIds();
    ExampleMatches();
    ExampleGrouping();
    ExampleSort();
    RankedOf("A", rows, catalog, [1, 2], [MatchRow("B", 1, "Chess")], [c]);
    assert [c][..1] == [c];
  }

  lemma ExampleSort()
    ensures SortByCount([Candidate("B", ["Chess"], 1)]) == [Candidate("B", ["Chess"], 1)]
  {
    var c := Candidate("B", ["Chess"], 1);
    assert [c][1..] == [];
  }

  lemma ExampleIds()
    ensures MyInterestIds("A", [UserInterest("A", 1), UserInterest("A", 2), UserInterest("B", 1)]) == [1, 2]
  {
    var rows := [UserInterest("A", 1), UserInterest("A", 2), UserInterest("B", 1)];
    assert rows[1..][1..] == [UserInterest("B", 1)];
    assert MyInterestIds("A", rows[1..][1..]) == [];
  }

  lemma ExampleMatches()
    ensures Matches("A", [1, 2], [UserInterest("A", 1), UserInterest("A", 2), UserInterest("B", 1)],
                    map[1 := "Chess", 2 := "Hiking"]) == [MatchRow("B", 1, "Chess")]
  {
    var rows := [UserInterest("A", 1), UserInterest("A", 2), UserInterest("B", 1)];
    var catalog := map[1 := "Chess", 2 := "Hiking"];
    assert rows[1..][1..] == [UserInterest("B", 1)];
    assert Matches("A", [1, 2], rows[1..][1..], catalog) == [MatchRow("B", 1, "Chess")];
  }

  lemma ExampleUsers()
    ensures Users([MatchRow("B", 1, "Chess")]) == ["B"]
  {
    var m := MatchRow("B", 1, "Chess");
    assert UserIdsOf([m]) == ["B"];
    assert ["B"][..0] == [];
  }

  lemma ExampleGroup()
    ensures Group([MatchRow("B", 1, "Chess")], "B") == Candidate("B", ["Chess"], 1)
  {
    var m := MatchRow("B", 1, "Chess");
    assert [m][..0] == [];
    assert NamesOf([m], "B") == ["Chess"];
    assert Count([m], "B") == 1;
  }

  lemma ExampleGrouping()
    ensures Grouping([MatchRow("B", 1, "Chess")]) == [Candidate("B", ["Chess"], 1)]
  {
    ExampleUsers();
    ExampleGroup();
  }
}
