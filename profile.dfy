/** `GET /api/profile/:userId` and `PUT /api/profile`: the default profile
    created on first access, the upsert with its defaults, and the
    replacement of a user's interests. */
module ProfileRows {
  import opened Wrappers
  import opened Tables

  /** `x || ''` for a text field of the request body: an absent field and
      the empty string both give the empty string. */
  function OrEmpty(x: Option<string>): (s: string)
    ensures s == "" <==> x.None? || x.value == ""
    ensures x.Some? ==> s == x.value
  {
    match x
    case Some(v) => v
    case None => ""
  }

  /** `user_metadata?.username || 'user_' + userId.slice(0, 8)` */
  function DefaultUsername(metadataUsername: Option<string>, userId: UserId): (name: string)
    ensures metadataUsername.Some? && metadataUsername.value != "" ==> name == metadataUsername.value
    ensures metadataUsername.None? || metadataUsername.value == "" ==>
      && |name| == 5 + (if |userId| < 8 then |userId| else 8)
      && name[..5] == "user_"
      && name[5..] <= userId
  {
    if metadataUsername.Some? && metadataUsername.value != "" then metadataUsername.value
    else "user_" + userId[..if |userId| < 8 then |userId| else 8]
  }

  /** The row inserted when a profile is read before it exists: only the
      id, the username and the two time stamps are set. */
  function NewProfile(userId: UserId, username: string, now: Timestamp): (p: Profile)
    ensures p.id == userId && p.username == username
    ensures p.fullName.None? && p.bio.None? && p.age.None? && p.location.None? && p.avatarUrl.None?
    ensures p.createdAt == now && p.updatedAt == now
  {
    Profile(userId, username, None, None, None, None, None, now, now)
  }

  /** The body of `PUT /api/profile`. `age` is the already parsed number,
      `None` when the field is absent or falsy; `interests` is `None` when
      the field is not an array. */
  datatype ProfileUpdate = ProfileUpdate(
    username: Option<string>,
    fullName: Option<string>,
    bio: Option<string>,
    age: Option<int>,
    location: Option<string>,
    avatarUrl: Option<string>,
    interests: Option<seq<InterestId>>)

  /** The row the upsert leaves for `me`: every text column is written (the
      empty string standing for a missing field), `created_at` is kept from
      an existing row and set to `now` by the insert otherwise. */
  function Upserted(existing: Option<Profile>, me: UserId, u: ProfileUpdate, now: Timestamp): (p: Profile)
    ensures p.id == me && p.updatedAt == now
    ensures p.createdAt == if existing.Some? then existing.value.createdAt else now
    ensures p.username == OrEmpty(u.username)
    ensures p.fullName == Some(OrEmpty(u.fullName)) && p.bio == Some(OrEmpty(u.bio))
    ensures p.location == Some(OrEmpty(u.location)) && p.avatarUrl == Some(OrEmpty(u.avatarUrl))
    ensures p.age == u.age
  {
    var createdAt := if existing.Some? then existing.value.createdAt else now;
    Profile(me, OrEmpty(u.username), Some(OrEmpty(u.fullName)), Some(OrEmpty(u.bio)), u.age,
            Some(OrEmpty(u.location)), Some(OrEmpty(u.avatarUrl)), createdAt, now)
  }

  /** The ids of `u`'s rows, in table order. */
  function InterestIdsOf(rows: seq<UserInterest>, u: UserId): (ids: seq<InterestId>)
    ensures forall i :: i in ids <==> UserInterest(u, i) in rows
  {
    if rows == [] then []
    else (if rows[0].userId == u then [rows[0].interestId] else []) + InterestIdsOf(rows[1..], u)
  }

  /** The rows of everybody but `u`, in table order
      (`.delete().eq('user_id', u)`). */
  function WithoutUser(rows: seq<UserInterest>, u: UserId): (r: seq<UserInterest>)
    ensures forall x :: x in r <==> x in rows && x.userId != u
    ensures forall v :: v != u ==> InterestIdsOf(r, v) == InterestIdsOf(rows, v)
    ensures InterestIdsOf(r, u) == []
  {
    if rows == [] then []
    else
      assert rows == [rows[0]] + rows[1..];
      var rest := WithoutUser(rows[1..], u);
      if rows[0].userId == u then rest
      else
        assert ([rows[0]] + rest)[1..] == rest;
        [rows[0]] + rest
  }

  function RowsFor(u: UserId, ids: seq<InterestId>): (r: seq<UserInterest>)
    ensures |r| == |ids|
    ensures forall k :: 0 <= k < |ids| ==> r[k] == UserInterest(u, ids[k])
  {
    seq(|ids|, k requires 0 <= k < |ids| => UserInterest(u, ids[k]))
  }

  /** The one-statement batch insert succeeds only when every new row
      satisfies the table's constraints: the interest exists, and no
      `(user_id, interest_id)` pair is repeated. */
  predicate BatchAccepted(ids: seq<InterestId>, catalog: Catalog)
  {
    && (forall i :: i in ids ==> i in catalog)
    && (forall j, k :: 0 <= j < k < |ids| ==> ids[j] != ids[k])
  }

  /** Delete-all then insert-selected. A failed insert is only logged, so it
      leaves the user with no interests at all. */
  function ReplaceInterests(rows: seq<UserInterest>, me: UserId, selected: seq<InterestId>, catalog: Catalog): seq<UserInterest>
  {
    var kept := WithoutUser(rows, me);
    if |selected| > 0 && BatchAccepted(selected, catalog) then kept + RowsFor(me, selected) else kept
  }

  lemma {:induction false} InterestIdsOfAppend(a: seq<UserInterest>, b: seq<UserInterest>, u: UserId)
    ensures InterestIdsOf(a + b, u) == InterestIdsOf(a, u) + InterestIdsOf(b, u)
    decreases |a|
  {
    if a != [] {
      assert (a + b)[1..] == a[1..] + b;
      InterestIdsOfAppend(a[1..], b, u);
      var h := if a[0].userId == u then [a[0].interestId] else [];
      assert InterestIdsOf(a + b, u) == h + (InterestIdsOf(a[1..], u) + InterestIdsOf(b, u));
      assert h + (InterestIdsOf(a[1..], u) + InterestIdsOf(b, u)) == (h + InterestIdsOf(a[1..], u)) + InterestIdsOf(b, u);
    } else {
      assert a + b == b;
    }
  }

  lemma {:induction false} InterestIdsOfRowsFor(u: UserId, ids: seq<InterestId>, v: UserId)
    ensures InterestIdsOf(RowsFor(u, ids), v) == if u == v then ids else []
    decreases |ids|
  {
    if ids != [] {
      assert RowsFor(u, ids)[1..] == RowsFor(u, ids[1..]);
      InterestIdsOfRowsFor(u, ids[1..], v);
      assert ids == [ids[0]] + ids[1..];
    }
  }

  /** After the update the user's interests are exactly the selected ids,
      in the order given, when the insert is accepted, and none otherwise;
      nobody else's interests change. */
  lemma ReplaceInterestsEffect(rows: seq<UserInterest>, me: UserId, selected: seq<InterestId>, catalog: Catalog)
    ensures InterestIdsOf(ReplaceInterests(rows, me, selected, catalog), me)
      == if BatchAccepted(selected, catalog) then selected else []
    ensures forall v :: v != me ==>
      InterestIdsOf(ReplaceInterests(rows, me, selected, catalog), v) == InterestIdsOf(rows, v)
  {
    var kept := WithoutUser(rows, me);
    forall v
      ensures InterestIdsOf(kept + RowsFor(me, selected), v) == InterestIdsOf(kept, v) + (if me == v then selected else [])
    {
      InterestIdsOfAppend(kept, RowsFor(me, selected), v);
      InterestIdsOfRowsFor(me, selected, v);
    }
  }

  /** The replacement keeps the table's constraints. */
  lemma ReplaceInterestsValid(rows: seq<UserInterest>, me: UserId, selected: seq<InterestId>, catalog: Catalog)
    requires InterestsInCatalog(rows, catalog) && InterestRowsUnique(rows)
    ensures InterestsInCatalog(ReplaceInterests(rows, me, selected, catalog), catalog)
    ensures InterestRowsUnique(ReplaceInterests(rows, me, selected, catalog))
  {
    var kept := WithoutUser(rows, me);
    KeptUnique(rows, me);
    if |selected| > 0 && BatchAccepted(selected, catalog) {
      var added := RowsFor(me, selected);
      forall i, j | 0 <= i < j < |added|
        ensures added[i] != added[j]
      {
        assert selected[i] != selected[j];
      }
      AppendRows(kept, added, catalog);
    }
  }

  /** Two tables that meet the constraints and share no row meet them
      together. */
  lemma AppendRows(a: seq<UserInterest>, b: seq<UserInterest>, catalog: Catalog)
    requires InterestsInCatalog(a, catalog) && InterestRowsUnique(a)
    requires InterestsInCatalog(b, catalog) && InterestRowsUnique(b)
    requires forall x :: x in a ==> x !in b
    ensures InterestsInCatalog(a + b, catalog) && InterestRowsUnique(a + b)
  {
    var r := a + b;
    forall i, j | 0 <= i < j < |r|
      ensures r[i] != r[j]
    {
      if i < |a| && j >= |a| {
        assert r[i] in a && r[j] == b[j - |a|];
      } else if i >= |a| {
        assert r[i] == b[i - |a|] && r[j] == b[j - |a|];
      }
    }
  }

  lemma {:induction false} KeptUnique(rows: seq<UserInterest>, me: UserId)
    requires InterestRowsUnique(rows)
    ensures InterestRowsUnique(WithoutUser(rows, me))
    decreases |rows|
  {
    if rows != [] {
      KeptUnique(rows[1..], me);
      var rest := WithoutUser(rows[1..], me);
      if rows[0].userId != me {
        assert forall x :: x in rest ==> x in rows[1..];
        assert rows[0] !in rows[1..];
        assert WithoutUser(rows, me) == [rows[0]] + rest;
      }
    }
  }

  /** An entry of the profile response's `interests`: `{ id, name }`, with
      `interests?.name` absent when the join finds nothing. */
  datatype InterestEntry = InterestEntry(id: InterestId, name: Option<string>)

  function InterestEntries(rows: seq<UserInterest>, catalog: Catalog, u: UserId): (r: seq<InterestEntry>)
    ensures |r| == |InterestIdsOf(rows, u)|
    ensures forall k :: 0 <= k < |r| ==> r[k].id == InterestIdsOf(rows, u)[k]
    ensures forall e :: e in r ==> UserInterest(u, e.id) in rows
    ensures forall e :: e in r ==> (e.name.Some? <==> e.id in catalog)
    ensures forall e :: e in r && e.id in catalog ==> e.name == Some(catalog[e.id])
  {
    var ids := InterestIdsOf(rows, u);
    seq(|ids|, k requires 0 <= k < |ids| =>
      InterestEntry(ids[k], if ids[k] in catalog then Some(catalog[ids[k]]) else None))
  }
}
