/** The friend-request and friendship endpoints as functions on the table
    contents: what each query selects and what each write leaves behind. */
module FriendGraph {
  import opened Wrappers
  import opened Seqs
  import opened LexOrder
  import opened Tables

  // ---------------------------------------------------------------------
  // Friend requests
  // ---------------------------------------------------------------------

  /** `accept ? 'accepted' : 'rejected'` */
  function StatusFor(accept: bool): (s: Status)
    ensures s != Pending
    ensures s == Accepted <==> accept
  {
    if accept then Accepted else Rejected
  }

  /** The row `.eq('id', requestId).eq('receiver_id', me)` selects, if any;
      request ids are unique, so there is at most one. */
  function FindRequest(requests: seq<FriendRequest>, requestId: nat, me: UserId): (k: Option<nat>)
    ensures k.Some? ==>
      k.value < |requests| && requests[k.value].id == requestId && requests[k.value].receiverId == me
    ensures k.None? ==> forall q :: q in requests ==> !(q.id == requestId && q.receiverId == me)
  {
    if requests == [] then None
    else if requests[0].id == requestId && requests[0].receiverId == me then Some(0)
    else match FindRequest(requests[1..], requestId, me)
      case None => None
      case Some(k) => Some(k + 1)
  }

  /** The pending requests addressed to `me`, in table order
      (`.eq('receiver_id', me).eq('status', 'pending')`). */
  function PendingFor(me: UserId, requests: seq<FriendRequest>): (r: seq<FriendRequest>)
    ensures forall q :: q in r ==> q in requests
    ensures forall q :: q in requests ==> (q in r <==> q.receiverId == me && q.status == Pending)
  {
    if requests == [] then []
    else
      (if requests[0].receiverId == me && requests[0].status == Pending then [requests[0]] else [])
      + PendingFor(me, requests[1..])
  }

  /** One entry of `GET /api/friend-requests`: the request with the sender's
      profile columns, absent when the sender has no profile. */
  datatype RequestView = RequestView(
    id: nat,
    senderId: UserId,
    senderUsername: Option<string>,
    senderFullName: Option<string>,
    senderBio: Option<string>,
    senderAvatarUrl: Option<string>,
    status: Status,
    createdAt: Timestamp)

  function Format(q: FriendRequest, profiles: map<UserId, Profile>): (v: RequestView)
    ensures v.id == q.id && v.senderId == q.senderId && v.status == q.status && v.createdAt == q.createdAt
    ensures v.senderUsername.Some? <==> q.senderId in profiles
    ensures q.senderId in profiles ==>
      && v.senderUsername == Some(profiles[q.senderId].username)
      && v.senderFullName == profiles[q.senderId].fullName
      && v.senderBio == profiles[q.senderId].bio
      && v.senderAvatarUrl == profiles[q.senderId].avatarUrl
  {
    if q.senderId in profiles then
      var p := profiles[q.senderId];
      RequestView(q.id, q.senderId, Some(p.username), p.fullName, p.bio, p.avatarUrl, q.status, q.createdAt)
    else
      RequestView(q.id, q.senderId, None, None, None, None, q.status, q.createdAt)
  }

  /** `GET /api/friend-requests` */
  function PendingRequests(me: UserId, requests: seq<FriendRequest>, profiles: map<UserId, Profile>): (r: seq<RequestView>)
    ensures |r| == |PendingFor(me, requests)|
    ensures forall k :: 0 <= k < |r| ==> r[k] == Format(PendingFor(me, requests)[k], profiles)
  {
    var pending := PendingFor(me, requests);
    seq(|pending|, k requires 0 <= k < |pending| => Format(pending[k], profiles))
  }

  /** Every listed request is pending, addressed to `me` and in the table;
      every pending request addressed to `me` is listed. */
  lemma PendingRequestsExact(me: UserId, requests: seq<FriendRequest>, profiles: map<UserId, Profile>)
    ensures forall v :: v in PendingRequests(me, requests, profiles) ==>
      && v.status == Pending
      && exists q :: q in requests && q.id == v.id && q.senderId == v.senderId && q.receiverId == me
    ensures forall q :: q in requests && q.receiverId == me && q.status == Pending ==>
      Format(q, profiles) in PendingRequests(me, requests, profiles)
  {
    var pending := PendingFor(me, requests);
    var r := PendingRequests(me, requests, profiles);
    forall v | v in r
      ensures v.status == Pending
      ensures exists q :: q in requests && q.id == v.id && q.senderId == v.senderId && q.receiverId == me
    {
      var k :| 0 <= k < |r| && r[k] == v;
      assert pending[k] in pending;
    }
    forall q | q in requests && q.receiverId == me && q.status == Pending
      ensures Format(q, profiles) in r
    {
      var k :| 0 <= k < |pending| && pending[k] == q;
      assert r[k] == Format(q, profiles);
    }
  }

  // ---------------------------------------------------------------------
  // Friendships
  // ---------------------------------------------------------------------

  /** The row `respond` inserts: the two ids after `.sort()`. */
  function CanonicalFriendship(q: FriendRequest): (f: Friendship)
    ensures LessEq(f.user1, f.user2)
    ensures (f.user1 == q.senderId && f.user2 == q.receiverId) || (f.user1 == q.receiverId && f.user2 == q.senderId)
  {
    var p := SortPair(q.senderId, q.receiverId);
    Friendship(p.0, p.1)
  }

  /** Every row is stored smaller id first. */
  predicate Canonical(fs: seq<Friendship>)
  {
    forall f :: f in fs ==> LessEq(f.user1, f.user2)
  }

  /** The row joins `a` and `b`, in either orientation. */
  predicate IsPair(f: Friendship, a: UserId, b: UserId)
  {
    (f.user1 == a && f.user2 == b) || (f.user1 == b && f.user2 == a)
  }

  /** With canonical rows and no duplicate row, an unordered pair has at
      most one row. */
  lemma PairRowUnique(fs: seq<Friendship>, a: UserId, b: UserId, i: nat, j: nat)
    requires Canonical(fs) && AllDistinct(fs)
    requires i < |fs| && j < |fs| && IsPair(fs[i], a, b) && IsPair(fs[j], a, b)
    ensures i == j
  {
    assert fs[i] in fs && fs[j] in fs;
    if fs[i] != fs[j] {
      LessEqAntisymmetric(a, b);
    }
  }

  /** Accepting either of two opposite requests produces the same row. */
  lemma CanonicalFriendshipSymmetric(q: FriendRequest, q': FriendRequest)
    requires q'.senderId == q.receiverId && q'.receiverId == q.senderId
    ensures CanonicalFriendship(q) == CanonicalFriendship(q')
  {
    SortPairSymmetric(q.senderId, q.receiverId);
  }

  /** `DELETE /api/friends/:friendId`: every row of the pair goes, in either
      orientation; the other rows stay, in order. */
  function RemovePair(fs: seq<Friendship>, a: UserId, b: UserId): (r: seq<Friendship>)
    ensures forall f :: f in r <==> f in fs && !IsPair(f, a, b)
    ensures forall f :: !IsPair(f, a, b) ==> multiset(r)[f] == multiset(fs)[f]
  {
    if fs == [] then []
    else
      assert fs == [fs[0]] + fs[1..];
      (if IsPair(fs[0], a, b) then [] else [fs[0]]) + RemovePair(fs[1..], a, b)
  }

  /** The rows that stay keep their order: deleting from a table is deleting
      from each part of it. */
  lemma {:induction false} RemovePairAppend(fs: seq<Friendship>, gs: seq<Friendship>, a: UserId, b: UserId)
    ensures RemovePair(fs + gs, a, b) == RemovePair(fs, a, b) + RemovePair(gs, a, b)
    decreases |fs|
  {
    if fs == [] {
      assert fs + gs == gs;
    } else {
      assert (fs + gs)[1..] == fs[1..] + gs;
      RemovePairAppend(fs[1..], gs, a, b);
    }
  }

  /** Deleting rows keeps the table free of duplicates. */
  lemma {:induction false} RemovePairDistinct(fs: seq<Friendship>, a: UserId, b: UserId)
    requires AllDistinct(fs)
    ensures AllDistinct(RemovePair(fs, a, b))
    decreases |fs|
  {
    if fs != [] {
      RemovePairDistinct(fs[1..], a, b);
      var rest := RemovePair(fs[1..], a, b);
      assert fs[0] !in fs[1..];
      assert fs[0] !in rest;
      if !IsPair(fs[0], a, b) {
        assert RemovePair(fs, a, b) == [fs[0]] + rest;
      }
    }
  }

  /** Removing a pair that has no row changes nothing: deleting a
      friendship that does not exist succeeds. */
  lemma {:induction false} RemovePairAbsent(fs: seq<Friendship>, a: UserId, b: UserId)
    requires forall f :: f in fs ==> !IsPair(f, a, b)
    ensures RemovePair(fs, a, b) == fs
    decreases |fs|
  {
    if fs != [] {
      var head, tail := fs[0], fs[1..];
      assert fs == [head] + tail;
      assert head in fs;
      RemovePairAbsent(tail, a, b);
      RemovePairKeepsHead(head, tail, a, b);
    }
  }

  /** A row of another pair stays in front of what is left of the rest. */
  lemma RemovePairKeepsHead(f: Friendship, tail: seq<Friendship>, a: UserId, b: UserId)
    requires !IsPair(f, a, b)
    ensures RemovePair([f] + tail, a, b) == [f] + RemovePair(tail, a, b)
  {
    assert ([f] + tail)[1..] == tail;
  }

  /** Removing the same friend twice is the same as removing it once. */
  lemma {:induction false} RemovePairIdempotent(fs: seq<Friendship>, a: UserId, b: UserId)
    ensures RemovePair(RemovePair(fs, a, b), a, b) == RemovePair(fs, a, b)
  {
    RemovePairAbsent(RemovePair(fs, a, b), a, b);
  }

  /** Either side may remove the friendship: the result does not depend on
      who asks. */
  lemma {:induction false} RemovePairSymmetric(fs: seq<Friendship>, a: UserId, b: UserId)
    ensures RemovePair(fs, a, b) == RemovePair(fs, b, a)
    decreases |fs|
  {
    if fs != [] {
      RemovePairSymmetric(fs[1..], a, b);
    }
  }

  /** `f.user1_id === me ? f.user2_id : f.user1_id` */
  function OtherSide(f: Friendship, me: UserId): UserId
  {
    if f.user1 == me then f.user2 else f.user1
  }

  /** `friendIds`: the other side of each row that touches `me`
      (`.or('user1_id.eq.me,user2_id.eq.me')`), in table order. */
  function FriendIds(me: UserId, fs: seq<Friendship>): (ids: seq<UserId>)
    ensures |ids| <= |fs|
  {
    if fs == [] then []
    else
      (if fs[0].user1 == me || fs[0].user2 == me then [OtherSide(fs[0], me)] else [])
      + FriendIds(me, fs[1..])
  }

  /** The friend ids of a single row: its other side when it has `me` on it,
      nothing otherwise. */
  lemma FriendIdsOfRow(me: UserId, f: Friendship)
    ensures FriendIds(me, [f]) == if f.user1 == me || f.user2 == me then [OtherSide(f, me)] else []
  {
    assert [f][1..] == [];
  }

  /** One id per row that has `me` on it, in the order of the rows. */
  lemma {:induction false} FriendIdsAppend(me: UserId, a: seq<Friendship>, b: seq<Friendship>)
    ensures FriendIds(me, a + b) == FriendIds(me, a) + FriendIds(me, b)
    decreases |a|
  {
    if a == [] {
      assert a + b == b;
    } else {
      assert (a + b)[1..] == a[1..] + b;
      FriendIdsAppend(me, a[1..], b);
    }
  }

  /** `u` is listed as a friend of `me` exactly when a row joins the two,
      whichever way round it is stored. */
  lemma {:induction false} FriendIdsExact(me: UserId, fs: seq<Friendship>)
    ensures forall u :: u in FriendIds(me, fs) <==> Friendship(me, u) in fs || Friendship(u, me) in fs
    decreases |fs|
  {
    if fs != [] {
      FriendIdsExact(me, fs[1..]);
      assert fs == [fs[0]] + fs[1..];
    }
  }

  /** Friendship is symmetric: once the row of an accepted request exists,
      each side lists the other. */
  lemma FriendsBothWays(q: FriendRequest, fs: seq<Friendship>)
    requires CanonicalFriendship(q) in fs
    ensures q.receiverId in FriendIds(q.senderId, fs)
    ensures q.senderId in FriendIds(q.receiverId, fs)
  {
    FriendIdsExact(q.senderId, fs);
    FriendIdsExact(q.receiverId, fs);
  }

  /** After a removal neither side lists the other. */
  lemma RemovedFromBothLists(fs: seq<Friendship>, me: UserId, friend: UserId)
    ensures friend !in FriendIds(me, RemovePair(fs, me, friend))
    ensures me !in FriendIds(friend, RemovePair(fs, me, friend))
  {
    FriendIdsExact(me, RemovePair(fs, me, friend));
    FriendIdsExact(friend, RemovePair(fs, me, friend));
  }

  /** One entry of `GET /api/friends`: the friend's profile with the names
      of ALL the friend's interests (the handler does not intersect them
      with the caller's). */
  datatype FriendView = FriendView(profile: Profile, matchingInterests: seq<string>)

  function ViewsOf(ids: seq<UserId>, profiles: map<UserId, Profile>, rows: seq<UserInterest>, catalog: Catalog): (r: seq<FriendView>)
    requires InterestsInCatalog(rows, catalog)
    requires KeyedById(profiles)
    ensures forall v :: v in r ==>
      && v.profile.id in ids && v.profile.id in profiles && v.profile == profiles[v.profile.id]
      && v.matchingInterests == InterestNames(rows, catalog, v.profile.id)
  {
    if ids == [] then []
    else
      (if ids[0] in profiles
       then [FriendView(profiles[ids[0]], InterestNames(rows, catalog, ids[0]))] else [])
      + ViewsOf(ids[1..], profiles, rows, catalog)
  }

  /** `GET /api/friends`: the profiles whose id is one of `friendIds`
      (`.in('id', friendIds)` returns each at most once), each with its
      interest names. */
  function Friends(me: UserId, fs: seq<Friendship>, profiles: map<UserId, Profile>,
                   rows: seq<UserInterest>, catalog: Catalog): seq<FriendView>
    requires InterestsInCatalog(rows, catalog)
    requires KeyedById(profiles)
  {
    ViewsOf(Distinct(FriendIds(me, fs)), profiles, rows, catalog)
  }

  function ViewIds(vs: seq<FriendView>): seq<UserId>
  {
    seq(|vs|, k requires 0 <= k < |vs| => vs[k].profile.id)
  }

  /** The ids of the views grow by the first id when it has a profile. */
  lemma ViewIdsCons(ids: seq<UserId>, profiles: map<UserId, Profile>, rows: seq<UserInterest>, catalog: Catalog)
    requires InterestsInCatalog(rows, catalog)
    requires KeyedById(profiles)
    requires ids != []
    ensures ViewIds(ViewsOf(ids, profiles, rows, catalog)) ==
      (if ids[0] in profiles then [ids[0]] else []) + ViewIds(ViewsOf(ids[1..], profiles, rows, catalog))
  {
  }

  lemma {:induction false} ViewsOfIds(ids: seq<UserId>, profiles: map<UserId, Profile>, rows: seq<UserInterest>, catalog: Catalog)
    requires InterestsInCatalog(rows, catalog)
    requires AllDistinct(ids)
    requires KeyedById(profiles)
    ensures forall u :: u in ViewIds(ViewsOf(ids, profiles, rows, catalog)) <==> u in ids && u in profiles
    ensures AllDistinct(ViewIds(ViewsOf(ids, profiles, rows, catalog)))
    decreases |ids|
  {
    if ids != [] {
      var tail := ids[1..];
      var rest := ViewIds(ViewsOf(tail, profiles, rows, catalog));
      ViewsOfIds(tail, profiles, rows, catalog);
      ViewIdsCons(ids, profiles, rows, catalog);
      assert ids == [ids[0]] + tail;
      assert ids[0] !in tail;
      assert ids[0] !in rest;
    }
  }

  /** The friends list names each friend with a profile exactly once, and
      nobody else; each entry carries all the friend's interest names. */
  lemma FriendsExact(me: UserId, fs: seq<Friendship>, profiles: map<UserId, Profile>,
                     rows: seq<UserInterest>, catalog: Catalog)
    requires InterestsInCatalog(rows, catalog)
    requires KeyedById(profiles)
    ensures forall u :: u in ViewIds(Friends(me, fs, profiles, rows, catalog)) <==>
      u in profiles && (Friendship(me, u) in fs || Friendship(u, me) in fs)
    ensures AllDistinct(ViewIds(Friends(me, fs, profiles, rows, catalog)))
    ensures forall v :: v in Friends(me, fs, profiles, rows, catalog) ==>
      v.profile == profiles[v.profile.id] && v.matchingInterests == InterestNames(rows, catalog, v.profile.id)
  {
    FriendIdsExact(me, fs);
    ViewsOfIds(Distinct(FriendIds(me, fs)), profiles, rows, catalog);
  }
}
