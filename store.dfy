/** The store behind the REST endpoints: the tables as fields of one object,
    and one method per endpoint that writes to them. The acting user id is
    the one the bearer token resolved to; time stamps are inputs. */
module Api {
  import opened Wrappers
  import opened Seqs
  import opened Tables
  import opened FriendGraph
  import opened ProfileRows

  /** The error responses of `POST /api/friend-request/respond`. */
  datatype RespondError =
    | NoMatchingRequest     // `.single()` found no row with that id for this receiver
    | DuplicateFriendship   // the insert broke the uniqueness of the pair

  /** The response of `GET /api/profile/:userId`. */
  datatype ProfileResponse = ProfileResponse(profile: Profile, interests: seq<InterestEntry>)

  class Store {
    const catalog: Catalog
    var profiles: map<UserId, Profile>
    var userInterests: seq<UserInterest>
    var requests: seq<FriendRequest>
    var friendships: seq<Friendship>
    /** The id the next inserted request receives. */
    var nextRequestId: nat

    /** The constraints of the tables. */
    ghost predicate Valid()
      reads this
    {
      && KeyedById(profiles)
      && InterestsInCatalog(userInterests, catalog)
      && InterestRowsUnique(userInterests)
      && (forall q :: q in requests ==> q.id < nextRequestId)
      && (forall i, j :: 0 <= i < j < |requests| ==> requests[i].id != requests[j].id)
      && Canonical(friendships)
      && AllDistinct(friendships)
    }

    constructor (catalog: Catalog)
      ensures Valid()
      ensures this.catalog == catalog
      ensures profiles == map[] && userInterests == [] && requests == [] && friendships == []
    {
      this.catalog := catalog;
      profiles := map[];
      userInterests := [];
      requests := [];
      friendships := [];
      nextRequestId := 0;
    }

    /** `GET /api/profile/:userId`: the profile, created with a default
        username on first access, and the user's interests. */
    method GetProfile(userId: UserId, metadataUsername: Option<string>, now: Timestamp)
      returns (response: ProfileResponse)
      requires Valid()
      modifies this
      ensures Valid()
      ensures old(userId in profiles) ==>
        profiles == old(profiles) && response.profile == old(profiles[userId])
      ensures old(userId !in profiles) ==>
        && response.profile == NewProfile(userId, DefaultUsername(metadataUsername, userId), now)
        && profiles == old(profiles)[userId := response.profile]
      ensures response.interests == InterestEntries(userInterests, catalog, userId)
      ensures userInterests == old(userInterests) && requests == old(requests)
      ensures friendships == old(friendships) && nextRequestId == old(nextRequestId)
    {
      var profile: Profile;
      if userId in profiles {
        profile := profiles[userId];
      } else {
        profile := NewProfile(userId, DefaultUsername(metadataUsername, userId), now);
        profiles := profiles[userId := profile];
      }
      response := ProfileResponse(profile, InterestEntries(userInterests, catalog, userId));
    }

    /** `PUT /api/profile`: upsert the caller's row, then, when `interests`
        is an array, delete the caller's interests and insert the selected
        ones. */
    method UpdateProfile(me: UserId, body: ProfileUpdate, now: Timestamp) returns (profile: Profile)
      requires Valid()
      modifies this
      ensures Valid()
      ensures profile == Upserted(if me in old(profiles) then Some(old(profiles)[me]) else None, me, body, now)
      ensures profiles == old(profiles)[me := profile]
      ensures userInterests == if body.interests.Some?
        then ReplaceInterests(old(userInterests), me, body.interests.value, catalog)
        else old(userInterests)
      ensures requests == old(requests) && friendships == old(friendships) && nextRequestId == old(nextRequestId)
    {
      var existing := if me in profiles then Some(profiles[me]) else None;
      profile := Upserted(existing, me, body, now);
      profiles := profiles[me := profile];
      if body.interests.Some? {
        var selected := body.interests.value;
        ReplaceInterestsValid(userInterests, me, selected, catalog);
        userInterests := WithoutUser(userInterests, me);
        if |selected| > 0 && BatchAccepted(selected, catalog) {
          userInterests := userInterests + RowsFor(me, selected);
        }
      }
    }

    /** `POST /api/friend-request`: insert a pending request from the
        caller. Nothing stops a request to oneself or a second request for
        the same pair. */
    method SendRequest(me: UserId, receiverId: UserId, now: Timestamp) returns (request: FriendRequest)
      requires Valid()
      modifies this
      ensures Valid()
      ensures request == FriendRequest(old(nextRequestId), me, receiverId, Pending, now)
      ensures request.id !in set q | q in old(requests) :: q.id
      ensures requests == old(requests) + [request] && nextRequestId == old(nextRequestId) + 1
      ensures profiles == old(profiles) && userInterests == old(userInterests) && friendships == old(friendships)
    {
      request := FriendRequest(nextRequestId, me, receiverId, Pending, now);
      requests := requests + [request];
      nextRequestId := nextRequestId + 1;
    }

    /** `POST /api/friend-request/respond`: set the status of the caller's
        request, then, on accept, insert the canonical friendship row. The
        two writes are separate: a failed insert leaves the new status in
        place. The status is written whatever it was before. */
    method Respond(me: UserId, requestId: nat, accept: bool) returns (res: Result<FriendRequest, RespondError>)
      requires Valid()
      modifies this
      ensures Valid()
      ensures profiles == old(profiles) && userInterests == old(userInterests) && nextRequestId == old(nextRequestId)
      ensures FindRequest(old(requests), requestId, me).None? ==>
        && res == Err(NoMatchingRequest)
        && requests == old(requests) && friendships == old(friendships)
      ensures FindRequest(old(requests), requestId, me).Some? ==>
        var k := FindRequest(old(requests), requestId, me).value;
        var updated := old(requests)[k].(status := StatusFor(accept));
        var row := CanonicalFriendship(updated);
        && requests == old(requests)[k := updated]
        && (!accept ==> res == Ok(updated) && friendships == old(friendships))
        && (accept && row in old(friendships) ==> res == Err(DuplicateFriendship) && friendships == old(friendships))
        && (accept && row !in old(friendships) ==> res == Ok(updated) && friendships == old(friendships) + [row])
        && (accept ==> row in friendships)
    {
      var status := StatusFor(accept);
      var found := FindRequest(requests, requestId, me);
      if found.None? {
        return Err(NoMatchingRequest);
      }
      var k := found.value;
      var request := requests[k].(status := status);
      requests := requests[k := request];
      assert forall q :: q in requests ==> q.id < nextRequestId by {
        forall q | q in requests ensures q.id < nextRequestId {
          var i :| 0 <= i < |requests| && requests[i] == q;
          assert i == k || q == old(requests)[i];
        }
      }
      if status == Accepted {
        var row := CanonicalFriendship(request);
        if row in friendships {
          return Err(DuplicateFriendship);
        }
        friendships := friendships + [row];
      }
      res := Ok(request);
    }

    /** `DELETE /api/friends/:friendId`: delete the pair's rows in either
        orientation; succeeds whether or not a row existed. */
    method RemoveFriend(me: UserId, friendId: UserId)
      requires Valid()
      modifies this
      ensures Valid()
      ensures friendships == RemovePair(old(friendships), me, friendId)
      ensures profiles == old(profiles) && userInterests == old(userInterests)
      ensures requests == old(requests) && nextRequestId == old(nextRequestId)
    {
      RemovePairDistinct(friendships, me, friendId);
      friendships := RemovePair(friendships, me, friendId);
    }
  }

  /** A client of the store: a request accepted, and the same accept
      repeated. */
  method AcceptScenario()
  {
    var store := new Store(map[1 := "Chess", 2 := "Hiking"]);
    var ab := store.SendRequest("userA", "userB", "t0");
    assert store.requests == [ab];

    // Only the receiver can respond.
    var wrongUser := store.Respond("userA", ab.id, true);
    assert wrongUser == Err(NoMatchingRequest);

    // B accepts A's request: one row, canonically ordered, seen from both sides.
    var accepted := store.Respond("userB", ab.id, true);
    var abAccepted := ab.(status := Accepted);
    assert accepted == Ok(abAccepted);
    assert store.friendships == [CanonicalFriendship(abAccepted)];
    FriendsBothWays(abAccepted, store.friendships);
    assert "userB" in FriendIds("userA", store.friendships);
    assert "userA" in FriendIds("userB", store.friendships);

    // Accepting it again rewrites the status and fails on the existing row.
    var again := store.Respond("userB", ab.id, true);
    assert again == Err(DuplicateFriendship);
    assert |store.friendships| == 1;
  }

  /** A client of the store: a request rejected, then accepted after all
      (the status is not checked before it is written). */
  method RejectScenario()
  {
    var store := new Store(map[]);
    var cb := store.SendRequest("userC", "userB", "t1");
    var rejected := store.Respond("userB", cb.id, false);
    assert rejected == Ok(cb.(status := Rejected));
    assert store.friendships == [];
    FriendIdsExact("userB", store.friendships);
    assert "userC" !in FriendIds("userB", store.friendships);

    assert store.requests == [cb.(status := Rejected)];
    var late := store.Respond("userB", cb.id, true);
    assert store.requests == [cb.(status := Accepted)];
    assert late == Ok(cb.(status := Accepted));
  }

  /** A client of the store: removing a friend twice; the second call
      succeeds and changes nothing. */
  method RemoveTwiceScenario(store: Store, me: UserId, friend: UserId)
    requires store.Valid()
    modifies store
  {
    var before := store.friendships;
    store.RemoveFriend(me, friend);
    var once := store.friendships;
    store.RemoveFriend(me, friend);
    RemovePairIdempotent(before, me, friend);
    assert store.friendships == once;
    RemovedFromBothLists(before, me, friend);
    assert friend !in FriendIds(me, store.friendships);
    assert me !in FriendIds(friend, store.friendships);
  }
}
