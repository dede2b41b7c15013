/** The rows of the store's tables (profiles, interests, user_interests,
    friend_requests, friendships) and the lookups every endpoint shares. */
module Tables {
  import opened Wrappers

  type UserId = string
  type InterestId = int
  /** An ISO-8601 time stamp; the clock is outside the model. */
  type Timestamp = string

  /** A row of `profiles`; the columns the code may leave null are options. */
  datatype Profile = Profile(
    id: UserId,
    username: string,
    fullName: Option<string>,
    bio: Option<string>,
    age: Option<int>,
    location: Option<string>,
    avatarUrl: Option<string>,
    createdAt: Timestamp,
    updatedAt: Timestamp)

  /** The `interests` catalog: interest id to interest name. */
  type Catalog = map<InterestId, string>

  /** A row of `user_interests`. */
  datatype UserInterest = UserInterest(userId: UserId, interestId: InterestId)

  datatype Status = Pending | Accepted | Rejected

  /** A row of `friend_requests`. */
  datatype FriendRequest = FriendRequest(
    id: nat,
    senderId: UserId,
    receiverId: UserId,
    status: Status,
    createdAt: Timestamp)

  /** A row of `friendships`. */
  datatype Friendship = Friendship(user1: UserId, user2: UserId)

  /** `id` is the primary key of `profiles`: every profile is filed under
      its own id. */
  predicate KeyedById(profiles: map<UserId, Profile>)
  {
    forall u :: u in profiles ==> profiles[u].id == u
  }

  /** Every `user_interests` row points at an interest of the catalog (the
      foreign key the joins `interests(name)` follow). */
  predicate InterestsInCatalog(rows: seq<UserInterest>, catalog: Catalog)
  {
    forall x :: x in rows ==> x.interestId in catalog
  }

  /** `(user_id, interest_id)` is unique in `user_interests`. */
  predicate InterestRowsUnique(rows: seq<UserInterest>)
  {
    forall i, j :: 0 <= i < j < |rows| ==> rows[i] != rows[j]
  }

  /** `select('interests(name)').eq('user_id', u)`: the names of the
      interests of `u`, in table order. */
  function InterestNames(rows: seq<UserInterest>, catalog: Catalog, u: UserId): (names: seq<string>)
    requires InterestsInCatalog(rows, catalog)
    ensures forall n :: n in names <==>
      exists x :: x in rows && x.userId == u && catalog[x.interestId] == n
    ensures |names| <= |rows|
  {
    if rows == [] then []
    else
      (if rows[0].userId == u then [catalog[rows[0].interestId]] else [])
      + InterestNames(rows[1..], catalog, u)
  }
}
