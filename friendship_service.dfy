/** The friendship and follow graph (FriendshipServiceImpl). A pair of users has
    two directed rows, (user, friend) and (friend, user), each with a status;
    a CONFIRMED row means that its user follows its friend. */
module FriendshipService {
  import opened Errors
  import opened Model
  import opened Storage
  import opened SetFacts

  type Rows = map<Pair, FriendshipStatus>

  // ---------------------------------------------------------------------------
  // The relations the queries report

  /** `a` follows `b`: the row (a, b) is CONFIRMED. */
  predicate ConfirmedRow(rows: Rows, a: int, b: int) {
    (a, b) in rows && rows[(a, b)] == FriendshipStatus.Confirmed
  }

  /** `x` follows `u` (an incoming CONFIRMED row of `u`). */
  predicate Incoming(rows: Rows, u: int, x: int) {
    x != u && ConfirmedRow(rows, x, u)
  }

  /** Friends follow each other. */
  predicate IsFriend(rows: Rows, u: int, x: int) {
    ConfirmedRow(rows, u, x) && Incoming(rows, u, x)
  }

  /** A FOLLOWED user of `u` follows `u` without being followed back. */
  predicate Followed(rows: Rows, u: int, x: int) {
    Incoming(rows, u, x) && !ConfirmedRow(rows, u, x)
  }

  /** A FOLLOWING user of `u` is followed by `u` without following back. */
  predicate Following(rows: Rows, u: int, x: int) {
    ConfirmedRow(rows, u, x) && !Incoming(rows, u, x)
  }

  predicate NoDuplicates<T(==)>(s: seq<T>) {
    forall i, j :: 0 <= i < j < |s| ==> s[i] != s[j]
  }

  datatype FollowerType = FollowedType | FollowingType

  // ---------------------------------------------------------------------------
  // Checks and the lookup of a pair

  /** checkIdsCorrectness: nobody befriends themselves. */
  function CheckIdsCorrectness(userId: int, friendId: int): (r: Outcome)
    ensures r == Pass <==> userId != friendId
    ensures r.Fail? ==> r.error == Validation
  {
    if userId == friendId then Fail(Validation) else Pass
  }

  /** The two rows of a pair, keyed by their user (Collectors.toMap): `mine` is
      the row (user, friend), `theirs` the row (friend, user). */
  datatype PairRows = PairRows(mine: Option<FriendshipStatus>, theirs: Option<FriendshipStatus>)

  function Row(rows: Rows, a: int, b: int): Option<FriendshipStatus> {
    if (a, b) in rows then Some(rows[(a, b)]) else None
  }

  /** getFriendships: distinct, existing users; then the rows between them. */
  function GetFriendships(rows: Rows, users: set<int>, userId: int, friendId: int): (r: Result<PairRows>)
    ensures userId == friendId ==> r == Err(Validation)
    ensures userId != friendId && (userId !in users || friendId !in users) ==> r == Err(NotFound)
    ensures r.Ok? <==> userId != friendId && userId in users && friendId in users
    ensures r.Ok? ==>
      && (r.value.mine.Some? <==> (userId, friendId) in rows)
      && (r.value.mine.Some? ==> r.value.mine.value == rows[(userId, friendId)])
      && (r.value.theirs.Some? <==> (friendId, userId) in rows)
      && (r.value.theirs.Some? ==> r.value.theirs.value == rows[(friendId, userId)])
  {
    match CheckIdsCorrectness(userId, friendId)
    case Fail(e) => Err(e)
    case Pass =>
      if userId !in users || friendId !in users then Err(NotFound)
      else Ok(PairRows(Row(rows, userId, friendId), Row(rows, friendId, userId)))
  }

  /** On a well-formed table the two rows of a pair are found together, and
      at least one of them is CONFIRMED. */
  lemma PairRowsTogether(rows: Rows, users: set<int>, userId: int, friendId: int)
    requires FriendshipsValid(rows)
    ensures var r := GetFriendships(rows, users, userId, friendId);
      r.Ok? ==> (r.value.mine.Some? <==> r.value.theirs.Some?) &&
                (r.value.mine.Some? ==> r.value.mine == Some(FriendshipStatus.Confirmed) ||
                                        r.value.theirs == Some(FriendshipStatus.Confirmed))
  {
    if (userId, friendId) in rows {
      assert ((userId, friendId).1, (userId, friendId).0) in rows;
    }
    if (friendId, userId) in rows {
      assert ((friendId, userId).1, (friendId, userId).0) in rows;
    }
  }

  // ---------------------------------------------------------------------------
  // The four mutating operations

  /** addFriend: a fresh pair becomes (CONFIRMED, PENDING); otherwise the user's
      own row becomes CONFIRMED, unless it already is. */
  method AddFriend(db: Database, userId: int, friendId: int) returns (r: Outcome)
    requires db.Valid()
    modifies db
    ensures db.Valid()
    ensures db.users == old(db.users) && db.categories == old(db.categories)
    ensures db.events == old(db.events) && db.requests == old(db.requests)
    ensures r.Fail? ==> db.friendships == old(db.friendships)
    ensures GetFriendships(old(db.friendships), db.users, userId, friendId).Err? ==>
      r == Fail(GetFriendships(old(db.friendships), db.users, userId, friendId).error)
    ensures GetFriendships(old(db.friendships), db.users, userId, friendId).Ok? ==>
      && ((userId, friendId) !in old(db.friendships) ==>
            r == Pass &&
            db.friendships == old(db.friendships)[(userId, friendId) := FriendshipStatus.Confirmed]
                                                 [(friendId, userId) := FriendshipStatus.Pending])
      && ((userId, friendId) in old(db.friendships) &&
          old(db.friendships)[(userId, friendId)] != FriendshipStatus.Confirmed ==>
            r == Pass &&
            db.friendships == old(db.friendships)[(userId, friendId) := FriendshipStatus.Confirmed])
      && (ConfirmedRow(old(db.friendships), userId, friendId) ==> r == Fail(Conflict))
    ensures r.Pass? ==> ConfirmedRow(db.friendships, userId, friendId)
    ensures r.Pass? ==> (IsFriend(db.friendships, userId, friendId) <==> ConfirmedRow(old(db.friendships), friendId, userId))
  {
    var friendships := GetFriendships(db.friendships, db.users, userId, friendId);
    if friendships.Err? {
      return Fail(friendships.error);
    }
    PairRowsTogether(db.friendships, db.users, userId, friendId);
    var pair := friendships.value;
    ghost var before := db.friendships;
    if pair.mine.None? {
      db.friendships := db.friendships[(userId, friendId) := FriendshipStatus.Confirmed]
                                      [(friendId, userId) := FriendshipStatus.Pending];
    } else {
      if pair.mine.value != FriendshipStatus.Confirmed {
        db.friendships := db.friendships[(userId, friendId) := FriendshipStatus.Confirmed];
      } else {
        return Fail(Conflict);
      }
    }
    forall k | k in db.friendships
      ensures k.0 != k.1 && (k.1, k.0) in db.friendships
      ensures db.friendships[k] == FriendshipStatus.Confirmed || db.friendships[(k.1, k.0)] == FriendshipStatus.Confirmed
    {
      if k in before {
        assert (k.1, k.0) in before;
      }
    }
    r := Pass;
  }

  /** deleteFriend: only a followed friend can be dropped; a one-way follow
      disappears with both rows, a mutual one becomes CANCELED on the user's side. */
  method DeleteFriend(db: Database, userId: int, friendId: int) returns (r: Outcome)
    requires db.Valid()
    modifies db
    ensures db.Valid()
    ensures db.users == old(db.users) && db.categories == old(db.categories)
    ensures db.events == old(db.events) && db.requests == old(db.requests)
    ensures r.Fail? ==> db.friendships == old(db.friendships)
    ensures GetFriendships(old(db.friendships), db.users, userId, friendId).Err? ==>
      r == Fail(GetFriendships(old(db.friendships), db.users, userId, friendId).error)
    ensures GetFriendships(old(db.friendships), db.users, userId, friendId).Ok? ==>
      && (!ConfirmedRow(old(db.friendships), userId, friendId) ==> r == Fail(NotFound))
      && (ConfirmedRow(old(db.friendships), userId, friendId) && !ConfirmedRow(old(db.friendships), friendId, userId) ==>
            r == Pass && db.friendships == old(db.friendships) - {(userId, friendId), (friendId, userId)})
      && (ConfirmedRow(old(db.friendships), userId, friendId) && ConfirmedRow(old(db.friendships), friendId, userId) ==>
            r == Pass &&
            db.friendships == old(db.friendships)[(userId, friendId) := FriendshipStatus.Canceled])
    ensures r.Pass? ==> !ConfirmedRow(db.friendships, userId, friendId) && !IsFriend(db.friendships, userId, friendId)
  {
    var friendships := GetFriendships(db.friendships, db.users, userId, friendId);
    if friendships.Err? {
      return Fail(friendships.error);
    }
    PairRowsTogether(db.friendships, db.users, userId, friendId);
    var pair := friendships.value;
    if pair.mine.None? || pair.mine.value != FriendshipStatus.Confirmed {
      return Fail(NotFound);
    }
    ghost var before := db.friendships;
    if pair.theirs.value != FriendshipStatus.Confirmed {
      db.friendships := db.friendships - {(userId, friendId), (friendId, userId)};
    } else {
      db.friendships := db.friendships[(userId, friendId) := FriendshipStatus.Canceled];
    }
    forall k | k in db.friendships
      ensures k.0 != k.1 && (k.1, k.0) in db.friendships
      ensures db.friendships[k] == FriendshipStatus.Confirmed || db.friendships[(k.1, k.0)] == FriendshipStatus.Confirmed
    {
      assert (k.1, k.0) in before;
    }
    r := Pass;
  }

  /** cancelFriendshipRequest: the user declines a PENDING request of the friend. */
  method CancelFriendshipRequest(db: Database, userId: int, friendId: int) returns (r: Outcome)
    requires db.Valid()
    modifies db
    ensures db.Valid()
    ensures db.users == old(db.users) && db.categories == old(db.categories)
    ensures db.events == old(db.events) && db.requests == old(db.requests)
    ensures r.Fail? ==> db.friendships == old(db.friendships)
    ensures GetFriendships(old(db.friendships), db.users, userId, friendId).Err? ==>
      r == Fail(GetFriendships(old(db.friendships), db.users, userId, friendId).error)
    ensures GetFriendships(old(db.friendships), db.users, userId, friendId).Ok? ==>
      && (Row(old(db.friendships), userId, friendId) != Some(FriendshipStatus.Pending) ==> r == Fail(NotFound))
      && (Row(old(db.friendships), userId, friendId) == Some(FriendshipStatus.Pending) ==>
            r == Pass &&
            db.friendships == old(db.friendships)[(userId, friendId) := FriendshipStatus.Canceled])
    ensures r.Pass? ==> Following(db.friendships, friendId, userId)
  {
    var friendships := GetFriendships(db.friendships, db.users, userId, friendId);
    if friendships.Err? {
      return Fail(friendships.error);
    }
    PairRowsTogether(db.friendships, db.users, userId, friendId);
    var pair := friendships.value;
    if pair.mine.None? || pair.mine.value != FriendshipStatus.Pending {
      return Fail(NotFound);
    }
    ghost var before := db.friendships;
    db.friendships := db.friendships[(userId, friendId) := FriendshipStatus.Canceled];
    forall k | k in db.friendships
      ensures k.0 != k.1 && (k.1, k.0) in db.friendships
      ensures db.friendships[k] == FriendshipStatus.Confirmed || db.friendships[(k.1, k.0)] == FriendshipStatus.Confirmed
    {
      assert (k.1, k.0) in before;
    }
    r := Pass;
  }

  /** deleteFollower: a follower whose request was declined is forgotten with
      both rows; a follow that is still PENDING must be declined first. */
  method DeleteFollower(db: Database, userId: int, followerId: int) returns (r: Outcome)
    requires db.Valid()
    modifies db
    ensures db.Valid()
    ensures db.users == old(db.users) && db.categories == old(db.categories)
    ensures db.events == old(db.events) && db.requests == old(db.requests)
    ensures r.Fail? ==> db.friendships == old(db.friendships)
    ensures GetFriendships(old(db.friendships), db.users, userId, followerId).Err? ==>
      r == Fail(GetFriendships(old(db.friendships), db.users, userId, followerId).error)
    ensures GetFriendships(old(db.friendships), db.users, userId, followerId).Ok? ==>
      && (Row(old(db.friendships), userId, followerId).None? ==> r == Fail(NotFound))
      && (Row(old(db.friendships), userId, followerId) == Some(FriendshipStatus.Confirmed) ==> r == Fail(NotFound))
      && (Row(old(db.friendships), userId, followerId) == Some(FriendshipStatus.Pending) ==> r == Fail(Conflict))
      && (Row(old(db.friendships), userId, followerId) == Some(FriendshipStatus.Canceled) ==>
            r == Pass && db.friendships == old(db.friendships) - {(userId, followerId), (followerId, userId)})
    ensures r.Pass? ==> (userId, followerId) !in db.friendships && (followerId, userId) !in db.friendships
  {
    var friendships := GetFriendships(db.friendships, db.users, userId, followerId);
    if friendships.Err? {
      return Fail(friendships.error);
    }
    PairRowsTogether(db.friendships, db.users, userId, followerId);
    var pair := friendships.value;
    if pair.mine.None? || pair.mine.value == FriendshipStatus.Confirmed {
      return Fail(NotFound);
    }
    if pair.mine.value == FriendshipStatus.Pending {
      return Fail(Conflict);
    }
    ghost var before := db.friendships;
    db.friendships := db.friendships - {(userId, followerId), (followerId, userId)};
    forall k | k in db.friendships
      ensures k.0 != k.1 && (k.1, k.0) in db.friendships
      ensures db.friendships[k] == FriendshipStatus.Confirmed || db.friendships[(k.1, k.0)] == FriendshipStatus.Confirmed
    {
      assert (k.1, k.0) in before;
    }
    r := Pass;
  }

  // ---------------------------------------------------------------------------
  // Queries

  /** fillIncomingAndOutgoingRequests: split the CONFIRMED rows touching the
      user into those that point at them, keyed by their user, and the user's own. */
  method FillIncomingAndOutgoingRequests(db: Database, userId: int)
    returns (incoming: map<int, Pair>, outgoing: seq<Pair>)
    ensures forall x :: x in incoming <==> Incoming(db.friendships, userId, x)
    ensures forall x :: x in incoming ==> incoming[x] == (x, userId)
    ensures forall p :: p in outgoing <==> p.0 == userId && ConfirmedRow(db.friendships, p.0, p.1)
    ensures NoDuplicates(outgoing)
  {
    // findByUser_IdAndStatusOrFriend_IdAndStatus
    var found := set p | p in db.friendships && db.friendships[p] == FriendshipStatus.Confirmed &&
                         (p.0 == userId || p.1 == userId);
    incoming := map[];
    outgoing := [];
    var todo := found;
    while todo != {}
      invariant todo <= found
      invariant forall x :: x in incoming <==> x != userId && (x, userId) in found - todo
      invariant forall x :: x in incoming ==> incoming[x] == (x, userId)
      invariant forall p :: p in outgoing <==> p.0 == userId && p in found - todo
      invariant NoDuplicates(outgoing)
      decreases todo
    {
      ghost var _ := Element(todo);
      var friendship :| friendship in todo;
      if friendship.0 != userId {
        incoming := incoming[friendship.0 := friendship];
      } else {
        outgoing := outgoing + [friendship];
      }
      todo := todo - {friendship};
    }
  }

  /** The friends listed in `outgoing` whose presence in `incoming` is `present`
      (the final filters of findFriends and findFollowers). */
  function FriendsWhere(outgoing: seq<Pair>, incoming: map<int, Pair>, present: bool): (r: seq<int>)
    ensures forall x :: x in r <==> exists i :: 0 <= i < |outgoing| && outgoing[i].1 == x && (x in incoming <==> present)
    ensures (forall i, j :: 0 <= i < j < |outgoing| ==> outgoing[i].1 != outgoing[j].1) ==> NoDuplicates(r)
  {
    if outgoing == [] then []
    else
      var rest := FriendsWhere(outgoing[1..], incoming, present);
      assert forall i :: 1 <= i < |outgoing| ==> outgoing[i] == outgoing[1..][i - 1];
      if (outgoing[0].1 in incoming) == present then [outgoing[0].1] + rest else rest
  }

  /** Two rows of the same user with the same friend are the same row. */
  lemma OutgoingFriendsDistinct(outgoing: seq<Pair>, userId: int)
    requires NoDuplicates(outgoing)
    requires forall p :: p in outgoing ==> p.0 == userId
    ensures forall i, j :: 0 <= i < j < |outgoing| ==> outgoing[i].1 != outgoing[j].1
  {
    forall i, j | 0 <= i < j < |outgoing| ensures outgoing[i].1 != outgoing[j].1 {
      assert outgoing[i] in outgoing && outgoing[j] in outgoing;
    }
  }

  /** findFriends: the users the user follows and who follow back. */
  method FindFriends(db: Database, userId: int) returns (friends: seq<int>)
    ensures forall x :: x in friends <==> IsFriend(db.friendships, userId, x)
    ensures NoDuplicates(friends)
  {
    var incoming, outgoing := FillIncomingAndOutgoingRequests(db, userId);
    OutgoingFriendsDistinct(outgoing, userId);
    friends := FriendsWhere(outgoing, incoming, true);
    forall x ensures x in friends <==> IsFriend(db.friendships, userId, x) {
      if IsFriend(db.friendships, userId, x) {
        assert (userId, x) in outgoing;
        var i :| 0 <= i < |outgoing| && outgoing[i] == (userId, x);
        assert outgoing[i].1 == x;
      }
    }
  }

  /** findFollowers: FOLLOWED lists those who follow the user one way, FOLLOWING
      those the user follows one way; no friend is in either list. */
  method FindFollowers(db: Database, userId: int, followerType: FollowerType) returns (followers: seq<int>)
    ensures followerType == FollowedType ==> forall x :: x in followers <==> Followed(db.friendships, userId, x)
    ensures followerType == FollowingType ==> forall x :: x in followers <==> Following(db.friendships, userId, x)
    ensures forall x :: x in followers ==> !IsFriend(db.friendships, userId, x)
    ensures NoDuplicates(followers)
  {
    var incoming, outgoing := FillIncomingAndOutgoingRequests(db, userId);
    OutgoingFriendsDistinct(outgoing, userId);
    if followerType == FollowedType {
      ghost var incoming0 := incoming;
      var i := 0;
      while i < |outgoing|
        invariant 0 <= i <= |outgoing|
        invariant forall x :: x in incoming <==> x in incoming0 && forall j :: 0 <= j < i ==> outgoing[j].1 != x
        invariant forall x :: x in incoming ==> incoming[x] == (x, userId)
      {
        incoming := incoming - {outgoing[i].1};
        i := i + 1;
      }
      // incoming.values(), mapped to their users
      followers := [];
      var keys := incoming.Keys;
      while keys != {}
        invariant keys <= incoming.Keys
        invariant forall x :: x in followers <==> x in incoming.Keys - keys
        invariant NoDuplicates(followers)
        decreases keys
      {
        ghost var _ := Element(keys);
        var x :| x in keys;
        followers := followers + [incoming[x].0];
        keys := keys - {x};
      }
      forall x ensures x in followers <==> Followed(db.friendships, userId, x) {
        if ConfirmedRow(db.friendships, userId, x) {
          assert (userId, x) in outgoing;
          var j :| 0 <= j < |outgoing| && outgoing[j] == (userId, x);
          assert outgoing[j].1 == x;
        }
      }
    } else {
      followers := FriendsWhere(outgoing, incoming, false);
      forall x ensures x in followers <==> Following(db.friendships, userId, x) {
        if ConfirmedRow(db.friendships, userId, x) {
          assert (userId, x) in outgoing;
          var i :| 0 <= i < |outgoing| && outgoing[i] == (userId, x);
          assert outgoing[i].1 == x;
        }
      }
    }
  }
}
