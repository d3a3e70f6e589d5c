/** Removing users from the graph, many at a time. */
module GraphUtils {
  import opened Directory
  import opened FollowDistance
  import opened FollowUpdates
  import opened SocialGraph
  import opened UniqueIds

  function Users(list: seq<Id>): (r: set<Id>)
    ensures forall u :: u in r <==> u in list
  {
    set u | u in list
  }

  /** Every set loses `users`; the keys stay. */
  ghost predicate Stripped(m: Index, m': Index, users: set<Id>) {
    m'.Keys == m.Keys && forall a :: a in m ==> m'[a] == m[a] - users
  }

  /** One pass over an index, deleting each of the users from each of its sets. */
  method Strip(m: Index, users: seq<Id>) returns (m': Index)
    ensures Stripped(m, m', Users(users))
  {
    m' := m;
    var todo := m.Keys;
    while todo != {}
      invariant todo <= m.Keys == m'.Keys
      invariant forall a :: a in m ==> m'[a] == if a in todo then m[a] else m[a] - Users(users)
      decreases todo
    {
      var a :| a in todo;
      todo := todo - {a};
      var s := m'[a];
      for i := 0 to |users|
        invariant s == m[a] - Users(users[..i])
      {
        assert users[..i + 1] == users[..i] + [users[i]];
        s := s - {users[i]};
      }
      assert users[..|users|] == users;
      m' := m'[a := s];
    }
  }

  /** m after `user` is deleted from the set of each of `holders` that has one. */
  ghost predicate DroppedFrom(m: Index, m': Index, holders: set<Id>, user: Id) {
    m'.Keys == m.Keys && forall a :: a in m ==> m'[a] == if a in holders then m[a] - {user} else m[a]
  }

  method DropFrom(m: Index, holders: set<Id>, user: Id) returns (m': Index)
    ensures DroppedFrom(m, m', holders, user)
  {
    m' := m;
    var todo := holders;
    while todo != {}
      invariant todo <= holders && DroppedFrom(m, m', holders - todo, user)
      decreases todo
    {
      var h :| h in todo;
      todo := todo - {h};
      if h in m' { m' := m'[h := m'[h] - {user}]; }
    }
    assert holders - {} == holders;
  }

  /** What phase 4 has done to an index after the first i users: `rel` is the transposed index
      as it was at the start. */
  ghost predicate Cleaned(m: Index, m': Index, rel: Index, users: seq<Id>, i: nat)
    requires i <= |users|
  {
    && m'.Keys == m.Keys
    && forall a, b :: a in m ==> (b in m'[a] <==> b in m[a] && !(b in users[..i] && Linked(rel, b, a)))
  }

  lemma CleanedStep(m: Index, m': Index, m'': Index, rel: Index, users: seq<Id>, i: nat)
    requires i < |users| && Cleaned(m, m', rel, users, i)
    requires DroppedFrom(m', m'', Outs(rel, users[i]), users[i])
    ensures Cleaned(m, m'', rel, users, i + 1)
  {
    assert users[..i + 1] == users[..i] + [users[i]];
  }

  /** Removing the users' own entries, then cleaning by the transposed index, removes exactly
      their links. */
  lemma CleanedIsWithout(m: Index, rel: Index, m': Index, users: seq<Id>)
    requires Transposed(m, rel) && Cleaned(m - Users(users), m', rel, users, |users|)
    ensures Without(m, m', Users(users))
  {
    assert users[..|users|] == users;
    forall a, b ensures Linked(m', a, b) <==> Linked(m, a, b) && a !in Users(users) && b !in Users(users) {
      assert Linked(m, a, b) <==> Linked(rel, b, a);
    }
  }

  lemma StrippedIsWithout(m: Index, m': Index, users: set<Id>)
    requires Stripped(m - users, m', users)
    ensures Without(m, m', users)
  {
  }

  /** Phases 2 to 4 on the mutes, with the relations collected in phase 1. */
  method CleanMutes(muted: Index, mutedBy: Index, users: seq<Id>) returns (muted': Index, mutedBy': Index)
    requires Transposed(muted, mutedBy)
    ensures Without(muted, muted', Users(users)) && Transposed(muted', mutedBy')
  {
    var mutedUsers, userMuters := muted, mutedBy;
    var left, leftBy := muted - Users(users), mutedBy - Users(users);
    muted', mutedBy' := left, leftBy;
    for i := 0 to |users|
      invariant Cleaned(left, muted', userMuters, users, i)
      invariant Cleaned(leftBy, mutedBy', mutedUsers, users, i)
    {
      ghost var was, wasBy := muted', mutedBy';
      muted' := DropFrom(muted', Outs(userMuters, users[i]), users[i]);
      mutedBy' := DropFrom(mutedBy', Outs(mutedUsers, users[i]), users[i]);
      CleanedStep(left, was, muted', userMuters, users, i);
      CleanedStep(leftBy, wasBy, mutedBy', mutedUsers, users, i);
    }
    CleanedIsWithout(muted, mutedBy, muted', users);
    CleanedIsWithout(mutedBy, muted, mutedBy', users);
    WithoutTransposed(muted, mutedBy, muted', mutedBy', Users(users));
  }

  /** Phases 2 to 3.5 on the follows. */
  method CleanFollows(follows: Index, followers: Index, users: seq<Id>) returns (follows': Index, followers': Index)
    requires Transposed(follows, followers)
    ensures Without(follows, follows', Users(users)) && Transposed(follows', followers')
  {
    follows' := Strip(follows - Users(users), users);
    followers' := Strip(followers - Users(users), users);
    StrippedIsWithout(follows, follows', Users(users));
    StrippedIsWithout(followers, followers', Users(users));
    WithoutTransposed(follows, followers, follows', followers', Users(users));
  }

  /** A user leaves its bucket; one without a distance stays in the bucket it may be in. */
  function LeaveBucket(buckets: Buckets, dist: Recorded, user: Id): Buckets {
    var d := DistanceOf(dist, user);
    if d.Some? && d in buckets then buckets[d := buckets[d] - {user}] else buckets
  }

  lemma BucketDrops(buckets: Buckets, dist: Recorded, user: Id)
    requires Filed(buckets, Defined(dist))
    ensures Filed(LeaveBucket(buckets, dist, user), Defined(dist - {user}))
  {
    var buckets', dist' := LeaveBucket(buckets, dist, user), Defined(dist - {user});
    forall e: nat, x ensures InBucket(buckets', Some(e), x) <==> x in dist' && dist'[x] == e {
      assert InBucket(buckets, Some(e), x) <==> x in Defined(dist) && Defined(dist)[x] == e;
    }
  }

  /** The users leave their distance buckets. */
  method CleanDistances(dist: Recorded, buckets: Buckets, users: seq<Id>)
    returns (dist': Recorded, buckets': Buckets)
    ensures dist' == dist - Users(users)
    ensures Filed(buckets, Defined(dist)) ==> Filed(buckets', Defined(dist'))
  {
    dist', buckets' := dist, buckets;
    for i := 0 to |users|
      invariant dist' == dist - Users(users[..i])
      invariant Filed(buckets, Defined(dist)) ==> Filed(buckets', Defined(dist'))
    {
      assert users[..i + 1] == users[..i] + [users[i]];
      if Filed(buckets', Defined(dist')) { BucketDrops(buckets', dist', users[i]); }
      buckets' := LeaveBucket(buckets', dist', users[i]);
      dist' := dist' - {users[i]};
    }
    assert users[..|users|] == users;
  }

  method RemoveIds(ids: UniqueIds, users: seq<Id>)
    requires ids.Valid()
    modifies ids
    ensures ids.Valid() && ids.uniqueIdToStr == old(ids.uniqueIdToStr) - Users(users)
  {
    for i := 0 to |users|
      invariant ids.Valid() && ids.uniqueIdToStr == old(ids.uniqueIdToStr) - Users(users[..i])
    {
      assert users[..i + 1] == users[..i] + [users[i]];
      ids.Remove(users[i]);
    }
    assert users[..|users|] == users;
  }

  /** Exactly the links between users that stay are kept, in all four indexes, also when removed
      users follow or mute each other. */
  twostate predicate UsersRemoved(graph: SocialGraph, users: seq<Id>)
    reads graph
  {
    && graph.Valid()
    && Without(old(graph.followedByUser), graph.followedByUser, Users(users))
    && Without(old(graph.mutedByUser), graph.mutedByUser, Users(users))
    && graph.followListCreatedAt == old(graph.followListCreatedAt) - Users(users)
    && graph.muteListCreatedAt == old(graph.muteListCreatedAt) - Users(users)
    && graph.followDistanceByUser == old(graph.followDistanceByUser) - Users(users)
    && (old(Filed(graph.usersByFollowDistance, Defined(graph.followDistanceByUser))) ==>
        Filed(graph.usersByFollowDistance, Defined(graph.followDistanceByUser)))
  }

  method RemoveFromGraph(graph: SocialGraph, users: seq<Id>)
    requires graph.Valid()
    modifies graph
    ensures UsersRemoved(graph, users)
  {
    var gone := Users(users);
    var follows, followers := CleanFollows(graph.followedByUser, graph.followersByUser, users);
    var muted, mutedBy := CleanMutes(graph.mutedByUser, graph.userMutedBy, users);
    var dist, buckets := CleanDistances(graph.followDistanceByUser, graph.usersByFollowDistance, users);
    graph.followedByUser, graph.followersByUser := follows, followers;
    graph.mutedByUser, graph.userMutedBy := muted, mutedBy;
    graph.followDistanceByUser, graph.usersByFollowDistance := dist, buckets;
    graph.followListCreatedAt := graph.followListCreatedAt - gone;
    graph.muteListCreatedAt := graph.muteListCreatedAt - gone;
  }

  /** batchRemoveUsers */
  method BatchRemoveUsers(graph: SocialGraph, ids: UniqueIds, usersToRemove: seq<Id>)
    requires graph.Valid() && ids.Valid()
    modifies graph, ids
    ensures UsersRemoved(graph, usersToRemove)
    ensures ids.Valid() && ids.uniqueIdToStr == old(ids.uniqueIdToStr) - Users(usersToRemove)
  {
    RemoveIds(ids, usersToRemove);
    RemoveFromGraph(graph, usersToRemove);
  }

  /** The users that someone mutes and no one follows. */
  ghost predicate MutedNotFollowed(follows: Index, mutedBy: Index, u: Id) {
    Outs(mutedBy, u) != {} && forall a :: !Linked(follows, a, u)
  }

  /** removeMutedNotFollowedUsers, with the graph unchanged between its batches: it removes all
      those users and no one else, so no remaining user was muted without a follower. */
  method RemoveMutedNotFollowedUsers(graph: SocialGraph, ids: UniqueIds) returns (removed: seq<Id>)
    requires graph.Valid() && ids.Valid()
    modifies graph, ids
    ensures UsersRemoved(graph, removed) && ids.Valid()
    ensures forall u :: u in removed <==> MutedNotFollowed(old(graph.followedByUser), old(graph.userMutedBy), u)
  {
    var hasFollowers: set<Id> := {};
    var todo := graph.followedByUser.Keys;
    while todo != {}
      invariant unchanged(graph) && todo <= graph.followedByUser.Keys
      invariant forall u :: u in hasFollowers <==> exists a :: a !in todo && Linked(graph.followedByUser, a, u)
      decreases todo
    {
      var a :| a in todo;
      todo := todo - {a};
      forall u | u in hasFollowers + graph.followedByUser[a]
        ensures exists x :: x !in todo && Linked(graph.followedByUser, x, u)
      {
        if u in graph.followedByUser[a] { assert Linked(graph.followedByUser, a, u); }
      }
      hasFollowers := hasFollowers + graph.followedByUser[a];
    }
    removed := [];
    todo := graph.userMutedBy.Keys;
    while todo != {}
      invariant unchanged(graph) && todo <= graph.userMutedBy.Keys
      invariant forall u :: u in removed <==> u !in todo && Outs(graph.userMutedBy, u) != {} && u !in hasFollowers
      decreases todo
    {
      var u :| u in todo;
      todo := todo - {u};
      if |graph.userMutedBy[u]| > 0 && u !in hasFollowers { removed := removed + [u]; }
    }
    BatchRemoveUsers(graph, ids, removed);
  }
}
