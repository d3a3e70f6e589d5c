/** The follow and mute relations, each kept in two indexes, and the operations that change them. */
module SocialGraph {
  import opened Directory
  import opened FollowDistance
  import opened FollowUpdates
  import opened UniqueIds

  /** The two indexes hold one relation, read in the two directions. */
  ghost predicate Transposed(m: Index, r: Index) {
    forall a, b :: Linked(m, a, b) <==> Linked(r, b, a)
  }

  lemma AddTransposed(m: Index, r: Index, a: Id, b: Id)
    requires Transposed(m, r)
    ensures Transposed(AddEdge(m, a, b), AddEdge(r, b, a))
  {
    AddEdgeLinks(m, a, b);
    AddEdgeLinks(r, b, a);
  }

  lemma DropTransposed(m: Index, r: Index, a: Id, b: Id)
    requires Transposed(m, r)
    ensures Transposed(DropEdge(m, a, b), DropEdge(r, b, a))
  {
    DropEdgeLinks(m, a, b);
    DropEdgeLinks(r, b, a);
  }

  /** Only a's set differs, and it is `set`. */
  ghost predicate SetOf(m: Index, m': Index, a: Id, links: set<Id>) {
    forall x :: Outs(m', x) == if x == a then links else Outs(m, x)
  }

  /** m with every link to or from one of `users` gone, and nothing else. */
  ghost predicate Without(m: Index, m': Index, users: set<Id>) {
    forall a, b :: Linked(m', a, b) <==> Linked(m, a, b) && a !in users && b !in users
  }

  lemma WithoutTransposed(m: Index, r: Index, m': Index, r': Index, users: set<Id>)
    requires Transposed(m, r) && Without(m, m', users) && Without(r, r', users)
    ensures Transposed(m', r')
  {
  }

  /** Once the author has dropped some users, those who follow one of them are its other followers. */
  lemma RemainingFollowers(was: Index, before: Index, m: Index, r: Index, author: Id, user: Id)
    requires m == DropEdge(before, author, user) && Transposed(m, r)
    requires forall x :: x != author ==> Outs(before, x) == Outs(was, x)
    ensures OtherFollowers(was, author, user, Outs(r, user))
  {
    DropEdgeLinks(before, author, user);
    forall w ensures w in Outs(r, user) <==> w != author && Linked(was, w, user) {
      assert Linked(m, w, user) <==> Linked(r, user, w);
      assert w != author ==> Outs(before, w) == Outs(was, w);
    }
  }

  // ---------------------------------------------------------------- lists

  /** A list event's tags: the id of a valid public key in a "p" tag, None for any other tag. */
  type Tags = seq<Option<Id>>

  /** The users a list names; an author is never on its own list. */
  function Named(tags: Tags, author: Id): (r: set<Id>)
    ensures forall u :: u in r <==> u != author && Some(u) in tags
  {
    if tags == [] then {}
    else
      var rest := Named(tags[1..], author);
      if tags[0].Some? && tags[0].value != author then rest + {tags[0].value} else rest
  }

  /** A list event replaces the current one unless a newer-or-equal one is recorded. A recorded
      time of 0 counts as none. */
  predicate Accepts(existing: Option<int>, createdAt: int) {
    !(existing.Some? && existing.value != 0 && createdAt <= existing.value)
  }

  datatype ListState = ListState(createdAt: Option<int>, users: set<Id>)

  datatype ListEvent = ListEvent(createdAt: int, tags: Tags)

  function Handle(s: ListState, e: ListEvent, author: Id): ListState {
    if Accepts(s.createdAt, e.createdAt) then ListState(Some(e.createdAt), Named(e.tags, author)) else s
  }

  function HandleAll(s: ListState, events: seq<ListEvent>, author: Id): ListState {
    if events == [] then s
    else Handle(HandleAll(s, events[..|events| - 1], author), events[|events| - 1], author)
  }

  ghost predicate DistinctTimes(events: seq<ListEvent>) {
    forall i, j :: 0 <= i < j < |events| ==> events[i].createdAt != events[j].createdAt
  }

  ghost predicate IsNewest(events: seq<ListEvent>, k: nat) {
    k < |events| && forall i :: 0 <= i < |events| ==> events[i].createdAt <= events[k].createdAt
  }

  /** The first of the newest events. */
  ghost predicate IsFirstNewest(events: seq<ListEvent>, k: nat) {
    IsNewest(events, k) && forall i :: 0 <= i < k ==> events[i].createdAt < events[k].createdAt
  }

  /** In any order, the newest list is recorded, and of several with the same time the one that came
      first; unless its time is exactly 0 and others follow. */
  lemma {:induction false} NewestIsKept(events: seq<ListEvent>, k: nat, author: Id)
    requires IsFirstNewest(events, k)
    requires events[k].createdAt != 0 || k == |events| - 1
    ensures HandleAll(ListState(None, {}), events, author) ==
            ListState(Some(events[k].createdAt), Named(events[k].tags, author))
  {
    var n := |events| - 1;
    var init := events[..n];
    if k < n {
      NewestIsKept(init, k, author);
    } else if n > 0 {
      var i := SomeEarlierTime(init, author);
      assert events[i].createdAt < events[n].createdAt;
    }
  }

  /** A recorded time of 0 does not protect a list: what follows is handled as if nothing had come
      before, although it may be older. */
  lemma {:induction false} ZeroIsForgotten(s: ListState, events: seq<ListEvent>, author: Id)
    requires s.createdAt == Some(0) && events != []
    ensures HandleAll(s, events, author) == HandleAll(ListState(None, {}), events, author)
  {
    var init := events[..|events| - 1];
    if init != [] { ZeroIsForgotten(s, init, author); }
  }

  /** What is recorded is the time of some event handled. */
  lemma {:induction false} SomeEarlierTime(events: seq<ListEvent>, author: Id) returns (i: nat)
    requires events != []
    ensures i < |events| && HandleAll(ListState(None, {}), events, author).createdAt == Some(events[i].createdAt)
  {
    i := |events| - 1;
    if i > 0 {
      var s := HandleAll(ListState(None, {}), events[..i], author);
      if !Accepts(s.createdAt, events[i].createdAt) { i := SomeEarlierTime(events[..i], author); }
    }
  }

  /** In any order, the newest list wins; except that a newest time of exactly 0 does not
      protect a list from the older (negative) ones that follow it. */
  lemma {:induction false} NewestWinsExactly(events: seq<ListEvent>, k: nat, author: Id)
    requires DistinctTimes(events) && IsNewest(events, k)
    ensures HandleAll(ListState(None, {}), events, author).createdAt == Some(events[k].createdAt) <==>
            (events[k].createdAt != 0 || k == |events| - 1)
  {
    if events[k].createdAt != 0 || k == |events| - 1 {
      NewestIsKept(events, k, author);
    } else {
      ZeroIsLost(events, k, author);
    }
  }

  lemma {:induction false} ZeroIsLost(events: seq<ListEvent>, k: nat, author: Id)
    requires DistinctTimes(events) && k < |events| - 1 && events[k].createdAt == 0
    ensures HandleAll(ListState(None, {}), events, author).createdAt != Some(0)
  {
    var n := |events| - 1;
    if k < n - 1 { ZeroIsLost(events[..n], k, author); }
    assert events[n].createdAt != 0;
  }

  // ---------------------------------------------------------------- the graph

  class SocialGraph {
    const root: Id
    var followDistanceByUser: Recorded
    var usersByFollowDistance: Buckets
    var followedByUser: Index
    var followersByUser: Index
    var followListCreatedAt: map<Id, int>
    var mutedByUser: Index
    var userMutedBy: Index
    var muteListCreatedAt: map<Id, int>

    ghost predicate Valid()
      reads this
    {
      Transposed(followedByUser, followersByUser) && Transposed(mutedByUser, userMutedBy)
    }

    constructor (root: Id)
      ensures Valid() && this.root == root && followDistanceByUser == After(root, [])
      ensures Filed(usersByFollowDistance, Defined(followDistanceByUser))
      ensures followedByUser == mutedByUser == map[] && followListCreatedAt == muteListCreatedAt == map[]
    {
      this.root := root;
      followDistanceByUser, usersByFollowDistance := map[root := Some(0)], map[Some(0) := {root}];
      followedByUser, followersByUser, followListCreatedAt := map[], map[], map[];
      mutedByUser, userMutedBy, muteListCreatedAt := map[], map[], map[];
    }

    /** Every distance is the length of a chain of follows. */
    ghost predicate Walks()
      reads this
    {
      Rooted(followDistanceByUser, root) && Justified(followedByUser, root, Defined(followDistanceByUser))
    }

    /** privateAddFollower. The distance is not passed on (FollowUpdates.AddIsExactExactly). */
    method AddFollower(followedUser: Id, follower: Id)
      requires Valid()
      modifies this`followedByUser, this`followersByUser, this`followDistanceByUser, this`usersByFollowDistance
      ensures Valid()
      ensures followedByUser == AddEdge(old(followedByUser), follower, followedUser)
      ensures followDistanceByUser == AddDistance(old(followDistanceByUser), root, followedUser, follower)
      ensures old(Walks()) ==> Walks()
      ensures old(Rooted(followDistanceByUser, root)) ==>
                old(Filed(usersByFollowDistance, Defined(followDistanceByUser))) ==>
                  Filed(usersByFollowDistance, Defined(followDistanceByUser))
    {
      AddFollow(followedUser, follower);
      UpdateDistance(followedUser, follower);
      if old(Walks()) {
        AddIsRelaxation(old(followDistanceByUser), root, followedUser, follower);
        AddKeepsWalks(old(followedByUser), root, Defined(old(followDistanceByUser)), follower, followedUser);
      }
    }

    method AddFollow(followedUser: Id, follower: Id)
      requires Valid()
      modifies this`followedByUser, this`followersByUser
      ensures Valid() && followedByUser == AddEdge(old(followedByUser), follower, followedUser)
    {
      AddTransposed(followedByUser, followersByUser, follower, followedUser);
      if follower !in followedByUser { followedByUser := followedByUser[follower := {}]; }
      followedByUser := followedByUser[follower := followedByUser[follower] + {followedUser}];
      if followedUser !in followersByUser { followersByUser := followersByUser[followedUser := {}]; }
      followersByUser := followersByUser[followedUser := followersByUser[followedUser] + {follower}];
      assert followedByUser == AddEdge(old(followedByUser), follower, followedUser);
      assert followersByUser == AddEdge(old(followersByUser), followedUser, follower);
    }

    method UpdateDistance(followedUser: Id, follower: Id)
      modifies this`followDistanceByUser, this`usersByFollowDistance
      ensures followDistanceByUser == AddDistance(old(followDistanceByUser), root, followedUser, follower)
      ensures (Rooted(old(followDistanceByUser), root) &&
               Filed(old(usersByFollowDistance), Defined(old(followDistanceByUser))) ==>
                 Filed(usersByFollowDistance, Defined(followDistanceByUser)))
    {
      if followedUser == root { return; }
      ghost var dist, buckets := followDistanceByUser, usersByFollowDistance;
      var existing := DistanceOf(followDistanceByUser, followedUser);
      var distance := if follower == root then Some(1) else Beyond(DistanceOf(followDistanceByUser, follower));
      if follower == root || Nearer(distance, existing) {
        usersByFollowDistance := AddUserByFollowDistance(usersByFollowDistance, distance, followedUser);
        followDistanceByUser := followDistanceByUser[followedUser := distance];
        if Rooted(dist, root) && Filed(buckets, Defined(dist)) {
          assert DistanceOf(dist, followedUser) != Some(0);
          StaysFiled(buckets, usersByFollowDistance, Defined(dist), distance, followedUser);
        }
      }
    }

    /** privateRemoveFollower. Neither is a distance that goes (FollowUpdates.RemovalIsExactExactly),
        and the buckets stay as they are. */
    method RemoveFollower(unfollowedUser: Id, follower: Id)
      requires Valid()
      modifies this`followedByUser, this`followersByUser, this`followDistanceByUser
      ensures Valid()
      ensures followedByUser == DropEdge(old(followedByUser), follower, unfollowedUser)
      ensures Removed(Defined(old(followDistanceByUser)), Defined(followDistanceByUser), root,
                      Outs(followersByUser, unfollowedUser), unfollowedUser)
      ensures old(Rooted(followDistanceByUser, root)) ==> Rooted(followDistanceByUser, root)
    {
      DropFollow(unfollowedUser, follower);
      if unfollowedUser == root { return; }
      var smallest := NearestFollower(Outs(followersByUser, unfollowedUser));
      ghost var dist := followDistanceByUser;
      if smallest.None? {
        followDistanceByUser := followDistanceByUser - {unfollowedUser};
      } else {
        followDistanceByUser := followDistanceByUser[unfollowedUser := smallest];
      }
      assert Defined(followDistanceByUser) == Reset(Defined(dist), unfollowedUser, smallest);
      if Rooted(dist, root) { ResetIsRooted(dist, root, unfollowedUser, smallest); }
    }

    method DropFollow(unfollowedUser: Id, follower: Id)
      requires Valid()
      modifies this`followedByUser, this`followersByUser
      ensures Valid() && followedByUser == DropEdge(old(followedByUser), follower, unfollowedUser)
    {
      DropTransposed(followedByUser, followersByUser, follower, unfollowedUser);
      if follower in followedByUser {
        followedByUser := followedByUser[follower := followedByUser[follower] - {unfollowedUser}];
      }
      if unfollowedUser in followersByUser {
        followersByUser := followersByUser[unfollowedUser := followersByUser[unfollowedUser] - {follower}];
      }
    }

    /** The search for the nearest of them; None for Infinity. */
    method NearestFollower(followers: set<Id>) returns (smallest: Option<nat>)
      ensures IsNearest(Defined(followDistanceByUser), followers, smallest)
      ensures smallest.Some? ==> smallest.value > 0
    {
      smallest := None;
      var todo := followers;
      while todo != {}
        invariant todo <= followers
        invariant IsNearest(Defined(followDistanceByUser), followers - todo, smallest)
        invariant smallest.Some? ==> smallest.value > 0
        decreases todo
      {
        var follower :| follower in todo;
        var d := DistanceOf(followDistanceByUser, follower);
        NearestSnoc(Defined(followDistanceByUser), followers - todo, smallest, follower);
        assert followers - todo + {follower} == followers - (todo - {follower});
        todo := todo - {follower};
        if d.Some? && (smallest.None? || d.value + 1 < smallest.value) { smallest := Some(d.value + 1); }
      }
      assert followers - {} == followers;
    }

    ghost function FollowList(author: Id): ListState
      reads this
    {
      var time := if author in followListCreatedAt then Some(followListCreatedAt[author]) else None;
      ListState(time, Outs(followedByUser, author))
    }

    ghost function MuteList(author: Id): ListState
      reads this
    {
      var time := if author in muteListCreatedAt then Some(muteListCreatedAt[author]) else None;
      ListState(time, Outs(mutedByUser, author))
    }

    /** The first loop of handleFollowList: entries that are no longer named go. */
    method DropUnnamed(author: Id, followedInEvent: set<Id>)
      returns (ghost dropped: seq<Id>, ghost steps: seq<map<Id, nat>>)
      requires Valid()
      modifies this`followedByUser, this`followersByUser, this`followDistanceByUser
      ensures Valid()
      ensures SetOf(old(followedByUser), followedByUser, author, old(Outs(followedByUser, author)) * followedInEvent)
      ensures forall u :: u in dropped <==> u in old(Outs(followedByUser, author)) && u !in followedInEvent
      ensures Dropped(steps, old(Defined(followDistanceByUser)), old(followedByUser), root, author, dropped)
      ensures steps[|dropped|] == Defined(followDistanceByUser)
      ensures old(Rooted(followDistanceByUser, root)) ==> Rooted(followDistanceByUser, root)
      ensures old(Outs(followedByUser, author)) <= followedInEvent ==>
                dropped == [] && followDistanceByUser == old(followDistanceByUser) && (old(Walks()) ==> Walks())
    {
      ghost var was := followedByUser;
      var currentlyFollowed := Outs(followedByUser, author);
      var todo := currentlyFollowed;
      dropped, steps := [], [Defined(followDistanceByUser)];
      while todo != {}
        invariant Valid() && todo <= currentlyFollowed
        invariant SetOf(was, followedByUser, author, currentlyFollowed * (todo + followedInEvent))
        invariant forall u :: u in dropped <==> u in currentlyFollowed && u !in todo && u !in followedInEvent
        invariant Dropped(steps, old(Defined(followDistanceByUser)), was, root, author, dropped)
        invariant steps[|dropped|] == Defined(followDistanceByUser)
        invariant old(Rooted(followDistanceByUser, root)) ==> Rooted(followDistanceByUser, root)
        invariant currentlyFollowed <= followedInEvent ==>
                    dropped == [] && followDistanceByUser == old(followDistanceByUser) && (old(Walks()) ==> Walks())
        decreases todo
      {
        var user :| user in todo;
        todo := todo - {user};
        if user !in followedInEvent {
          ghost var before := followedByUser;
          RemoveFollower(user, author);
          RemainingFollowers(was, before, followedByUser, followersByUser, author, user);
          DroppedOneMore(steps, old(Defined(followDistanceByUser)), was, root, author, dropped, user,
                         Outs(followersByUser, user), Defined(followDistanceByUser));
          dropped, steps := dropped + [user], steps + [Defined(followDistanceByUser)];
        }
      }
    }

    /** The second loop: the named are added. */
    method AddNamed(author: Id, followedInEvent: set<Id>)
      requires Valid() && author !in followedInEvent
      modifies this`followedByUser, this`followersByUser, this`followDistanceByUser, this`usersByFollowDistance
      ensures Valid()
      ensures SetOf(old(followedByUser), followedByUser, author, old(Outs(followedByUser, author)) + followedInEvent)
      ensures old(Walks()) ==> Walks()
      ensures old(Rooted(followDistanceByUser, root)) ==>
                && Rooted(followDistanceByUser, root)
                && Relaxed(old(Defined(followDistanceByUser)), Defined(followDistanceByUser), author, followedInEvent)
                && followDistanceByUser.Keys == old(followDistanceByUser).Keys + followedInEvent
      ensures old(Rooted(followDistanceByUser, root) && Filed(usersByFollowDistance, Defined(followDistanceByUser))) ==>
                Filed(usersByFollowDistance, Defined(followDistanceByUser))
    {
      var todo := followedInEvent;
      while todo != {}
        invariant Valid() && todo <= followedInEvent
        invariant SetOf(old(followedByUser), followedByUser, author,
                        old(Outs(followedByUser, author)) + (followedInEvent - todo))
        invariant old(Walks()) ==> Walks()
        invariant old(Rooted(followDistanceByUser, root)) ==>
                    && Rooted(followDistanceByUser, root)
                    && Relaxed(old(Defined(followDistanceByUser)), Defined(followDistanceByUser), author,
                               followedInEvent - todo)
                    && followDistanceByUser.Keys == old(followDistanceByUser).Keys + (followedInEvent - todo)
        invariant old(Rooted(followDistanceByUser, root)) ==>
                    old(Filed(usersByFollowDistance, Defined(followDistanceByUser))) ==>
                      Filed(usersByFollowDistance, Defined(followDistanceByUser))
        decreases todo
      {
        var user :| user in todo;
        ghost var before, added := followDistanceByUser, followedInEvent - todo;
        todo := todo - {user};
        assert followedInEvent - todo == added + {user};
        AddFollower(user, author);
        if old(Rooted(followDistanceByUser, root)) {
          AddIsRelaxation(before, root, user, author);
          AddGivesAnEntry(before, root, user, author);
          NamedOneMore(old(Defined(followDistanceByUser)), Defined(before), author, added, user);
        }
      }
      assert followedInEvent - {} == followedInEvent;
    }

    /** handleFollowList: the author's list becomes what the event says, and no one else's. Distances
        change by the single removals, and then by what naming users does; if the list only grows they
        stay lengths of chains, and the buckets stay right. */
    method HandleFollowList(event: ListEvent, author: Id)
      returns (ghost dropped: seq<Id>, ghost steps: seq<map<Id, nat>>)
      requires Valid()
      modifies this`followedByUser, this`followersByUser, this`followListCreatedAt
      modifies this`followDistanceByUser, this`usersByFollowDistance
      ensures Valid() && FollowList(author) == Handle(old(FollowList(author)), event, author)
      ensures forall u :: u != author ==> FollowList(u) == old(FollowList(u))
      ensures !Accepts(old(FollowList(author)).createdAt, event.createdAt) ==>
                followDistanceByUser == old(followDistanceByUser) && usersByFollowDistance == old(usersByFollowDistance)
      ensures Accepts(old(FollowList(author)).createdAt, event.createdAt) ==>
                && (forall u :: u in dropped <==>
                      u in old(Outs(followedByUser, author)) && u !in Named(event.tags, author))
                && Dropped(steps, old(Defined(followDistanceByUser)), old(followedByUser), root, author, dropped)
                && (old(Rooted(followDistanceByUser, root)) ==>
                      Relaxed(steps[|dropped|], Defined(followDistanceByUser), author, Named(event.tags, author)))
      ensures Accepts(old(FollowList(author)).createdAt, event.createdAt) && old(Rooted(followDistanceByUser, root)) &&
              old(Outs(followedByUser, author)) <= Named(event.tags, author) ==>
                && Relaxed(old(Defined(followDistanceByUser)), Defined(followDistanceByUser), author,
                           Named(event.tags, author))
                && followDistanceByUser.Keys == old(followDistanceByUser).Keys + Named(event.tags, author)
                && (old(Filed(usersByFollowDistance, Defined(followDistanceByUser))) ==>
                      Filed(usersByFollowDistance, Defined(followDistanceByUser)))
      ensures old(Walks()) && old(Outs(followedByUser, author)) <= Named(event.tags, author) ==> Walks()
    {
      dropped, steps := [], [];
      if author in followListCreatedAt && followListCreatedAt[author] != 0 &&
          event.createdAt <= followListCreatedAt[author] {
        return;
      }
      followListCreatedAt := followListCreatedAt[author := event.createdAt];
      var named := Named(event.tags, author);
      dropped, steps := DropUnnamed(author, named);
      AddNamed(author, named);
      forall u | u != author ensures FollowList(u) == old(FollowList(u)) {
        assert Outs(followedByUser, u) == Outs(old(followedByUser), u);
      }
      assert old(Outs(followedByUser, author)) * named + named == named;
    }

    method AddMute(user: Id, author: Id)
      requires Valid()
      modifies this`mutedByUser, this`userMutedBy
      ensures Valid()
      ensures SetOf(old(mutedByUser), mutedByUser, author, old(Outs(mutedByUser, author)) + {user})
    {
      AddTransposed(mutedByUser, userMutedBy, author, user);
      if author !in mutedByUser { mutedByUser := mutedByUser[author := {}]; }
      mutedByUser := mutedByUser[author := mutedByUser[author] + {user}];
      if user !in userMutedBy { userMutedBy := userMutedBy[user := {}]; }
      userMutedBy := userMutedBy[user := userMutedBy[user] + {author}];
      assert mutedByUser == AddEdge(old(mutedByUser), author, user);
      assert userMutedBy == AddEdge(old(userMutedBy), user, author);
    }

    method RemoveMute(user: Id, author: Id)
      requires Valid()
      modifies this`mutedByUser, this`userMutedBy
      ensures Valid()
      ensures SetOf(old(mutedByUser), mutedByUser, author, old(Outs(mutedByUser, author)) - {user})
    {
      DropTransposed(mutedByUser, userMutedBy, author, user);
      if author in mutedByUser { mutedByUser := mutedByUser[author := mutedByUser[author] - {user}]; }
      if user in userMutedBy { userMutedBy := userMutedBy[user := userMutedBy[user] - {author}]; }
    }

    /** The two loops of handleMuteList: entries that are no longer named go, then the named are added. */
    method ReplaceMutes(author: Id, mutedInEvent: set<Id>)
      requires Valid()
      modifies this`mutedByUser, this`userMutedBy
      ensures Valid() && SetOf(old(mutedByUser), mutedByUser, author, mutedInEvent)
    {
      var currentlyMuted := Outs(mutedByUser, author);
      var todo := currentlyMuted;
      while todo != {}
        invariant Valid() && todo <= currentlyMuted
        invariant SetOf(old(mutedByUser), mutedByUser, author, currentlyMuted * (todo + mutedInEvent))
        decreases todo
      {
        var user :| user in todo;
        todo := todo - {user};
        if user !in mutedInEvent { RemoveMute(user, author); }
      }
      todo := mutedInEvent;
      while todo != {}
        invariant Valid() && todo <= mutedInEvent
        invariant SetOf(old(mutedByUser), mutedByUser, author, currentlyMuted * mutedInEvent + (mutedInEvent - todo))
        decreases todo
      {
        var user :| user in todo;
        todo := todo - {user};
        AddMute(user, author);
      }
      assert currentlyMuted * mutedInEvent + (mutedInEvent - {}) == mutedInEvent;
    }

    /** handleMuteList */
    method HandleMuteList(event: ListEvent, author: Id)
      requires Valid()
      modifies this`mutedByUser, this`userMutedBy, this`muteListCreatedAt
      ensures Valid() && MuteList(author) == Handle(old(MuteList(author)), event, author)
      ensures forall u :: u != author ==> MuteList(u) == old(MuteList(u))
    {
      if author in muteListCreatedAt && muteListCreatedAt[author] != 0 && event.createdAt <= muteListCreatedAt[author] {
        return;
      }
      muteListCreatedAt := muteListCreatedAt[author := event.createdAt];
      ReplaceMutes(author, Named(event.tags, author));
      forall u | u != author ensures MuteList(u) == old(MuteList(u)) {
        assert Outs(mutedByUser, u) == Outs(old(mutedByUser), u);
      }
    }
  }
}
