/** Follow distances after a graph was saved under a budget and loaded again. */
module GraphSnapshot {
  import opened Directory
  import opened Keys
  import opened FollowDistance
  import opened FollowUpdates
  import opened GraphWriter
  import opened GraphBinary
  import opened GraphBudget
  import opened GraphBudgetFile
  import opened SocialGraph
  import opened UniqueIds

  /** The buckets of a recalculation, nearest first. */
  ghost predicate NearestBuckets(buckets: Ordered, dist: map<Id, nat>) {
    && (forall i, j :: 0 <= i < j < |buckets| ==> buckets[i].owner < buckets[j].owner)
    && (forall i :: 0 <= i < |buckets| ==> Distinct(buckets[i].targets))
    && (forall i, u :: 0 <= i < |buckets| && u in buckets[i].targets ==> u in dist && dist[u] == buckets[i].owner)
    && (forall u :: u in dist ==> Bucketed(buckets, u))
  }

  ghost predicate Bucketed(buckets: Ordered, u: Id) {
    exists i :: 0 <= i < |buckets| && u in buckets[i].targets
  }

  lemma NearestAreDisjoint(buckets: Ordered, dist: map<Id, nat>)
    requires NearestBuckets(buckets, dist)
    ensures DisjointBuckets(buckets)
  {
    forall i, j, u | 0 <= i < j < |buckets| && u in buckets[i].targets ensures u !in buckets[j].targets {
      assert dist[u] == buckets[i].owner;
    }
  }

  predicate Unlimited(perNode: Option<nat>) {
    perNode.None? || perNode.value == 0
  }

  // ---------------------------------------------------------------- the candidates

  /** Edges of users with distances, nearest owners first. */
  ghost predicate SortedEdges(edges: seq<Edge>, dist: map<Id, nat>) {
    && (forall i :: 0 <= i < |edges| ==> edges[i].owner in dist)
    && forall i, j :: 0 <= i < j < |edges| ==> dist[edges[i].owner] <= dist[edges[j].owner]
  }

  lemma JoinSorted(a: seq<Edge>, b: seq<Edge>, dist: map<Id, nat>, d: int)
    requires SortedEdges(a, dist) && forall e :: e in a ==> dist[e.owner] <= d
    requires forall e :: e in b ==> e.owner in dist && dist[e.owner] == d
    ensures SortedEdges(a + b, dist)
  {
    var all := a + b;
    forall i | 0 <= i < |all| ensures all[i].owner in dist {
      assert i < |a| ==> all[i] == a[i];
      assert i >= |a| ==> all[i] in b;
    }
    forall i, j | 0 <= i < j < |all| ensures dist[all[i].owner] <= dist[all[j].owner] {
      if j < |a| {
        assert all[i] == a[i] && all[j] == a[j];
      } else {
        assert all[j] in b;
        if i < |a| { assert all[i] == a[i] && a[i] in a; } else { assert all[i] in b; }
      }
    }
  }

  /** The buckets hold users with these distances, nearest first; more may follow. */
  ghost predicate SomeBuckets(buckets: Ordered, dist: map<Id, nat>) {
    && (forall i, j :: 0 <= i < j < |buckets| ==> buckets[i].owner < buckets[j].owner)
    && (forall i, u :: 0 <= i < |buckets| && u in buckets[i].targets ==> u in dist && dist[u] == buckets[i].owner)
  }

  lemma {:induction false} CandidatesAreSorted(buckets: Ordered, followed: Ordered, muted: Ordered, budget: Budget,
                                               dist: map<Id, nat>)
    requires SomeBuckets(buckets, dist)
    ensures SortedEdges(Candidates(buckets, followed, muted, budget), dist)
  {
    if buckets != [] {
      var n := |buckets| - 1;
      var init := buckets[..n];
      assert SomeBuckets(init, dist) by {
        forall i, u | 0 <= i < n && u in init[i].targets ensures u in dist && dist[u] == init[i].owner {
          assert u in buckets[i].targets;
        }
      }
      CandidatesAreSorted(init, followed, muted, budget, dist);
      if Near(buckets[n].owner, budget.maxDistance) {
        LastBucket(buckets, followed, muted, budget, dist);
      }
    }
  }

  lemma LastBucket(buckets: Ordered, followed: Ordered, muted: Ordered, budget: Budget, dist: map<Id, nat>)
    requires buckets != [] && SomeBuckets(buckets, dist)
    requires SortedEdges(Candidates(buckets[..|buckets| - 1], followed, muted, budget), dist)
    ensures (var last := buckets[|buckets| - 1];
             SortedEdges(Candidates(buckets[..|buckets| - 1], followed, muted, budget) +
                         UserCandidates(last.targets, followed, muted, budget.maxEdgesPerNode), dist))
  {
    var n := |buckets| - 1;
    var a := Candidates(buckets[..n], followed, muted, budget);
    var b := UserCandidates(buckets[n].targets, followed, muted, budget.maxEdgesPerNode);
    forall e | e in a ensures dist[e.owner] <= buckets[n].owner {
      CandidatesAreNear(buckets[..n], followed, muted, budget, e);
      var i :| 0 <= i < n && e.owner in buckets[..n][i].targets;
      assert e.owner in buckets[i].targets && buckets[i].owner < buckets[n].owner;
    }
    forall e | e in b ensures e.owner in dist && dist[e.owner] == buckets[n].owner {
      CandidateOwners(buckets[n].targets, followed, muted, budget.maxEdgesPerNode, e);
    }
    JoinSorted(a, b, dist, buckets[n].owner);
  }

  /** With no limit per node, every follow of a near user is a candidate. */
  lemma {:induction false} UserIsCandidate(users: seq<Id>, followed: Ordered, muted: Ordered, perNode: Option<nat>,
                                           u: Id, t: Id)
    requires Unlimited(perNode) && u in users && t in TargetsOf(followed, u)
    ensures Edge(u, t, true) in UserCandidates(users, followed, muted, perNode)
  {
    var init, owner := users[..|users| - 1], users[|users| - 1];
    if u == owner {
      var outs := TargetsOf(followed, u);
      assert outs[..|outs|] == outs;
      var i :| 0 <= i < |outs| && outs[i] == t;
      assert Fan(u, outs, true)[i] == Edge(u, t, true);
    } else {
      var i :| 0 <= i < |users| && users[i] == u;
      assert init[i] == u;
      UserIsCandidate(init, followed, muted, perNode, u, t);
    }
  }

  lemma {:induction false} FollowIsCandidate(buckets: Ordered, followed: Ordered, muted: Ordered, budget: Budget,
                                             i: nat, u: Id, t: Id)
    requires Unlimited(budget.maxEdgesPerNode) && t in TargetsOf(followed, u)
    requires i < |buckets| && u in buckets[i].targets && Near(buckets[i].owner, budget.maxDistance)
    ensures Edge(u, t, true) in Candidates(buckets, followed, muted, budget)
  {
    var n := |buckets| - 1;
    if i == n {
      UserIsCandidate(buckets[n].targets, followed, muted, budget.maxEdgesPerNode, u, t);
    } else {
      FollowIsCandidate(buckets[..n], followed, muted, budget, i, u, t);
    }
  }

  // ---------------------------------------------------------------- the chosen edges

  /** The chosen edges are sorted, and with an edge all follows of strictly nearer users are chosen. */
  ghost predicate NearestChosen(chosen: seq<Edge>, m: Index, dist: map<Id, nat>) {
    && SortedEdges(chosen, dist)
    && (forall a, b :: Chosen(chosen, a, b, true) ==> Linked(m, a, b))
    && forall i, w, x :: 0 <= i < |chosen| && w in dist && dist[w] < dist[chosen[i].owner] && Linked(m, w, x) ==>
         Chosen(chosen, w, x, true)
  }

  lemma FirstAreNearest(buckets: Ordered, followed: Ordered, muted: Ordered, budget: Budget, n: nat, m: Index,
                        dist: map<Id, nat>, seen: set<Id>)
    requires NearestBuckets(buckets, dist) && Enumerates(followed, m) && Unlimited(budget.maxEdgesPerNode)
    requires n <= |Candidates(buckets, followed, muted, budget)|
    requires Collected(Candidates(buckets, followed, muted, budget), seen, followed, muted, budget.maxEdgesPerNode)
    ensures NearestChosen(Candidates(buckets, followed, muted, budget)[..n], m, dist)
  {
    var edges := Candidates(buckets, followed, muted, budget);
    var chosen := edges[..n];
    CandidatesAreSorted(buckets, followed, muted, budget, dist);
    PrefixIsSorted(edges, n, dist);
    FirstAreLinks(edges, n, seen, followed, muted, budget.maxEdgesPerNode, m);
    forall i, w, x | 0 <= i < |chosen| && w in dist && dist[w] < dist[chosen[i].owner] && Linked(m, w, x)
      ensures Chosen(chosen, w, x, true)
    {
      NearerIsFirst(buckets, followed, muted, budget, edges, n, i, m, dist, w, x);
    }
  }

  lemma FirstAreLinks(edges: seq<Edge>, n: nat, seen: set<Id>, followed: Ordered, muted: Ordered, perNode: Option<nat>,
                      m: Index)
    requires Collected(edges, seen, followed, muted, perNode) && Enumerates(followed, m) && n <= |edges|
    ensures forall a, b :: Chosen(edges[..n], a, b, true) ==> Linked(m, a, b)
  {
    forall a, b | Chosen(edges[..n], a, b, true) ensures Linked(m, a, b) {
      var i :| 0 <= i < n && edges[..n][i] == Edge(a, b, true);
      IsAFollow(edges, seen, followed, muted, perNode, m, i);
    }
  }

  lemma NearerIsFirst(buckets: Ordered, followed: Ordered, muted: Ordered, budget: Budget, edges: seq<Edge>, n: nat,
                      i: nat, m: Index, dist: map<Id, nat>, w: Id, x: Id)
    requires NearestBuckets(buckets, dist) && Enumerates(followed, m) && Unlimited(budget.maxEdgesPerNode)
    requires edges == Candidates(buckets, followed, muted, budget) && SortedEdges(edges, dist) && i < n <= |edges|
    requires w in dist && dist[w] < dist[edges[..n][i].owner] && Linked(m, w, x)
    ensures Edge(w, x, true) in edges[..n]
  {
    CandidatesAreNear(buckets, followed, muted, budget, edges[i]);
    NearerIsCandidate(buckets, followed, muted, budget, m, dist, edges[i].owner, w, x);
    EarlierIsIncluded(edges, n, i, dist, Edge(w, x, true));
  }

  lemma PrefixIsSorted(edges: seq<Edge>, n: nat, dist: map<Id, nat>)
    requires n <= |edges| && SortedEdges(edges, dist)
    ensures SortedEdges(edges[..n], dist)
  {
    forall i, j | 0 <= i < j < n ensures dist[edges[..n][i].owner] <= dist[edges[..n][j].owner] {
      assert edges[..n][i] == edges[i] && edges[..n][j] == edges[j];
    }
  }

  lemma IsAFollow(edges: seq<Edge>, seen: set<Id>, followed: Ordered, muted: Ordered, perNode: Option<nat>, m: Index,
                  i: nat)
    requires Collected(edges, seen, followed, muted, perNode) && Enumerates(followed, m)
    requires i < |edges| && edges[i].isFollow
    ensures Linked(m, edges[i].owner, edges[i].target)
  {
    var o := edges[i].owner;
    EdgeIsKept(edges, i);
    assert CollectedFor(edges, seen, followed, muted, perNode, o);
    assert edges[i].target in TargetsOf(followed, o);
    TargetIsLink(followed, m, o, edges[i].target);
  }

  lemma TargetIsLink(adj: Ordered, m: Index, o: Id, t: Id)
    requires Enumerates(adj, m)
    ensures t in TargetsOf(adj, o) <==> Linked(m, o, t)
  {
    if HasOwner(adj, o) {
      var i :| 0 <= i < |adj| && adj[i].owner == o;
      TargetsFound(adj, i);
    } else {
      NoTargets(adj, o);
    }
  }

  lemma {:induction false} NoTargets(adj: Ordered, o: Id)
    requires !HasOwner(adj, o)
    ensures TargetsOf(adj, o) == []
  {
    if adj != [] {
      assert adj[0].owner != o;
      NoTargets(adj[1..], o);
    }
  }

  /** Each follow of a user strictly nearer than a near one is a candidate. */
  lemma NearerIsCandidate(buckets: Ordered, followed: Ordered, muted: Ordered, budget: Budget, m: Index,
                          dist: map<Id, nat>, u: Id, w: Id, x: Id)
    requires NearestBuckets(buckets, dist) && Enumerates(followed, m) && Unlimited(budget.maxEdgesPerNode)
    requires NearOwner(buckets, budget.maxDistance, u) && u in dist && w in dist && dist[w] < dist[u]
    requires Linked(m, w, x)
    ensures Edge(w, x, true) in Candidates(buckets, followed, muted, budget)
  {
    assert Bucketed(buckets, w);
    var k :| 0 <= k < |buckets| && w in buckets[k].targets;
    var l :| 0 <= l < |buckets| && Near(buckets[l].owner, budget.maxDistance) && u in buckets[l].targets;
    assert dist[w] == buckets[k].owner && dist[u] == buckets[l].owner;
    TargetIsLink(followed, m, w, x);
    FollowIsCandidate(buckets, followed, muted, budget, k, w, x);
  }

  lemma EarlierIsIncluded(edges: seq<Edge>, n: nat, i: nat, dist: map<Id, nat>, e: Edge)
    requires SortedEdges(edges, dist) && i < n <= |edges| && e in edges
    requires dist[e.owner] < dist[edges[i].owner]
    ensures e in edges[..n]
  {
    var j :| 0 <= j < |edges| && edges[j] == e;
    assert j < i;
    assert edges[..n][j] == edges[j];
  }

  // ---------------------------------------------------------------- the distances

  /** The index that is loaded. */
  ghost predicate IsChosenIndex(m': Index, chosen: seq<Edge>) {
    forall a, b :: Linked(m', a, b) <==> Chosen(chosen, a, b, true)
  }

  /** An owner of a chosen edge is as near as before. */
  lemma {:induction false} OwnerIsReached(m: Index, m': Index, root: Id, dist: map<Id, nat>, chosen: seq<Edge>, i: nat)
    requires ExactDistances(m, root, dist) && NearestChosen(chosen, m, dist) && IsChosenIndex(m', chosen)
    requires i < |chosen|
    ensures Walk(m', root, chosen[i].owner, dist[chosen[i].owner])
    decreases dist[chosen[i].owner]
  {
    var u := chosen[i].owner;
    ExactIsSettled(m, root, dist);
    if u != root {
      var w := HasSupport(m, root, dist, u);
      assert Chosen(chosen, w, u, true);
      var j :| 0 <= j < |chosen| && chosen[j] == Edge(w, u, true);
      OwnerIsReached(m, m', root, dist, chosen, j);
      WalkOn(m', root, w, u, dist[w]);
    }
  }

  /** A chosen follow that supports its target leads to it. */
  lemma SupportIsReached(m: Index, m': Index, root: Id, dist: map<Id, nat>, chosen: seq<Edge>, w: Id, v: Id)
    requires ExactDistances(m, root, dist) && NearestChosen(chosen, m, dist) && IsChosenIndex(m', chosen)
    requires Chosen(chosen, w, v, true) && Supports(m, dist, w, v)
    ensures Walk(m', root, v, dist[v])
  {
    var j :| 0 <= j < |chosen| && chosen[j] == Edge(w, v, true);
    OwnerIsReached(m, m', root, dist, chosen, j);
    WalkOn(m', root, w, v, dist[w]);
  }

  lemma NearerFollows(m: Index, dist: map<Id, nat>, chosen: seq<Edge>, i: nat, w: Id, x: Id)
    requires NearestChosen(chosen, m, dist) && i < |chosen|
    requires w in dist && dist[w] < dist[chosen[i].owner] && Linked(m, w, x)
    ensures Chosen(chosen, w, x, true)
  {
  }

  /** So is whoever a chosen follow leads to. */
  lemma TargetIsReached(m: Index, m': Index, root: Id, dist: map<Id, nat>, chosen: seq<Edge>, u: Id, v: Id)
    requires ExactDistances(m, root, dist) && NearestChosen(chosen, m, dist) && IsChosenIndex(m', chosen)
    requires Chosen(chosen, u, v, true)
    ensures v in dist && Walk(m', root, v, dist[v])
  {
    ExactIsSettled(m, root, dist);
    var i := FollowInPlace(m, dist, chosen, u, v);
    if v == root {
      assert Walk(m', root, root, 0);
    } else if Supports(m, dist, u, v) {
      SupportIsReached(m, m', root, dist, chosen, u, v);
    } else {
      var w := HasSupport(m, root, dist, v);
      NearerFollows(m, dist, chosen, i, w, v);
      SupportIsReached(m, m', root, dist, chosen, w, v);
    }
  }

  lemma FollowInPlace(m: Index, dist: map<Id, nat>, chosen: seq<Edge>, u: Id, v: Id) returns (i: nat)
    requires Settled(m, dist) && NearestChosen(chosen, m, dist) && Chosen(chosen, u, v, true)
    ensures i < |chosen| && chosen[i].owner == u && Linked(m, u, v)
    ensures u in dist && v in dist && dist[v] <= dist[u] + 1
  {
    i :| 0 <= i < |chosen| && chosen[i] == Edge(u, v, true);
  }

  ghost predicate Reached(m: Index, root: Id, v: Id) {
    v == root || exists u :: Linked(m, u, v)
  }

  ghost function Among(m: Index, root: Id, dist: map<Id, nat>): (r: map<Id, nat>)
    ensures forall v :: v in r <==> v in dist && Reached(m, root, v)
    ensures forall v :: v in r ==> r[v] == dist[v]
  {
    map v | v in dist && Reached(m, root, v) :: dist[v]
  }

  /** The exact distances over the chosen follows are the old ones of whom they reach. */
  lemma OldDistancesAreExact(m: Index, m': Index, root: Id, dist: map<Id, nat>, chosen: seq<Edge>)
    requires ExactDistances(m, root, dist) && NearestChosen(chosen, m, dist) && IsChosenIndex(m', chosen)
    ensures ExactDistances(m', root, Among(m', root, dist))
  {
    var dist' := Among(m', root, dist);
    ExactIsSettled(m, root, dist);
    forall v | v in dist' ensures ShortestIs(m', root, v, dist'[v]) {
      assert Walk(m', root, root, 0);
      if v != root {
        var u :| Linked(m', u, v);
        TargetIsReached(m, m', root, dist, chosen, u, v);
      }
      forall n: nat | n < dist[v] ensures !Walk(m', root, v, n) { NoShorterWalk(m, m', root, dist, v, n); }
    }
    forall v, n: nat | Walk(m', root, v, n) ensures v in dist' {
      WalkStays(m', m, root, v, n);
      if n > 0 {
        var u :| Walk(m', root, u, n - 1) && Linked(m', u, v);
      }
    }
  }

  lemma NoShorterWalk(m: Index, m': Index, root: Id, dist: map<Id, nat>, v: Id, n: nat)
    requires ExactDistances(m, root, dist) && v in dist && n < dist[v]
    requires forall a, b :: Linked(m', a, b) ==> Linked(m, a, b)
    ensures !Walk(m', root, v, n)
  {
    assert ShortestIs(m, root, v, dist[v]);
    if Walk(m', root, v, n) { WalkStays(m', m, root, v, n); }
  }

  // ---------------------------------------------------------------- the order of the lists

  ghost predicate OwnersSorted(limits: seq<Limit>, dist: map<Id, nat>) {
    && (forall i :: 0 <= i < |limits| ==> limits[i].owner in dist)
    && forall i, j :: 0 <= i < j < |limits| ==> dist[limits[i].owner] <= dist[limits[j].owner]
  }

  ghost predicate OwnersWithin(limits: seq<Limit>, dist: map<Id, nat>, d: nat) {
    forall l :: l in limits ==> l.owner in dist && dist[l.owner] <= d
  }

  lemma {:induction false} BumpStaysSorted(limits: seq<Limit>, o: Id, dist: map<Id, nat>)
    requires OwnersSorted(limits, dist) && o in dist && OwnersWithin(limits, dist, dist[o])
    ensures OwnersSorted(Bump(limits, o), dist) && OwnersWithin(Bump(limits, o), dist, dist[o])
  {
    BumpCounts(limits, o);
    if limits != [] && limits[0].owner != o {
      assert OwnersSorted(limits[1..], dist);
      BumpStaysSorted(limits[1..], o, dist);
      var rest := Bump(limits[1..], o);
      BumpCounts(limits[1..], o);
      forall j | 0 <= j < |rest| ensures dist[limits[0].owner] <= dist[rest[j].owner] {
        assert rest[j] in rest;
        FirstIsLeast(limits, o, dist, rest[j]);
      }
    }
  }

  lemma FirstIsLeast(limits: seq<Limit>, o: Id, dist: map<Id, nat>, l: Limit)
    requires limits != [] && OwnersSorted(limits, dist) && o in dist && OwnersWithin(limits, dist, dist[o])
    requires l.owner == o || l in limits[1..]
    ensures l.owner in dist && dist[limits[0].owner] <= dist[l.owner]
  {
    assert limits[0] in limits;
    if l in limits[1..] {
      var k :| 0 <= k < |limits[1..]| && limits[1..][k] == l;
      assert limits[k + 1] == l;
    }
  }

  /** Counting sorted edges lists their owners in the same order. */
  lemma {:induction false} LimitsAreSorted(chosen: seq<Edge>, dist: map<Id, nat>)
    requires SortedEdges(chosen, dist)
    ensures OwnersSorted(Limits(chosen, true), dist)
    ensures chosen != [] ==> OwnersWithin(Limits(chosen, true), dist, dist[chosen[|chosen| - 1].owner])
  {
    if chosen != [] {
      var init, last := chosen[..|chosen| - 1], chosen[|chosen| - 1];
      PrefixIsSorted(chosen, |chosen| - 1, dist);
      LimitsAreSorted(init, dist);
      assert init != [] ==> dist[init[|init| - 1].owner] <= dist[last.owner];
      if last.isFollow { BumpStaysSorted(Limits(init, true), last.owner, dist); }
    }
  }

  lemma SortedListsAreNearestFirst(limits: seq<Limit>, adj: Ordered, times: map<Id, int>, dist: map<Id, nat>,
                                   part: map<Id, nat>)
    requires OwnersSorted(limits, dist) && WithinSets(limits, adj)
    requires forall v :: v in part ==> v in dist && part[v] == dist[v]
    ensures ListsNearestFirst(RecordsOf(limits, adj, times), part)
  {
    forall i | 0 <= i < |limits| ensures RecordsOf(limits, adj, times)[i].owner == limits[i].owner {
      assert RecordsOf(limits, adj, times)[i] == RecordOf(limits[i], adj, times);
    }
  }

  // ---------------------------------------------------------------- the snapshot

  lemma ChosenAreNearest(g: Source, buckets: Ordered, budget: Budget, n: nat, chosen: seq<Edge>, m: Index,
                         dist: map<Id, nat>)
    requires NearestBuckets(buckets, dist) && Enumerates(g.followed, m) && Unlimited(budget.maxEdgesPerNode)
    requires AllKnown(g.followed, g.muted, buckets, g.names)
    requires n <= |Candidates(buckets, g.followed, g.muted, budget)|
    requires chosen == KnownOnly(Candidates(buckets, g.followed, g.muted, budget)[..n], g.names)
    ensures NearestChosen(chosen, m, dist)
  {
    var edges := Candidates(buckets, g.followed, g.muted, budget);
    NearestAreDisjoint(buckets, dist);
    var seen := CandidatesAreCollected(buckets, g.followed, g.muted, budget);
    forall i | 0 <= i < |edges| ensures NearOwner(buckets, budget.maxDistance, edges[i].owner) {
      CandidatesAreNear(buckets, g.followed, g.muted, budget, edges[i]);
    }
    EdgesAreKnown(edges, seen, g.followed, g.muted, buckets, budget, g.names);
    assert AllEdgesKnown(edges[..n], g.names);
    FirstAreNearest(buckets, g.followed, g.muted, budget, n, m, dist, seen);
  }

  /** The first edge chosen is one of the root's. */
  lemma RootIsFirst(m: Index, root: Id, dist: map<Id, nat>, chosen: seq<Edge>)
    requires ExactDistances(m, root, dist) && NearestChosen(chosen, m, dist) && chosen != []
    ensures chosen[0].owner == root
  {
    var u := chosen[0].owner;
    if u != root {
      var w := HasSupport(m, root, dist, u);
      NearerFollows(m, dist, chosen, 0, w, u);
    }
  }

  /** The recorded distances are exact, and those of whoever the follows reach are the old ones. */
  ghost predicate KeepsDistances(graph: SocialGraph, root: Id, dist: map<Id, nat>)
    reads graph
  {
    var now := Defined(graph.followDistanceByUser);
    && ExactDistances(graph.followedByUser, graph.root, now)
    && (forall v :: v in now ==> v == graph.root || (v in dist && now[v] == dist[v]))
    && forall a, b :: Linked(graph.followedByUser, a, b) ==> graph.root == root && a in now && b in now
  }

  lemma SnapshotKeeps(graph: SocialGraph, g: Source, p: Plan, chosen: seq<Edge>, m: Index, root: Id,
                      dist: map<Id, nat>)
    requires ExactDistances(m, root, dist) && NearestChosen(chosen, m, dist) && graph.root == root
    requires PlanOf(p, chosen) && LoadsChosen(graph.followedByUser, chosen, true) && LoadedInOrder(graph, p, g)
    ensures KeepsDistances(graph, root, dist)
  {
    var part := Among(graph.followedByUser, root, dist);
    OldDistancesAreExact(m, graph.followedByUser, root, dist, chosen);
    LimitsAreSorted(chosen, dist);
    SortedListsAreNearestFirst(p.follows, g.followed, g.followTimes, dist, part);
    NearestListsFirst(graph, RecordsOf(p.follows, g.followed, g.followTimes), part);
    forall a, b | Linked(graph.followedByUser, a, b) ensures a in part && b in part {
      var i :| 0 <= i < |chosen| && chosen[i] == Edge(a, b, true);
      OwnerIsReached(m, graph.followedByUser, root, dist, chosen, i);
      TargetIsReached(m, graph.followedByUser, root, dist, chosen, a, b);
      WalkReaches(graph.followedByUser, root, a, dist[a]);
    }
  }

  lemma WalkReaches(m: Index, root: Id, v: Id, n: nat)
    requires Walk(m, root, v, n)
    ensures Reached(m, root, v)
  {
    if n > 0 {
      var u :| Walk(m, root, u, n - 1) && Linked(m, u, v);
    }
  }

  lemma NothingKept(graph: SocialGraph, g: Source, p: Plan, root: Id, dist: map<Id, nat>)
    requires PlanOf(p, []) && LoadedInOrder(graph, p, g)
    ensures KeepsDistances(graph, root, dist)
  {
    assert p.follows == [] && RecordsOf(p.follows, g.followed, g.followTimes) == [];
    var now := Defined(graph.followDistanceByUser);
    assert graph.followedByUser == map[] && now == map[graph.root := 0];
    RunIsExactExactly(graph.root, []);
  }

  /** A graph with recalculated distances, saved under any budget without a limit per node and
      loaded with the same root: the follow distances need no recalculation, and are those that
      the saved users had. */
  method SaveAndLoadSnapshot(root: Str, g: Source, buckets: Ordered, budget: Budget, ghost m: Index, ghost rootId: Id,
                             ghost dist: map<Id, nat>)
    returns (graph: SocialGraph, ids: UniqueIds)
    requires !IsBlank(root) && AllHoldable(g) && AllKnown(g.followed, g.muted, buckets, g.names)
    requires Enumerates(g.followed, m) && ExactDistances(m, rootId, dist) && NearestBuckets(buckets, dist)
    requires Unlimited(budget.maxEdgesPerNode) && rootId in g.names && g.names[rootId] == root
    ensures KeepsDistances(graph, rootId, dist)
  {
    NearestAreDisjoint(buckets, dist);
    ghost var p, chosen, n;
    graph, ids, p, chosen, n := SaveAndLoadBudgeted(root, g, buckets, budget);
    ChosenAreNearest(g, buckets, budget, n, chosen, m, dist);
    if chosen == [] {
      NothingKept(graph, g, p, rootId, dist);
    } else {
      RootIsFirst(m, rootId, dist, chosen);
      assert Touches(chosen, rootId);
      SnapshotKeeps(graph, g, p, chosen, m, rootId, dist);
    }
  }

  // ---------------------------------------------------------------- with a limit per node

  /** User 0 follows 1 and 2, who follow 3 and 4; and 3 follows 2. */
  const FOLLOWED: Ordered := [
    GraphWriter.Entry(0, [1, 2]), GraphWriter.Entry(1, [3]), GraphWriter.Entry(2, [4]), GraphWriter.Entry(3, [2])]

  const BUCKETS: Ordered := [
    GraphWriter.Entry(0, [0]), GraphWriter.Entry(1, [1, 2]), GraphWriter.Entry(2, [3, 4])]

  const ONE_EACH := Budget(None, None, None, Some(1))

  const TAKEN: seq<Edge> := [Edge(0, 1, true)] + [Edge(1, 3, true)] + [Edge(2, 4, true)] + [Edge(3, 2, true)]

  const LOADED: seq<Follow> := [Follow(0, 1)] + [Follow(1, 3)] + [Follow(2, 4)] + [Follow(3, 2)]

  lemma OneBucket(buckets: Ordered, d: Id, users: seq<Id>)
    ensures Candidates(buckets + [GraphWriter.Entry(d, users)], FOLLOWED, [], ONE_EACH) ==
            Candidates(buckets, FOLLOWED, [], ONE_EACH) + UserCandidates(users, FOLLOWED, [], Some(1))
  {
    assert (buckets + [GraphWriter.Entry(d, users)])[..|buckets|] == buckets;
  }

  lemma OneUser(users: seq<Id>, u: Id)
    ensures UserCandidates(users + [u], FOLLOWED, [], Some(1)) ==
            UserCandidates(users, FOLLOWED, [], Some(1)) + OwnerCandidates(u, TargetsOf(FOLLOWED, u), [], Some(1))
  {
    assert (users + [u])[..|users|] == users;
  }

  lemma OneFollow(u: Id, t: Id, rest: seq<Id>)
    ensures OwnerCandidates(u, [t] + rest, [], Some(1)) == [Edge(u, t, true)]
  {
    assert ([t] + rest)[..1] == [t];
  }

  lemma ListsFollowed()
    ensures TargetsOf(FOLLOWED, 0) == [1] + [2] && TargetsOf(FOLLOWED, 1) == [3] + []
    ensures TargetsOf(FOLLOWED, 2) == [4] + [] && TargetsOf(FOLLOWED, 3) == [2] + [] && TargetsOf(FOLLOWED, 4) == []
  {
    var tail := FOLLOWED[1..];
    assert tail[1..] == FOLLOWED[2..] && tail[1..][1..] == FOLLOWED[3..] && tail[1..][1..][1..] == [];
    assert TargetsOf(FOLLOWED[3..], 3) == [2] && TargetsOf(FOLLOWED[3..], 4) == [];
    assert TargetsOf(FOLLOWED[2..], 2) == [4] && TargetsOf(FOLLOWED[2..], 3) == [2];
    assert TargetsOf(FOLLOWED[2..], 4) == [];
  }

  /** A user with one target, alone or after others. */
  lemma UserTaken(users: seq<Id>, u: Id, t: Id, rest: seq<Id>)
    requires TargetsOf(FOLLOWED, u) == [t] + rest
    ensures UserCandidates(users + [u], FOLLOWED, [], Some(1)) ==
            UserCandidates(users, FOLLOWED, [], Some(1)) + [Edge(u, t, true)]
  {
    OneUser(users, u);
    OneFollow(u, t, rest);
  }

  lemma FirstTaken(users: seq<Id>)
    requires users == [0]
    ensures UserCandidates(users, FOLLOWED, [], Some(1)) == [Edge(0, 1, true)]
  {
    ListsFollowed();
    UserTaken(users[..0], 0, 1, [2]);
    assert users[..0] + [0] == users;
  }

  lemma SecondTaken(users: seq<Id>)
    requires users == [1, 2]
    ensures UserCandidates(users, FOLLOWED, [], Some(1)) == [Edge(1, 3, true)] + [Edge(2, 4, true)]
  {
    ListsFollowed();
    var one := users[..1];
    UserTaken(users[..0], 1, 3, []);
    assert users[..0] + [1] == one;
    UserTaken(one, 2, 4, []);
    assert one + [2] == users;
  }

  lemma ThirdTaken(users: seq<Id>)
    requires users == [3, 4]
    ensures UserCandidates(users, FOLLOWED, [], Some(1)) == [Edge(3, 2, true)]
  {
    ListsFollowed();
    var one := users[..1];
    UserTaken(users[..0], 3, 2, []);
    assert users[..0] + [3] == one;
    UserWithout(one, 4);
    assert one + [4] == users;
  }

  lemma UserWithout(users: seq<Id>, u: Id)
    requires TargetsOf(FOLLOWED, u) == []
    ensures UserCandidates(users + [u], FOLLOWED, [], Some(1)) == UserCandidates(users, FOLLOWED, [], Some(1)) + []
  {
    OneUser(users, u);
  }

  lemma ThreeBuckets(a: seq<Id>, b: seq<Id>, c: seq<Id>)
    ensures Candidates([] + [GraphWriter.Entry(0, a)] + [GraphWriter.Entry(1, b)] + [GraphWriter.Entry(2, c)],
                       FOLLOWED, [], ONE_EACH) ==
            [] + UserCandidates(a, FOLLOWED, [], Some(1)) + UserCandidates(b, FOLLOWED, [], Some(1)) +
            UserCandidates(c, FOLLOWED, [], Some(1))
  {
    OneBucket([], 0, a);
    OneBucket([] + [GraphWriter.Entry(0, a)], 1, b);
    OneBucket([] + [GraphWriter.Entry(0, a)] + [GraphWriter.Entry(1, b)], 2, c);
  }

  lemma TakenAreCandidates() returns (buckets: Ordered)
    ensures buckets == BUCKETS && Candidates(buckets, FOLLOWED, [], ONE_EACH) == TAKEN
  {
    var a, b, c := BUCKETS[0].targets, BUCKETS[1].targets, BUCKETS[2].targets;
    buckets := [] + [GraphWriter.Entry(0, a)] + [GraphWriter.Entry(1, b)] + [GraphWriter.Entry(2, c)];
    FirstTaken(a);
    SecondTaken(b);
    ThirdTaken(c);
    ThreeBuckets(a, b, c);
    SameTaken([Edge(0, 1, true)], [Edge(1, 3, true)] + [Edge(2, 4, true)], [Edge(3, 2, true)]);
  }

  lemma SameTaken(a: seq<Edge>, b: seq<Edge>, c: seq<Edge>)
    requires a == [Edge(0, 1, true)] && b == [Edge(1, 3, true)] + [Edge(2, 4, true)] && c == [Edge(3, 2, true)]
    ensures [] + a + b + c == TAKEN
  {
  }

  /** With one edge per user, 2 is cut off from 0 and found again from 3, but only after its own
      list: loaded in that order, 4 is left without a distance, at the end of a chain of four. */
  lemma LimitLosesADistance() returns (buckets: Ordered)
    ensures buckets == BUCKETS && Candidates(buckets, FOLLOWED, [], ONE_EACH) == TAKEN
    ensures Limits(TAKEN, true) == [Limit(0, 1)] + [Limit(1, 1)] + [Limit(2, 1)] + [Limit(3, 1)]
    ensures Walk(GraphOf(LOADED), 0, 4, 4) && 4 !in Defined(After(0, LOADED))
  {
    buckets := TakenAreCandidates();
    TakenAreCounted();
    LoadedLosesOne();
  }

  lemma TakenAreCounted()
    ensures Limits(TAKEN, true) == [Limit(0, 1)] + [Limit(1, 1)] + [Limit(2, 1)] + [Limit(3, 1)]
  {
    var e0, e1, e2, e3 := [Edge(0, 1, true)], [Edge(1, 3, true)], [Edge(2, 4, true)], [Edge(3, 2, true)];
    assert Limits([], true) == [] && [] + e0 == e0;
    LimitsSnoc([], e0[0], true);
    assert Limits(e0, true) == [Limit(0, 1)];
    LimitsSnoc(e0, e1[0], true);
    assert Limits(e0 + e1, true) == [Limit(0, 1)] + Bump([Limit(0, 1)][1..], 1);
    assert Limits(e0 + e1, true) == [Limit(0, 1)] + [Limit(1, 1)];
    LimitsSnoc(e0 + e1, e2[0], true);
    BumpNew([Limit(0, 1)] + [Limit(1, 1)], 2);
    LimitsSnoc(e0 + e1 + e2, e3[0], true);
    BumpNew([Limit(0, 1)] + [Limit(1, 1)] + [Limit(2, 1)], 3);
  }

  lemma {:induction false} BumpNew(limits: seq<Limit>, o: Id)
    requires forall l :: l in limits ==> l.owner != o
    ensures Bump(limits, o) == limits + [Limit(o, 1)]
  {
    if limits == [] {
      assert limits + [Limit(o, 1)] == [Limit(o, 1)];
    } else {
      BumpNew(limits[1..], o);
      assert limits == [limits[0]] + limits[1..];
    }
  }

  lemma LoadedLosesOne()
    ensures Walk(GraphOf(LOADED), 0, 4, 4) && 4 !in Defined(After(0, LOADED))
  {
    AfterOne(0, [], Follow(0, 1));
    AfterOne(0, [Follow(0, 1)], Follow(1, 3));
    AfterOne(0, [Follow(0, 1)] + [Follow(1, 3)], Follow(2, 4));
    AfterOne(0, [Follow(0, 1)] + [Follow(1, 3)] + [Follow(2, 4)], Follow(3, 2));
    assert [] + [Follow(0, 1)] == [Follow(0, 1)];
    var m := GraphOf(LOADED);
    assert Linked(m, 0, 1) && Linked(m, 1, 3) && Linked(m, 2, 4) && Linked(m, 3, 2);
    assert Walk(m, 0, 0, 0);
    WalkOn(m, 0, 0, 1, 0);
    WalkOn(m, 0, 1, 3, 1);
    WalkOn(m, 0, 3, 2, 2);
    WalkOn(m, 0, 2, 4, 3);
  }
}
