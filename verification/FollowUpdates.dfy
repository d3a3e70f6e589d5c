/** Follow distances between recalculations: what one follow more or less does to them. */
module FollowUpdates {
  import opened Directory
  import opened FollowDistance
  import opened UniqueIds

  // ---------------------------------------------------------------- what is recorded

  /** The distances as the graph records them; an entry can be there without a value. */
  type Recorded = map<Id, Option<nat>>

  function Defined(dist: Recorded): (r: map<Id, nat>)
    ensures forall v :: v in r <==> v in dist && dist[v].Some?
    ensures forall v :: v in r ==> dist[v] == Some(r[v])
  {
    map v | v in dist && dist[v].Some? :: dist[v].value
  }

  function DistanceOf(dist: Recorded, v: Id): Option<nat> {
    if v in dist then dist[v] else None
  }

  /** The root, and no one else, is at distance 0. */
  ghost predicate Rooted(dist: Recorded, root: Id) {
    forall v :: DistanceOf(dist, v) == Some(0) <==> v == root
  }

  /** `d && d + 1`, which passes on a missing distance and 0. */
  function Beyond(d: Option<nat>): Option<nat> {
    if d.Some? && d.value != 0 then Some(d.value + 1) else d
  }

  predicate Nearer(d: Option<nat>, existing: Option<nat>) {
    existing.None? || (d.Some? && d.value != 0 && d.value < existing.value)
  }

  /** The distances after a follow, from the distances before it. */
  function AddDistance(dist: Recorded, root: Id, followed: Id, follower: Id): Recorded {
    if followed == root then dist
    else if follower == root then dist[followed := Some(1)]
    else
      var d := Beyond(DistanceOf(dist, follower));
      if Nearer(d, DistanceOf(dist, followed)) then dist[followed := d] else dist
  }

  /** One relaxation of a single link, on the distances that have a value. */
  function Relax(dist: map<Id, nat>, u: Id, v: Id): map<Id, nat> {
    if u in dist && (v !in dist || dist[u] + 1 < dist[v]) then dist[v := dist[u] + 1] else dist
  }

  /** That is what a follow does. */
  lemma AddIsRelaxation(dist: Recorded, root: Id, v: Id, u: Id)
    requires Rooted(dist, root)
    ensures Rooted(AddDistance(dist, root, v, u), root)
    ensures Defined(AddDistance(dist, root, v, u)) == Relax(Defined(dist), u, v)
  {
    assert DistanceOf(dist, root) == Some(0);
    assert DistanceOf(dist, u) == Some(0) <==> u == root;
    assert DistanceOf(dist, v) == Some(0) <==> v == root;
    var dist' := AddDistance(dist, root, v, u);
    forall x ensures DistanceOf(dist', x) == Some(0) <==> x == root {
      assert DistanceOf(dist, x) == Some(0) <==> x == root;
    }
  }

  /** The followed user has an entry then, if perhaps without a value. */
  lemma AddGivesAnEntry(dist: Recorded, root: Id, v: Id, u: Id)
    requires Rooted(dist, root)
    ensures AddDistance(dist, root, v, u).Keys == dist.Keys + {v}
  {
    assert DistanceOf(dist, root) == Some(0);
  }

  // ---------------------------------------------------------------- when distances are exact

  /** No follow leads to a user who is further than one step beyond. */
  ghost predicate Settled(m: Index, dist: map<Id, nat>) {
    forall u, v :: Linked(m, u, v) && u in dist ==> v in dist && dist[v] <= dist[u] + 1
  }

  /** Distances that are those of some chains are those of the shortest, and complete, exactly
      when they are settled. */
  lemma ExactExactly(m: Index, root: Id, dist: map<Id, nat>)
    requires Justified(m, root, dist)
    ensures ExactDistances(m, root, dist) <==> Settled(m, dist)
  {
    if ExactDistances(m, root, dist) { ExactIsSettled(m, root, dist); }
    if Settled(m, dist) {
      forall v, n: nat | Walk(m, root, v, n) ensures v in dist && dist[v] <= n { SettledBounds(m, root, dist, v, n); }
    }
  }

  lemma ExactIsSettled(m: Index, root: Id, dist: map<Id, nat>)
    requires ExactDistances(m, root, dist)
    ensures Justified(m, root, dist) && Settled(m, dist)
  {
    assert Walk(m, root, root, 0);
    assert ShortestIs(m, root, root, dist[root]);
    forall v | v in dist ensures Walk(m, root, v, dist[v]) { assert ShortestIs(m, root, v, dist[v]); }
    forall u, v | Linked(m, u, v) && u in dist ensures v in dist && dist[v] <= dist[u] + 1 {
      assert ShortestIs(m, root, u, dist[u]);
      WalkOn(m, root, u, v, dist[u]);
      assert ShortestIs(m, root, v, dist[v]);
    }
  }

  lemma {:induction false} SettledBounds(m: Index, root: Id, dist: map<Id, nat>, v: Id, n: nat)
    requires Settled(m, dist) && root in dist && dist[root] == 0 && Walk(m, root, v, n)
    ensures v in dist && dist[v] <= n
    decreases n
  {
    if n > 0 {
      var u :| Walk(m, root, u, n - 1) && Linked(m, u, v);
      SettledBounds(m, root, dist, u, n - 1);
    }
  }

  lemma WalkOn(m: Index, root: Id, u: Id, v: Id, n: nat)
    requires Walk(m, root, u, n) && Linked(m, u, v)
    ensures Walk(m, root, v, n + 1)
  {
  }

  /** Walks stay walks when links are added. */
  lemma {:induction false} WalkStays(m: Index, m': Index, root: Id, v: Id, n: nat)
    requires Walk(m, root, v, n) && forall a, b :: Linked(m, a, b) ==> Linked(m', a, b)
    ensures Walk(m', root, v, n)
    decreases n
  {
    if n > 0 {
      var u :| Walk(m, root, u, n - 1) && Linked(m, u, v);
      WalkStays(m, m', root, u, n - 1);
      assert Linked(m', u, v);
    }
  }

  // ---------------------------------------------------------------- one follow more

  /** A follow keeps every distance that of some chain. */
  lemma AddKeepsWalks(m: Index, root: Id, dist: map<Id, nat>, u: Id, v: Id)
    requires Justified(m, root, dist)
    ensures Justified(AddEdge(m, u, v), root, Relax(dist, u, v))
  {
    var m', dist' := AddEdge(m, u, v), Relax(dist, u, v);
    AddEdgeLinks(m, u, v);
    forall x | x in dist ensures Walk(m', root, x, dist[x]) { WalkStays(m, m', root, x, dist[x]); }
    forall x | x in dist' ensures Walk(m', root, x, dist'[x]) {
      if dist' != dist && x == v {
        WalkOn(m', root, u, v, dist[u]);
      } else {
        assert dist'[x] == dist[x];
      }
    }
  }

  /** Exact distances stay exact if and only if whoever the followed user follows has been within
      one step of the new distance all along: it is not passed on. */
  lemma AddIsExactExactly(m: Index, root: Id, dist: map<Id, nat>, u: Id, v: Id)
    requires ExactDistances(m, root, dist)
    ensures ExactDistances(AddEdge(m, u, v), root, Relax(dist, u, v)) <==>
            (u in dist && (v !in dist || dist[u] + 1 < dist[v]) ==>
               forall x :: Linked(m, v, x) && x != v ==> x in dist && dist[x] <= dist[u] + 2)
  {
    var m', dist' := AddEdge(m, u, v), Relax(dist, u, v);
    ExactIsSettled(m, root, dist);
    AddKeepsWalks(m, root, dist, u, v);
    ExactExactly(m', root, dist');
    AddEdgeLinks(m, u, v);
    if dist' != dist && Settled(m', dist') {
      forall x | Linked(m, v, x) && x != v ensures x in dist && dist[x] <= dist[u] + 2 {
        assert Linked(m', v, x) && v in dist';
      }
    }
  }

  // ---------------------------------------------------------------- one follow less

  /** What the search through the remaining followers finds. */
  ghost predicate IsNearest(dist: map<Id, nat>, followers: set<Id>, r: Option<nat>) {
    && (r.None? <==> forall w :: w in followers ==> w !in dist)
    && (r.Some? ==> exists w :: w in followers && w in dist && dist[w] + 1 == r.value)
    && (r.Some? ==> forall w :: w in followers && w in dist ==> r.value <= dist[w] + 1)
  }

  lemma NearestSnoc(dist: map<Id, nat>, followers: set<Id>, r: Option<nat>, w: Id)
    requires IsNearest(dist, followers, r)
    ensures IsNearest(dist, followers + {w},
                      if w in dist && (r.None? || dist[w] + 1 < r.value) then Some(dist[w] + 1) else r)
  {
  }

  function Reset<T>(dist: map<Id, T>, v: Id, r: Option<T>): map<Id, T> {
    if r.Some? then dist[v := r.value] else dist - {v}
  }

  lemma ResetIsRooted(dist: Recorded, root: Id, v: Id, r: Option<nat>)
    requires Rooted(dist, root) && v != root && r != Some(0)
    ensures Rooted(dist - {v}, root) && Rooted(dist[v := r], root)
  {
    var less, other := dist - {v}, dist[v := r];
    forall x ensures DistanceOf(less, x) == Some(0) <==> x == root {
      assert DistanceOf(dist, x) == Some(0) <==> x == root;
    }
    forall x ensures DistanceOf(other, x) == Some(0) <==> x == root {
      assert DistanceOf(dist, x) == Some(0) <==> x == root;
    }
  }

  /** The distances after v lost a follower. */
  ghost predicate Removed(dist: map<Id, nat>, dist': map<Id, nat>, root: Id, followers: set<Id>, v: Id) {
    if v == root then dist' == dist else exists r :: IsNearest(dist, followers, r) && dist' == Reset(dist, v, r)
  }

  ghost predicate Supports(m: Index, dist: map<Id, nat>, w: Id, x: Id) {
    Linked(m, w, x) && w in dist && x in dist && dist[x] == dist[w] + 1
  }

  /** x has its distance from a follower, and from no other. */
  ghost predicate OnlySupport(m: Index, dist: map<Id, nat>, a: Id, x: Id) {
    Supports(m, dist, a, x) && forall w :: Supports(m, dist, w, x) ==> w == a
  }

  lemma OtherSupport(m: Index, dist: map<Id, nat>, a: Id, x: Id) returns (w: Id)
    requires Supports(m, dist, a, x) && !OnlySupport(m, dist, a, x)
    ensures Supports(m, dist, w, x) && w != a
  {
    w :| Supports(m, dist, w, x) && w != a;
  }

  /** With exact distances, everyone but the root has one from some follower. */
  lemma HasSupport(m: Index, root: Id, dist: map<Id, nat>, x: Id) returns (w: Id)
    requires ExactDistances(m, root, dist) && x in dist && x != root
    ensures Supports(m, dist, w, x)
  {
    ExactIsSettled(m, root, dist);
    assert Walk(m, root, x, dist[x]) && dist[x] > 0;
    w :| Walk(m, root, w, dist[x] - 1) && Linked(m, w, x);
    SettledBounds(m, root, dist, w, dist[x] - 1);
  }

  ghost predicate Supported(m: Index, dist: map<Id, nat>, x: Id) {
    exists w :: Supports(m, dist, w, x)
  }

  ghost predicate AllSupported(m: Index, root: Id, dist: map<Id, nat>) {
    && root in dist
    && dist[root] == 0
    && forall x {:trigger Supported(m, dist, x)} :: x in dist && x != root ==> Supported(m, dist, x)
  }

  lemma {:induction false} SupportedWalk(m: Index, root: Id, dist: map<Id, nat>, x: Id)
    requires AllSupported(m, root, dist) && x in dist
    ensures Walk(m, root, x, dist[x])
    decreases dist[x]
  {
    if x != root {
      assert Supported(m, dist, x);
      var w :| Supports(m, dist, w, x);
      SupportedWalk(m, root, dist, w);
      WalkOn(m, root, w, x, dist[w]);
    }
  }

  lemma SupportedIsExact(m: Index, root: Id, dist: map<Id, nat>)
    requires AllSupported(m, root, dist) && Settled(m, dist)
    ensures ExactDistances(m, root, dist)
  {
    forall x | x in dist ensures Walk(m, root, x, dist[x]) { SupportedWalk(m, root, dist, x); }
    ExactExactly(m, root, dist);
  }

  /** Whether another follower of v is as far away as v itself, should v follow itself. */
  ghost predicate SelfIsNoBetter(m: Index, dist: map<Id, nat>, v: Id) {
    Linked(m, v, v) && v in dist ==> exists w :: w != v && Linked(m, w, v) && w in dist && dist[w] == dist[v]
  }

  /** Exact distances stay exact after u stops following v if and only if v has not got its
      distance from u alone, or no one has got one from v alone (and v cannot prop itself up). */
  lemma RemovalIsExactExactly(m: Index, root: Id, dist: map<Id, nat>, dist': map<Id, nat>,
                              followers: set<Id>, u: Id, v: Id)
    requires ExactDistances(m, root, dist) && Removed(dist, dist', root, followers, v)
    requires forall w :: w in followers <==> Linked(DropEdge(m, u, v), w, v)
    ensures ExactDistances(DropEdge(m, u, v), root, dist') <==>
            (OnlySupport(m, dist, u, v) ==> (forall x :: !OnlySupport(m, dist, v, x)) && SelfIsNoBetter(m, dist, v))
  {
    if !OnlySupport(m, dist, u, v) {
      NothingHangsOn(m, root, dist, dist', followers, u, v);
    } else if x :| OnlySupport(m, dist, v, x) {
      NotPassedOn(m, root, dist, dist', u, v, x);
    } else if SelfIsNoBetter(m, dist, v) {
      AnotherSupport(m, root, dist, dist', followers, u, v);
    } else {
      PropsItselfUp(m, root, dist, dist', followers, u, v);
    }
  }

  lemma KeepsItsPlace(m: Index, root: Id, dist: map<Id, nat>, followers: set<Id>, v: Id, r: Option<nat>)
    requires AllSupported(m, root, dist) && Settled(m, dist) && v != root
    requires IsNearest(dist, followers, r) && forall w :: w in followers <==> Linked(m, w, v)
    ensures Reset(dist, v, r) == dist
  {
    if v in dist {
      assert Supported(m, dist, v);
      var w :| Supports(m, dist, w, v);
      assert w in followers;
    } else {
      assert forall w :: w in followers ==> w !in dist;
    }
  }

  /** v keeps its distance when someone else supports it. */
  lemma NothingHangsOn(m: Index, root: Id, dist: map<Id, nat>, dist': map<Id, nat>, followers: set<Id>, u: Id, v: Id)
    requires ExactDistances(m, root, dist) && Removed(dist, dist', root, followers, v)
    requires forall w :: w in followers <==> Linked(DropEdge(m, u, v), w, v)
    requires !OnlySupport(m, dist, u, v)
    ensures dist' == dist && ExactDistances(DropEdge(m, u, v), root, dist')
  {
    var m' := DropEdge(m, u, v);
    DropEdgeLinks(m, u, v);
    ExactIsSettled(m, root, dist);
    forall x | x in dist && x != root ensures Supported(m', dist, x) {
      var w := HasSupport(m, root, dist, x);
      if w == u && x == v {
        w := OtherSupport(m, dist, u, v);
        assert Supports(m', dist, w, x);
      } else {
        assert Supports(m', dist, w, x);
      }
    }
    SupportedIsExact(m', root, dist);
    if v != root {
      var r :| IsNearest(dist, followers, r) && dist' == Reset(dist, v, r);
      KeepsItsPlace(m', root, dist, followers, v, r);
    }
  }

  /** A chain after the removal is one before it, and ends with a support at an exact distance. */
  lemma LastSupport(m: Index, root: Id, dist: map<Id, nat>, u: Id, v: Id, x: Id) returns (w: Id)
    requires ExactDistances(m, root, dist) && x in dist && dist[x] > 0
    requires Walk(DropEdge(m, u, v), root, x, dist[x])
    ensures Walk(DropEdge(m, u, v), root, w, dist[x] - 1) && Linked(DropEdge(m, u, v), w, x)
    ensures Supports(m, dist, w, x)
  {
    var m' := DropEdge(m, u, v);
    DropEdgeLinks(m, u, v);
    ExactIsSettled(m, root, dist);
    w :| Walk(m', root, w, dist[x] - 1) && Linked(m', w, x);
    WalkStays(m', m, root, w, dist[x] - 1);
    SettledBounds(m, root, dist, w, dist[x] - 1);
  }

  /** Without its only support, v is not reached at its old distance. */
  lemma LosesItsPlace(m: Index, root: Id, dist: map<Id, nat>, u: Id, v: Id)
    requires ExactDistances(m, root, dist) && OnlySupport(m, dist, u, v)
    ensures !Walk(DropEdge(m, u, v), root, v, dist[v])
  {
    if Walk(DropEdge(m, u, v), root, v, dist[v]) {
      DropEdgeLinks(m, u, v);
      var w := LastSupport(m, root, dist, u, v, v);
    }
  }

  /** Whoever hangs on v alone keeps a distance that is too short. */
  lemma NotPassedOn(m: Index, root: Id, dist: map<Id, nat>, dist': map<Id, nat>, u: Id, v: Id, x: Id)
    requires ExactDistances(m, root, dist) && OnlySupport(m, dist, u, v) && OnlySupport(m, dist, v, x)
    requires forall y :: y != v ==> (y in dist' <==> y in dist) && (y in dist ==> dist'[y] == dist[y])
    ensures !ExactDistances(DropEdge(m, u, v), root, dist')
  {
    LosesItsPlace(m, root, dist, u, v);
    if ExactDistances(DropEdge(m, u, v), root, dist') {
      assert ShortestIs(DropEdge(m, u, v), root, x, dist'[x]);
      var w := LastSupport(m, root, dist, u, v, x);
    }
  }

  /** Otherwise the search finds v the right distance. */
  lemma AnotherSupport(m: Index, root: Id, dist: map<Id, nat>, dist': map<Id, nat>, followers: set<Id>, u: Id, v: Id)
    requires ExactDistances(m, root, dist) && Removed(dist, dist', root, followers, v)
    requires forall w :: w in followers <==> Linked(DropEdge(m, u, v), w, v)
    requires OnlySupport(m, dist, u, v) && (forall x :: !OnlySupport(m, dist, v, x)) && SelfIsNoBetter(m, dist, v)
    ensures ExactDistances(DropEdge(m, u, v), root, dist')
  {
    var m' := DropEdge(m, u, v);
    DropEdgeLinks(m, u, v);
    ExactIsSettled(m, root, dist);
    var r :| IsNearest(dist, followers, r) && dist' == Reset(dist, v, r);
    forall x | x in dist' && x != root ensures Supported(m', dist', x) {
      if x != v {
        var w := HasSupport(m, root, dist, x);
        if w == v { w := OtherSupport(m, dist, v, x); }
        assert Supports(m', dist', w, x);
      } else {
        var w :| w in followers && w in dist && dist[w] + 1 == r.value;
        if w == v { w :| w != v && Linked(m, w, v) && w in dist && dist[w] == dist[v]; }
        assert Supports(m', dist', w, v);
      }
    }
    SettledAfter(m, dist, dist', followers, u, v, r);
    SupportedIsExact(m', root, dist');
  }

  lemma NoNearerFollower(m: Index, dist: map<Id, nat>, followers: set<Id>, u: Id, v: Id)
    requires Settled(m, dist) && OnlySupport(m, dist, u, v)
    requires forall w :: w in followers <==> Linked(DropEdge(m, u, v), w, v)
    ensures forall w :: w in followers && w in dist ==> dist[w] >= dist[v]
  {
    DropEdgeLinks(m, u, v);
    forall w | w in followers && w in dist ensures dist[w] >= dist[v] {
      assert Linked(m, w, v) && w != u;
      assert Supports(m, dist, w, v) ==> w == u;
    }
  }

  lemma SettledAfter(m: Index, dist: map<Id, nat>, dist': map<Id, nat>, followers: set<Id>, u: Id, v: Id,
                     r: Option<nat>)
    requires Settled(m, dist) && OnlySupport(m, dist, u, v)
    requires forall w :: w in followers <==> Linked(DropEdge(m, u, v), w, v)
    requires IsNearest(dist, followers, r) && dist' == Reset(dist, v, r)
    ensures Settled(DropEdge(m, u, v), dist')
  {
    var m' := DropEdge(m, u, v);
    DropEdgeLinks(m, u, v);
    forall a, b | Linked(m', a, b) && a in dist' ensures b in dist' && dist'[b] <= dist'[a] + 1 {
      assert Linked(m, a, b);
      if b == v {
        assert a in followers && a in dist;
      } else if a == v {
        NoNearerFollower(m, dist, followers, u, v);
      }
    }
  }

  /** A user who follows itself can be its own nearest follower. */
  lemma PropsItselfUp(m: Index, root: Id, dist: map<Id, nat>, dist': map<Id, nat>, followers: set<Id>, u: Id, v: Id)
    requires ExactDistances(m, root, dist) && Removed(dist, dist', root, followers, v)
    requires forall w :: w in followers <==> Linked(DropEdge(m, u, v), w, v)
    requires OnlySupport(m, dist, u, v) && !SelfIsNoBetter(m, dist, v)
    ensures !ExactDistances(DropEdge(m, u, v), root, dist')
  {
    var m' := DropEdge(m, u, v);
    DropEdgeLinks(m, u, v);
    ExactIsSettled(m, root, dist);
    LosesItsPlace(m, root, dist, u, v);
    assert v in followers;
    var r :| IsNearest(dist, followers, r) && dist' == Reset(dist, v, r);
    NoNearerFollower(m, dist, followers, u, v);
    assert r == Some(dist[v] + 1);
    if ExactDistances(m', root, dist') {
      assert ShortestIs(m', root, v, dist'[v]);
      var w :| Walk(m', root, w, dist[v]) && Linked(m', w, v);
      WalkStays(m', m, root, w, dist[v]);
      SettledBounds(m, root, dist, w, dist[v]);
    }
  }

  // ---------------------------------------------------------------- a whole list

  /** What naming users does: with a distance of its own, the author gives each of them one that is
      at most one further; no one else's changes. */
  ghost predicate Relaxed(dist: map<Id, nat>, dist': map<Id, nat>, author: Id, named: set<Id>) {
    && (forall v :: v !in named ==> (v in dist' <==> v in dist) && (v in dist ==> dist'[v] == dist[v]))
    && (author !in dist ==> dist' == dist)
    && (author in dist ==> forall v :: v in named ==>
          v in dist' && dist'[v] == if v in dist && dist[v] <= dist[author] + 1 then dist[v] else dist[author] + 1)
  }

  lemma NamedOneMore(dist: map<Id, nat>, dist': map<Id, nat>, author: Id, named: set<Id>, v: Id)
    requires Relaxed(dist, dist', author, named) && v !in named && author !in named + {v}
    ensures Relaxed(dist, Relax(dist', author, v), author, named + {v})
  {
    assert author in dist' <==> author in dist;
  }

  /** The users are dropped one after the other, each reset to the nearest of its other followers. */
  ghost predicate Dropped(steps: seq<map<Id, nat>>, dist: map<Id, nat>, m: Index, root: Id, author: Id,
                          users: seq<Id>) {
    && |steps| == |users| + 1 && steps[0] == dist
    && forall i :: 0 <= i < |users| ==> DropStep(steps[i], steps[i + 1], m, root, author, users[i])
  }

  ghost predicate DropStep(dist: map<Id, nat>, dist': map<Id, nat>, m: Index, root: Id, author: Id, v: Id) {
    exists others :: OtherFollowers(m, author, v, others) && Removed(dist, dist', root, others, v)
  }

  ghost predicate OtherFollowers(m: Index, author: Id, v: Id, others: set<Id>) {
    forall w :: w in others <==> w != author && Linked(m, w, v)
  }

  lemma DroppedOneMore(steps: seq<map<Id, nat>>, dist: map<Id, nat>, m: Index, root: Id, author: Id, users: seq<Id>,
                       v: Id, others: set<Id>, dist': map<Id, nat>)
    requires Dropped(steps, dist, m, root, author, users)
    requires OtherFollowers(m, author, v, others) && Removed(steps[|users|], dist', root, others, v)
    ensures Dropped(steps + [dist'], dist, m, root, author, users + [v])
  {
    var steps', users' := steps + [dist'], users + [v];
    forall i | 0 <= i < |users'| ensures DropStep(steps'[i], steps'[i + 1], m, root, author, users'[i]) {
      if i < |users| {
        assert DropStep(steps[i], steps[i + 1], m, root, author, users[i]);
      } else {
        assert DropStep(steps[i], dist', m, root, author, v);
      }
    }
  }

  // ---------------------------------------------------------------- runs

  datatype Follow = Follow(follower: Id, followed: Id)

  function GraphOf(run: seq<Follow>): Index {
    if run == [] then map[]
    else AddEdge(GraphOf(run[..|run| - 1]), run[|run| - 1].follower, run[|run| - 1].followed)
  }

  /** The distances after follows in this order, on an empty graph. */
  function After(root: Id, run: seq<Follow>): Recorded {
    if run == [] then map[root := Some(0)]
    else AddDistance(After(root, run[..|run| - 1]), root, run[|run| - 1].followed, run[|run| - 1].follower)
  }

  lemma AfterOne(root: Id, run: seq<Follow>, e: Follow)
    ensures GraphOf(run + [e]) == AddEdge(GraphOf(run), e.follower, e.followed)
    ensures After(root, run + [e]) == AddDistance(After(root, run), root, e.followed, e.follower)
  {
    assert (run + [e])[..|run|] == run;
  }

  /** In whatever order follows come, a distance is the length of some chain. */
  lemma {:induction false} RunIsWalks(root: Id, run: seq<Follow>)
    ensures Rooted(After(root, run), root)
    ensures Justified(GraphOf(run), root, Defined(After(root, run)))
  {
    if run == [] {
      assert Walk(map[], root, root, 0);
    } else {
      var init, e := run[..|run| - 1], run[|run| - 1];
      RunIsWalks(root, init);
      AddIsRelaxation(After(root, init), root, e.followed, e.follower);
      AddKeepsWalks(GraphOf(init), root, Defined(After(root, init)), e.follower, e.followed);
    }
  }

  lemma RunIsExactExactly(root: Id, run: seq<Follow>)
    ensures ExactDistances(GraphOf(run), root, Defined(After(root, run))) <==>
            Settled(GraphOf(run), Defined(After(root, run)))
  {
    RunIsWalks(root, run);
    ExactExactly(GraphOf(run), root, Defined(After(root, run)));
  }

  /** A distance never grows by follows. */
  lemma {:induction false} NeverGrows(root: Id, run: seq<Follow>, i: nat, v: Id)
    requires i <= |run| && v in Defined(After(root, run[..i]))
    ensures v in Defined(After(root, run)) && Defined(After(root, run))[v] <= Defined(After(root, run[..i]))[v]
    decreases |run|
  {
    if i == |run| {
      assert run[..i] == run;
    } else {
      var init, e := run[..|run| - 1], run[|run| - 1];
      assert init[..i] == run[..i];
      NeverGrows(root, init, i, v);
      RunIsWalks(root, init);
      AddIsRelaxation(After(root, init), root, e.followed, e.follower);
    }
  }

  /** The link of each follow is in the graph, and no other. */
  lemma {:induction false} LinkOf(run: seq<Follow>, u: Id, v: Id) returns (i: nat)
    requires Linked(GraphOf(run), u, v)
    ensures i < |run| && run[i] == Follow(u, v)
  {
    i := |run| - 1;
    AddEdgeLinks(GraphOf(run[..i]), run[i].follower, run[i].followed);
    if run[i] != Follow(u, v) { i := LinkOf(run[..i], u, v); }
  }

  /** The authors' follows come in the order of their distances; those of authors out of reach may
      come at any time. */
  ghost predicate NearestFirst(run: seq<Follow>, dist: map<Id, nat>) {
    forall i, j :: 0 <= i < j < |run| && run[i].follower in dist && run[j].follower in dist ==>
      dist[run[i].follower] <= dist[run[j].follower]
  }

  /** From i on all follows are those of authors as far away as x. */
  ghost predicate NoneNearer(run: seq<Follow>, dist: map<Id, nat>, i: nat, x: Id)
    requires x in dist
  {
    forall j :: i <= j < |run| && run[j].follower in dist ==> dist[x] <= dist[run[j].follower]
  }

  /** Then each user has its distance before its own follows come. */
  lemma {:induction false} HasItByThen(root: Id, run: seq<Follow>, dist: map<Id, nat>, x: Id, i: nat)
    requires ExactDistances(GraphOf(run), root, dist) && NearestFirst(run, dist)
    requires x in dist && i <= |run| && NoneNearer(run, dist, i, x)
    ensures x in Defined(After(root, run[..i])) && Defined(After(root, run[..i]))[x] <= dist[x]
    decreases dist[x]
  {
    RunIsWalks(root, run[..i]);
    if x != root {
      var w := HasSupport(GraphOf(run), root, dist, x);
      var k := LinkOf(run, w, x);
      assert k < i;
      HasItByThen(root, run, dist, w, k);
      GetsItFrom(root, run, k);
      assert run[..i][..k + 1] == run[..k + 1];
      NeverGrows(root, run[..i], k + 1, x);
    }
  }

  /** What one follow gives. */
  lemma GetsItFrom(root: Id, run: seq<Follow>, k: nat)
    requires k < |run| && run[k].follower in Defined(After(root, run[..k]))
    ensures (var dist := Defined(After(root, run[..k + 1]));
             && run[k].followed in dist
             && dist[run[k].followed] <= Defined(After(root, run[..k]))[run[k].follower] + 1)
  {
    AfterOne(root, run[..k], run[k]);
    assert run[..k] + [run[k]] == run[..k + 1];
    RunIsWalks(root, run[..k]);
    AddIsRelaxation(After(root, run[..k]), root, run[k].followed, run[k].follower);
  }

  /** So in that order no recalculation is needed. */
  lemma NearestFirstIsExact(root: Id, run: seq<Follow>, dist: map<Id, nat>)
    requires ExactDistances(GraphOf(run), root, dist) && NearestFirst(run, dist)
    ensures Defined(After(root, run)) == dist
  {
    var dist' := Defined(After(root, run));
    RunIsWalks(root, run);
    assert run[..|run|] == run;
    forall x | x in dist ensures x in dist' && dist'[x] == dist[x] {
      HasItByThen(root, run, dist, x, |run|);
      assert Walk(GraphOf(run), root, x, dist'[x]) && ShortestIs(GraphOf(run), root, x, dist[x]);
    }
    forall x | x in dist' ensures x in dist { assert Walk(GraphOf(run), root, x, dist'[x]); }
  }

  // ---------------------------------------------------------------- what is lost

  /** A list that comes before its author is reached gives no distances, then or later. */
  lemma LateFollowIsLost(root: Id, a: Id, b: Id)
    requires root != a && root != b && a != b
    ensures (var run := [Follow(a, b), Follow(root, a)];
             Walk(GraphOf(run), root, b, 2) && b !in Defined(After(root, run)))
  {
    var one, two := Follow(a, b), Follow(root, a);
    AfterOne(root, [], one);
    AfterOne(root, [one], two);
    assert [] + [one] == [one] && [one] + [two] == [one, two];
    LateChain(root, a, b);
    LateDistances(root, a, b);
  }

  lemma LateChain(root: Id, a: Id, b: Id)
    ensures Walk(AddEdge(AddEdge(map[], a, b), root, a), root, b, 2)
  {
    var m := AddEdge(AddEdge(map[], a, b), root, a);
    AddEdgeLinks(map[], a, b);
    AddEdgeLinks(AddEdge(map[], a, b), root, a);
    assert Walk(m, root, root, 0);
    WalkOn(m, root, root, a, 0);
    WalkOn(m, root, a, b, 1);
  }

  lemma LateDistances(root: Id, a: Id, b: Id)
    requires root != a && root != b && a != b
    ensures b !in Defined(AddDistance(AddDistance(map[root := Some(0)], root, b, a), root, a, root))
  {
    assert AddDistance(map[root := Some(0)], root, b, a) == map[root := Some(0), b := None];
  }

  function Shortcut(root: Id, a: Id, b: Id, c: Id): seq<Follow> {
    [Follow(root, a), Follow(a, b), Follow(b, c), Follow(root, b)]
  }

  /** Nor is a shorter way passed on, with every author reached before its lists come. */
  lemma ShortcutIsNotPassedOn(root: Id, a: Id, b: Id, c: Id)
    requires root != a && root != b && root != c && a != b && a != c && b != c
    ensures (var run := Shortcut(root, a, b, c);
             && Walk(GraphOf(run), root, c, 2)
             && DistanceOf(After(root, run), c) == Some(3)
             && forall i :: 0 <= i < 4 ==> run[i].follower in Defined(After(root, run[..i])))
  {
    var run := Shortcut(root, a, b, c);
    forall i | 0 <= i < 4
      ensures GraphOf(run[..i + 1]) == AddEdge(GraphOf(run[..i]), run[i].follower, run[i].followed)
      ensures After(root, run[..i + 1]) == AddDistance(After(root, run[..i]), root, run[i].followed, run[i].follower)
    {
      assert run[..i] + [run[i]] == run[..i + 1];
      AfterOne(root, run[..i], run[i]);
    }
    assert run[..0] == [] && run[..4] == run;
    assert After(root, run[..1]) == map[root := Some(0), a := Some(1)];
    assert After(root, run[..2]) == map[root := Some(0), a := Some(1), b := Some(2)];
    assert After(root, run[..3]) == map[root := Some(0), a := Some(1), b := Some(2), c := Some(3)];
    var m := GraphOf(run);
    assert Linked(m, root, b) && Linked(m, b, c);
    assert Walk(m, root, root, 0);
    WalkOn(m, root, root, b, 0);
    WalkOn(m, root, b, c, 1);
  }

  function Ring(root: Id, a: Id, b: Id): Index {
    map[root := {a}, a := {b}, b := {a}]
  }

  /** Two who follow each other prop each other up: when root no longer follows a, a is out of
      reach, but is given the distance 3. */
  lemma RemovalInventsADistance(root: Id, a: Id, b: Id, dist': map<Id, nat>)
    requires root != a && root != b && a != b
    requires Removed(map[root := 0, a := 1, b := 2], dist', root, {b}, a)
    ensures ExactDistances(Ring(root, a, b), root, map[root := 0, a := 1, b := 2])
    ensures forall w :: w in {b} <==> Linked(DropEdge(Ring(root, a, b), root, a), w, a)
    ensures a in dist' && dist'[a] == 3 && forall n: nat :: !Walk(DropEdge(Ring(root, a, b), root, a), root, a, n)
  {
    var m, dist: map<Id, nat> := Ring(root, a, b), map[root := 0, a := 1, b := 2];
    assert Supports(m, dist, root, a) && Supports(m, dist, a, b);
    assert Supported(m, dist, a) && Supported(m, dist, b);
    SupportedIsExact(m, root, dist);
    var r :| IsNearest(dist, {b}, r) && dist' == Reset(dist, a, r);
    assert b in dist;
    forall n: nat ensures !Walk(DropEdge(m, root, a), root, a, n) {
      if Walk(DropEdge(m, root, a), root, a, n) { NoWayOut(DropEdge(m, root, a), root, a, n); }
    }
  }

  /** A root that follows no one reaches no one. */
  lemma {:induction false} NoWayOut(m: Index, root: Id, v: Id, n: nat)
    requires Walk(m, root, v, n) && forall x :: !Linked(m, root, x)
    ensures v == root
    decreases n
  {
    if n > 0 {
      var u :| Walk(m, root, u, n - 1) && Linked(m, u, v);
      NoWayOut(m, root, u, n - 1);
    }
  }

  // ---------------------------------------------------------------- buckets

  /** Users by recorded distance; a missing distance has a bucket too. */
  type Buckets = map<Option<nat>, set<Id>>

  predicate InBucket(b: Buckets, d: Option<nat>, v: Id) {
    d in b && v in b[d]
  }

  /** The buckets of numbers hold each user at its distance, and nothing else. */
  ghost predicate Filed(b: Buckets, dist: map<Id, nat>) {
    forall d: nat, v :: InBucket(b, Some(d), v) <==> v in dist && dist[v] == d
  }

  predicate Further(d: Option<nat>, from: Option<nat>) {
    d.Some? && from.Some? && d.value > from.value
  }

  /** addUserByFollowDistance: the user joins one bucket and leaves those further away. */
  method AddUserByFollowDistance(b: Buckets, distance: Option<nat>, user: Id) returns (b': Buckets)
    ensures forall d, v :: InBucket(b', d, v) <==>
              (d == distance && v == user) || (InBucket(b, d, v) && !(Further(d, distance) && v == user))
  {
    b' := if distance in b then b else b[distance := {}];
    b' := b'[distance := b'[distance] + {user}];
    ghost var was := b';
    var todo := b'.Keys;
    while todo != {}
      invariant todo <= b'.Keys == was.Keys
      invariant forall d :: d in was ==> b'[d] == if d !in todo && Further(d, distance) then was[d] - {user} else was[d]
      decreases todo
    {
      var d :| d in todo;
      todo := todo - {d};
      if Further(d, distance) { b' := b'[d := b'[d] - {user}]; }
    }
  }

  lemma StaysFiled(b: Buckets, b': Buckets, dist: map<Id, nat>, distance: Option<nat>, user: Id)
    requires Filed(b, dist)
    requires forall d, v :: InBucket(b', d, v) <==>
               (d == distance && v == user) || (InBucket(b, d, v) && !(Further(d, distance) && v == user))
    requires if distance.Some? then user in dist ==> distance.value <= dist[user] else user !in dist
    ensures Filed(b', if distance.Some? then dist[user := distance.value] else dist)
  {
  }
}
