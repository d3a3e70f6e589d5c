/** Choosing what to save when the saved graph must stay small. */
module GraphBudget {
  import opened Directory
  import opened Keys
  import opened Bytes
  import opened UniqueIds
  import opened FollowDistance
  import opened GraphWriter
  import opened GraphBinary

  datatype Edge = Edge(owner: Id, target: Id, isFollow: bool)

  /** The limits that a caller may give. Except for the distance, 0 is no limit. */
  datatype Budget = Budget(maxNodes: Option<nat>, maxEdges: Option<nat>,
                           maxDistance: Option<int>, maxEdgesPerNode: Option<nat>)

  predicate Obeys(n: nat, limit: Option<nat>) {
    limit.Some? && limit.value > 0 ==> n <= limit.value
  }

  /** Room for one more. */
  predicate Below(n: nat, limit: Option<nat>) {
    limit.None? || limit.value == 0 || n < limit.value
  }

  /** Exactly as many as a limit allows. */
  ghost predicate AtLimit(n: nat, limit: Option<nat>) {
    limit.Some? && n == limit.value > 0
  }

  // ---------------------------------------------------------------- edges of one owner

  /** The targets of an owner's follow (or mute) edges, in order. */
  function Kept(edges: seq<Edge>, owner: Id, isFollow: bool): (r: seq<Id>)
    ensures forall t :: t in r ==> Edge(owner, t, isFollow) in edges
  {
    if edges == [] then []
    else
      var last := edges[|edges| - 1];
      var init := Kept(edges[..|edges| - 1], owner, isFollow);
      if last.owner == owner && last.isFollow == isFollow then init + [last.target] else init
  }

  lemma {:induction false} KeptAppend(a: seq<Edge>, b: seq<Edge>, owner: Id, isFollow: bool)
    ensures Kept(a + b, owner, isFollow) == Kept(a, owner, isFollow) + Kept(b, owner, isFollow)
    decreases |b|
  {
    if b == [] {
      assert a + b == a;
    } else {
      var init := b[..|b| - 1];
      assert (a + b)[..|a + b| - 1] == a + init;
      KeptAppend(a, init, owner, isFollow);
    }
  }

  lemma KeptPrefix(edges: seq<Edge>, n: nat, owner: Id, isFollow: bool)
    requires n <= |edges|
    ensures Kept(edges[..n], owner, isFollow) <= Kept(edges, owner, isFollow)
  {
    assert edges == edges[..n] + edges[n..];
    KeptAppend(edges[..n], edges[n..], owner, isFollow);
  }

  /** The edges from one owner to some targets. */
  function Fan(owner: Id, targets: seq<Id>, isFollow: bool): (r: seq<Edge>)
    ensures |r| == |targets| && forall i :: 0 <= i < |r| ==> r[i] == Edge(owner, targets[i], isFollow)
  {
    if targets == [] then []
    else Fan(owner, targets[..|targets| - 1], isFollow) + [Edge(owner, targets[|targets| - 1], isFollow)]
  }

  lemma {:induction false} KeptFan(owner: Id, targets: seq<Id>, isFollow: bool, o: Id, f: bool)
    ensures Kept(Fan(owner, targets, isFollow), o, f) == if o == owner && f == isFollow then targets else []
    decreases |targets|
  {
    if targets != [] {
      var init, last := targets[..|targets| - 1], targets[|targets| - 1];
      var fan := Fan(owner, targets, isFollow);
      assert targets == init + [last];
      assert fan[..|fan| - 1] == Fan(owner, init, isFollow) && fan[|fan| - 1] == Edge(owner, last, isFollow);
      KeptFan(owner, init, isFollow, o, f);
    }
  }

  // ---------------------------------------------------------------- collecting

  /** How many of n more edges there is room for, when `used` are taken. */
  function Room(n: nat, used: nat, perNode: Option<nat>): nat {
    if perNode.None? || perNode.value == 0 then n else Min(n, Max(0, perNode.value - used))
  }

  /** As many follows, and then as many mutes, as the limit has room for. */
  function OwnerCandidates(owner: Id, outsF: seq<Id>, outsM: seq<Id>, perNode: Option<nat>): seq<Edge> {
    var a := Room(|outsF|, 0, perNode);
    Fan(owner, outsF[..a], true) + Fan(owner, outsM[..Room(|outsM|, a, perNode)], false)
  }

  method CollectOwner(owner: Id, outsF: seq<Id>, outsM: seq<Id>, perNode: Option<nat>) returns (edges: seq<Edge>)
    ensures edges == OwnerCandidates(owner, outsF, outsM, perNode)
  {
    var follows := CollectFan(owner, outsF, true, 0, perNode);
    var mutes := CollectFan(owner, outsM, false, |follows|, perNode);
    edges := follows + mutes;
  }

  /** One of the two loops, with `used` edges of the owner already collected. */
  method CollectFan(owner: Id, outs: seq<Id>, isFollow: bool, used: nat, perNode: Option<nat>)
    returns (edges: seq<Edge>)
    ensures edges == Fan(owner, outs[..Room(|outs|, used, perNode)], isFollow)
  {
    edges := [];
    var ownerEdgeCount := used;
    for i := 0 to |outs|
      invariant |edges| == Room(i, used, perNode) <= i && ownerEdgeCount == used + |edges|
      invariant edges == Fan(owner, outs[..|edges|], isFollow)
    {
      if Below(ownerEdgeCount, perNode) {
        FanSnoc(owner, outs, i, isFollow);
        edges := edges + [Edge(owner, outs[i], isFollow)];
        ownerEdgeCount := ownerEdgeCount + 1;
      }
    }
  }

  lemma FanSnoc(owner: Id, targets: seq<Id>, n: nat, isFollow: bool)
    requires n < |targets|
    ensures Fan(owner, targets[..n + 1], isFollow) ==
            Fan(owner, targets[..n], isFollow) + [Edge(owner, targets[n], isFollow)]
  {
    assert targets[..n + 1][..n] == targets[..n];
  }

  /** Every seen owner's edges are the first of its follows and then of its mutes, and all of them
      unless the cap is reached; owners not seen have none. */
  ghost predicate Collected(edges: seq<Edge>, seen: set<Id>, followed: Ordered, muted: Ordered, perNode: Option<nat>) {
    forall o :: CollectedFor(edges, seen, followed, muted, perNode, o)
  }

  ghost predicate CollectedFor(edges: seq<Edge>, seen: set<Id>, followed: Ordered, muted: Ordered,
                               perNode: Option<nat>, o: Id) {
    var f, m := Kept(edges, o, true), Kept(edges, o, false);
    && f <= TargetsOf(followed, o) && m <= TargetsOf(muted, o) && Obeys(|f| + |m|, perNode)
    && (o !in seen ==> f == [] && m == [])
    && (o in seen && f != TargetsOf(followed, o) ==> AtLimit(|f|, perNode))
    && (o in seen && m != TargetsOf(muted, o) ==> AtLimit(|f| + |m|, perNode))
  }

  lemma OwnerCollected(edges: seq<Edge>, seen: set<Id>, followed: Ordered, muted: Ordered, perNode: Option<nat>,
                       owner: Id)
    requires Collected(edges, seen, followed, muted, perNode) && owner !in seen
    ensures (var more := OwnerCandidates(owner, TargetsOf(followed, owner), TargetsOf(muted, owner), perNode);
             Collected(edges + more, seen + {owner}, followed, muted, perNode))
  {
    var more := OwnerCandidates(owner, TargetsOf(followed, owner), TargetsOf(muted, owner), perNode);
    var a := Room(|TargetsOf(followed, owner)|, 0, perNode);
    var b := Room(|TargetsOf(muted, owner)|, a, perNode);
    forall o ensures CollectedFor(edges + more, seen + {owner}, followed, muted, perNode, o) {
      assert CollectedFor(edges, seen, followed, muted, perNode, o);
      OneCollected(edges, seen, followed, muted, perNode, owner, a, b, o);
    }
  }

  lemma OneCollected(edges: seq<Edge>, seen: set<Id>, followed: Ordered, muted: Ordered, perNode: Option<nat>,
                     owner: Id, a: nat, b: nat, o: Id)
    requires CollectedFor(edges, seen, followed, muted, perNode, o) && owner !in seen
    requires a <= |TargetsOf(followed, owner)| && b <= |TargetsOf(muted, owner)| && Obeys(a + b, perNode)
    requires a < |TargetsOf(followed, owner)| ==> AtLimit(a, perNode)
    requires b < |TargetsOf(muted, owner)| ==> AtLimit(a + b, perNode)
    ensures (var follows := Fan(owner, TargetsOf(followed, owner)[..a], true);
             var more := follows + Fan(owner, TargetsOf(muted, owner)[..b], false);
             CollectedFor(edges + more, seen + {owner}, followed, muted, perNode, o))
  {
    var tF, tM := TargetsOf(followed, owner)[..a], TargetsOf(muted, owner)[..b];
    KeptMore(edges, owner, tF, tM, o, true);
    KeptMore(edges, owner, tF, tM, o, false);
    if o == owner {
      assert Kept(edges, o, true) + tF == tF && Kept(edges, o, false) + tM == tM;
    } else {
      assert Kept(edges, o, true) + [] == Kept(edges, o, true) && Kept(edges, o, false) + [] == Kept(edges, o, false);
    }
  }

  lemma KeptThree(a: seq<Edge>, b: seq<Edge>, c: seq<Edge>, o: Id, f: bool)
    ensures Kept(a + (b + c), o, f) == Kept(a, o, f) + (Kept(b, o, f) + Kept(c, o, f))
  {
    KeptAppend(a, b + c, o, f);
    KeptAppend(b, c, o, f);
  }

  lemma KeptMore(edges: seq<Edge>, owner: Id, tF: seq<Id>, tM: seq<Id>, o: Id, f: bool)
    ensures (Kept(edges + (Fan(owner, tF, true) + Fan(owner, tM, false)), o, f) ==
             Kept(edges, o, f) + if o != owner then [] else if f then tF else tM)
  {
    KeptThree(edges, Fan(owner, tF, true), Fan(owner, tM, false), o, f);
    KeptFan(owner, tF, true, o, f);
    KeptFan(owner, tM, false, o, f);
    OneOfTwo(Kept(edges, o, f), if o == owner && f then tF else [], if o == owner && !f then tM else []);
  }

  lemma OneOfTwo(a: seq<Id>, b: seq<Id>, c: seq<Id>)
    requires b == [] || c == []
    ensures a + (b + c) == a + if b == [] then c else b
    ensures b == c == [] ==> a + (b + c) == a
  {
  }

  /** The distance buckets, nearest first, as they are after a recalculation: no user twice. */
  ghost predicate DisjointBuckets(buckets: Ordered) {
    && (forall i :: 0 <= i < |buckets| ==> Distinct(buckets[i].targets))
    && (forall i, j, u :: 0 <= i < j < |buckets| && u in buckets[i].targets ==> u !in buckets[j].targets)
  }

  predicate Near(distance: int, maxDistance: Option<int>) {
    maxDistance.Some? ==> distance <= maxDistance.value
  }

  ghost predicate NearOwner(buckets: Ordered, maxDistance: Option<int>, o: Id) {
    exists i :: 0 <= i < |buckets| && o in buckets[i].targets &&
                (maxDistance.Some? ==> buckets[i].owner <= maxDistance.value)
  }

  ghost predicate NearEdges(edges: seq<Edge>, buckets: Ordered, maxDistance: Option<int>) {
    forall i :: 0 <= i < |edges| ==> NearOwner(buckets, maxDistance, edges[i].owner)
  }

  lemma NearOneMore(buckets: Ordered, maxDistance: Option<int>, o: Id)
    requires buckets != []
    ensures (var n := |buckets| - 1;
             NearOwner(buckets, maxDistance, o) <==>
                 || NearOwner(buckets[..n], maxDistance, o)
                 || (Near(buckets[n].owner, maxDistance) && o in buckets[n].targets))
  {
    var init := buckets[..|buckets| - 1];
    if NearOwner(init, maxDistance, o) {
      var i :| 0 <= i < |init| && o in init[i].targets && (maxDistance.Some? ==> init[i].owner <= maxDistance.value);
      assert buckets[i] == init[i];
    }
    if NearOwner(buckets, maxDistance, o) {
      var i :| 0 <= i < |buckets| && o in buckets[i].targets &&
               (maxDistance.Some? ==> buckets[i].owner <= maxDistance.value);
      assert i < |init| ==> init[i] == buckets[i];
    }
  }

  function UserCandidates(users: seq<Id>, followed: Ordered, muted: Ordered, perNode: Option<nat>): seq<Edge> {
    if users == [] then []
    else
      var owner := users[|users| - 1];
      UserCandidates(users[..|users| - 1], followed, muted, perNode) +
      OwnerCandidates(owner, TargetsOf(followed, owner), TargetsOf(muted, owner), perNode)
  }

  /** All edges the budget may choose from, in the order it does: nearest owners first. */
  function Candidates(buckets: Ordered, followed: Ordered, muted: Ordered, budget: Budget): seq<Edge> {
    if buckets == [] then []
    else
      var last, before := buckets[|buckets| - 1], Candidates(buckets[..|buckets| - 1], followed, muted, budget);
      if Near(last.owner, budget.maxDistance) then
        before + UserCandidates(last.targets, followed, muted, budget.maxEdgesPerNode)
      else before
  }

  lemma Regroup(a: seq<Edge>, b: seq<Edge>, c: seq<Edge>)
    ensures a + (b + c) == (a + b) + c
  {
  }

  method CollectBucket(users: seq<Id>, edges: seq<Edge>, followed: Ordered, muted: Ordered, perNode: Option<nat>)
    returns (edges': seq<Edge>)
    ensures edges' == edges + UserCandidates(users, followed, muted, perNode)
  {
    edges' := edges;
    assert edges + [] == edges;
    for i := 0 to |users|
      invariant edges' == edges + UserCandidates(users[..i], followed, muted, perNode)
    {
      var owner := users[i];
      var more := CollectOwner(owner, TargetsOf(followed, owner), TargetsOf(muted, owner), perNode);
      assert users[..i + 1][..i] == users[..i];
      Regroup(edges, UserCandidates(users[..i], followed, muted, perNode), more);
      edges' := edges' + more;
    }
    assert users[..|users|] == users;
  }

  method CollectEdges(buckets: Ordered, followed: Ordered, muted: Ordered, budget: Budget) returns (edges: seq<Edge>)
    ensures edges == Candidates(buckets, followed, muted, budget)
  {
    edges := [];
    for n := 0 to |buckets|
      invariant edges == Candidates(buckets[..n], followed, muted, budget)
    {
      assert buckets[..n + 1][..n] == buckets[..n];
      if Near(buckets[n].owner, budget.maxDistance) {
        edges := CollectBucket(buckets[n].targets, edges, followed, muted, budget.maxEdgesPerNode);
      }
    }
    assert buckets[..|buckets|] == buckets;
  }

  lemma {:induction false} UsersCollected(users: seq<Id>, edges: seq<Edge>, seen: set<Id>, followed: Ordered,
                                          muted: Ordered, perNode: Option<nat>)
    requires Distinct(users) && ToSet(users) !! seen && Collected(edges, seen, followed, muted, perNode)
    ensures Collected(edges + UserCandidates(users, followed, muted, perNode), seen + ToSet(users),
                      followed, muted, perNode)
  {
    if users == [] {
      assert edges + [] == edges && seen + ToSet(users) == seen;
    } else {
      var init, owner := users[..|users| - 1], users[|users| - 1];
      UsersCollected(init, edges, seen, followed, muted, perNode);
      OwnerCollected(edges + UserCandidates(init, followed, muted, perNode), seen + ToSet(init),
                     followed, muted, perNode, owner);
      Regroup(edges, UserCandidates(init, followed, muted, perNode),
              OwnerCandidates(owner, TargetsOf(followed, owner), TargetsOf(muted, owner), perNode));
      assert seen + ToSet(users) == (seen + ToSet(init)) + {owner} by {
        assert users == init + [owner];
      }
    }
  }

  /** With no user in two buckets, every owner within the distance is gone through exactly once. */
  lemma {:induction false} CandidatesAreCollected(buckets: Ordered, followed: Ordered, muted: Ordered, budget: Budget)
    returns (seen: set<Id>)
    requires DisjointBuckets(buckets)
    ensures Collected(Candidates(buckets, followed, muted, budget), seen, followed, muted, budget.maxEdgesPerNode)
    ensures forall u :: u in seen <==> NearOwner(buckets, budget.maxDistance, u)
  {
    seen := {};
    if buckets != [] {
      var n := |buckets| - 1;
      var init := buckets[..n];
      assert DisjointBuckets(init);
      seen := CandidatesAreCollected(init, followed, muted, budget);
      if Near(buckets[n].owner, budget.maxDistance) {
        NoneSeenTwice(buckets, budget.maxDistance, seen);
        UsersCollected(buckets[n].targets, Candidates(init, followed, muted, budget), seen,
                       followed, muted, budget.maxEdgesPerNode);
        seen := seen + ToSet(buckets[n].targets);
      }
      forall u ensures u in seen <==> NearOwner(buckets, budget.maxDistance, u) {
        NearOneMore(buckets, budget.maxDistance, u);
      }
    }
  }

  lemma NoneSeenTwice(buckets: Ordered, maxDistance: Option<int>, seen: set<Id>)
    requires DisjointBuckets(buckets) && buckets != []
    requires forall u :: u in seen ==> NearOwner(buckets[..|buckets| - 1], maxDistance, u)
    ensures ToSet(buckets[|buckets| - 1].targets) !! seen
  {
    var n := |buckets| - 1;
    forall u | u in seen ensures u !in buckets[n].targets {
      var i :| 0 <= i < n && u in buckets[..n][i].targets;
      assert u in buckets[i].targets;
    }
  }

  lemma {:induction false} CandidateOwners(users: seq<Id>, followed: Ordered, muted: Ordered, perNode: Option<nat>,
                                           e: Edge)
    requires e in UserCandidates(users, followed, muted, perNode)
    ensures e.owner in users
  {
    var init := users[..|users| - 1];
    if e in UserCandidates(init, followed, muted, perNode) { CandidateOwners(init, followed, muted, perNode, e); }
  }

  lemma {:induction false} CandidatesAreNear(buckets: Ordered, followed: Ordered, muted: Ordered, budget: Budget,
                                             e: Edge)
    requires e in Candidates(buckets, followed, muted, budget)
    ensures NearOwner(buckets, budget.maxDistance, e.owner)
  {
    var n := |buckets| - 1;
    if e in Candidates(buckets[..n], followed, muted, budget) {
      CandidatesAreNear(buckets[..n], followed, muted, budget, e);
    } else {
      CandidateOwners(buckets[n].targets, followed, muted, budget.maxEdgesPerNode, e);
    }
    NearOneMore(buckets, budget.maxDistance, e.owner);
  }

  // ---------------------------------------------------------------- choosing

  function LimitFor(limits: seq<Limit>, o: Id): nat {
    if limits == [] then 0 else if limits[0].owner == o then limits[0].limit else LimitFor(limits[1..], o)
  }

  /** map.set(owner, (map.get(owner) ?? 0) + 1) on an insertion-ordered map. */
  function Bump(limits: seq<Limit>, o: Id): seq<Limit> {
    if limits == [] then [Limit(o, 1)]
    else if limits[0].owner == o then [Limit(o, limits[0].limit + 1)] + limits[1..]
    else [limits[0]] + Bump(limits[1..], o)
  }

  /** The follow (or mute) edges counted one after the other. */
  function Limits(edges: seq<Edge>, isFollow: bool): seq<Limit> {
    if edges == [] then []
    else
      var init, last := Limits(edges[..|edges| - 1], isFollow), edges[|edges| - 1];
      if last.isFollow == isFollow then Bump(init, last.owner) else init
  }

  lemma LimitsSnoc(edges: seq<Edge>, e: Edge, isFollow: bool)
    ensures Limits(edges + [e], isFollow) ==
            if e.isFollow == isFollow then Bump(Limits(edges, isFollow), e.owner) else Limits(edges, isFollow)
  {
    assert (edges + [e])[..|edges|] == edges;
  }

  function Total(limits: seq<Limit>): nat {
    if limits == [] then 0 else limits[0].limit + Total(limits[1..])
  }

  ghost predicate OneEach(limits: seq<Limit>) {
    forall i, j :: 0 <= i < j < |limits| ==> limits[i].owner != limits[j].owner
  }

  lemma {:induction false} BumpCounts(limits: seq<Limit>, o: Id)
    ensures Total(Bump(limits, o)) == Total(limits) + 1
    ensures forall x :: LimitFor(Bump(limits, o), x) == LimitFor(limits, x) + if x == o then 1 else 0
    ensures forall l :: l in Bump(limits, o) ==> l.owner == o || l in limits
  {
    var r := Bump(limits, o);
    if limits != [] && limits[0].owner != o {
      BumpCounts(limits[1..], o);
      assert r[0] == limits[0] && r[1..] == Bump(limits[1..], o);
    } else if limits != [] {
      assert r[0] == Limit(o, limits[0].limit + 1) && r[1..] == limits[1..];
    } else {
      assert r[0] == Limit(o, 1) && r[1..] == [];
    }
  }

  lemma {:induction false} BumpKeepsOneEach(limits: seq<Limit>, o: Id)
    requires OneEach(limits)
    ensures OneEach(Bump(limits, o))
  {
    if limits != [] && limits[0].owner != o {
      forall i, j | 0 <= i < j < |limits[1..]| ensures limits[1..][i].owner != limits[1..][j].owner {
        assert limits[i + 1].owner != limits[j + 1].owner;
      }
      BumpKeepsOneEach(limits[1..], o);
      BumpCounts(limits[1..], o);
      var rest := Bump(limits[1..], o);
      forall j | 0 <= j < |rest| ensures rest[j].owner != limits[0].owner {
        assert rest[j] in rest;
        if rest[j].owner != o {
          var k :| 0 <= k < |limits[1..]| && limits[1..][k] == rest[j];
          assert limits[k + 1].owner != limits[0].owner;
        }
      }
    }
  }

  lemma {:induction false} LimitFound(limits: seq<Limit>, i: nat)
    requires OneEach(limits) && i < |limits|
    ensures LimitFor(limits, limits[i].owner) == limits[i].limit
  {
    if i > 0 {
      forall j, k | 0 <= j < k < |limits[1..]| ensures limits[1..][j].owner != limits[1..][k].owner {
        assert limits[j + 1].owner != limits[k + 1].owner;
      }
      LimitFound(limits[1..], i - 1);
    }
  }

  /** The counts are those of the chosen edges. */
  ghost predicate CountsOf(limits: seq<Limit>, edges: seq<Edge>, isFollow: bool) {
    OneEach(limits) && (forall o :: LimitFor(limits, o) == |Kept(edges, o, isFollow)|) &&
    forall l :: l in limits ==> l.limit > 0 && OwnsOne(edges, l.owner)
  }

  ghost predicate OwnsOne(edges: seq<Edge>, o: Id) {
    exists i :: 0 <= i < |edges| && edges[i].owner == o
  }

  lemma CountOneMore(limits: seq<Limit>, edges: seq<Edge>, e: Edge, isFollow: bool)
    requires CountsOf(limits, edges, isFollow)
    ensures CountsOf(if e.isFollow == isFollow then Bump(limits, e.owner) else limits, edges + [e], isFollow)
  {
    var limits' := if e.isFollow == isFollow then Bump(limits, e.owner) else limits;
    BumpKeepsOneEach(limits, e.owner);
    BumpIsPositive(limits, e.owner);
    forall o ensures LimitFor(limits', o) == |Kept(edges + [e], o, isFollow)| {
      BumpCounts(limits, e.owner);
      KeptOneMore(edges, e, o, isFollow);
    }
    forall l | l in limits' ensures l.limit > 0 && OwnsOne(edges + [e], l.owner) {
      BumpCounts(limits, e.owner);
      OwnsOneMore(edges, e, l.owner);
    }
  }

  lemma KeptOneMore(edges: seq<Edge>, e: Edge, o: Id, isFollow: bool)
    ensures |Kept(edges + [e], o, isFollow)| ==
            |Kept(edges, o, isFollow)| + if e.owner == o && e.isFollow == isFollow then 1 else 0
  {
    assert (edges + [e])[..|edges|] == edges;
  }

  lemma {:induction false} BumpIsPositive(limits: seq<Limit>, o: Id)
    requires forall l :: l in limits ==> l.limit > 0
    ensures forall l :: l in Bump(limits, o) ==> l.limit > 0
  {
    if limits != [] && limits[0].owner != o { BumpIsPositive(limits[1..], o); }
  }

  lemma OwnsOneMore(edges: seq<Edge>, e: Edge, o: Id)
    requires OwnsOne(edges, o) || e.owner == o
    ensures OwnsOne(edges + [e], o)
  {
    if e.owner == o {
      assert (edges + [e])[|edges|].owner == o;
    } else {
      var i :| 0 <= i < |edges| && edges[i].owner == o;
      assert (edges + [e])[i].owner == o;
    }
  }

  predicate Known(e: Edge, names: map<Id, Str>) {
    e.owner in names && e.target in names
  }

  ghost predicate Touches(edges: seq<Edge>, u: Id) {
    exists i :: 0 <= i < |edges| && (edges[i].owner == u || edges[i].target == u)
  }

  /** The ids are those of the edges' ends, and no others. */
  ghost predicate Covers(used: seq<Id>, edges: seq<Edge>) {
    && (forall i :: 0 <= i < |edges| ==> edges[i].owner in used && edges[i].target in used)
    && forall u :: u in used ==> Touches(edges, u)
  }

  /** A plan that counts exactly the chosen edges, and has the ids of their ends. */
  ghost predicate PlanOf(p: Plan, chosen: seq<Edge>) {
    && CountsOf(p.follows, chosen, true) && CountsOf(p.mutes, chosen, false)
    && Covers(p.usedIds, chosen) && Distinct(p.usedIds)
    && Total(p.follows) + Total(p.mutes) == |chosen|
    && p.follows == Limits(chosen, true) && p.mutes == Limits(chosen, false)
  }

  /** The plan with one more edge. */
  function Take(p: Plan, e: Edge): Plan {
    Plan(Include(Include(p.usedIds, e.owner), e.target),
         if e.isFollow then Bump(p.follows, e.owner) else p.follows,
         if e.isFollow then p.mutes else Bump(p.mutes, e.owner))
  }

  lemma IncludeOne(used: seq<Id>, x: Id)
    requires Distinct(used)
    ensures Distinct(Include(used, x)) && x in Include(used, x)
    ensures |Include(used, x)| == |used| + if x in used then 0 else 1
    ensures forall y :: y in Include(used, x) <==> y in used || y == x
  {
  }

  lemma EndsMore(used: seq<Id>, used': seq<Id>, chosen: seq<Edge>, e: Edge)
    requires Covers(used, chosen) && forall y :: y in used || y == e.owner || y == e.target ==> y in used'
    ensures forall i :: 0 <= i < |chosen + [e]| ==>
              (chosen + [e])[i].owner in used' && (chosen + [e])[i].target in used'
  {
  }

  lemma TouchMore(chosen: seq<Edge>, e: Edge, u: Id)
    requires Touches(chosen, u) || u == e.owner || u == e.target
    ensures Touches(chosen + [e], u)
  {
    if Touches(chosen, u) {
      var i :| 0 <= i < |chosen| && (chosen[i].owner == u || chosen[i].target == u);
      assert (chosen + [e])[i] == chosen[i];
    } else {
      assert (chosen + [e])[|chosen|] == e;
    }
  }

  lemma CoverOne(used: seq<Id>, chosen: seq<Edge>, e: Edge)
    requires Covers(used, chosen) && Distinct(used)
    ensures (var used' := Include(Include(used, e.owner), e.target);
             && Covers(used', chosen + [e]) && Distinct(used')
             && |used'| <= |used| + NewNodes(used, e))
  {
    IncludeOne(used, e.owner);
    IncludeOne(Include(used, e.owner), e.target);
    var used' := Include(Include(used, e.owner), e.target);
    EndsMore(used, used', chosen, e);
    forall u | u in used' ensures Touches(chosen + [e], u) {
      TouchMore(chosen, e, u);
    }
  }

  lemma TakeOne(p: Plan, chosen: seq<Edge>, e: Edge)
    requires PlanOf(p, chosen)
    ensures PlanOf(Take(p, e), chosen + [e])
    ensures |Take(p, e).usedIds| <= |p.usedIds| + NewNodes(p.usedIds, e)
  {
    CountOneMore(p.follows, chosen, e, true);
    CountOneMore(p.mutes, chosen, e, false);
    TotalOne(p.follows, p.mutes, e);
    LimitsSnoc(chosen, e, true);
    LimitsSnoc(chosen, e, false);
    CoverOne(p.usedIds, chosen, e);
  }

  lemma TotalOne(follows: seq<Limit>, mutes: seq<Limit>, e: Edge)
    ensures (Total(if e.isFollow then Bump(follows, e.owner) else follows) +
             Total(if e.isFollow then mutes else Bump(mutes, e.owner)) ==
             Total(follows) + Total(mutes) + 1)
  {
    BumpCounts(follows, e.owner);
    BumpCounts(mutes, e.owner);
  }

  ghost predicate AllEdgesKnown(edges: seq<Edge>, names: map<Id, Str>) {
    forall i :: 0 <= i < |edges| ==> Known(edges[i], names)
  }

  /** The edges that are not passed over. */
  function KnownOnly(edges: seq<Edge>, names: map<Id, Str>): (r: seq<Edge>)
    ensures forall e :: e in r ==> e in edges && Known(e, names)
    ensures AllEdgesKnown(edges, names) ==> r == edges
  {
    if edges == [] then []
    else
      var rest := KnownOnly(edges[..|edges| - 1], names);
      if Known(edges[|edges| - 1], names) then rest + [edges[|edges| - 1]] else rest
  }

  function NewNodes(used: seq<Id>, e: Edge): nat {
    (if e.owner in used then 0 else 1) + (if e.target in used then 0 else 1)
  }

  /** The first n edges were gone through, and the next does not fit the limits. */
  ghost predicate StopsAt(p: Plan, chosen: seq<Edge>, edges: seq<Edge>, n: nat, budget: Budget, names: map<Id, Str>) {
    && n <= |edges| && chosen == KnownOnly(edges[..n], names)
    && (n < |edges| && !AtLimit(|chosen|, budget.maxEdges) ==>
          && Known(edges[n], names)
          && budget.maxNodes.Some? && budget.maxNodes.value > 0
          && |p.usedIds| + (if edges[n].owner in p.usedIds then 0 else 1)
             + (if edges[n].target in p.usedIds then 0 else 1) > budget.maxNodes.value)
  }

  /** The second half of planBudget: edges are taken in order until a limit is reached; those with
      an unknown id are passed over. `chosen` are the edges taken. */
  method ChooseEdges(edges: seq<Edge>, budget: Budget, names: map<Id, Str>)
    returns (p: Plan, ghost chosen: seq<Edge>, ghost n: nat)
    ensures PlanOf(p, chosen) && StopsAt(p, chosen, edges, n, budget, names)
    ensures Obeys(|p.usedIds|, budget.maxNodes) && Obeys(|chosen|, budget.maxEdges)
  {
    p, chosen, n := Plan([], [], []), [], 0;
    var edgeCount := 0;
    for i := 0 to |edges|
      invariant PlanOf(p, chosen) && edgeCount == |chosen| && n == i
      invariant Obeys(|p.usedIds|, budget.maxNodes) && Obeys(edgeCount, budget.maxEdges)
      invariant chosen == KnownOnly(edges[..i], names)
    {
      var edge := edges[i];
      if !Below(edgeCount, budget.maxEdges) {
        Stopped(p, chosen, edges, n, budget, names);
        return;
      }
      KnownOneMore(edges, i, names);
      if Known(edge, names) {
        var fits;
        p, fits, chosen := TakeIfItFits(p, edge, budget, chosen);
        if !fits {
          Stopped(p, chosen, edges, n, budget, names);
          return;
        }
        edgeCount := edgeCount + 1;
      }
      n := n + 1;
    }
  }

  lemma Stopped(p: Plan, chosen: seq<Edge>, edges: seq<Edge>, n: nat, budget: Budget, names: map<Id, Str>)
    requires n < |edges| && chosen == KnownOnly(edges[..n], names) && Obeys(|chosen|, budget.maxEdges)
    requires || !Below(|chosen|, budget.maxEdges)
             || (Known(edges[n], names) && !Obeys(|p.usedIds| + NewNodes(p.usedIds, edges[n]), budget.maxNodes))
    ensures StopsAt(p, chosen, edges, n, budget, names)
  {
  }

  lemma KnownOneMore(edges: seq<Edge>, i: nat, names: map<Id, Str>)
    requires i < |edges|
    ensures KnownOnly(edges[..i + 1], names) ==
            KnownOnly(edges[..i], names) + if Known(edges[i], names) then [edges[i]] else []
  {
    assert edges[..i + 1][..i] == edges[..i];
  }

  /** One known edge: it is added to the plan unless it needs too many new nodes. */
  method TakeIfItFits(p: Plan, edge: Edge, budget: Budget, ghost chosen: seq<Edge>)
    returns (p': Plan, fits: bool, ghost chosen': seq<Edge>)
    requires PlanOf(p, chosen) && Obeys(|p.usedIds|, budget.maxNodes)
    ensures PlanOf(p', chosen') && Obeys(|p'.usedIds|, budget.maxNodes)
    ensures fits <==> Obeys(|p.usedIds| + NewNodes(p.usedIds, edge), budget.maxNodes)
    ensures if fits then chosen' == chosen + [edge] else p' == p && chosen' == chosen
  {
    p', fits, chosen' := p, true, chosen;
    if budget.maxNodes.Some? && budget.maxNodes.value > 0 {
      var newNodesCount := NewNodes(p.usedIds, edge);
      fits := |p.usedIds| + newNodesCount <= budget.maxNodes.value;
    }
    if fits {
      TakeOne(p, chosen, edge);
      p', chosen' := Take(p, edge), chosen + [edge];
    }
  }

  /** What the encoder writes for a plan stays within the id block. */
  ghost predicate EmittedAreUsed(limits: seq<Limit>, adj: Ordered, used: seq<Id>)
    requires WithinSets(limits, adj)
  {
    forall i, t :: 0 <= i < |limits| && t in TargetsOf(adj, limits[i].owner)[..limits[i].limit] ==>
          limits[i].owner in used && t in used
  }

  lemma ChosenAreEmitted(limits: seq<Limit>, adj: Ordered, edges: seq<Edge>, n: nat, isFollow: bool, used: seq<Id>)
    requires n <= |edges| && CountsOf(limits, edges[..n], isFollow) && Covers(used, edges[..n])
    requires forall o :: Kept(edges, o, isFollow) <= TargetsOf(adj, o)
    ensures WithinSets(limits, adj) && EmittedAreUsed(limits, adj, used)
  {
    forall i | 0 <= i < |limits|
      ensures limits[i].limit <= |TargetsOf(adj, limits[i].owner)|
      ensures TargetsOf(adj, limits[i].owner)[..limits[i].limit] == Kept(edges[..n], limits[i].owner, isFollow)
    {
      LimitFound(limits, i);
      KeptPrefix(edges, n, limits[i].owner, isFollow);
      assert Kept(edges, limits[i].owner, isFollow) <= TargetsOf(adj, limits[i].owner);
    }
    forall i, t | 0 <= i < |limits| && t in TargetsOf(adj, limits[i].owner)[..limits[i].limit]
      ensures limits[i].owner in used && t in used
    {
      assert Edge(limits[i].owner, t, isFollow) in edges[..n];
    }
  }

  /** Each list is a prefix of the owner's set and as long as announced, its owner and targets
      are in the id block, and no owner exceeds the limit per node. */
  ghost predicate SoundPlan(p: Plan, followed: Ordered, muted: Ordered, perNode: Option<nat>) {
    && WithinSets(p.follows, followed) && WithinSets(p.mutes, muted)
    && EmittedAreUsed(p.follows, followed, p.usedIds) && EmittedAreUsed(p.mutes, muted, p.usedIds)
    && forall o :: Obeys(LimitFor(p.follows, o) + LimitFor(p.mutes, o), perNode)
  }

  /** The edges chosen of one owner are the first of its sets. */
  ghost predicate Prefixes(chosen: seq<Edge>, followed: Ordered, muted: Ordered) {
    forall o :: Kept(chosen, o, true) <= TargetsOf(followed, o) && Kept(chosen, o, false) <= TargetsOf(muted, o)
  }

  ghost predicate NearLimits(limits: seq<Limit>, buckets: Ordered, maxDistance: Option<int>) {
    forall l :: l in limits ==> NearOwner(buckets, maxDistance, l.owner)
  }

  /** A recalculation leaves every user in one bucket. */
  lemma RecalculatedBucketsAreDisjoint(buckets: Ordered, m: Index, dist: map<Id, nat>)
    requires Enumerates(buckets, m) && Inverse(m, dist)
    ensures DisjointBuckets(buckets)
  {
    forall i, j, u | 0 <= i < j < |buckets| && u in buckets[i].targets ensures u !in buckets[j].targets {
      assert u in ToSet(buckets[i].targets) && Linked(m, buckets[i].owner, u);
      if u in buckets[j].targets { assert u in ToSet(buckets[j].targets) && Linked(m, buckets[j].owner, u); }
    }
  }

  /** planBudget takes the candidates in order until one does not fit. The limits on nodes, edges
      and distance hold always; the plan is sound when no user is in two buckets and every id is
      known. */
  method PlanBudget(buckets: Ordered, followed: Ordered, muted: Ordered, names: map<Id, Str>, budget: Budget)
    returns (p: Plan, ghost chosen: seq<Edge>, ghost n: nat)
    ensures PlanOf(p, chosen) && StopsAt(p, chosen, Candidates(buckets, followed, muted, budget), n, budget, names)
    ensures Obeys(|p.usedIds|, budget.maxNodes) && Distinct(p.usedIds)
    ensures Obeys(Total(p.follows) + Total(p.mutes), budget.maxEdges)
    ensures NearLimits(p.follows, buckets, budget.maxDistance) && NearLimits(p.mutes, buckets, budget.maxDistance)
    ensures DisjointBuckets(buckets) && AllKnown(followed, muted, buckets, names) ==>
              SoundPlan(p, followed, muted, budget.maxEdgesPerNode) && Prefixes(chosen, followed, muted)
  {
    var edges := CollectEdges(buckets, followed, muted, budget);
    p, chosen, n := ChooseEdges(edges, budget, names);
    forall i | 0 <= i < |edges| ensures NearOwner(buckets, budget.maxDistance, edges[i].owner) {
      CandidatesAreNear(buckets, followed, muted, budget, edges[i]);
    }
    OwnersAreNear(p.follows, edges, chosen, true, buckets, budget.maxDistance);
    OwnersAreNear(p.mutes, edges, chosen, false, buckets, budget.maxDistance);
    if DisjointBuckets(buckets) && AllKnown(followed, muted, buckets, names) {
      ghost var seen := CandidatesAreCollected(buckets, followed, muted, budget);
      EdgesAreKnown(edges, seen, followed, muted, buckets, budget, names);
      assert AllEdgesKnown(edges[..n], names);
      PlanIsSound(p, edges, n, seen, followed, muted, budget.maxEdgesPerNode);
      assert chosen == edges[..n];
    }
  }

  lemma OwnersAreNear(limits: seq<Limit>, edges: seq<Edge>, chosen: seq<Edge>, isFollow: bool, buckets: Ordered,
                      maxDistance: Option<int>)
    requires CountsOf(limits, chosen, isFollow) && NearEdges(edges, buckets, maxDistance)
    requires forall e :: e in chosen ==> e in edges
    ensures NearLimits(limits, buckets, maxDistance)
  {
    forall l | l in limits ensures NearOwner(buckets, maxDistance, l.owner) {
      assert OwnsOne(chosen, l.owner);
      var i :| 0 <= i < |chosen| && chosen[i].owner == l.owner;
      assert chosen[i] in edges;
    }
  }

  /** str() finds a name for every user in a bucket and every target of a list. */
  ghost predicate AllKnown(followed: Ordered, muted: Ordered, buckets: Ordered, names: map<Id, Str>) {
    && (forall i, u :: 0 <= i < |buckets| && u in buckets[i].targets ==> u in names)
    && (forall o, t :: t in TargetsOf(followed, o) ==> t in names)
    && (forall o, t :: t in TargetsOf(muted, o) ==> t in names)
  }

  lemma {:induction false} EdgeIsKept(edges: seq<Edge>, i: nat)
    requires i < |edges|
    ensures edges[i].target in Kept(edges, edges[i].owner, edges[i].isFollow)
    decreases |edges|
  {
    if i < |edges| - 1 { EdgeIsKept(edges[..|edges| - 1], i); }
  }

  lemma EdgesAreKnown(edges: seq<Edge>, seen: set<Id>, followed: Ordered, muted: Ordered, buckets: Ordered,
                      budget: Budget, names: map<Id, Str>)
    requires Collected(edges, seen, followed, muted, budget.maxEdgesPerNode)
    requires NearEdges(edges, buckets, budget.maxDistance)
    requires AllKnown(followed, muted, buckets, names)
    ensures AllEdgesKnown(edges, names)
  {
    forall i | 0 <= i < |edges| ensures Known(edges[i], names) {
      var e := edges[i];
      EdgeIsKept(edges, i);
      assert CollectedFor(edges, seen, followed, muted, budget.maxEdgesPerNode, e.owner);
      assert NearOwner(buckets, budget.maxDistance, e.owner);
      assert e.target in if e.isFollow then TargetsOf(followed, e.owner) else TargetsOf(muted, e.owner);
    }
  }

  lemma PlanIsSound(p: Plan, edges: seq<Edge>, n: nat, seen: set<Id>, followed: Ordered, muted: Ordered,
                    perNode: Option<nat>)
    requires Collected(edges, seen, followed, muted, perNode) && n <= |edges|
    requires PlanOf(p, edges[..n])
    ensures SoundPlan(p, followed, muted, perNode) && Prefixes(edges[..n], followed, muted)
  {
    forall o
      ensures Kept(edges, o, true) <= TargetsOf(followed, o) && Kept(edges, o, false) <= TargetsOf(muted, o)
      ensures Kept(edges[..n], o, true) <= TargetsOf(followed, o) && Kept(edges[..n], o, false) <= TargetsOf(muted, o)
      ensures Obeys(LimitFor(p.follows, o) + LimitFor(p.mutes, o), perNode)
    {
      assert CollectedFor(edges, seen, followed, muted, perNode, o);
      KeptPrefix(edges, n, o, true);
      KeptPrefix(edges, n, o, false);
    }
    ChosenAreEmitted(p.follows, followed, edges, n, true, p.usedIds);
    ChosenAreEmitted(p.mutes, muted, edges, n, false, p.usedIds);
  }
}
