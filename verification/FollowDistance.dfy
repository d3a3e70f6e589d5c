/** Breadth-first follow distances, computed in batches. */
module FollowDistance {
  import opened UniqueIds

  /** A map of sets, as the graph keeps them: an absent entry is an empty set. */
  type Index = map<Id, set<Id>>

  predicate Linked(m: Index, a: Id, b: Id) {
    a in m && b in m[a]
  }

  function Outs(m: Index, a: Id): set<Id> {
    if a in m then m[a] else {}
  }

  function AddEdge(m: Index, a: Id, b: Id): Index {
    m[a := Outs(m, a) + {b}]
  }

  /** A missing entry stays missing. */
  function DropEdge(m: Index, a: Id, b: Id): Index {
    if a in m then m[a := m[a] - {b}] else m
  }

  lemma AddEdgeLinks(m: Index, a: Id, b: Id)
    ensures forall x, y :: Linked(AddEdge(m, a, b), x, y) <==> Linked(m, x, y) || (x == a && y == b)
  {
  }

  lemma DropEdgeLinks(m: Index, a: Id, b: Id)
    ensures forall x, y :: Linked(DropEdge(m, a, b), x, y) <==> Linked(m, x, y) && !(x == a && y == b)
  {
  }

  /** There is a chain of n follows from root to v. */
  ghost predicate Walk(m: Index, root: Id, v: Id, n: nat)
    decreases n
  {
    if n == 0 then v == root else exists u :: Walk(m, root, u, n - 1) && Linked(m, u, v)
  }

  ghost predicate ShortestIs(m: Index, root: Id, v: Id, d: nat) {
    Walk(m, root, v, d) && forall n: nat :: n < d ==> !Walk(m, root, v, n)
  }

  /** Exactly the reachable users have a distance, and it is that of a shortest chain. */
  ghost predicate ExactDistances(m: Index, root: Id, dist: map<Id, nat>) {
    && (forall v :: v in dist ==> ShortestIs(m, root, v, dist[v]))
    && (forall v, n: nat :: Walk(m, root, v, n) ==> v in dist)
  }

  /** There is only one such assignment, so the batch size cannot show in the result. */
  lemma ExactDistancesAreUnique(m: Index, root: Id, dist: map<Id, nat>, dist': map<Id, nat>)
    requires ExactDistances(m, root, dist) && ExactDistances(m, root, dist')
    ensures dist == dist'
  {
    forall v | v in dist ensures v in dist' && dist'[v] == dist[v] {
      assert ShortestIs(m, root, v, dist[v]);
      assert ShortestIs(m, root, v, dist'[v]);
    }
    forall v | v in dist' ensures v in dist {
      assert ShortestIs(m, root, v, dist'[v]);
    }
  }

  /** The buckets hold each user at its distance, and nothing else. */
  ghost predicate Inverse(buckets: Index, dist: map<Id, nat>) {
    forall d, v :: Linked(buckets, d, v) <==> (v in dist && dist[v] == d)
  }

  // ---------------------------------------------------------------- the search

  function Elems(queue: seq<Id>): set<Id> {
    if queue == [] then {} else Elems(queue[..|queue| - 1]) + {queue[|queue| - 1]}
  }

  lemma ElemsSnoc(queue: seq<Id>, v: Id)
    ensures Elems(queue + [v]) == Elems(queue) + {v}
  {
    assert (queue + [v])[..|queue|] == queue;
  }

  lemma {:induction false} ElemAt(queue: seq<Id>, v: Id) returns (i: nat)
    requires v in Elems(queue)
    ensures i < |queue| && queue[i] == v
  {
    i := |queue| - 1;
    if queue[i] != v { i := ElemAt(queue[..i], v); }
  }

  /** The queue lists the users that have a distance, once each, nearest first. */
  ghost predicate Ordered(dist: map<Id, nat>, queue: seq<Id>) {
    && (forall i :: 0 <= i < |queue| ==> queue[i] in dist)
    && dist.Keys == Elems(queue)
    && (forall i, j :: 0 <= i < j < |queue| ==> queue[i] != queue[j] && dist[queue[i]] <= dist[queue[j]])
  }

  ghost predicate Expanded(m: Index, dist: map<Id, nat>, u: Id) {
    u in dist && forall v :: v in Outs(m, u) ==> v in dist && dist[v] <= dist[u] + 1
  }

  ghost predicate Justified(m: Index, root: Id, dist: map<Id, nat>) {
    root in dist && dist[root] == 0 && forall v :: v in dist ==> Walk(m, root, v, dist[v])
  }

  /** Nothing waiting is more than one step beyond the user about to be processed. */
  ghost predicate Narrow(dist: map<Id, nat>, queue: seq<Id>, head: nat)
    requires Ordered(dist, queue)
  {
    head < |queue| ==> dist[queue[|queue| - 1]] <= dist[queue[head]] + 1
  }

  ghost predicate AllExpanded(m: Index, dist: map<Id, nat>, queue: seq<Id>, head: nat)
    requires head <= |queue|
  {
    forall i :: 0 <= i < head ==> Expanded(m, dist, queue[i])
  }

  ghost predicate Searching(m: Index, root: Id, dist: map<Id, nat>, buckets: Index, queue: seq<Id>, head: nat) {
    && head <= |queue|
    && Ordered(dist, queue) && Narrow(dist, queue, head) && Inverse(buckets, dist)
    && Justified(m, root, dist) && AllExpanded(m, dist, queue, head)
  }

  lemma SearchStarts(m: Index, root: Id)
    ensures Searching(m, root, map[root := 0], map[0 := {root}], [root], 0)
  {
    var dist: map<Id, nat>, buckets: Index, queue := map[root := 0], map[0 := {root}], [root];
    assert Ordered(dist, queue) by {
      ElemsSnoc([], root);
      assert [] + [root] == queue && dist.Keys == {root};
    }
    forall d, v ensures Linked(buckets, d, v) <==> v in dist && dist[v] == d {
      assert Linked(buckets, d, v) <==> d == 0 && v == root;
    }
    assert Inverse(buckets, dist);
    assert Walk(m, root, root, 0);
    assert Justified(m, root, dist);
  }

  /** A user found from the head of the queue. */
  lemma FoundUser(m: Index, root: Id, dist: map<Id, nat>, buckets: Index, queue: seq<Id>, head: nat, v: Id)
    requires Searching(m, root, dist, buckets, queue, head) && head < |queue|
    requires v !in dist && v in Outs(m, queue[head])
    ensures (var nd := dist[queue[head]] + 1;
             Searching(m, root, dist[v := nd], buckets[nd := Outs(buckets, nd) + {v}], queue + [v], head))
  {
    var u := queue[head];
    var nd := dist[u] + 1;
    var dist' := dist[v := nd];
    assert Walk(m, root, u, dist[u]) && Linked(m, u, v);
    assert Walk(m, root, v, nd);
    QueueGrows(dist, queue, head, v, nd);
    BucketGrows(buckets, dist, v, nd);
    assert (queue + [v])[head] == u;
    forall i | 0 <= i < head ensures Expanded(m, dist', (queue + [v])[i]) {
      assert Expanded(m, dist, queue[i]);
    }
  }

  lemma QueueGrows(dist: map<Id, nat>, queue: seq<Id>, head: nat, v: Id, nd: nat)
    requires Ordered(dist, queue) && head < |queue| && Narrow(dist, queue, head)
    requires v !in dist && nd == dist[queue[head]] + 1
    ensures Ordered(dist[v := nd], queue + [v])
  {
    var dist', queue' := dist[v := nd], queue + [v];
    forall i, j | 0 <= i < j < |queue'| ensures queue'[i] != queue'[j] && dist'[queue'[i]] <= dist'[queue'[j]] {
      assert queue'[i] == queue[i];
      if j == |queue| {
        assert i < |queue| - 1 ==> dist[queue[i]] <= dist[queue[|queue| - 1]];
      } else {
        assert queue'[j] == queue[j];
      }
    }
    ElemsSnoc(queue, v);
    assert dist'.Keys == dist.Keys + {v};
  }

  lemma BucketGrows(buckets: Index, dist: map<Id, nat>, v: Id, nd: nat)
    requires Inverse(buckets, dist) && v !in dist
    ensures Inverse(buckets[nd := Outs(buckets, nd) + {v}], dist[v := nd])
  {
    var buckets', dist' := buckets[nd := Outs(buckets, nd) + {v}], dist[v := nd];
    forall d, x ensures Linked(buckets', d, x) <==> (x in dist' && dist'[x] == d) {
      assert Linked(buckets, d, x) <==> (x in dist && dist[x] == d);
    }
  }

  /** The head of the queue is done when everyone it follows has a distance. */
  lemma HeadDone(m: Index, root: Id, dist: map<Id, nat>, buckets: Index, queue: seq<Id>, head: nat)
    requires Searching(m, root, dist, buckets, queue, head) && head < |queue|
    requires forall v :: v in Outs(m, queue[head]) ==> v in dist
    ensures Searching(m, root, dist, buckets, queue, head + 1)
  {
    var u := queue[head];
    forall v | v in Outs(m, u) ensures dist[v] <= dist[u] + 1 {
      var i := ElemAt(queue, v);
      assert i < |queue| - 1 ==> dist[queue[i]] <= dist[queue[|queue| - 1]];
    }
    assert head + 1 < |queue| ==> dist[u] <= dist[queue[head + 1]];
  }

  /** Once the queue is used up, every chain ends at a user with a distance no longer than it. */
  lemma {:induction false} SearchIsComplete(m: Index, root: Id, dist: map<Id, nat>, buckets: Index, queue: seq<Id>,
                                            v: Id, n: nat)
    requires Searching(m, root, dist, buckets, queue, |queue|) && Walk(m, root, v, n)
    ensures v in dist && dist[v] <= n
    decreases n
  {
    if n > 0 {
      var u :| Walk(m, root, u, n - 1) && Linked(m, u, v);
      SearchIsComplete(m, root, dist, buckets, queue, u, n - 1);
      var i := ElemAt(queue, u);
      assert Expanded(m, dist, queue[i]);
    }
  }

  lemma SearchIsExact(m: Index, root: Id, dist: map<Id, nat>, buckets: Index, queue: seq<Id>)
    requires Searching(m, root, dist, buckets, queue, |queue|)
    ensures ExactDistances(m, root, dist)
  {
    forall v, n: nat | Walk(m, root, v, n) ensures v in dist && dist[v] <= n {
      SearchIsComplete(m, root, dist, buckets, queue, v, n);
    }
  }

  // ---------------------------------------------------------------- recalculation

  /** The part of the graph that the recalculation reads and replaces. */
  class Distances {
    const root: Id
    const followedByUser: Index
    var followDistanceByUser: map<Id, nat>
    var usersByFollowDistance: Index

    constructor (root: Id, followedByUser: Index)
      ensures this.root == root && this.followedByUser == followedByUser
    {
      this.root, this.followedByUser := root, followedByUser;
      followDistanceByUser, usersByFollowDistance := map[], map[];
    }

    ghost predicate Inv(queue: seq<Id>, head: nat)
      reads this
    {
      Searching(followedByUser, root, followDistanceByUser, usersByFollowDistance, queue, head)
    }

    /** Everyone who can ever be queued. */
    ghost function Known(): set<Id> {
      {root} + set u, v | u in followedByUser && v in followedByUser[u] :: v
    }

    /** Whoever has a distance follows from a list. */
    lemma QueueIsKnown(queue: seq<Id>, head: nat, i: nat)
      requires Inv(queue, head) && i < |queue|
      ensures queue[i] in Known()
    {
      var v := queue[i];
      assert Walk(followedByUser, root, v, followDistanceByUser[v]);
    }

    /** recalculateFollowDistances, with nothing else running between batches. */
    method Recalculate(batchSize: nat)
      requires batchSize >= 1
      modifies this
      ensures ExactDistances(followedByUser, root, followDistanceByUser)
      ensures Inverse(usersByFollowDistance, followDistanceByUser)
    {
      followDistanceByUser, usersByFollowDistance := map[root := 0], map[0 := {root}];
      var queue, head := [root], 0;
      SearchStarts(followedByUser, root);
      ghost var done: set<Id> := {};
      while head < |queue|
        invariant Inv(queue, head)
        invariant done == set i | 0 <= i < head :: queue[i]
        decreases Known() - done
      {
        ghost var before := done;
        ghost var u := queue[head];
        QueueIsKnown(queue, head, head);
        queue, head := Pump(queue, head, batchSize);
        done := set i | 0 <= i < head :: queue[i];
        assert u in done && u in Known() && u !in before;
      }
      SearchIsExact(followedByUser, root, followDistanceByUser, usersByFollowDistance, queue);
    }

    /** One batch. */
    method Pump(queue: seq<Id>, head: nat, batchSize: nat) returns (queue': seq<Id>, head': nat)
      requires batchSize >= 1 && head < |queue| && Inv(queue, head)
      modifies this
      ensures Inv(queue', head')
      ensures head < head' && queue <= queue'
    {
      queue', head' := queue, head;
      var end := if head + batchSize <= |queue| then head + batchSize else |queue|;
      while head' < end
        invariant head <= head' <= end <= |queue'| && queue <= queue'
        invariant Inv(queue', head')
      {
        queue' := Expand(queue', head');
        head' := head' + 1;
      }
    }

    /** Finds the users followed by the head of the queue, in the order of its set. */
    method Expand(queue: seq<Id>, head: nat) returns (queue': seq<Id>)
      requires head < |queue| && Inv(queue, head)
      modifies this
      ensures Inv(queue', head + 1) && queue <= queue'
    {
      queue' := queue;
      var outs := Outs(followedByUser, queue[head]);
      var todo := outs;
      while todo != {}
        invariant todo <= outs && queue <= queue'
        invariant Inv(queue', head)
        invariant outs - todo <= followDistanceByUser.Keys
        decreases todo
      {
        var v :| v in todo;
        todo := todo - {v};
        queue' := Find(queue', head, v);
      }
      HeadDone(followedByUser, root, followDistanceByUser, usersByFollowDistance, queue', head);
    }

    /** Gives v the next distance and queues it, unless it has one. */
    method Find(queue: seq<Id>, head: nat, v: Id) returns (queue': seq<Id>)
      requires head < |queue| && Inv(queue, head)
      requires v in Outs(followedByUser, queue[head])
      modifies this
      ensures Inv(queue', head) && queue <= queue'
      ensures followDistanceByUser.Keys == old(followDistanceByUser.Keys) + {v}
    {
      if v in followDistanceByUser { return queue; }
      var nd := followDistanceByUser[queue[head]] + 1;
      FoundUser(followedByUser, root, followDistanceByUser, usersByFollowDistance, queue, head, v);
      followDistanceByUser := followDistanceByUser[v := nd];
      var bucket := if nd in usersByFollowDistance then usersByFollowDistance[nd] else {};
      assert bucket == Outs(usersByFollowDistance, nd);
      usersByFollowDistance := usersByFollowDistance[nd := bucket + {v}];
      queue' := queue + [v];
    }
  }
}
