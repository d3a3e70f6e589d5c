/** The depth-first block walk (walkBlocks, verifyTree) and the parallel pull over one store.
    A block's links are a function of its hash: every link to a block carries the same key. */
module Walk {

  type Hash = nat

  /** Stored blocks and the hashes their tree nodes link to (none for a blob). */
  type Store = map<Hash, seq<Hash>>

  ghost predicate Path(store: Store, p: seq<Hash>) {
    p != [] && forall i :: 0 <= i < |p| - 1 ==> p[i] in store && p[i + 1] in store[p[i]]
  }

  ghost predicate Reachable(store: Store, root: Hash, h: Hash) {
    exists p :: Path(store, p) && p[0] == root && p[|p| - 1] == h
  }

  lemma ReachableRoot(store: Store, root: Hash)
    ensures Reachable(store, root, root)
  {
    assert Path(store, [root]);
  }

  lemma ReachableStep(store: Store, root: Hash, h: Hash, k: Hash)
    requires Reachable(store, root, h) && h in store && k in store[h]
    ensures Reachable(store, root, k)
  {
    var p :| Path(store, p) && p[0] == root && p[|p| - 1] == h;
    assert Path(store, p + [k]);
  }

  ghost predicate LinksIn(store: Store, h: Hash, s: set<Hash>) {
    h in store ==> forall k :: k in store[h] ==> k in s
  }

  /** Closed under the links of stored members. */
  ghost predicate Closed(store: Store, s: set<Hash>) {
    forall h :: h in s ==> LinksIn(store, h, s)
  }

  lemma {:induction false} ClosedContainsPath(store: Store, s: set<Hash>, p: seq<Hash>)
    requires Closed(store, s) && Path(store, p) && p[0] in s
    ensures p[|p| - 1] in s
  {
    if |p| > 1 {
      assert p[0] in store && p[0 + 1] in store[p[0]];
      assert Path(store, p[1..]);
      ClosedContainsPath(store, s, p[1..]);
    }
  }

  lemma ClosedIsReachable(store: Store, s: set<Hash>, root: Hash)
    requires Closed(store, s) && root in s
    requires forall h :: h in s ==> Reachable(store, root, h)
    ensures forall h :: h in s <==> Reachable(store, root, h)
  {
    forall h | Reachable(store, root, h)
      ensures h in s
    {
      var p :| Path(store, p) && p[0] == root && p[|p| - 1] == h;
      ClosedContainsPath(store, s, p);
    }
  }

  /** The reachable blocks that are stored. */
  ghost function ReachableStored(store: Store, root: Hash): set<Hash> {
    set h | h in store.Keys && Reachable(store, root, h)
  }

  ghost predicate Distinct(s: seq<Hash>) {
    forall i, j :: 0 <= i < j < |s| ==> s[i] != s[j]
  }

  ghost function Elements(s: seq<Hash>): set<Hash> {
    set h | h in s
  }

  lemma ElementsSnoc(s: seq<Hash>, x: Hash)
    ensures Elements(s + [x]) == Elements(s) + {x}
    ensures forall i :: 0 <= i < |s| ==> s[i] in Elements(s)
  {
  }

  lemma {:induction false} DistinctCard(s: seq<Hash>)
    requires Distinct(s)
    ensures |Elements(s)| == |s|
  {
    if s != [] {
      var n := |s| - 1;
      DistinctCard(s[..n]);
      assert s == s[..n] + [s[n]];
      assert Elements(s) == Elements(s[..n]) + {s[n]};
    }
  }

  /** The shared state of one traversal. */
  class Traversal {
    const store: Store
    var visited: set<Hash>
    var yielded: seq<Hash>
    var missing: seq<Hash>

    constructor (store: Store)
      ensures this.store == store && visited == {} && yielded == [] && missing == []
    {
      this.store := store;
      visited, yielded, missing := {}, [], [];
    }

    /** Each visited hash is on one of the two lists, once. */
    ghost predicate Listed()
      reads this
    {
      && Distinct(yielded) && Distinct(missing)
      && Elements(yielded) == visited * store.Keys
      && Elements(missing) == visited - store.Keys
    }

    /** Everything visited since `before` has its links visited too. */
    ghost predicate ClosedSince(before: set<Hash>)
      reads this
    {
      forall x :: x in visited && x !in before ==> LinksIn(store, x, visited)
    }

    ghost predicate ReachedSince(before: set<Hash>, h: Hash)
      reads this
    {
      forall x :: x in visited && x !in before ==> Reachable(store, h, x)
    }

    /** The synchronous start of traverse: marks the hash and lists it. */
    method Visit(hash: Hash)
      requires Listed() && hash !in visited
      modifies this
      ensures Listed() && visited == old(visited) + {hash}
      ensures yielded == if hash in store then old(yielded) + [hash] else old(yielded)
      ensures missing == if hash in store then old(missing) else old(missing) + [hash]
    {
      ElementsSnoc(yielded, hash);
      ElementsSnoc(missing, hash);
      assert hash !in Elements(yielded) && hash !in Elements(missing);
      visited := visited + {hash};
      if hash in store {
        yielded := yielded + [hash];
      } else {
        missing := missing + [hash];
      }
    }

    /** traverse / check */
    method Traverse(hash: Hash)
      requires Listed()
      modifies this
      ensures Listed()
      ensures old(visited) <= visited && hash in visited
      ensures ReachedSince(old(visited), hash)
      ensures ClosedSince(old(visited))
      decreases |store.Keys - visited|
    {
      if hash in visited { return; }
      ghost var before := visited;
      Visit(hash);
      ReachableRoot(store, hash);
      if hash !in store { return; }
      SmallerSet(store.Keys - visited, store.Keys - before);
      var links := store[hash];
      for i := 0 to |links|
        invariant Listed() && before + {hash} <= visited
        invariant ReachedSince(before, hash) && ClosedSince(before + {hash})
        invariant forall j :: 0 <= j < i ==> links[j] in visited
      {
        ghost var mid := visited;
        SubsetCard(store.Keys - visited, store.Keys - (before + {hash}));
        Traverse(links[i]);
        forall x | x in visited && x !in mid
          ensures Reachable(store, hash, x)
        {
          ReachableVia(store, hash, links[i], x);
        }
      }
    }
  }

  lemma SmallerSet(a: set<Hash>, b: set<Hash>)
    requires a < b
    ensures |a| < |b|
  {
    var x :| x in b && x !in a;
    SubsetCard(a, b - {x});
  }

  lemma {:induction false} SubsetCard(a: set<Hash>, b: set<Hash>)
    requires a <= b
    ensures |a| <= |b|
  {
    if a != {} {
      var x :| x in a;
      SubsetCard(a - {x}, b - {x});
    }
  }

  lemma ReachableVia(store: Store, h: Hash, k: Hash, x: Hash)
    requires h in store && k in store[h] && Reachable(store, k, x)
    ensures Reachable(store, h, x)
  {
    var p :| Path(store, p) && p[0] == k && p[|p| - 1] == x;
    assert Path(store, [h] + p);
  }

  /** walkBlocks yields each reachable stored block exactly once. */
  method WalkBlocks(store: Store, root: Hash) returns (blocks: seq<Hash>)
    ensures Distinct(blocks) && Elements(blocks) == ReachableStored(store, root)
  {
    var t := new Traversal(store);
    t.Traverse(root);
    ClosedIsReachable(store, t.visited, root);
    blocks := t.yielded;
  }

  /** verifyTree: valid exactly when every reachable hash is stored; the missing are listed once. */
  method VerifyTree(store: Store, root: Hash) returns (valid: bool, missing: seq<Hash>)
    ensures valid <==> forall h :: Reachable(store, root, h) ==> h in store
    ensures Distinct(missing) && forall h :: h in Elements(missing) <==> Reachable(store, root, h) && h !in store
  {
    var t := new Traversal(store);
    t.Traverse(root);
    ClosedIsReachable(store, t.visited, root);
    missing := t.missing;
    valid := |missing| == 0;
    if valid {
      forall h | Reachable(store, root, h)
        ensures h in store
      {
        assert h !in Elements(missing);
      }
    } else {
      assert missing[0] in Elements(missing) && Reachable(store, root, missing[0]);
    }
  }

  /** pull: fetches run concurrently, so any started one may finish next. The count does not
      depend on the order. */
  method Pull(store: Store, root: Hash) returns (chunks: nat)
    ensures chunks == |ReachableStored(store, root)|
  {
    var visited, inFlight := {root}, {root};
    chunks := 0;
    ReachableRoot(store, root);
    ghost var done: set<Hash> := {};
    assert done * store.Keys == {};
    while inFlight != {}
      invariant done == visited - inFlight && inFlight <= visited
      invariant PullInv(store, root, visited, done)
      invariant chunks == |done * store.Keys|
      decreases |store.Keys - done|, |inFlight|
    {
      var hash :| hash in inFlight;
      CountOne(store, done, hash);
      var added: set<Hash> := {};
      if hash in store {
        chunks := chunks + 1;
        added := (set k | k in store[hash]) - visited;
      }
      PullStep(store, root, visited, done, hash, added);
      MoveOne(visited, inFlight, done, hash, added);
      visited, inFlight, done := visited + added, inFlight - {hash} + added, done + {hash};
    }
    ClosedIsReachable(store, visited, root);
    assert done * store.Keys == ReachableStored(store, root);
  }

  ghost predicate PullInv(store: Store, root: Hash, visited: set<Hash>, done: set<Hash>) {
    && root in visited
    && (forall h :: h in visited ==> Reachable(store, root, h))
    && (forall h :: h in done ==> LinksIn(store, h, visited))
  }

  lemma PullStep(store: Store, root: Hash, visited: set<Hash>, done: set<Hash>, hash: Hash, added: set<Hash>)
    requires PullInv(store, root, visited, done) && hash in visited
    requires added == if hash in store then (set k | k in store[hash]) - visited else {}
    ensures PullInv(store, root, visited + added, done + {hash})
  {
    forall k | k in added
      ensures Reachable(store, root, k)
    {
      ReachableStep(store, root, hash, k);
    }
  }

  lemma MoveOne(visited: set<Hash>, inFlight: set<Hash>, done: set<Hash>, hash: Hash, added: set<Hash>)
    requires done == visited - inFlight && inFlight <= visited && hash in inFlight && added !! visited
    ensures done + {hash} == (visited + added) - (inFlight - {hash} + added)
    ensures inFlight - {hash} + added <= visited + added
    ensures added == {} ==> |inFlight - {hash} + added| < |inFlight|
  {
    if added == {} { assert inFlight - {hash} + added == inFlight - {hash}; }
  }

  lemma CountOne(store: Store, done: set<Hash>, hash: Hash)
    requires hash !in done
    ensures |(done + {hash}) * store.Keys| == |done * store.Keys| + if hash in store then 1 else 0
    ensures hash in store ==> |store.Keys - (done + {hash})| < |store.Keys - done|
    ensures hash !in store ==> store.Keys - (done + {hash}) == store.Keys - done
  {
    if hash in store {
      assert (done + {hash}) * store.Keys == done * store.Keys + {hash};
      assert store.Keys - (done + {hash}) == (store.Keys - done) - {hash};
    } else {
      assert (done + {hash}) * store.Keys == done * store.Keys;
      assert store.Keys - (done + {hash}) == store.Keys - done;
    }
  }

  /** The progress total of push, taken from pull, is the number of blocks its walk yields. */
  method PullCountsTheWalk(store: Store, root: Hash) returns (blocks: seq<Hash>, chunks: nat)
    ensures Distinct(blocks) && Elements(blocks) == ReachableStored(store, root) && chunks == |blocks|
  {
    blocks := WalkBlocks(store, root);
    chunks := Pull(store, root);
    DistinctCard(blocks);
  }
}
