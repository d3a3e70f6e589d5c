/** Saving a whole social graph and loading it again. */
module GraphBinary {
  import opened Keys
  import opened Bytes
  import opened GraphFormat
  import opened Hex
  import opened GraphWriter
  import opened FollowDistance
  import opened FollowUpdates
  import opened SocialGraph
  import opened UniqueIds

  // ---------------------------------------------------------------- the plan without budgets

  ghost predicate DistinctOwners(adj: Ordered) {
    forall i, j :: 0 <= i < j < |adj| ==> adj[i].owner != adj[j].owner
  }

  /** `adj` is one iteration order of the index m. */
  ghost predicate Enumerates(adj: Ordered, m: Index) {
    && DistinctOwners(adj)
    && (forall i :: 0 <= i < |adj| ==>
          adj[i].owner in m && m[adj[i].owner] == ToSet(adj[i].targets) && Distinct(adj[i].targets))
    && (forall a :: a in m ==> HasOwner(adj, a))
  }

  ghost predicate HasOwner(adj: Ordered, a: Id) {
    exists i :: 0 <= i < |adj| && adj[i].owner == a
  }

  function ToSet(s: seq<Id>): set<Id> {
    set x | x in s
  }

  lemma {:induction false} TargetsFound(adj: Ordered, i: nat)
    requires DistinctOwners(adj) && i < |adj|
    ensures TargetsOf(adj, adj[i].owner) == adj[i].targets
  {
    if i > 0 {
      assert adj[0].owner != adj[i].owner;
      forall j, k | 0 <= j < k < |adj[1..]| ensures adj[1..][j].owner != adj[1..][k].owner {
        assert adj[j + 1].owner != adj[k + 1].owner;
      }
      TargetsFound(adj[1..], i - 1);
    }
  }

  /** All owners, each with all its targets. */
  ghost predicate Everything(limits: seq<Limit>, adj: Ordered) {
    |limits| == |adj| && forall i :: 0 <= i < |adj| ==> limits[i] == Limit(adj[i].owner, |adj[i].targets|)
  }

  lemma EverythingIsWithin(limits: seq<Limit>, adj: Ordered)
    requires Everything(limits, adj) && DistinctOwners(adj)
    ensures WithinSets(limits, adj)
  {
    forall i | 0 <= i < |limits| ensures limits[i].limit <= |TargetsOf(adj, limits[i].owner)| {
      TargetsFound(adj, i);
    }
  }

  ghost predicate Mentions(adj: Ordered, x: Id) {
    exists i :: 0 <= i < |adj| && (adj[i].owner == x || x in adj[i].targets)
  }

  method AddTargets(usedIds: seq<Id>, targets: seq<Id>) returns (used: seq<Id>)
    requires Distinct(usedIds)
    ensures Distinct(used) && forall x :: x in used <==> x in usedIds || x in targets
  {
    used := usedIds;
    for j := 0 to |targets|
      invariant Distinct(used) && forall x :: x in used <==> x in usedIds || x in targets[..j]
    {
      assert targets[..j + 1] == targets[..j] + [targets[j]];
      used := Include(used, targets[j]);
    }
    assert targets[..|targets|] == targets;
  }

  method PlanLists(usedIds: seq<Id>, adj: Ordered) returns (used: seq<Id>, limits: seq<Limit>)
    requires Distinct(usedIds)
    ensures Distinct(used) && forall x :: x in used <==> x in usedIds || Mentions(adj, x)
    ensures Everything(limits, adj)
  {
    used, limits := usedIds, [];
    for i := 0 to |adj|
      invariant Distinct(used) && forall x :: x in used <==> x in usedIds || Mentions(adj[..i], x)
      invariant Everything(limits, adj[..i])
    {
      ghost var before := used;
      used := Include(used, adj[i].owner);
      limits := limits + [Limit(adj[i].owner, |adj[i].targets|)];
      used := AddTargets(used, adj[i].targets);
      forall x
        ensures Mentions(adj[..i + 1], x) <==> Mentions(adj[..i], x) || x == adj[i].owner || x in adj[i].targets
      {
        MentionsSnoc(adj, i, x);
      }
    }
    assert adj[..|adj|] == adj;
  }

  lemma MentionsSnoc(adj: Ordered, i: nat, x: Id)
    requires i < |adj|
    ensures Mentions(adj[..i + 1], x) <==> Mentions(adj[..i], x) || x == adj[i].owner || x in adj[i].targets
  {
    if Mentions(adj[..i], x) {
      var j :| 0 <= j < i && (adj[..i][j].owner == x || x in adj[..i][j].targets);
      assert adj[..i + 1][j] == adj[..i][j];
    }
    assert adj[..i + 1][i] == adj[i];
    if Mentions(adj[..i + 1], x) {
      var j :| 0 <= j < i + 1 && (adj[..i + 1][j].owner == x || x in adj[..i + 1][j].targets);
      assert j < i ==> adj[..i][j] == adj[..i + 1][j];
    }
  }

  /** The plan that keeps everything. */
  ghost predicate KeepsAll(p: Plan, g: Source) {
    && DistinctOwners(g.followed) && DistinctOwners(g.muted)
    && Everything(p.follows, g.followed) && Everything(p.mutes, g.muted)
    && WithinSets(p.follows, g.followed) && WithinSets(p.mutes, g.muted)
    && Distinct(p.usedIds) && forall x :: x in p.usedIds <==> Mentions(g.followed, x) || Mentions(g.muted, x)
  }

  /** Without budgets everything is kept: all lists, and an id block of all users in them. */
  method PlanAll(g: Source) returns (p: Plan)
    requires DistinctOwners(g.followed) && DistinctOwners(g.muted)
    ensures KeepsAll(p, g)
  {
    var used, follows := PlanLists([], g.followed);
    var used', mutes := PlanLists(used, g.muted);
    EverythingIsWithin(follows, g.followed);
    EverythingIsWithin(mutes, g.muted);
    p := Plan(used', follows, mutes);
  }

  // ---------------------------------------------------------------- loading

  ghost predicate RecordLinks(ls: seq<ListRecord>, a: Id, b: Id) {
    exists i :: 0 <= i < |ls| && ls[i].owner == a && b in ls[i].targets
  }

  lemma RecordLinksSnoc(ls: seq<ListRecord>, i: nat, a: Id, b: Id)
    requires i < |ls|
    ensures RecordLinks(ls[..i + 1], a, b) <==> RecordLinks(ls[..i], a, b) || (ls[i].owner == a && b in ls[i].targets)
  {
    if RecordLinks(ls[..i], a, b) {
      var j :| 0 <= j < i && ls[..i][j].owner == a && b in ls[..i][j].targets;
      assert ls[..i + 1][j] == ls[..i][j];
    }
    assert ls[..i + 1][i] == ls[i];
    if RecordLinks(ls[..i + 1], a, b) {
      var j :| 0 <= j < i + 1 && ls[..i + 1][j].owner == a && b in ls[..i + 1][j].targets;
      assert j < i ==> ls[..i][j] == ls[..i + 1][j];
    }
  }

  ghost predicate OneListEach(ls: seq<ListRecord>) {
    forall i, j :: 0 <= i < j < |ls| ==> ls[i].owner != ls[j].owner
  }

  ghost predicate OneIdEach(ids: seq<IdRecord>) {
    forall i, j :: 0 <= i < j < |ids| ==> ids[i].id != ids[j].id && ids[i].name != ids[j].name
  }

  /** The times are those of the records, and no others. */
  ghost predicate TimesOf(ls: seq<ListRecord>, times: map<Id, int>) {
    && (forall i :: 0 <= i < |ls| ==> ls[i].owner in times && times[ls[i].owner] == ls[i].createdAt)
    && (forall a :: a in times ==> exists i :: 0 <= i < |ls| && ls[i].owner == a)
  }

  lemma TimesSnoc(ls: seq<ListRecord>, i: nat, times: map<Id, int>)
    requires OneListEach(ls) && i < |ls| && TimesOf(ls[..i], times)
    ensures TimesOf(ls[..i + 1], times[ls[i].owner := ls[i].createdAt])
  {
    var init, times' := ls[..i + 1], times[ls[i].owner := ls[i].createdAt];
    forall j | 0 <= j < |init| ensures init[j].owner in times' && times'[init[j].owner] == init[j].createdAt {
      if j < i { assert init[j] == ls[..i][j]; }
    }
    forall a | a in times' ensures exists j :: 0 <= j < |init| && init[j].owner == a {
      if a == ls[i].owner {
        assert init[i].owner == a;
      } else {
        var j :| 0 <= j < i && ls[..i][j].owner == a;
        assert init[j].owner == a;
      }
    }
  }

  /** The follows of a list, and of all lists, in file order. */
  function ListFollows(owner: Id, targets: seq<Id>): (r: seq<Follow>)
    ensures forall i :: 0 <= i < |r| ==> r[i].follower == owner
  {
    if targets == [] then []
    else ListFollows(owner, targets[..|targets| - 1]) + [Follow(owner, targets[|targets| - 1])]
  }

  function FollowsOf(ls: seq<ListRecord>): seq<Follow> {
    if ls == [] then []
    else FollowsOf(ls[..|ls| - 1]) + ListFollows(ls[|ls| - 1].owner, ls[|ls| - 1].targets)
  }

  /** The graph and its distances are what those follows make, one after the other. */
  ghost predicate GrownBy(graph: SocialGraph, run: seq<Follow>)
    reads graph
  {
    graph.followedByUser == GraphOf(run) && graph.followDistanceByUser == After(graph.root, run)
  }

  /** The loop over the follow lists. */
  method LoadFollows(graph: SocialGraph, ls: seq<ListRecord>)
    requires graph.Valid() && GrownBy(graph, []) && graph.followListCreatedAt == map[]
    modifies graph`followedByUser, graph`followersByUser, graph`followListCreatedAt
    modifies graph`followDistanceByUser, graph`usersByFollowDistance
    ensures graph.Valid() && GrownBy(graph, FollowsOf(ls))
    ensures forall a, b :: Linked(graph.followedByUser, a, b) <==> RecordLinks(ls, a, b)
    ensures OneListEach(ls) ==> TimesOf(ls, graph.followListCreatedAt)
  {
    for i := 0 to |ls|
      invariant graph.Valid() && GrownBy(graph, FollowsOf(ls[..i]))
      invariant forall a, b :: Linked(graph.followedByUser, a, b) <==> RecordLinks(ls[..i], a, b)
      invariant OneListEach(ls) ==> TimesOf(ls[..i], graph.followListCreatedAt)
    {
      ghost var had := graph.followedByUser;
      AddFollowed(graph, ls[i].owner, ls[i].targets, FollowsOf(ls[..i]));
      assert ls[..i + 1][..i] == ls[..i];
      forall a, b ensures Linked(graph.followedByUser, a, b) <==> RecordLinks(ls[..i + 1], a, b) {
        RecordLinksSnoc(ls, i, a, b);
        assert Linked(had, a, b) <==> RecordLinks(ls[..i], a, b);
      }
      if OneListEach(ls) { TimesSnoc(ls, i, graph.followListCreatedAt); }
      graph.followListCreatedAt := graph.followListCreatedAt[ls[i].owner := ls[i].createdAt];
    }
    assert ls[..|ls|] == ls;
  }

  method AddFollowed(graph: SocialGraph, follower: Id, followedUsers: seq<Id>, ghost run: seq<Follow>)
    requires graph.Valid() && GrownBy(graph, run)
    modifies graph`followedByUser, graph`followersByUser, graph`followDistanceByUser, graph`usersByFollowDistance
    ensures graph.Valid() && GrownBy(graph, run + ListFollows(follower, followedUsers))
    ensures (forall a, b :: Linked(graph.followedByUser, a, b) <==>
                            old(Linked(graph.followedByUser, a, b)) || (a == follower && b in followedUsers))
  {
    assert run + [] == run;
    for j := 0 to |followedUsers|
      invariant graph.Valid() && GrownBy(graph, run + ListFollows(follower, followedUsers[..j]))
      invariant forall a, b :: Linked(graph.followedByUser, a, b) <==>
                  old(Linked(graph.followedByUser, a, b)) || (a == follower && b in followedUsers[..j])
    {
      assert followedUsers[..j + 1] == followedUsers[..j] + [followedUsers[j]];
      OneMore(graph.root, run, follower, followedUsers, j);
      AddEdgeLinks(graph.followedByUser, follower, followedUsers[j]);
      graph.AddFollower(followedUsers[j], follower);
    }
    assert followedUsers[..|followedUsers|] == followedUsers;
  }

  lemma OneMore(root: Id, run: seq<Follow>, follower: Id, targets: seq<Id>, j: nat)
    requires j < |targets|
    ensures (var before := run + ListFollows(follower, targets[..j]);
             var after := run + ListFollows(follower, targets[..j + 1]);
             && GraphOf(after) == AddEdge(GraphOf(before), follower, targets[j])
             && After(root, after) == AddDistance(After(root, before), root, targets[j], follower))
  {
    var before, e := run + ListFollows(follower, targets[..j]), Follow(follower, targets[j]);
    assert targets[..j + 1][..j] == targets[..j];
    assert run + ListFollows(follower, targets[..j + 1]) == before + [e];
    AfterOne(root, before, e);
  }

  /** The loop over the mute lists. A second list of the same owner would replace the first in one
      index only. */
  method LoadMutes(graph: SocialGraph, ls: seq<ListRecord>)
    requires graph.Valid() && graph.mutedByUser == map[] && graph.muteListCreatedAt == map[]
    modifies graph`mutedByUser, graph`userMutedBy, graph`muteListCreatedAt
    ensures OneListEach(ls) ==> graph.Valid() && TimesOf(ls, graph.muteListCreatedAt)
    ensures OneListEach(ls) ==> forall a, b :: Linked(graph.mutedByUser, a, b) <==> RecordLinks(ls, a, b)
  {
    ghost var one := OneListEach(ls);
    for i := 0 to |ls|
      invariant one ==> graph.Valid() && TimesOf(ls[..i], graph.muteListCreatedAt)
      invariant one ==> forall a, b :: Linked(graph.mutedByUser, a, b) <==> RecordLinks(ls[..i], a, b)
      invariant one ==> forall a :: a in graph.mutedByUser ==> exists j :: 0 <= j < i && ls[j].owner == a
    {
      ghost var had, hadBy := graph.mutedByUser, graph.userMutedBy;
      var muter, muted := ls[i].owner, ls[i].targets;
      assert one ==> muter !in had;
      graph.mutedByUser := graph.mutedByUser[muter := ToSet(muted)];
      graph.userMutedBy := AddMuter(graph.userMutedBy, muter, muted);
      if one {
        forall a, b ensures Linked(graph.mutedByUser, a, b) <==> RecordLinks(ls[..i + 1], a, b) {
          RecordLinksSnoc(ls, i, a, b);
          assert Linked(had, a, b) <==> RecordLinks(ls[..i], a, b);
        }
        forall a, b ensures Linked(graph.mutedByUser, a, b) <==> Linked(graph.userMutedBy, b, a) {
          assert Linked(had, a, b) <==> Linked(hadBy, b, a);
        }
        TimesSnoc(ls, i, graph.muteListCreatedAt);
      }
      graph.muteListCreatedAt := graph.muteListCreatedAt[muter := ls[i].createdAt];
    }
    assert ls[..|ls|] == ls;
  }

  method AddMuter(mutedBy: Index, muter: Id, muted: seq<Id>) returns (mutedBy': Index)
    ensures forall a, b :: Linked(mutedBy', b, a) <==> Linked(mutedBy, b, a) || (a == muter && b in muted)
  {
    mutedBy' := mutedBy;
    for j := 0 to |muted|
      invariant forall a, b :: Linked(mutedBy', b, a) <==> Linked(mutedBy, b, a) || (a == muter && b in muted[..j])
    {
      assert muted[..j + 1] == muted[..j] + [muted[j]];
      AddEdgeLinks(mutedBy', muted[j], muter);
      mutedBy' := AddEdge(mutedBy', muted[j], muter);
    }
    assert muted[..|muted|] == muted;
  }

  /** The names are those of the records, and no others. */
  ghost predicate NamesOf(recs: seq<IdRecord>, names: map<Id, Str>) {
    && (forall i :: 0 <= i < |recs| ==> recs[i].id in names && names[recs[i].id] == recs[i].name)
    && (forall k :: k in names ==> exists i :: 0 <= i < |recs| && recs[i].id == k)
  }

  lemma KeysAreNotBlank(s: Str)
    requires IsKey(s)
    ensures !IsBlank(s)
  {
    assert LowerHexDigit(s[0]) && !IsSpace(s[0]);
  }

  ghost predicate AllKeys(recs: seq<IdRecord>) {
    forall i :: 0 <= i < |recs| ==> IsKey(recs[i].name)
  }

  method LoadIds(recs: seq<IdRecord>) returns (ids: UniqueIds)
    ensures fresh(ids)
    ensures OneIdEach(recs) && AllKeys(recs) ==> ids.Valid() && NamesOf(recs, ids.uniqueIdToStr)
  {
    ids := new UniqueIds();
    for i := 0 to |recs|
      invariant fresh(ids)
      invariant OneIdEach(recs) && AllKeys(recs) ==> ids.Valid() && NamesOf(recs[..i], ids.uniqueIdToStr)
    {
      LoadId(ids, recs, i);
    }
    assert recs[..|recs|] == recs;
  }

  /** One record of the id block. */
  method LoadId(ids: UniqueIds, recs: seq<IdRecord>, i: nat)
    requires i < |recs|
    requires OneIdEach(recs) && AllKeys(recs) ==> ids.Valid() && NamesOf(recs[..i], ids.uniqueIdToStr)
    modifies ids
    ensures OneIdEach(recs) && AllKeys(recs) ==> ids.Valid() && NamesOf(recs[..i + 1], ids.uniqueIdToStr)
  {
    var r := recs[i];
    if OneIdEach(recs) && AllKeys(recs) {
      IsNewRecord(recs, i, ids);
      NamesSnoc(recs, i, ids.uniqueIdToStr);
      KeysAreNotBlank(r.name);
    }
    ids.uniqueIdToStr := ids.uniqueIdToStr[r.id := r.name];
    ids.strToUniqueId := ids.strToUniqueId[r.name := r.id];
    ids.currentUniqueId := Max(ids.currentUniqueId, r.id + 1);
  }

  lemma IsNewRecord(recs: seq<IdRecord>, i: nat, ids: UniqueIds)
    requires OneIdEach(recs) && i < |recs| && ids.Valid() && NamesOf(recs[..i], ids.uniqueIdToStr)
    ensures recs[i].id !in ids.uniqueIdToStr && recs[i].name !in ids.strToUniqueId
  {
    forall k | k in ids.uniqueIdToStr ensures k != recs[i].id && ids.uniqueIdToStr[k] != recs[i].name {
      var j :| 0 <= j < i && recs[..i][j].id == k;
      assert recs[j] == recs[..i][j];
    }
  }

  lemma NamesSnoc(recs: seq<IdRecord>, i: nat, names: map<Id, Str>)
    requires OneIdEach(recs) && i < |recs| && NamesOf(recs[..i], names)
    ensures NamesOf(recs[..i + 1], names[recs[i].id := recs[i].name])
  {
    var init, names' := recs[..i + 1], names[recs[i].id := recs[i].name];
    forall j | 0 <= j < |init| ensures init[j].id in names' && names'[init[j].id] == init[j].name {
      if j < i { assert init[j] == recs[..i][j]; }
    }
    forall k | k in names' ensures exists j :: 0 <= j < |init| && init[j].id == k {
      if k == recs[i].id {
        assert init[i].id == k;
      } else {
        var j :| 0 <= j < i && recs[..i][j].id == k;
        assert init[j] == recs[..i][j];
      }
    }
  }

  ghost predicate NamesPlusRoot(names: map<Id, Str>, root: Str, ids: UniqueIds)
    requires root in ids.strToUniqueId
    reads ids
  {
    && ids.uniqueIdToStr == names[ids.strToUniqueId[root] := root]
    && forall i :: i in names ==> ids.uniqueIdToStr[i] == names[i]
  }

  /** Gives the root its id, unless the file did. */
  method AddRoot(ids: UniqueIds, root: Str)
    modifies ids
    ensures root in ids.strToUniqueId
    ensures old(ids.Valid()) && !IsBlank(root) ==> ids.Valid() && NamesPlusRoot(old(ids.uniqueIdToStr), root, ids)
  {
    if root !in ids.strToUniqueId {
      ids.uniqueIdToStr := ids.uniqueIdToStr[ids.currentUniqueId := root];
      ids.strToUniqueId := ids.strToUniqueId[root := ids.currentUniqueId];
      ids.currentUniqueId := ids.currentUniqueId + 1;
    }
  }

  /** A new graph with the lists of an image. */
  method LoadLists(image: Image, rootId: Id) returns (graph: SocialGraph)
    ensures fresh(graph) && graph.root == rootId && GrownBy(graph, FollowsOf(image.follows))
    ensures OneListEach(image.follows) && OneListEach(image.mutes) ==> LoadedLists(image, graph)
  {
    graph := new SocialGraph(rootId);
    LoadFollows(graph, image.follows);
    LoadMutes(graph, image.mutes);
  }

  ghost predicate LoadedLists(w: Image, graph: SocialGraph)
    reads graph
  {
    && graph.Valid()
    && (forall a, b :: Linked(graph.followedByUser, a, b) <==> RecordLinks(w.follows, a, b))
    && (forall a, b :: Linked(graph.mutedByUser, a, b) <==> RecordLinks(w.mutes, a, b))
    && TimesOf(w.follows, graph.followListCreatedAt) && TimesOf(w.mutes, graph.muteListCreatedAt)
  }

  /** An image as the encoder makes them. */
  ghost predicate Proper(w: Image) {
    ImageFits(w) && OneIdEach(w.ids) && OneListEach(w.follows) && OneListEach(w.mutes)
  }

  /** Loaded distances are lengths of chains, and exact if and only if they are settled. */
  ghost predicate LoadedDistances(graph: SocialGraph)
    reads graph
  {
    && graph.Walks()
    && (ExactDistances(graph.followedByUser, graph.root, Defined(graph.followDistanceByUser)) <==>
        Settled(graph.followedByUser, Defined(graph.followDistanceByUser)))
  }

  lemma DistancesLoaded(graph: SocialGraph, run: seq<Follow>)
    requires GrownBy(graph, run)
    ensures LoadedDistances(graph)
  {
    RunIsWalks(graph.root, run);
    RunIsExactExactly(graph.root, run);
  }

  ghost predicate ListsNearestFirst(ls: seq<ListRecord>, dist: map<Id, nat>) {
    forall i, j :: 0 <= i < j < |ls| && ls[i].owner in dist && ls[j].owner in dist ==>
      dist[ls[i].owner] <= dist[ls[j].owner]
  }

  lemma {:induction false} FollowerOwns(ls: seq<ListRecord>, i: nat) returns (k: nat)
    requires i < |FollowsOf(ls)|
    ensures k < |ls| && ls[k].owner == FollowsOf(ls)[i].follower
  {
    k := |ls| - 1;
    if i < |FollowsOf(ls[..k])| { k := FollowerOwns(ls[..k], i); }
  }

  lemma {:induction false} FollowsNearestFirst(ls: seq<ListRecord>, dist: map<Id, nat>)
    requires ListsNearestFirst(ls, dist)
    ensures NearestFirst(FollowsOf(ls), dist)
  {
    if ls != [] {
      var n := |ls| - 1;
      FollowsNearestFirst(ls[..n], dist);
      var run, early := FollowsOf(ls), FollowsOf(ls[..n]);
      forall i, j | 0 <= i < j < |run| && run[i].follower in dist && run[j].follower in dist
        ensures dist[run[i].follower] <= dist[run[j].follower]
      {
        if i < |early| {
          var k := FollowerOwns(ls[..n], i);
          assert ls[k].owner == run[i].follower;
        }
      }
    }
  }

  /** A file whose follow lists come nearest first is loaded with exact distances. */
  lemma NearestListsFirst(graph: SocialGraph, ls: seq<ListRecord>, dist: map<Id, nat>)
    requires GrownBy(graph, FollowsOf(ls))
    requires ExactDistances(graph.followedByUser, graph.root, dist) && ListsNearestFirst(ls, dist)
    ensures Defined(graph.followDistanceByUser) == dist
  {
    FollowsNearestFirst(ls, dist);
    NearestFirstIsExact(graph.root, FollowsOf(ls), dist);
  }

  /** fromBinary. Err: the root is blank. */
  method FromBinary(root: Str, data: Bytes, ghost w: Image)
    returns (ok: bool, graph: SocialGraph, ids: UniqueIds, ghost names: map<Id, Str>)
    requires HexNames(w.ids)
    ensures ok <==> !IsBlank(root)
    ensures ok ==> LoadedDistances(graph)
    ensures ok && data == ImageBytes(w) && Proper(w) ==> LoadedLists(w, graph) && LoadedIds(w, root, names, ids)
    ensures ok && data == ImageBytes(w) && Proper(w) ==>
              graph.root == ids.strToUniqueId[root] && GrownBy(graph, FollowsOf(w.follows))
  {
    var image := ReadImage(data, w);
    ids := LoadIds(image.ids);
    names := ids.uniqueIdToStr;
    ok := exists i :: 0 <= i < |root| && !IsSpace(root[i]);
    if !ok {
      graph := new SocialGraph(0);
      return;
    }
    AddRoot(ids, root);
    graph := LoadLists(image, ids.strToUniqueId[root]);
    DistancesLoaded(graph, FollowsOf(image.follows));
    if data == ImageBytes(w) && Proper(w) { ProperKeys(w); }
  }

  lemma ProperKeys(w: Image)
    requires Proper(w)
    ensures AllKeys(w.ids)
  {
    forall i | 0 <= i < |w.ids| ensures IsKey(w.ids[i].name) { assert IdFits(w.ids[i]); }
  }

  /** The ids are those of the image, except that the new root may have got one of its own. */
  ghost predicate LoadedIds(w: Image, root: Str, names: map<Id, Str>, ids: UniqueIds)
    reads ids
  {
    ids.Valid() && root in ids.strToUniqueId && NamesOf(w.ids, names) && NamesPlusRoot(names, root, ids)
  }

  // ---------------------------------------------------------------- the round trip

  /** What the format can hold: lower-case keys, one per id, and signed 32-bit numbers. */
  ghost predicate Holdable(g: Source, p: Plan) {
    && (forall i, j :: i in g.names && j in g.names && i != j ==> g.names[i] != g.names[j])
    && (forall x :: x in p.usedIds ==> x in g.names && IsKey(g.names[x]) && Fits(x))
    && Fits(|p.usedIds|) && Fits(|g.followed|) && Fits(|g.muted|)
    && ListsHoldable(g.followed, g.followTimes) && ListsHoldable(g.muted, g.muteTimes)
  }

  ghost predicate ListsHoldable(adj: Ordered, times: map<Id, int>) {
    forall i :: 0 <= i < |adj| ==> Fits(|adj[i].targets|) && Fits(TimeOf(times, adj[i].owner))
  }

  lemma WholeRecord(limits: seq<Limit>, adj: Ordered, times: map<Id, int>, i: nat)
    requires Everything(limits, adj) && DistinctOwners(adj) && WithinSets(limits, adj) && i < |adj|
    ensures RecordsOf(limits, adj, times)[i] == ListRecord(adj[i].owner, TimeOf(times, adj[i].owner), adj[i].targets)
  {
    TargetsFound(adj, i);
    assert adj[i].targets[..|adj[i].targets|] == adj[i].targets;
  }

  lemma WholeListsFit(limits: seq<Limit>, adj: Ordered, times: map<Id, int>, used: seq<Id>)
    requires Everything(limits, adj) && DistinctOwners(adj) && WithinSets(limits, adj)
    requires Fits(|adj|) && ListsHoldable(adj, times)
    requires forall x :: x in used ==> Fits(x)
    requires forall x :: Mentions(adj, x) ==> x in used
    ensures ListsFit(RecordsOf(limits, adj, times)) && OneListEach(RecordsOf(limits, adj, times))
  {
    var ls := RecordsOf(limits, adj, times);
    forall i | 0 <= i < |ls| ensures ListFits(ls[i]) && ls[i].owner == adj[i].owner {
      WholeRecord(limits, adj, times, i);
      assert Mentions(adj, adj[i].owner);
      forall j | 0 <= j < |ls[i].targets| ensures Fits(ls[i].targets[j]) {
        assert adj[i].targets[j] in adj[i].targets;
        assert Mentions(adj, adj[i].targets[j]);
      }
    }
  }

  lemma WholeIdsFit(p: Plan, g: Source)
    requires Holdable(g, p) && Distinct(p.usedIds)
    ensures AllNamed(p.usedIds, g.names)
    ensures HexNames(IdRecordsOf(p.usedIds, g.names)) && IdsFit(IdRecordsOf(p.usedIds, g.names))
    ensures OneIdEach(IdRecordsOf(p.usedIds, g.names))
  {
    forall i | 0 <= i < |p.usedIds| ensures p.usedIds[i] in g.names && IsHex(g.names[p.usedIds[i]]) {
      assert p.usedIds[i] in p.usedIds;
      KeyIsHex(g.names[p.usedIds[i]]);
    }
    var recs := IdRecordsOf(p.usedIds, g.names);
    forall i | 0 <= i < |recs| ensures IdFits(recs[i]) {
      assert p.usedIds[i] in p.usedIds;
    }
  }

  lemma KeyIsHex(s: Str)
    requires IsKey(s)
    ensures IsHex(s)
  {
    forall i | 0 <= i < |s| ensures HexDigit(s[i]) { assert LowerHexDigit(s[i]); }
  }

  lemma WholeImageIsProper(p: Plan, g: Source)
    requires KeepsAll(p, g) && Holdable(g, p)
    ensures AllNamed(p.usedIds, g.names) && Proper(ImageOf(p, g))
  {
    WholeIdsFit(p, g);
    WholeListsFit(p.follows, g.followed, g.followTimes, p.usedIds);
    WholeListsFit(p.mutes, g.muted, g.muteTimes, p.usedIds);
  }

  /** The records of all lists are the relation itself. */
  lemma WholeRecordsLink(limits: seq<Limit>, adj: Ordered, times: map<Id, int>, m: Index, a: Id, b: Id)
    requires Everything(limits, adj) && Enumerates(adj, m) && WithinSets(limits, adj)
    ensures RecordLinks(RecordsOf(limits, adj, times), a, b) <==> Linked(m, a, b)
  {
    var ls := RecordsOf(limits, adj, times);
    if RecordLinks(ls, a, b) {
      var i :| 0 <= i < |ls| && ls[i].owner == a && b in ls[i].targets;
      WholeRecord(limits, adj, times, i);
    }
    if Linked(m, a, b) {
      assert HasOwner(adj, a);
      var i :| 0 <= i < |adj| && adj[i].owner == a;
      WholeRecord(limits, adj, times, i);
      assert b in ToSet(adj[i].targets);
      assert ls[i].owner == a && b in ls[i].targets;
    }
  }

  lemma WholeTime(limits: seq<Limit>, adj: Ordered, times: map<Id, int>, m: Index, times': map<Id, int>, a: Id)
    requires Everything(limits, adj) && Enumerates(adj, m) && WithinSets(limits, adj)
    requires TimesOf(RecordsOf(limits, adj, times), times')
    ensures a in times' <==> a in m
    ensures a in times' ==> times'[a] == TimeOf(times, a)
  {
    var ls := RecordsOf(limits, adj, times);
    if a in times' {
      var i :| 0 <= i < |ls| && ls[i].owner == a;
      WholeRecord(limits, adj, times, i);
    }
    if a in m {
      assert HasOwner(adj, a);
      var i :| 0 <= i < |adj| && adj[i].owner == a;
      WholeRecord(limits, adj, times, i);
      assert ls[i].owner == a;
    }
  }

  /** Timestamps come back for exactly the users that have an entry in the index, 0 where none
      was recorded. */
  lemma WholeTimes(limits: seq<Limit>, adj: Ordered, times: map<Id, int>, m: Index, times': map<Id, int>)
    requires Everything(limits, adj) && Enumerates(adj, m) && WithinSets(limits, adj)
    requires TimesOf(RecordsOf(limits, adj, times), times')
    ensures times' == map a | a in m :: if a in times then times[a] else 0
    ensures times' == times <==> times.Keys == m.Keys
  {
    forall a ensures (a in times' <==> a in m) && (a in times' ==> times'[a] == TimeOf(times, a)) {
      WholeTime(limits, adj, times, m, times', a);
    }
    EntriesOnly(times, m, times');
  }

  lemma EntriesOnly(times: map<Id, int>, m: Index, times': map<Id, int>)
    requires forall a :: (a in times' <==> a in m) && (a in times' ==> times'[a] == TimeOf(times, a))
    ensures times' == map a | a in m :: if a in times then times[a] else 0
    ensures times' == times <==> times.Keys == m.Keys
  {
    assert times'.Keys == m.Keys;
  }

  /** s is linked to t, as public keys. */
  ghost predicate KeyLinked(m: Index, names: map<Id, Str>, s: Str, t: Str) {
    exists a, b :: NamedLink(m, names, s, t, a, b)
  }

  ghost predicate NamedLink(m: Index, names: map<Id, Str>, s: Str, t: Str, a: Id, b: Id) {
    a in names && b in names && names[a] == s && names[b] == t && Linked(m, a, b)
  }

  /** Same links by id and same names for the linked ids: same links by key. */
  lemma SameByKey(m: Index, names: map<Id, Str>, m': Index, names': map<Id, Str>, s: Str, t: Str)
    requires forall a, b :: Linked(m', a, b) <==> Linked(m, a, b)
    requires (forall a, b :: Linked(m, a, b) ==> a in names && b in names && a in names' && b in names' &&
                                                 names'[a] == names[a] && names'[b] == names[b])
    ensures KeyLinked(m', names', s, t) <==> KeyLinked(m, names, s, t)
  {
    if KeyLinked(m', names', s, t) {
      var a, b :| NamedLink(m', names', s, t, a, b);
      assert NamedLink(m, names, s, t, a, b);
    }
    if KeyLinked(m, names, s, t) {
      var a, b :| NamedLink(m, names, s, t, a, b);
      assert NamedLink(m', names', s, t, a, b);
    }
  }

  lemma LinkedAreMentioned(adj: Ordered, m: Index, a: Id, b: Id)
    requires Enumerates(adj, m) && Linked(m, a, b)
    ensures Mentions(adj, a) && Mentions(adj, b)
  {
    assert HasOwner(adj, a);
    var i :| 0 <= i < |adj| && adj[i].owner == a;
    assert b in ToSet(adj[i].targets);
  }

  lemma LoadedNames(p: Plan, g: Source, root: Str, names: map<Id, Str>, ids: UniqueIds, x: Id)
    requires AllNamed(p.usedIds, g.names) && NamesOf(IdRecordsOf(p.usedIds, g.names), names)
    requires root in ids.strToUniqueId && NamesPlusRoot(names, root, ids) && x in p.usedIds
    ensures x in g.names && x in ids.uniqueIdToStr && ids.uniqueIdToStr[x] == g.names[x]
  {
    var i :| 0 <= i < |p.usedIds| && p.usedIds[i] == x;
    assert IdRecordsOf(p.usedIds, g.names)[i] == IdRecord(g.names[x], x);
  }

  lemma SameLinks(limits: seq<Limit>, adj: Ordered, times: map<Id, int>, m: Index, m': Index, names: map<Id, Str>,
                  names': map<Id, Str>, used: seq<Id>)
    requires Everything(limits, adj) && Enumerates(adj, m) && WithinSets(limits, adj)
    requires forall a, b :: Linked(m', a, b) <==> RecordLinks(RecordsOf(limits, adj, times), a, b)
    requires forall x :: Mentions(adj, x) ==> x in used
    requires forall x :: x in used ==> x in names && x in names' && names'[x] == names[x]
    ensures forall s, t :: KeyLinked(m', names', s, t) <==> KeyLinked(m, names, s, t)
  {
    forall a, b ensures Linked(m', a, b) <==> Linked(m, a, b) { WholeRecordsLink(limits, adj, times, m, a, b); }
    forall a, b | Linked(m, a, b) ensures a in used && b in used { LinkedAreMentioned(adj, m, a, b); }
    forall s, t
      ensures KeyLinked(m', names', s, t) <==> KeyLinked(m, names, s, t)
    {
      SameByKey(m, names, m', names', s, t);
    }
  }

  /** fromBinary(toBinary(g)): the same follows and mutes between public keys, and the timestamps
      of all users with an entry. F and M are the graph's indexes, iterated over as in g; p is
      the plan that PlanAll makes of g. */
  method SaveAndLoad(root: Str, g: Source, p: Plan, ghost F: Index, ghost M: Index)
    returns (graph: SocialGraph, ids: UniqueIds)
    requires Enumerates(g.followed, F) && Enumerates(g.muted, M) && !IsBlank(root)
    requires KeepsAll(p, g) && Holdable(g, p)
    ensures graph.Valid() && ids.Valid() && root in ids.strToUniqueId
    ensures forall s, t :: KeyLinked(graph.followedByUser, ids.uniqueIdToStr, s, t) <==> KeyLinked(F, g.names, s, t)
    ensures forall s, t :: KeyLinked(graph.mutedByUser, ids.uniqueIdToStr, s, t) <==> KeyLinked(M, g.names, s, t)
    ensures graph.followListCreatedAt == map a | a in F :: if a in g.followTimes then g.followTimes[a] else 0
    ensures graph.muteListCreatedAt == map a | a in M :: if a in g.muteTimes then g.muteTimes[a] else 0
    ensures graph.followListCreatedAt == g.followTimes <==> g.followTimes.Keys == F.Keys
    ensures graph.muteListCreatedAt == g.muteTimes <==> g.muteTimes.Keys == M.Keys
    ensures graph.root == ids.strToUniqueId[root] && LoadedDistances(graph)
    ensures forall dist ::
              ExactDistances(graph.followedByUser, graph.root, dist) && OwnersNearestFirst(g.followed, dist) ==>
                Defined(graph.followDistanceByUser) == dist
  {
    WholeImageIsProper(p, g);
    var data := ToBinary(p, g);
    ghost var w := ImageOf(p, g);
    var ok;
    ghost var names;
    ok, graph, ids, names := FromBinary(root, data.value, w);
    Restored(p, g, F, M, root, names, graph, ids);
    forall dist | ExactDistances(graph.followedByUser, graph.root, dist) && OwnersNearestFirst(g.followed, dist)
      ensures Defined(graph.followDistanceByUser) == dist
    {
      RecordsNearestFirst(p.follows, g.followed, g.followTimes, dist);
      NearestListsFirst(graph, w.follows, dist);
    }
  }

  /** The graph's own follow lists, in their order, come nearest first. */
  ghost predicate OwnersNearestFirst(adj: Ordered, dist: map<Id, nat>) {
    forall i, j :: 0 <= i < j < |adj| && adj[i].owner in dist && adj[j].owner in dist ==>
      dist[adj[i].owner] <= dist[adj[j].owner]
  }

  lemma RecordsNearestFirst(limits: seq<Limit>, adj: Ordered, times: map<Id, int>, dist: map<Id, nat>)
    requires Everything(limits, adj) && WithinSets(limits, adj) && DistinctOwners(adj) && OwnersNearestFirst(adj, dist)
    ensures ListsNearestFirst(RecordsOf(limits, adj, times), dist)
  {
    forall i | 0 <= i < |adj| ensures RecordsOf(limits, adj, times)[i].owner == adj[i].owner {
      WholeRecord(limits, adj, times, i);
    }
  }

  lemma Restored(p: Plan, g: Source, F: Index, M: Index, root: Str, names: map<Id, Str>, graph: SocialGraph,
                 ids: UniqueIds)
    requires KeepsAll(p, g) && AllNamed(p.usedIds, g.names) && Enumerates(g.followed, F) && Enumerates(g.muted, M)
    requires LoadedLists(ImageOf(p, g), graph) && LoadedIds(ImageOf(p, g), root, names, ids)
    ensures forall s, t :: KeyLinked(graph.followedByUser, ids.uniqueIdToStr, s, t) <==> KeyLinked(F, g.names, s, t)
    ensures forall s, t :: KeyLinked(graph.mutedByUser, ids.uniqueIdToStr, s, t) <==> KeyLinked(M, g.names, s, t)
    ensures graph.followListCreatedAt == map a | a in F :: if a in g.followTimes then g.followTimes[a] else 0
    ensures graph.muteListCreatedAt == map a | a in M :: if a in g.muteTimes then g.muteTimes[a] else 0
    ensures graph.followListCreatedAt == g.followTimes <==> g.followTimes.Keys == F.Keys
    ensures graph.muteListCreatedAt == g.muteTimes <==> g.muteTimes.Keys == M.Keys
  {
    forall x | x in p.usedIds ensures x in g.names && x in ids.uniqueIdToStr && ids.uniqueIdToStr[x] == g.names[x] {
      LoadedNames(p, g, root, names, ids, x);
    }
    SameLinks(p.follows, g.followed, g.followTimes, F, graph.followedByUser, g.names, ids.uniqueIdToStr, p.usedIds);
    SameLinks(p.mutes, g.muted, g.muteTimes, M, graph.mutedByUser, g.names, ids.uniqueIdToStr, p.usedIds);
    WholeTimes(p.follows, g.followed, g.followTimes, F, graph.followListCreatedAt);
    WholeTimes(p.mutes, g.muted, g.muteTimes, M, graph.muteListCreatedAt);
  }
}
