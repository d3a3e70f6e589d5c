/** What is loaded from a file that was saved under a budget. */
module GraphBudgetFile {
  import opened Keys
  import opened GraphFormat
  import opened GraphWriter
  import opened GraphBinary
  import opened GraphBudget
  import opened FollowDistance
  import opened SocialGraph
  import opened UniqueIds

  ghost predicate Chosen(edges: seq<Edge>, a: Id, b: Id, isFollow: bool) {
    Edge(a, b, isFollow) in edges
  }

  lemma {:induction false} LimitExists(limits: seq<Limit>, o: Id) returns (i: nat)
    requires LimitFor(limits, o) > 0
    ensures i < |limits| && limits[i].owner == o
  {
    if limits[0].owner == o { return 0; }
    i := LimitExists(limits[1..], o);
    i := i + 1;
  }

  /** A record holds exactly its owner's chosen targets. */
  lemma RecordIsChosen(limits: seq<Limit>, adj: Ordered, times: map<Id, int>, chosen: seq<Edge>, isFollow: bool, i: nat)
    requires CountsOf(limits, chosen, isFollow) && WithinSets(limits, adj) && i < |limits|
    requires Kept(chosen, limits[i].owner, isFollow) <= TargetsOf(adj, limits[i].owner)
    ensures RecordsOf(limits, adj, times)[i] ==
            ListRecord(limits[i].owner, TimeOf(times, limits[i].owner), Kept(chosen, limits[i].owner, isFollow))
  {
    LimitFound(limits, i);
  }

  /** The records link exactly the ends of the chosen edges. */
  lemma RecordsLinkChosen(limits: seq<Limit>, adj: Ordered, times: map<Id, int>, chosen: seq<Edge>, isFollow: bool,
                          a: Id, b: Id)
    requires CountsOf(limits, chosen, isFollow) && WithinSets(limits, adj)
    requires forall o :: Kept(chosen, o, isFollow) <= TargetsOf(adj, o)
    ensures RecordLinks(RecordsOf(limits, adj, times), a, b) <==> Chosen(chosen, a, b, isFollow)
  {
    var ls := RecordsOf(limits, adj, times);
    if RecordLinks(ls, a, b) {
      var i :| 0 <= i < |ls| && ls[i].owner == a && b in ls[i].targets;
      RecordIsChosen(limits, adj, times, chosen, isFollow, i);
      assert Edge(a, b, isFollow) in chosen;
    }
    if Chosen(chosen, a, b, isFollow) {
      var j :| 0 <= j < |chosen| && chosen[j] == Edge(a, b, isFollow);
      EdgeIsKept(chosen, j);
      var i := LimitExists(limits, a);
      RecordIsChosen(limits, adj, times, chosen, isFollow, i);
      assert ls[i].owner == a && b in ls[i].targets;
    }
  }

  /** The lists that are written have times, lengths and ids that fit. */
  lemma ListsFitUsed(limits: seq<Limit>, adj: Ordered, times: map<Id, int>, chosen: seq<Edge>, isFollow: bool,
                     used: seq<Id>)
    requires CountsOf(limits, chosen, isFollow) && WithinSets(limits, adj) && Covers(used, chosen)
    requires forall o :: Kept(chosen, o, isFollow) <= TargetsOf(adj, o)
    requires Fits(|limits|) && (forall x :: x in used ==> Fits(x))
    requires forall l :: l in limits ==> Fits(l.limit) && Fits(TimeOf(times, l.owner))
    ensures ListsFit(RecordsOf(limits, adj, times)) && OneListEach(RecordsOf(limits, adj, times))
  {
    var ls := RecordsOf(limits, adj, times);
    forall i | 0 <= i < |ls| ensures ListFits(ls[i]) && ls[i].owner == limits[i].owner {
      RecordIsChosen(limits, adj, times, chosen, isFollow, i);
      assert limits[i] in limits;
      LimitFound(limits, i);
      assert OwnsOne(chosen, limits[i].owner);
      forall j | 0 <= j < |ls[i].targets| ensures Fits(ls[i].targets[j]) {
        assert ls[i].targets[j] in Kept(chosen, limits[i].owner, isFollow);
        assert Edge(limits[i].owner, ls[i].targets[j], isFollow) in chosen;
      }
    }
  }

  /** What the format can hold of a plan: lower-case keys, one per id, and signed 32-bit numbers. */
  ghost predicate PlanHoldable(g: Source, p: Plan) {
    && (forall i, j :: i in g.names && j in g.names && i != j ==> g.names[i] != g.names[j])
    && (forall x :: x in p.usedIds ==> x in g.names && IsKey(g.names[x]) && Fits(x))
    && Fits(|p.usedIds|) && Fits(|p.follows|) && Fits(|p.mutes|)
    && (forall l :: l in p.follows ==> Fits(l.limit) && Fits(TimeOf(g.followTimes, l.owner)))
    && (forall l :: l in p.mutes ==> Fits(l.limit) && Fits(TimeOf(g.muteTimes, l.owner)))
  }

  lemma UsedIdsFit(p: Plan, g: Source)
    requires PlanHoldable(g, p) && Distinct(p.usedIds)
    ensures AllNamed(p.usedIds, g.names)
    ensures HexNames(IdRecordsOf(p.usedIds, g.names)) && IdsFit(IdRecordsOf(p.usedIds, g.names))
    ensures OneIdEach(IdRecordsOf(p.usedIds, g.names))
  {
    forall i | 0 <= i < |p.usedIds| ensures p.usedIds[i] in g.names && IsHex(g.names[p.usedIds[i]]) {
      assert p.usedIds[i] in p.usedIds;
      KeyIsHex(g.names[p.usedIds[i]]);
    }
    var recs := IdRecordsOf(p.usedIds, g.names);
    forall i | 0 <= i < |recs| ensures IdFits(recs[i]) {
      assert p.usedIds[i] in p.usedIds;
    }
  }

  /** One of the loaded indexes links exactly the ends of the chosen edges, by id and so by key. */
  ghost predicate LoadsChosen(m: Index, chosen: seq<Edge>, isFollow: bool) {
    forall a, b :: Linked(m, a, b) <==> Chosen(chosen, a, b, isFollow)
  }

  /** The recorded times are those of the owners of chosen edges, 0 where none was recorded. */
  ghost predicate TimesOfChosen(times': map<Id, int>, times: map<Id, int>, chosen: seq<Edge>, isFollow: bool) {
    forall a :: if Kept(chosen, a, isFollow) != [] then a in times' && times'[a] == (if a in times then times[a] else 0)
                else a !in times'
  }

  lemma TimesLoaded(limits: seq<Limit>, adj: Ordered, times: map<Id, int>, times': map<Id, int>, chosen: seq<Edge>,
                    isFollow: bool)
    requires CountsOf(limits, chosen, isFollow) && WithinSets(limits, adj)
    requires TimesOf(RecordsOf(limits, adj, times), times')
    ensures TimesOfChosen(times', times, chosen, isFollow)
  {
    var ls := RecordsOf(limits, adj, times);
    forall a
      ensures if Kept(chosen, a, isFollow) != [] then a in times' && times'[a] == TimeOf(times, a) else a !in times'
    {
      if Kept(chosen, a, isFollow) != [] {
        var i := LimitExists(limits, a);
        assert ls[i] == RecordOf(limits[i], adj, times);
      } else if a in times' {
        var i :| 0 <= i < |ls| && ls[i].owner == a;
        NotEmpty(limits, chosen, isFollow, i);
      }
    }
  }

  /** No owner is listed with nothing. */
  lemma NotEmpty(limits: seq<Limit>, chosen: seq<Edge>, isFollow: bool, i: nat)
    requires CountsOf(limits, chosen, isFollow) && i < |limits|
    ensures Kept(chosen, limits[i].owner, isFollow) != []
  {
    LimitFound(limits, i);
    assert limits[i] in limits;
  }

  lemma PrefixesAreWithin(p: Plan, chosen: seq<Edge>, followed: Ordered, muted: Ordered)
    requires PlanOf(p, chosen) && Prefixes(chosen, followed, muted)
    ensures WithinSets(p.follows, followed) && WithinSets(p.mutes, muted)
  {
    assert chosen[..|chosen|] == chosen;
    ChosenAreEmitted(p.follows, followed, chosen, |chosen|, true, p.usedIds);
    ChosenAreEmitted(p.mutes, muted, chosen, |chosen|, false, p.usedIds);
  }

  /** The follows were loaded in the order of the plan. */
  ghost predicate LoadedInOrder(graph: SocialGraph, p: Plan, g: Source)
    reads graph
  {
    WithinSets(p.follows, g.followed) && GrownBy(graph, FollowsOf(RecordsOf(p.follows, g.followed, g.followTimes)))
  }

  /** fromBinary of a file saved under a budget: a loaded graph with exactly the chosen edges, and
      the keys of exactly their ends, besides the root. */
  method SaveAndLoadPlan(root: Str, g: Source, p: Plan, ghost chosen: seq<Edge>)
    returns (graph: SocialGraph, ids: UniqueIds)
    requires !IsBlank(root) && PlanHoldable(g, p) && PlanOf(p, chosen) && Prefixes(chosen, g.followed, g.muted)
    ensures graph.Valid() && ids.Valid() && root in ids.strToUniqueId && graph.root == ids.strToUniqueId[root]
    ensures LoadedDistances(graph) && LoadedInOrder(graph, p, g)
    ensures LoadsChosen(graph.followedByUser, chosen, true) && LoadsChosen(graph.mutedByUser, chosen, false)
    ensures TimesOfChosen(graph.followListCreatedAt, g.followTimes, chosen, true)
    ensures TimesOfChosen(graph.muteListCreatedAt, g.muteTimes, chosen, false)
    ensures forall x :: Touches(chosen, x) ==>
              x in g.names && x in ids.uniqueIdToStr && ids.uniqueIdToStr[x] == g.names[x]
    ensures forall x :: x in ids.uniqueIdToStr ==> Touches(chosen, x) || ids.uniqueIdToStr[x] == root
  {
    UsedIdsFit(p, g);
    PrefixesAreWithin(p, chosen, g.followed, g.muted);
    ListsFitUsed(p.follows, g.followed, g.followTimes, chosen, true, p.usedIds);
    ListsFitUsed(p.mutes, g.muted, g.muteTimes, chosen, false, p.usedIds);
    var data := ToBinary(p, g);
    ghost var w := ImageOf(p, g);
    assert Proper(w);
    var ok;
    ghost var names;
    ok, graph, ids, names := FromBinary(root, data.value, w);
    forall a, b
      ensures Linked(graph.followedByUser, a, b) <==> Chosen(chosen, a, b, true)
      ensures Linked(graph.mutedByUser, a, b) <==> Chosen(chosen, a, b, false)
    {
      RecordsLinkChosen(p.follows, g.followed, g.followTimes, chosen, true, a, b);
      RecordsLinkChosen(p.mutes, g.muted, g.muteTimes, chosen, false, a, b);
    }
    TimesLoaded(p.follows, g.followed, g.followTimes, graph.followListCreatedAt, chosen, true);
    TimesLoaded(p.mutes, g.muted, g.muteTimes, graph.muteListCreatedAt, chosen, false);
    KeysLoaded(p, g, chosen, root, names, ids);
  }

  lemma KeysLoaded(p: Plan, g: Source, chosen: seq<Edge>, root: Str, names: map<Id, Str>, ids: UniqueIds)
    requires AllNamed(p.usedIds, g.names) && Covers(p.usedIds, chosen)
    requires NamesOf(IdRecordsOf(p.usedIds, g.names), names) && root in ids.strToUniqueId
    requires NamesPlusRoot(names, root, ids)
    ensures forall x :: Touches(chosen, x) ==>
              x in g.names && x in ids.uniqueIdToStr && ids.uniqueIdToStr[x] == g.names[x]
    ensures forall x :: x in ids.uniqueIdToStr ==> Touches(chosen, x) || ids.uniqueIdToStr[x] == root
  {
    forall x | Touches(chosen, x) ensures x in g.names && x in ids.uniqueIdToStr && ids.uniqueIdToStr[x] == g.names[x] {
      var i :| 0 <= i < |chosen| && (chosen[i].owner == x || chosen[i].target == x);
      LoadedNames(p, g, root, names, ids, x);
    }
    forall x | x in ids.uniqueIdToStr ensures Touches(chosen, x) || ids.uniqueIdToStr[x] == root {
      if x in names {
        var recs := IdRecordsOf(p.usedIds, g.names);
        var i :| 0 <= i < |recs| && recs[i].id == x;
        assert p.usedIds[i] == x && x in p.usedIds;
      }
    }
  }

  // ---------------------------------------------------------------- planned, saved and loaded

  /** All of the graph can be held, so any part of it can. */
  ghost predicate AllHoldable(g: Source) {
    && (forall i, j :: i in g.names && j in g.names && i != j ==> g.names[i] != g.names[j])
    && (forall x :: x in g.names ==> IsKey(g.names[x]) && Fits(x)) && Fits(|g.names|)
    && (forall o :: Fits(|TargetsOf(g.followed, o)|) && Fits(TimeOf(g.followTimes, o)))
    && (forall o :: Fits(|TargetsOf(g.muted, o)|) && Fits(TimeOf(g.muteTimes, o)))
  }

  lemma {:induction false} DistinctAreFew(s: seq<Id>, all: set<Id>)
    requires Distinct(s) && forall x :: x in s ==> x in all
    ensures |s| <= |all|
  {
    if s != [] {
      var n := |s| - 1;
      forall x | x in s[..n] ensures x in all - {s[n]} {
        var i :| 0 <= i < n && s[..n][i] == x;
        assert s[i] == x;
      }
      DistinctAreFew(s[..n], all - {s[n]});
    }
  }

  lemma {:induction false} LimitsAreFew(limits: seq<Limit>, all: set<Id>)
    requires OneEach(limits) && forall l :: l in limits ==> l.owner in all
    ensures |limits| <= |all|
  {
    if limits != [] {
      var n := |limits| - 1;
      forall l | l in limits[..n] ensures l.owner in all - {limits[n].owner} {
        var i :| 0 <= i < n && limits[..n][i] == l;
        assert limits[i] == l;
      }
      assert limits[n] in limits;
      LimitsAreFew(limits[..n], all - {limits[n].owner});
    }
  }

  lemma LimitsFit(limits: seq<Limit>, adj: Ordered, times: map<Id, int>, chosen: seq<Edge>, isFollow: bool,
                  names: map<Id, Str>)
    requires CountsOf(limits, chosen, isFollow) && Fits(|names|) && AllEdgesKnown(chosen, names)
    requires WithinSets(limits, adj) && forall o :: Fits(|TargetsOf(adj, o)|) && Fits(TimeOf(times, o))
    ensures Fits(|limits|) && forall l :: l in limits ==> Fits(l.limit) && Fits(TimeOf(times, l.owner))
  {
    forall l | l in limits ensures l.owner in names.Keys && Fits(l.limit) {
      var i :| 0 <= i < |limits| && limits[i] == l;
      var j :| 0 <= j < |chosen| && chosen[j].owner == l.owner;
      assert Known(chosen[j], names);
      assert Fits(|TargetsOf(adj, l.owner)|);
    }
    LimitsAreFew(limits, names.Keys);
  }

  lemma EndsAreNamed(used: seq<Id>, chosen: seq<Edge>, names: map<Id, Str>)
    requires Covers(used, chosen) && AllEdgesKnown(chosen, names)
    ensures forall x :: x in used ==> x in names
  {
    forall x | x in used ensures x in names {
      assert Touches(chosen, x);
      var i :| 0 <= i < |chosen| && (chosen[i].owner == x || chosen[i].target == x);
      assert Known(chosen[i], names);
    }
  }

  lemma PartIsHoldable(g: Source, p: Plan, chosen: seq<Edge>)
    requires AllHoldable(g) && PlanOf(p, chosen) && AllEdgesKnown(chosen, g.names)
    requires Prefixes(chosen, g.followed, g.muted)
    ensures PlanHoldable(g, p)
  {
    EndsAreNamed(p.usedIds, chosen, g.names);
    DistinctAreFew(p.usedIds, g.names.Keys);
    PrefixesAreWithin(p, chosen, g.followed, g.muted);
    LimitsFit(p.follows, g.followed, g.followTimes, chosen, true, g.names);
    LimitsFit(p.mutes, g.muted, g.muteTimes, chosen, false, g.names);
  }

  /** Planned under a budget, saved and loaded: the follows and mutes of the new graph are the
      candidate edges up to the first one that does not fit, and the budget holds of them. */
  method SaveAndLoadBudgeted(root: Str, g: Source, buckets: Ordered, budget: Budget)
    returns (graph: SocialGraph, ids: UniqueIds, ghost p: Plan, ghost chosen: seq<Edge>, ghost n: nat)
    requires !IsBlank(root) && AllHoldable(g) && DisjointBuckets(buckets)
    requires AllKnown(g.followed, g.muted, buckets, g.names)
    ensures StopsAt(p, chosen, Candidates(buckets, g.followed, g.muted, budget), n, budget, g.names)
    ensures Obeys(|p.usedIds|, budget.maxNodes) && Obeys(|chosen|, budget.maxEdges) && Covers(p.usedIds, chosen)
    ensures graph.Valid() && LoadsChosen(graph.followedByUser, chosen, true)
    ensures LoadsChosen(graph.mutedByUser, chosen, false)
    ensures PlanOf(p, chosen) && LoadedDistances(graph) && LoadedInOrder(graph, p, g)
    ensures root in ids.strToUniqueId && graph.root == ids.strToUniqueId[root]
    ensures ids.Valid() && forall x :: Touches(chosen, x) ==>
              x in g.names && x in ids.uniqueIdToStr && ids.uniqueIdToStr[x] == g.names[x]
  {
    var plan;
    plan, chosen, n := PlanBudget(buckets, g.followed, g.muted, g.names, budget);
    p := plan;
    forall i | 0 <= i < |chosen| ensures Known(chosen[i], g.names) { assert chosen[i] in chosen; }
    PartIsHoldable(g, plan, chosen);
    graph, ids := SaveAndLoadPlan(root, g, plan, chosen);
  }
}
