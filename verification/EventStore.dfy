/** The event store's lists: time indexes read newest first with an early stop. */
module EventStore {
  import opened Keys
  import opened Directory
  import opened Bytes
  import opened EventKeys
  import opened Hex
  import opened BTree
  import opened BTreeRouting
  import opened BTreeBuild
  import BTreeRange

  // ---------------------------------------------------------------- listing

  datatype ListOptions = ListOptions(limit: Option<int>, since: Option<int>, until: Option<int>)

  predicate InWindow(e: Event, o: ListOptions) {
    (o.since.Some? ==> e.createdAt >= o.since.value) && (o.until.Some? ==> e.createdAt <= o.until.value)
  }

  /** The events of an index that a list call asks for, in index order. */
  ghost function Wanted(entries: seq<Entry<Event>>, o: ListOptions): seq<Event> {
    if entries == [] then []
    else
      var init, last := entries[..|entries| - 1], entries[|entries| - 1].val;
      Wanted(init, o) + if InWindow(last, o) then [last] else []
  }

  /** The limit is tested after an event is added: a limit below 1 acts as 1. */
  function Cap(o: ListOptions): Option<nat> {
    if o.limit.None? then None else Some(Max(1, o.limit.value))
  }

  ghost function Capped(all: seq<Event>, o: ListOptions): seq<Event> {
    if Cap(o).Some? && |all| > Cap(o).value then all[..Cap(o).value] else all
  }

  /** Every key is this prefix and the time key of its event, and times can be read back. */
  ghost predicate TimeIndex(entries: seq<Entry<Event>>, p: Str) {
    && KeyPrefix(p)
    && forall i :: 0 <= i < |entries| ==> TimeEntry(entries[i], p)
  }

  ghost predicate TimeEntry(en: Entry<Event>, p: Str) {
    ValidEvent(en.val) && en.val.createdAt <= MAX_SAFE && en.name == p + TimeKey(en.val)
  }

  ghost predicate NewestFirst(events: seq<Event>) {
    forall i, j :: 0 <= i < j < |events| ==> Newer(events[i], events[j])
  }

  /** An index in key order. */
  ghost predicate Listable(entries: seq<Entry<Event>>, p: Str) {
    Sorted(entries) && TimeIndex(entries, p)
  }

  lemma SortedIsNewestFirst(entries: seq<Entry<Event>>, p: Str, i: nat, j: nat)
    requires Sorted(entries) && TimeIndex(entries, p) && i < j < |entries|
    ensures Newer(entries[i].val, entries[j].val)
  {
    assert TimeEntry(entries[i], p) && TimeEntry(entries[j], p);
    KeyOrderIsNewestFirst(p, entries[i].val, entries[j].val);
  }

  lemma {:induction false} WantedAppend(a: seq<Entry<Event>>, b: seq<Entry<Event>>, o: ListOptions)
    ensures Wanted(a + b, o) == Wanted(a, o) + Wanted(b, o)
    decreases |b|
  {
    if b == [] {
      assert a + b == a;
    } else {
      assert (a + b)[..|a + b| - 1] == a + b[..|b| - 1];
      WantedAppend(a, b[..|b| - 1], o);
    }
  }

  lemma {:induction false} NothingWanted(entries: seq<Entry<Event>>, o: ListOptions)
    requires forall i :: 0 <= i < |entries| ==> !InWindow(entries[i].val, o)
    ensures Wanted(entries, o) == []
  {
    if entries != [] { NothingWanted(entries[..|entries| - 1], o); }
  }

  /** From the first event before `since` on, all are. */
  lemma TooOldFromHere(entries: seq<Entry<Event>>, p: Str, i: nat, o: ListOptions)
    requires Sorted(entries) && TimeIndex(entries, p) && i < |entries|
    requires o.since.Some? && entries[i].val.createdAt < o.since.value
    ensures Wanted(entries, o) == Wanted(entries[..i], o)
  {
    forall j | 0 <= j < |entries[i..]| ensures !InWindow(entries[i..][j].val, o) {
      if j > 0 { SortedIsNewestFirst(entries, p, i, i + j); }
    }
    NothingWanted(entries[i..], o);
    assert entries == entries[..i] + entries[i..];
    WantedAppend(entries[..i], entries[i..], o);
  }

  /** The events collected from the first i entries. */
  ghost predicate Collected(entries: seq<Entry<Event>>, i: nat, o: ListOptions, events: seq<Event>) {
    i <= |entries| && events == Wanted(entries[..i], o)
  }

  /** All that is asked for has been collected. */
  ghost predicate Complete(entries: seq<Entry<Event>>, o: ListOptions, events: seq<Event>) {
    events == Capped(Wanted(entries, o), o)
  }

  lemma CollectedOneMore(entries: seq<Entry<Event>>, i: nat, o: ListOptions, events: seq<Event>)
    requires Collected(entries, i, o, events) && i < |entries|
    ensures Collected(entries, i + 1, o, if InWindow(entries[i].val, o) then events + [entries[i].val] else events)
  {
    assert entries[..i + 1][..i] == entries[..i];
    assert events + [] == events;
  }

  /** Once the limit is reached, the rest does not matter. */
  lemma CollectedEnough(entries: seq<Entry<Event>>, i: nat, o: ListOptions, events: seq<Event>)
    requires Collected(entries, i, o, events) && Cap(o).Some? && |events| == Cap(o).value
    ensures Complete(entries, o, events)
  {
    assert entries == entries[..i] + entries[i..];
    WantedAppend(entries[..i], entries[i..], o);
  }

  lemma CollectedToEnd(entries: seq<Entry<Event>>, o: ListOptions, events: seq<Event>)
    requires Collected(entries, |entries|, o, events) && (Cap(o).Some? ==> |events| <= Cap(o).value)
    ensures Complete(entries, o, events)
  {
    assert entries[..|entries|] == entries;
  }

  /** All the rest is too old. */
  lemma CollectedUntilOld(entries: seq<Entry<Event>>, i: nat, o: ListOptions, p: Str, events: seq<Event>)
    requires Collected(entries, i, o, events) && (Cap(o).Some? ==> |events| <= Cap(o).value)
    requires Listable(entries, p) && i < |entries| && o.since.Some? && entries[i].val.createdAt < o.since.value
    ensures Complete(entries, o, events)
  {
    TooOldFromHere(entries, p, i, o);
  }

  /** More may be collected. */
  ghost predicate BelowCap(events: seq<Event>, o: ListOptions) {
    Cap(o).Some? ==> |events| < Cap(o).value
  }

  /** collectEvents, over an index enumerated in key order: all wanted events up to the limit,
      although it stops early. */
  method CollectEvents(entries: seq<Entry<Event>>, o: ListOptions, ghost p: Str) returns (r: Result<seq<Event>>)
    ensures Listable(entries, p) ==> r == Ok(Capped(Wanted(entries, o), o))
  {
    var events: seq<Event> := [];
    ghost var good := Listable(entries, p);
    for i := 0 to |entries|
      invariant BelowCap(events, o) && (good ==> Collected(entries, i, o, events))
    {
      var stop: bool;
      ghost var had := events;
      r, stop := CollectOne(entries[i], o, events);
      TurnStaysBelow(CreatedAtOfKey(entries[i].name), entries[i].val, o, had);
      if good { TurnCollects(entries, i, o, had, p, r, stop); }
      if stop { return; }
      events := r.value;
    }
    if good { CollectedToEnd(entries, o, events); }
    r := Ok(events);
  }

  /** One turn of its loop: Err where it throws, true where it leaves the loop. */
  function Turn(createdAt: Result<int>, e: Event, o: ListOptions, events: seq<Event>): (Result<seq<Event>>, bool) {
    if createdAt.Err? then (Err, true)
    else if o.until.Some? && createdAt.value > o.until.value then (Ok(events), false)
    else if o.since.Some? && createdAt.value < o.since.value then (Ok(events), true)
    else (Ok(events + [e]), o.limit.Some? && |events + [e]| >= o.limit.value)
  }

  method CollectOne(entry: Entry<Event>, o: ListOptions, events: seq<Event>)
    returns (r: Result<seq<Event>>, stop: bool)
    ensures (r, stop) == Turn(CreatedAtOfKey(entry.name), entry.val, o, events)
  {
    var createdAt := CreatedAtOfKey(entry.name);
    if createdAt.Err? { return Err, true; }
    if o.until.Some? && createdAt.value > o.until.value { return Ok(events), false; }
    if o.since.Some? && createdAt.value < o.since.value { return Ok(events), true; }
    var more := events + [entry.val];
    r, stop := Ok(more), o.limit.Some? && |more| >= o.limit.value;
  }

  lemma TurnStaysBelow(createdAt: Result<int>, e: Event, o: ListOptions, events: seq<Event>)
    requires BelowCap(events, o)
    ensures !Turn(createdAt, e, o, events).1 ==>
              Turn(createdAt, e, o, events).0.Ok? && BelowCap(Turn(createdAt, e, o, events).0.value, o)
  {
  }

  /** On an index, a turn collects one entry, or leaves the loop with all that is asked for. */
  lemma TurnCollects(entries: seq<Entry<Event>>, i: nat, o: ListOptions, events: seq<Event>, p: Str,
                     r: Result<seq<Event>>, stop: bool)
    requires i < |entries| && BelowCap(events, o) && Listable(entries, p) && Collected(entries, i, o, events)
    requires (r, stop) == Turn(CreatedAtOfKey(entries[i].name), entries[i].val, o, events)
    ensures r.Ok? && if stop then Complete(entries, o, r.value) else Collected(entries, i + 1, o, r.value)
  {
    TimeOfEntry(entries, p, i);
    TimedTurn(entries, i, o, events, p, r, stop);
  }

  lemma TimedTurn(entries: seq<Entry<Event>>, i: nat, o: ListOptions, events: seq<Event>, p: Str,
                  r: Result<seq<Event>>, stop: bool)
    requires i < |entries| && BelowCap(events, o) && Listable(entries, p) && Collected(entries, i, o, events)
    requires (r, stop) == Turn(Ok(entries[i].val.createdAt), entries[i].val, o, events)
    ensures r.Ok? && if stop then Complete(entries, o, r.value) else Collected(entries, i + 1, o, r.value)
  {
    var e := entries[i].val;
    if o.until.Some? && e.createdAt > o.until.value {
      SkippedOne(entries, i, o, events);
    } else if o.since.Some? && e.createdAt < o.since.value {
      CollectedUntilOld(entries, i, o, p, events);
    } else {
      TookOne(entries, i, o, events);
      if stop { CollectedEnough(entries, i + 1, o, events + [e]); }
    }
  }

  lemma SkippedOne(entries: seq<Entry<Event>>, i: nat, o: ListOptions, events: seq<Event>)
    requires Collected(entries, i, o, events) && i < |entries| && !InWindow(entries[i].val, o)
    ensures Collected(entries, i + 1, o, events)
  {
    CollectedOneMore(entries, i, o, events);
  }

  lemma TookOne(entries: seq<Entry<Event>>, i: nat, o: ListOptions, events: seq<Event>)
    requires Collected(entries, i, o, events) && i < |entries| && InWindow(entries[i].val, o)
    ensures Collected(entries, i + 1, o, events + [entries[i].val])
  {
    CollectedOneMore(entries, i, o, events);
  }

  lemma TimeOfEntry(entries: seq<Entry<Event>>, p: Str, i: nat)
    requires TimeIndex(entries, p) && i < |entries|
    ensures CreatedAtOfKey(entries[i].name) == Ok(entries[i].val.createdAt)
  {
    assert TimeEntry(entries[i], p);
    TimeReadsBackExactly(p, entries[i].val);
  }

  // ---------------------------------------------------------------- a time index after any adds

  /** What add puts into a time index: the prefix of a key, which the time key follows, and the event. */
  type Placed = (Str, Event)

  function Key(x: Placed): Str {
    x.0 + TimeKey(x.1)
  }

  function InsertOf(x: Placed): (Str, Event) {
    (Key(x), x.1)
  }

  lemma {:induction false} InsertAt(placed: seq<Placed>, i: nat)
    requires i < |placed|
    ensures Inserts(placed)[i] == InsertOf(placed[i])
  {
    if i < |placed| - 1 { InsertAt(placed[..|placed| - 1], i); }
  }

  function Inserts(placed: seq<Placed>): (ops: seq<(Str, Event)>)
    ensures |ops| == |placed|
  {
    if placed == [] then [] else Inserts(placed[..|placed| - 1]) + [InsertOf(placed[|placed| - 1])]
  }

  /** Ids are hashes of events, so one id is one event; times can be read back. */
  ghost predicate Indexable(placed: seq<Placed>) {
    && (forall i :: 0 <= i < |placed| ==>
          ValidEvent(placed[i].1) && placed[i].1.createdAt <= MAX_SAFE && KeyPrefix(placed[i].0))
    && (forall i, j :: 0 <= i < |placed| && 0 <= j < |placed| && placed[i].1.id == placed[j].1.id ==>
          placed[i].1 == placed[j].1)
  }

  lemma IndexablePart(placed: seq<Placed>)
    requires Indexable(placed) && placed != []
    ensures Indexable(placed[..|placed| - 1])
  {
  }

  /** e is placed under the key x. */
  ghost predicate PlacedAt(placed: seq<Placed>, x: Str, e: Event) {
    exists i :: 0 <= i < |placed| && placed[i].1 == e && Key(placed[i]) == x
  }

  /** A map that stands for an index has at x what is placed there, and nothing else. */
  ghost predicate HoldsAt(placed: seq<Placed>, m: map<Str, Event>, x: Str) {
    && (x in m ==> PlacedAt(placed, x, m[x]))
    && forall e :: PlacedAt(placed, x, e) ==> x in m && m[x] == e
  }

  lemma PlacedOneMore(placed: seq<Placed>, x: Str, e: Event)
    requires placed != []
    ensures (var last := placed[|placed| - 1];
             PlacedAt(placed, x, e) <==> PlacedAt(placed[..|placed| - 1], x, e) || (last.1 == e && Key(last) == x))
  {
    var init := placed[..|placed| - 1];
    if PlacedAt(init, x, e) {
      var i :| 0 <= i < |init| && init[i].1 == e && Key(init[i]) == x;
      assert placed[i] == init[i];
    }
    if PlacedAt(placed, x, e) {
      var i :| 0 <= i < |placed| && placed[i].1 == e && Key(placed[i]) == x;
      assert i < |init| ==> init[i] == placed[i];
    }
  }

  lemma SameKeySameEvent(placed: seq<Placed>, x: Str, a: Event, b: Event)
    requires Indexable(placed) && PlacedAt(placed, x, a) && PlacedAt(placed, x, b)
    ensures a == b
  {
    var i :| 0 <= i < |placed| && placed[i].1 == a && Key(placed[i]) == x;
    var j :| 0 <= j < |placed| && placed[j].1 == b && Key(placed[j]) == x;
    IndexKeyIdentifies(placed[i].0, a, placed[j].0, b);
  }

  /** The map an index stands for has exactly what was placed. */
  lemma {:induction false} IndexModel(placed: seq<Placed>, x: Str)
    requires Indexable(placed)
    ensures HoldsAt(placed, Model(Inserts(placed)), x)
  {
    if placed != [] {
      var init, last, ops := placed[..|placed| - 1], placed[|placed| - 1], Inserts(placed);
      IndexablePart(placed);
      IndexModel(init, x);
      assert ops[..|ops| - 1] == Inserts(init);
      forall e ensures PlacedAt(placed, x, e) <==> PlacedAt(init, x, e) || (last.1 == e && Key(last) == x) {
        PlacedOneMore(placed, x, e);
      }
      forall e | PlacedAt(placed, x, e) ensures x == Key(last) ==> e == last.1 {
        if x == Key(last) { SameKeySameEvent(placed, x, e, last.1); }
      }
    }
  }

  lemma {:induction false} EntryOfLookup<T>(d: seq<Entry<T>>, x: Str) returns (i: nat)
    requires Lookup(d, x).Some?
    ensures i < |d| && d[i].name == x && d[i].val == Lookup(d, x).value
  {
    if d[0].name == x { return 0; }
    i := EntryOfLookup(d[1..], x);
    i := i + 1;
  }

  ghost predicate HasEvent(d: seq<Entry<Event>>, e: Event) {
    exists i :: 0 <= i < |d| && d[i].val == e
  }

  /** The index holds exactly what was placed, each under its key, in key order. */
  ghost predicate IndexOf(placed: seq<Placed>, d: seq<Entry<Event>>) {
    && Sorted(d)
    && (forall en :: en in d ==> PlacedAt(placed, en.name, en.val))
    && (forall x :: x in placed ==> Entry(Key(x), x.1) in d)
  }

  /** After any run of adds, a time index lists exactly what was placed in it. */
  lemma IndexEntries(placed: seq<Placed>, maxKeys: nat)
    requires maxKeys >= 2 && placed != [] && Indexable(placed)
    ensures Routed(Build(Inserts(placed), maxKeys).value, None, None)
    ensures IndexOf(placed, Entries(Build(Inserts(placed), maxKeys).value))
  {
    var ops := Inserts(placed);
    var h := BuildRefinesMap(ops, maxKeys);
    var d := Entries(Build(ops, maxKeys).value);
    forall en | en in d ensures PlacedAt(placed, en.name, en.val) {
      var i :| 0 <= i < |d| && d[i] == en;
      LookupSome(d, i);
      assert MapGet(Model(ops), en.name) == Some(en.val);
      IndexModel(placed, en.name);
    }
    forall x | x in placed ensures Entry(Key(x), x.1) in d {
      var k :| 0 <= k < |placed| && placed[k] == x;
      IndexModel(placed, Key(x));
      assert PlacedAt(placed, Key(x), x.1);
      assert Lookup(d, Key(x)) == Some(x.1);
      var i := EntryOfLookup(d, Key(x));
      assert d[i] == Entry(Key(x), x.1);
    }
  }

  // ---------------------------------------------------------------- one list of an index

  /** Exactly the events placed under the list's prefix, of those in the window, newest first. */
  ghost predicate ListOf(all: seq<Event>, placed: seq<Placed>, p: Str, o: ListOptions) {
    NewestFirst(all) && forall e :: e in all <==> (p, e) in placed && InWindow(e, o)
  }

  /** No key outside the list starts with the list's prefix. */
  ghost predicate Separate(placed: seq<Placed>, p: Str) {
    forall i :: 0 <= i < |placed| && StartsWith(Key(placed[i]), p) ==> placed[i].0 == p
  }

  lemma {:induction false} WantedHas(d: seq<Entry<Event>>, o: ListOptions, e: Event)
    ensures e in Wanted(d, o) <==> InWindow(e, o) && HasEvent(d, e)
  {
    if d != [] {
      var n := |d| - 1;
      WantedHas(d[..n], o, e);
      if HasEvent(d[..n], e) {
        var i :| 0 <= i < n && d[..n][i].val == e;
        assert d[i].val == e;
      }
      if HasEvent(d, e) {
        var i :| 0 <= i < |d| && d[i].val == e;
        assert i < n ==> d[..n][i].val == e;
      }
      assert d[n].val == e ==> HasEvent(d, e);
    }
  }

  lemma {:induction false} WantedIsNewestFirst(d: seq<Entry<Event>>, o: ListOptions, p: Str)
    requires Sorted(d) && TimeIndex(d, p)
    ensures NewestFirst(Wanted(d, o))
  {
    if d != [] {
      var n := |d| - 1;
      var init := d[..n];
      assert forall i :: 0 <= i < n ==> TimeEntry(init[i], p);
      WantedIsNewestFirst(init, o, p);
      forall k | 0 <= k < |Wanted(init, o)| ensures Newer(Wanted(init, o)[k], d[n].val) {
        WantedHas(init, o, Wanted(init, o)[k]);
        var i :| 0 <= i < n && init[i].val == Wanted(init, o)[k];
        SortedIsNewestFirst(d, p, i, n);
      }
    }
  }

  /** Part of an index under one list's prefix. */
  ghost predicate PartOf(part: seq<Entry<Event>>, d: seq<Entry<Event>>, p: Str) {
    Sorted(part) && forall e :: e in part ==> e in d && StartsWith(e.name, p)
  }

  lemma PartIsTimeIndex(placed: seq<Placed>, part: seq<Entry<Event>>, d: seq<Entry<Event>>, p: Str)
    requires Indexable(placed) && IndexOf(placed, d) && KeyPrefix(p) && Separate(placed, p) && PartOf(part, d, p)
    ensures Listable(part, p)
    ensures forall i :: 0 <= i < |part| ==> (p, part[i].val) in placed
  {
    forall i | 0 <= i < |part| ensures TimeEntry(part[i], p) && (p, part[i].val) in placed {
      assert part[i] in part && part[i] in d;
      var k :| 0 <= k < |placed| && placed[k].1 == part[i].val && Key(placed[k]) == part[i].name;
      assert placed[k] == (p, part[i].val);
    }
  }

  lemma KeyStarts(p: Str, e: Event)
    ensures StartsWith(Key((p, e)), p)
  {
  }

  /** Collecting from all of the list's entries gives the list. */
  lemma WholePartLists(placed: seq<Placed>, part: seq<Entry<Event>>, d: seq<Entry<Event>>, p: Str, o: ListOptions)
    requires Indexable(placed) && IndexOf(placed, d) && KeyPrefix(p) && Separate(placed, p) && PartOf(part, d, p)
    requires forall en :: en in d && StartsWith(en.name, p) ==> en in part
    ensures ListOf(Wanted(part, o), placed, p, o)
  {
    PartIsTimeIndex(placed, part, d, p);
    WantedIsNewestFirst(part, o, p);
    forall e ensures e in Wanted(part, o) <==> (p, e) in placed && InWindow(e, o) {
      WantedHas(part, o, e);
      if (p, e) in placed {
        KeyStarts(p, e);
        var i :| 0 <= i < |part| && part[i] == Entry(Key((p, e)), e);
      }
      if HasEvent(part, e) { var i :| 0 <= i < |part| && part[i].val == e; }
    }
  }

  /** No limit and no window. */
  const EVERYTHING := ListOptions(None, None, None)

  /** Collecting from fewer entries misses an event. */
  lemma PartMisses(placed: seq<Placed>, part: seq<Entry<Event>>, d: seq<Entry<Event>>, p: Str, en: Entry<Event>)
    requires Indexable(placed) && IndexOf(placed, d) && KeyPrefix(p) && Separate(placed, p) && PartOf(part, d, p)
    requires en in d && StartsWith(en.name, p) && en !in part
    ensures !ListOf(Wanted(part, EVERYTHING), placed, p, EVERYTHING)
  {
    var k :| 0 <= k < |placed| && placed[k].1 == en.val && Key(placed[k]) == en.name;
    assert placed[k] == (p, en.val);
    PartIsTimeIndex(placed, part, d, p);
    WantedHas(part, EVERYTHING, en.val);
    assert TimeEntry(en, p);
    forall i | 0 <= i < |part| ensures part[i].val != en.val {
      assert part[i] in part;
      OneEntryEach(part[i], en, p);
    }
  }

  lemma OneEntryEach(a: Entry<Event>, b: Entry<Event>, p: Str)
    requires TimeEntry(a, p) && TimeEntry(b, p)
    ensures a.val == b.val ==> a == b
  {
  }

  lemma {:induction false} WithPrefixHas<V>(d: seq<Entry<V>>, p: Str, e: Entry<V>)
    ensures e in BTreeRange.WithPrefix(d, p) <==> e in d && StartsWith(e.name, p)
  {
    if d != [] { WithPrefixHas(d[1..], p, e); }
  }

  /** The scan's early stop hides nothing of the list. */
  ghost predicate SeesList(t: Node<Event>, p: Str) {
    BTreeRange.Sees(t, Some(p), Some(IncrementPrefix(p)))
  }

  lemma ScanIsPart(t: Node<Event>, p: Str)
    requires Routed(t, None, None) && KeyPrefix(p) && p != []
    ensures PartOf(BTreeRange.Prefix(t, p), Entries(t), p)
  {
    BTreeRange.RangeSorted(t, None, None, Some(p), Some(IncrementPrefix(p)));
    forall e | e in BTreeRange.Prefix(t, p) ensures e in Entries(t) && StartsWith(e.name, p) {
      BTreeRange.RangeWithin(t, Some(p), Some(IncrementPrefix(p)), e);
      BTreeRange.RangeMeetsBounds(t, Some(p), Some(IncrementPrefix(p)), e);
      PrefixInterval(p, e.name);
    }
  }

  lemma ScanIsWhole(t: Node<Event>, p: Str)
    requires Routed(t, None, None) && KeyPrefix(p) && p != [] && SeesList(t, p)
    ensures forall en :: en in Entries(t) && StartsWith(en.name, p) ==> en in BTreeRange.Prefix(t, p)
  {
    BTreeRange.PrefixExactly(t, p);
    forall en | en in Entries(t) && StartsWith(en.name, p) ensures en in BTreeRange.Prefix(t, p) {
      WithPrefixHas(Entries(t), p, en);
    }
  }

  lemma ScanMisses(t: Node<Event>, p: Str) returns (en: Entry<Event>)
    requires Routed(t, None, None) && KeyPrefix(p) && p != [] && !SeesList(t, p)
    ensures en in Entries(t) && StartsWith(en.name, p) && en !in BTreeRange.Prefix(t, p)
  {
    en := BTreeRange.BlindMisses(t, None, None, Some(p), Some(IncrementPrefix(p)));
    PrefixInterval(p, en.name);
  }

  /** The list that is asked for, up to the limit. */
  ghost predicate Exact(listed: seq<Event>, placed: seq<Placed>, p: Str, o: ListOptions) {
    exists all :: ListOf(all, placed, p, o) && listed == Capped(all, o)
  }

  /** What collectEvents lists under a prefix. */
  ghost function Listed(t: Node<Event>, p: Str, o: ListOptions): seq<Event> {
    Capped(Wanted(BTreeRange.Prefix(t, p), o), o)
  }

  /** After any run of adds, a list is exact for all options if and only if its scan sees all of it. */
  lemma ListIsExactly(placed: seq<Placed>, maxKeys: nat, p: Str)
    requires maxKeys >= 2 && placed != [] && Indexable(placed) && KeyPrefix(p) && p != [] && Separate(placed, p)
    ensures (var t := Build(Inserts(placed), maxKeys).value;
             (forall o :: Exact(Listed(t, p, o), placed, p, o)) <==> SeesList(t, p))
  {
    var t := Build(Inserts(placed), maxKeys).value;
    var part := BTreeRange.Prefix(t, p);
    IndexEntries(placed, maxKeys);
    ScanIsPart(t, p);
    if SeesList(t, p) {
      ScanIsWhole(t, p);
      forall o ensures Exact(Listed(t, p, o), placed, p, o) {
        WholePartLists(placed, part, Entries(t), p, o);
      }
    } else {
      var en := ScanMisses(t, p);
      PartMisses(placed, part, Entries(t), p, en);
      assert !Exact(Listed(t, p, EVERYTHING), placed, p, EVERYTHING);
    }
  }

  /** collectEvents under a list's prefix, on the index after any run of adds. */
  method ListUnder(root: Node<Event>, p: Str, o: ListOptions, ghost placed: seq<Placed>, ghost maxKeys: nat)
    returns (r: Result<seq<Event>>)
    requires maxKeys >= 2 && Indexable(placed) && KeyPrefix(p) && p != [] && Separate(placed, p)
    requires Some(root) == Build(Inserts(placed), maxKeys)
    ensures r == Ok(Listed(root, p, o))
    ensures SeesList(root, p) ==> Exact(r.value, placed, p, o)
  {
    IndexEntries(placed, maxKeys);
    ScanIsPart(root, p);
    PartIsTimeIndex(placed, BTreeRange.Prefix(root, p), Entries(root), p);
    r := CollectEvents(BTreeRange.Prefix(root, p), o, p);
    if SeesList(root, p) { ListIsExactly(placed, maxKeys, p); }
  }

  // ---------------------------------------------------------------- the lists by author and kind

  /** What a run of adds places in one of the four indexes. */
  function Placements(l: Listing, events: seq<Event>): (r: seq<Placed>)
    ensures |r| == |events| && forall i :: 0 <= i < |r| ==>
              r[i] == (Scope(l, events[i].pubkey, events[i].kind), events[i])
  {
    if events == [] then []
    else
      var last := events[|events| - 1];
      Placements(l, events[..|events| - 1]) + [(Scope(l, last.pubkey, last.kind), last)]
  }

  ghost predicate Addable(events: seq<Event>) {
    && (forall i :: 0 <= i < |events| ==> ValidEvent(events[i]) && events[i].createdAt <= MAX_SAFE)
    && (forall i, j :: 0 <= i < |events| && 0 <= j < |events| && events[i].id == events[j].id ==>
          events[i] == events[j])
  }

  lemma PlacementsIndexable(l: Listing, events: seq<Event>)
    requires Addable(events)
    ensures Indexable(Placements(l, events))
  {
    forall i | 0 <= i < |events| ensures KeyPrefix(Placements(l, events)[i].0) {
      ScopeIsKeyPrefix(l, events[i].pubkey, events[i].kind);
    }
  }

  /** An author's prefix belongs to that author alone, a kind's to that kind. */
  lemma ScopesAreSeparate(l: Listing, events: seq<Event>, pubkey: Str, kind: nat)
    requires Addable(events) && Hex64(pubkey)
    ensures Indexable(Placements(l, events)) && Separate(Placements(l, events), Scope(l, pubkey, kind))
    ensures forall e :: (Scope(l, pubkey, kind), e) in Placements(l, events) <==>
            e in events && InScope(l, e, pubkey, kind)
  {
    var placed, p := Placements(l, events), Scope(l, pubkey, kind);
    PlacementsIndexable(l, events);
    forall i | 0 <= i < |events|
      ensures StartsWith(Key(placed[i]), p) <==> InScope(l, events[i], pubkey, kind)
      ensures InScope(l, events[i], pubkey, kind) <==> placed[i].0 == p
    {
      ScopeExactly(l, events[i], pubkey, kind);
      KeyStarts(placed[i].0, events[i]);
      assert IndexKey(l, events[i]) == Key(placed[i]);
      if InScope(l, events[i], pubkey, kind) { SameParts(placed[i].0, TimeKey(events[i]), p, TimeKey(events[i])); }
    }
    forall e ensures (p, e) in placed <==> e in events && InScope(l, e, pubkey, kind) {
      if (p, e) in placed { var i :| 0 <= i < |placed| && placed[i] == (p, e); }
      if e in events && InScope(l, e, pubkey, kind) {
        var i :| 0 <= i < |events| && events[i] == e;
        assert placed[i] == (p, e);
      }
    }
  }

  /** The list by author, by kind or by both that is asked for, up to the limit. */
  ghost predicate ExactScope(listed: seq<Event>, events: seq<Event>, l: Listing, pubkey: Str, kind: nat,
                             o: ListOptions) {
    exists all :: ScopeList(all, events, l, pubkey, kind, o) && listed == Capped(all, o)
  }

  /** Exactly the added events of the list in the window, newest first. */
  ghost predicate ScopeList(all: seq<Event>, events: seq<Event>, l: Listing, pubkey: Str, kind: nat, o: ListOptions) {
    NewestFirst(all) && forall e :: e in all <==> e in events && InScope(l, e, pubkey, kind) && InWindow(e, o)
  }

  lemma SameList(listed: seq<Event>, events: seq<Event>, l: Listing, pubkey: Str, kind: nat, o: ListOptions)
    requires Addable(events) && Hex64(pubkey)
    ensures Exact(listed, Placements(l, events), Scope(l, pubkey, kind), o) <==>
            ExactScope(listed, events, l, pubkey, kind, o)
  {
    ScopesAreSeparate(l, events, pubkey, kind);
    var placed, p := Placements(l, events), Scope(l, pubkey, kind);
    forall all ensures ListOf(all, placed, p, o) <==> ScopeList(all, events, l, pubkey, kind, o) {}
  }

  /** After any run of adds, the lists of an author, of a kind, or of both are exact for all
      options if and only if their scan sees the whole list. */
  lemma ListsExactly(l: Listing, events: seq<Event>, maxKeys: nat, pubkey: Str, kind: nat)
    requires maxKeys >= 2 && events != [] && Addable(events) && l != ByTime && Hex64(pubkey)
    ensures (var t, p := Build(Inserts(Placements(l, events)), maxKeys).value, Scope(l, pubkey, kind);
             (forall o :: ExactScope(Listed(t, p, o), events, l, pubkey, kind, o)) <==> SeesList(t, p))
  {
    var placed, p := Placements(l, events), Scope(l, pubkey, kind);
    ScopesAreSeparate(l, events, pubkey, kind);
    ScopeIsKeyPrefix(l, pubkey, kind);
    var t := Build(Inserts(placed), maxKeys).value;
    ListIsExactly(placed, maxKeys, p);
    forall o ensures Exact(Listed(t, p, o), placed, p, o) <==> ExactScope(Listed(t, p, o), events, l, pubkey, kind, o) {
      SameList(Listed(t, p, o), events, l, pubkey, kind, o);
    }
  }

  /** The index is that of these adds. */
  ghost predicate IndexBuilt(root: Option<Node<Event>>, l: Listing, events: seq<Event>, maxKeys: nat) {
    && maxKeys >= 2
    && Addable(events)
    && root == Build(Inserts(Placements(l, events)), maxKeys)
  }

  /** What the list calls have in common, once their arguments are valid. */
  method ListScope(root: Option<Node<Event>>, l: Listing, pubkey: Str, kind: nat, o: ListOptions,
                   ghost events: seq<Event>, ghost maxKeys: nat)
    returns (r: Result<seq<Event>>)
    requires IndexBuilt(root, l, events, maxKeys) && l != ByTime && Hex64(pubkey)
    ensures r == Ok(if root.None? then [] else Listed(root.value, Scope(l, pubkey, kind), o))
    ensures (root.Some? ==> SeesList(root.value, Scope(l, pubkey, kind))) ==>
              ExactScope(r.value, events, l, pubkey, kind, o)
  {
    if root.None? {
      assert ScopeList([], events, l, pubkey, kind, o);
      return Ok([]);
    }
    ScopesAreSeparate(l, events, pubkey, kind);
    ScopeIsKeyPrefix(l, pubkey, kind);
    r := ListUnder(root.value, Scope(l, pubkey, kind), o, Placements(l, events), maxKeys);
    SameList(r.value, events, l, pubkey, kind, o);
  }

  /** The events of one author. With no index yet there are none, whatever the key. */
  method ListByAuthor(byAuthorTime: Option<Node<Event>>, pubkey: Str, o: ListOptions, ghost events: seq<Event>,
                      ghost maxKeys: nat)
    returns (r: Result<seq<Event>>)
    requires IndexBuilt(byAuthorTime, ByAuthor, events, maxKeys)
    ensures r.Err? <==> byAuthorTime.Some? && !Hex64(pubkey)
    ensures r.Ok? && byAuthorTime.Some? ==> r.value == Listed(byAuthorTime.value, Scope(ByAuthor, pubkey, 0), o)
    ensures r.Ok? && (byAuthorTime.Some? ==> SeesList(byAuthorTime.value, Scope(ByAuthor, pubkey, 0))) ==>
              ExactScope(r.value, events, ByAuthor, pubkey, 0, o)
  {
    if byAuthorTime.None? {
      assert ScopeList([], events, ByAuthor, pubkey, 0, o);
      return Ok([]);
    }
    if !Hex64(pubkey) { return Err; }
    r := ListScope(byAuthorTime, ByAuthor, pubkey, 0, o, events, maxKeys);
  }

  /** The events of one author and kind. */
  method ListByAuthorAndKind(byAuthorKindTime: Option<Node<Event>>, pubkey: Str, kind: int, o: ListOptions,
                             ghost events: seq<Event>, ghost maxKeys: nat)
    returns (r: Result<seq<Event>>)
    requires IndexBuilt(byAuthorKindTime, ByAuthorAndKind, events, maxKeys)
    ensures r.Err? <==> byAuthorKindTime.Some? && (!Hex64(pubkey) || kind < 0)
    ensures r.Ok? && byAuthorKindTime.Some? ==>
              r.value == Listed(byAuthorKindTime.value, Scope(ByAuthorAndKind, pubkey, kind), o)
    ensures r.Ok? && kind >= 0 &&
            (byAuthorKindTime.Some? ==> SeesList(byAuthorKindTime.value, Scope(ByAuthorAndKind, pubkey, kind))) ==>
              ExactScope(r.value, events, ByAuthorAndKind, pubkey, kind, o)
  {
    if byAuthorKindTime.None? {
      assert kind >= 0 ==> ScopeList([], events, ByAuthorAndKind, pubkey, kind, o);
      return Ok([]);
    }
    if !Hex64(pubkey) || kind < 0 { return Err; }
    r := ListScope(byAuthorKindTime, ByAuthorAndKind, pubkey, kind, o, events, maxKeys);
  }

  const ANYONE: Str := Padded(0, 64)

  /** The events of one kind, by anyone. */
  method ListByKind(byKindTime: Option<Node<Event>>, kind: int, o: ListOptions, ghost events: seq<Event>,
                    ghost maxKeys: nat)
    returns (r: Result<seq<Event>>)
    requires IndexBuilt(byKindTime, ByKind, events, maxKeys)
    ensures r.Err? <==> byKindTime.Some? && kind < 0
    ensures r.Ok? && byKindTime.Some? ==> r.value == Listed(byKindTime.value, Scope(ByKind, ANYONE, kind), o)
    ensures r.Ok? && kind >= 0 && (byKindTime.Some? ==> SeesList(byKindTime.value, Scope(ByKind, ANYONE, kind))) ==>
              ExactScope(r.value, events, ByKind, ANYONE, kind, o)
  {
    if byKindTime.None? {
      assert kind >= 0 ==> ScopeList([], events, ByKind, ANYONE, kind, o);
      return Ok([]);
    }
    if kind < 0 { return Err; }
    r := ListScope(byKindTime, ByKind, ANYONE, kind, o, events, maxKeys);
  }

  /** listRecent: the by-time index is traversed whole, so it is exact on every tree. */
  method ListRecent(byTime: Option<Node<Event>>, o: ListOptions, ghost events: seq<Event>, ghost maxKeys: nat)
    returns (r: Result<seq<Event>>)
    requires IndexBuilt(byTime, ByTime, events, maxKeys)
    ensures r.Ok? && ExactScope(r.value, events, ByTime, ANYONE, 0, o)
  {
    if byTime.None? {
      assert ScopeList([], events, ByTime, ANYONE, 0, o);
      return Ok([]);
    }
    var entries := Entries(byTime.value);
    ghost var placed := Placements(ByTime, events);
    ScopesAreSeparate(ByTime, events, ANYONE, 0);
    IndexEntries(placed, maxKeys);
    PartIsTimeIndex(placed, entries, entries, []);
    WholePartLists(placed, entries, entries, [], o);
    r := CollectEvents(entries, o, []);
    SameList(r.value, events, ByTime, ANYONE, 0, o);
  }
}
