/** Range and prefix queries. The traversal stops at the first child whose name reaches the
    upper bound, so a query is exact exactly when that stop skips nothing it asks for. */
module BTreeRange {
  import opened Keys
  import opened Directory
  import opened BTree
  import opened BTreeRouting
  import opened BTreeBuild
  import opened BTreeWitness

  predicate From(key: Str, start: Option<Str>) {
    start.Some? ==> !Less(key, start.value)
  }

  predicate Before(key: Str, end: Option<Str>) {
    end.Some? ==> Less(key, end.value)
  }

  function LeafRange<V>(items: seq<Entry<V>>, start: Option<Str>, end: Option<Str>): seq<Entry<V>> {
    if items == [] then []
    else if !From(items[0].name, start) then LeafRange(items[1..], start, end)
    else if !Before(items[0].name, end) then []
    else [items[0]] + LeafRange(items[1..], start, end)
  }

  /** rangeTraverse; `start` skips a child whose successor's name is not above it. */
  function Range<V>(n: Node<V>, start: Option<Str>, end: Option<Str>): seq<Entry<V>>
    decreases n, 1
  {
    match n
    case Leaf(items) => LeafRange(items, start, end)
    case Internal(kids) => RangeOf(kids, start, end)
  }

  function RangeOf<V>(kids: seq<Entry<Node<V>>>, start: Option<Str>, end: Option<Str>): seq<Entry<V>>
    decreases kids, 0
  {
    if kids == [] then []
    else if start.Some? && |kids| > 1 && !Less(start.value, kids[1].name) then RangeOf(kids[1..], start, end)
    else if !Before(kids[0].name, end) then []
    else Range(kids[0].val, start, end) + RangeOf(kids[1..], start, end)
  }

  function Prefix<V>(n: Node<V>, p: Str): seq<Entry<V>> {
    Range(n, Some(p), Some(IncrementPrefix(p)))
  }

  /** What a range query asks for: the traversal, filtered. */
  ghost function Slice<V>(d: seq<Entry<V>>, start: Option<Str>, end: Option<Str>): seq<Entry<V>> {
    if d == [] then []
    else (if From(d[0].name, start) && Before(d[0].name, end) then [d[0]] else []) + Slice(d[1..], start, end)
  }

  lemma {:induction false} SliceAppend<V>(a: seq<Entry<V>>, b: seq<Entry<V>>, start: Option<Str>, end: Option<Str>)
    ensures Slice(a + b, start, end) == Slice(a, start, end) + Slice(b, start, end)
  {
    if a == [] {
      assert a + b == b;
    } else {
      assert (a + b)[1..] == a[1..] + b;
      SliceAppend(a[1..], b, start, end);
    }
  }

  lemma {:induction false} SliceNothing<V>(d: seq<Entry<V>>, start: Option<Str>, end: Option<Str>)
    requires forall i :: 0 <= i < |d| ==> !From(d[i].name, start) || !Before(d[i].name, end)
    ensures Slice(d, start, end) == []
  {
    if d != [] { SliceNothing(d[1..], start, end); }
  }

  lemma {:induction false} LeafRangeIsSlice<V>(items: seq<Entry<V>>, start: Option<Str>, end: Option<Str>)
    requires Sorted(items)
    ensures LeafRange(items, start, end) == Slice(items, start, end)
  {
    if items != [] {
      LeafRangeIsSlice(items[1..], start, end);
      if From(items[0].name, start) && !Before(items[0].name, end) {
        LessIsStrictTotalOrder();
        SliceNothing(items, start, end);
      }
    }
  }

  /** No key below an internal node is under the node's first name. */
  ghost predicate Honest<V>(n: Node<V>)
    decreases n
  {
    match n
    case Leaf(_) => true
    case Internal(kids) =>
      && (kids != [] ==> KeysFrom(EntriesOf(kids), kids[0].name))
      && forall i :: 0 <= i < |kids| ==> Honest(kids[i].val)
  }

  ghost predicate NoneAsked<V>(d: seq<Entry<V>>, start: Option<Str>, end: Option<Str>) {
    forall i :: 0 <= i < |d| ==> !From(d[i].name, start) || !Before(d[i].name, end)
  }

  /** An internal node whose first name is not below `end` holds nothing that the query asks for. */
  ghost predicate Sees<V>(n: Node<V>, start: Option<Str>, end: Option<Str>)
    decreases n
  {
    match n
    case Leaf(_) => true
    case Internal(kids) =>
      && (kids != [] && !Before(kids[0].name, end) ==> NoneAsked(EntriesOf(kids), start, end))
      && forall i :: 0 <= i < |kids| ==> Sees(kids[i].val, start, end)
  }

  lemma {:induction false} SeesUnbounded<V>(n: Node<V>, start: Option<Str>)
    ensures Sees(n, start, None)
    decreases n
  {
    match n
    case Leaf(_) =>
    case Internal(kids) =>
      forall i | 0 <= i < |kids| ensures Sees(kids[i].val, start, None) {
        SeesUnbounded(kids[i].val, start);
      }
  }

  lemma NoneAbove<V>(d: seq<Entry<V>>, b: Str, start: Option<Str>, end: Option<Str>)
    requires KeysFrom(d, b) && !Before(b, end)
    ensures NoneAsked(d, start, end)
  {
    LessIsStrictTotalOrder();
  }

  lemma {:induction false} HonestSees<V>(n: Node<V>, start: Option<Str>, end: Option<Str>)
    requires Honest(n)
    ensures Sees(n, start, end)
    decreases n
  {
    match n
    case Leaf(_) =>
    case Internal(kids) =>
      if kids != [] && !Before(kids[0].name, end) { NoneAbove(EntriesOf(kids), kids[0].name, start, end); }
      forall i | 0 <= i < |kids| ensures Sees(kids[i].val, start, end) {
        HonestSees(kids[i].val, start, end);
      }
  }

  /** A dishonest node is blind to some query. */
  lemma {:induction false} DishonestIsBlind<V>(n: Node<V>) returns (start: Option<Str>, end: Option<Str>)
    requires !Honest(n)
    ensures !Sees(n, start, end)
    decreases n
  {
    match n
    case Internal(kids) =>
      if !KeysFrom(EntriesOf(kids), kids[0].name) {
        LessIsIrreflexive();
        start, end := None, Some(kids[0].name);
      } else {
        var i :| 0 <= i < |kids| && !Honest(kids[i].val);
        start, end := DishonestIsBlind(kids[i].val);
      }
  }

  // ---------------------------------------------------------------- a query that sees is exact

  lemma {:induction false} RangeIsSlice<V>(n: Node<V>, lo: Option<Str>, hi: Option<Str>, start: Option<Str>,
                                           end: Option<Str>)
    requires Routed(n, lo, hi) && Sees(n, start, end)
    ensures Range(n, start, end) == Slice(Entries(n), start, end)
    decreases n, 1
  {
    match n
    case Leaf(items) => LeafRangeIsSlice(items, start, end);
    case Internal(kids) => RangeOfIsSlice(kids, lo, hi, start, end);
  }

  lemma {:induction false} RangeOfIsSlice<V>(kids: seq<Entry<Node<V>>>, lo: Option<Str>, hi: Option<Str>,
                                             start: Option<Str>, end: Option<Str>)
    requires RoutedKids(kids, lo, hi)
    requires Before(kids[0].name, end) || NoneAsked(EntriesOf(kids), start, end)
    requires forall i :: 0 <= i < |kids| ==> Sees(kids[i].val, start, end)
    ensures RangeOf(kids, start, end) == Slice(EntriesOf(kids), start, end)
    decreases kids, 0
  {
    var head, rest := Entries(kids[0].val), EntriesOf(kids[1..]);
    EntriesSorted(kids[0].val, lo, KidHi(kids, 0, hi));
    SliceAppend(head, rest, start, end);
    RestIsSlice(kids, lo, hi, start, end);
    if start.Some? && |kids| > 1 && !Less(start.value, kids[1].name) {
      BelowStart(head, kids[1].name, start, end);
    } else if !Before(kids[0].name, end) {
      SliceNothing(EntriesOf(kids), start, end);
    } else {
      RangeIsSlice(kids[0].val, lo, KidHi(kids, 0, hi), start, end);
    }
  }

  lemma {:induction false} RestIsSlice<V>(kids: seq<Entry<Node<V>>>, lo: Option<Str>, hi: Option<Str>,
                                          start: Option<Str>, end: Option<Str>)
    requires RoutedKids(kids, lo, hi)
    requires forall i :: 0 <= i < |kids| ==> Sees(kids[i].val, start, end)
    ensures RangeOf(kids[1..], start, end) == Slice(EntriesOf(kids[1..]), start, end)
    decreases kids[1..], 1
  {
    if |kids| > 1 {
      RoutedSlice(kids, lo, hi, 1, |kids|);
      assert kids[1..|kids|] == kids[1..];
      EntriesOfSorted(kids[1..], Some(kids[1].name), hi);
      if !Before(kids[1].name, end) { NoneAbove(EntriesOf(kids[1..]), kids[1].name, start, end); }
      RangeOfIsSlice(kids[1..], Some(kids[1].name), hi, start, end);
    }
  }

  lemma BelowStart<V>(d: seq<Entry<V>>, b: Str, start: Option<Str>, end: Option<Str>)
    requires forall i :: 0 <= i < |d| ==> Less(d[i].name, b)
    requires start.Some? && !Less(start.value, b)
    ensures Slice(d, start, end) == []
  {
    LessIsStrictTotalOrder();
    SliceNothing(d, start, end);
  }

  // ---------------------------------------------------------------- otherwise something is missed

  lemma {:induction false} LeafRangeWithin<V>(items: seq<Entry<V>>, start: Option<Str>, end: Option<Str>, e: Entry<V>)
    requires e in LeafRange(items, start, end)
    ensures e in items
  {
    if e != items[0] || !From(items[0].name, start) { LeafRangeWithin(items[1..], start, end, e); }
  }

  /** A range query only returns stored entries. */
  lemma {:induction false} RangeWithin<V>(n: Node<V>, start: Option<Str>, end: Option<Str>, e: Entry<V>)
    requires e in Range(n, start, end)
    ensures e in Entries(n)
    decreases n, 1
  {
    match n
    case Leaf(items) => LeafRangeWithin(items, start, end, e);
    case Internal(kids) =>
      var i := RangeOfChild(kids, start, end, e);
      EntriesOfSplit(kids, i);
  }

  lemma {:induction false} RangeOfChild<V>(kids: seq<Entry<Node<V>>>, start: Option<Str>, end: Option<Str>,
                                           e: Entry<V>)
    returns (i: nat)
    requires e in RangeOf(kids, start, end)
    ensures i < |kids| && e in Range(kids[i].val, start, end) && e in Entries(kids[i].val)
    decreases kids, 0
  {
    if e in Range(kids[0].val, start, end) {
      i := 0;
      RangeWithin(kids[0].val, start, end, e);
    } else {
      i := RangeOfChild(kids[1..], start, end, e);
      i := i + 1;
    }
  }

  /** A range query returns entries in key order, even where it misses some. */
  lemma {:induction false} RangeSorted<V>(n: Node<V>, lo: Option<Str>, hi: Option<Str>, start: Option<Str>,
                                          end: Option<Str>)
    requires Routed(n, lo, hi)
    ensures Sorted(Range(n, start, end)) && AllWithin(Range(n, start, end), lo, hi)
    decreases n, 1
  {
    match n
    case Leaf(items) => LeafRangeSorted(items, start, end); LeafRangeAllWithin(items, lo, hi, start, end);
    case Internal(kids) => RangeOfSorted(kids, lo, hi, start, end);
  }

  lemma {:induction false} RangeOfSorted<V>(kids: seq<Entry<Node<V>>>, lo: Option<Str>, hi: Option<Str>,
                                            start: Option<Str>, end: Option<Str>)
    requires RoutedKids(kids, lo, hi)
    ensures Sorted(RangeOf(kids, start, end)) && AllWithin(RangeOf(kids, start, end), lo, hi)
    decreases kids, 0
  {
    RangeSorted(kids[0].val, lo, KidHi(kids, 0, hi), start, end);
    if |kids| > 1 {
      RoutedSlice(kids, lo, hi, 1, |kids|);
      assert kids[1..|kids|] == kids[1..];
      RangeOfSorted(kids[1..], Some(kids[1].name), hi, start, end);
      JoinSorted(Range(kids[0].val, start, end), RangeOf(kids[1..], start, end), lo, kids[1].name, hi);
      JoinSorted([], RangeOf(kids[1..], start, end), lo, kids[1].name, hi);
      assert [] + RangeOf(kids[1..], start, end) == RangeOf(kids[1..], start, end);
    } else {
      assert RangeOf(kids[1..], start, end) == [];
    }
  }

  lemma {:induction false} LeafRangeSorted<V>(items: seq<Entry<V>>, start: Option<Str>, end: Option<Str>)
    requires Sorted(items)
    ensures Sorted(LeafRange(items, start, end))
  {
    if items != [] {
      LeafRangeSorted(items[1..], start, end);
      var rest := LeafRange(items[1..], start, end);
      forall k | 0 <= k < |rest| ensures Less(items[0].name, rest[k].name) {
        LeafRangeWithin(items[1..], start, end, rest[k]);
        var i :| 0 <= i < |items[1..]| && items[1..][i] == rest[k];
        assert items[i + 1] == rest[k];
      }
    }
  }

  lemma LeafRangeAllWithin<V>(items: seq<Entry<V>>, lo: Option<Str>, hi: Option<Str>, start: Option<Str>,
                              end: Option<Str>)
    requires AllWithin(items, lo, hi)
    ensures AllWithin(LeafRange(items, start, end), lo, hi)
  {
    var r := LeafRange(items, start, end);
    forall k | 0 <= k < |r| ensures Within(r[k].name, lo, hi) {
      LeafRangeWithin(items, start, end, r[k]);
      var i :| 0 <= i < |items| && items[i] == r[k];
    }
  }

  lemma SameChild<V>(kids: seq<Entry<Node<V>>>, lo: Option<Str>, hi: Option<Str>, i: nat, j: nat, e: Entry<V>)
    requires RoutedKids(kids, lo, hi) && i < |kids| && j < |kids|
    requires e in Entries(kids[i].val) && e in Entries(kids[j].val)
    ensures i == j
  {
    LessIsStrictTotalOrder();
    EntriesSorted(kids[i].val, KidLo(kids, i, lo), KidHi(kids, i, hi));
    EntriesSorted(kids[j].val, KidLo(kids, j, lo), KidHi(kids, j, hi));
  }

  /** The traversal stops at once at a node whose first name is not below `end`. */
  lemma StopsAtOnce<V>(kids: seq<Entry<Node<V>>>, start: Option<Str>, end: Option<Str>, e: Entry<V>)
    requires Sorted(kids) && kids != [] && !Before(kids[0].name, end)
    requires From(e.name, start) && Before(e.name, end)
    ensures RangeOf(kids, start, end) == []
  {
    LessIsStrictTotalOrder();
  }

  /** A query that does not see misses an entry it asks for. */
  lemma {:induction false} BlindMisses<V>(n: Node<V>, lo: Option<Str>, hi: Option<Str>, start: Option<Str>,
                                          end: Option<Str>)
    returns (e: Entry<V>)
    requires Routed(n, lo, hi) && !Sees(n, start, end)
    ensures e in Entries(n) && From(e.name, start) && Before(e.name, end)
    ensures e !in Range(n, start, end)
    decreases n
  {
    match n
    case Internal(kids) =>
      if !Before(kids[0].name, end) && !NoneAsked(EntriesOf(kids), start, end) {
        var i :| 0 <= i < |EntriesOf(kids)| && From(EntriesOf(kids)[i].name, start) &&
            Before(EntriesOf(kids)[i].name, end);
        e := EntriesOf(kids)[i];
        StopsAtOnce(kids, start, end, e);
      } else {
        var i :| 0 <= i < |kids| && !Sees(kids[i].val, start, end);
        e := BlindMisses(kids[i].val, KidLo(kids, i, lo), KidHi(kids, i, hi), start, end);
        EntriesOfSplit(kids, i);
        if e in RangeOf(kids, start, end) {
          var j := RangeOfChild(kids, start, end, e);
          SameChild(kids, lo, hi, i, j, e);
        }
      }
  }

  lemma {:induction false} SliceHas<V>(d: seq<Entry<V>>, start: Option<Str>, end: Option<Str>, e: Entry<V>)
    requires e in d && From(e.name, start) && Before(e.name, end)
    ensures e in Slice(d, start, end)
  {
    if e != d[0] { SliceHas(d[1..], start, end, e); }
  }

  /** On a routed tree a range query is exact if and only if it sees. */
  lemma QueryExactly<V>(t: Node<V>, start: Option<Str>, end: Option<Str>)
    requires Routed(t, None, None)
    ensures Range(t, start, end) == Slice(Entries(t), start, end) <==> Sees(t, start, end)
  {
    if Sees(t, start, end) {
      RangeIsSlice(t, None, None, start, end);
    } else {
      var e := BlindMisses(t, None, None, start, end);
      SliceHas(Entries(t), start, end, e);
    }
  }

  /** With no upper bound every query is exact; all queries of a tree are if and only if all its
      first names are honest. */
  lemma RangeExactly<V>(t: Node<V>)
    requires Routed(t, None, None)
    ensures forall start :: Range(t, start, None) == Slice(Entries(t), start, None)
    ensures (forall start, end :: Range(t, start, end) == Slice(Entries(t), start, end)) <==> Honest(t)
  {
    forall start
      ensures Range(t, start, None) == Slice(Entries(t), start, None)
    {
      SeesUnbounded(t, start);
      QueryExactly(t, start, None);
    }
    if Honest(t) {
      forall start, end
        ensures Range(t, start, end) == Slice(Entries(t), start, end)
      {
        HonestSees(t, start, end);
        QueryExactly(t, start, end);
      }
    } else {
      var start, end := DishonestIsBlind(t);
      QueryExactly(t, start, end);
    }
  }

  // ---------------------------------------------------------------- trees built by inserts

  /** Off the leftmost path insertion keeps names honest, so only that path can fail. */
  ghost predicate LeftmostHonest<V>(n: Node<V>)
    decreases n
  {
    match n
    case Leaf(_) => true
    case Internal(kids) =>
      kids != [] ==> KeysFrom(Entries(kids[0].val), kids[0].name) && LeftmostHonest(kids[0].val)
  }

  lemma {:induction false} AnchoredIsHonest<V>(n: Node<V>, first: Str, hi: Option<Str>)
    requires Routed(n, Some(first), hi) && Anchored(n, first)
    ensures Honest(n)
    decreases n
  {
    match n
    case Leaf(_) =>
    case Internal(kids) =>
      EntriesOfSorted(kids, Some(first), hi);
      forall i | 0 <= i < |kids|
        ensures Honest(kids[i].val)
      {
        assert KidLo(kids, i, Some(first)) == Some(kids[i].name);
        AnchoredIsHonest(kids[i].val, kids[i].name, KidHi(kids, i, hi));
      }
  }

  lemma {:induction false} BuiltIsHonest<V>(n: Node<V>, hi: Option<Str>)
    requires Routed(n, None, hi) && Built(n)
    ensures Honest(n) <==> LeftmostHonest(n)
    decreases n
  {
    match n
    case Leaf(_) =>
    case Internal(kids) =>
      BuiltIsHonest(kids[0].val, KidHi(kids, 0, hi));
      forall i | 1 <= i < |kids|
        ensures Honest(kids[i].val)
      {
        AnchoredIsHonest(kids[i].val, kids[i].name, KidHi(kids, i, hi));
      }
      FirstChildDecides(kids, hi);
  }

  lemma FirstChildDecides<V>(kids: seq<Entry<Node<V>>>, hi: Option<Str>)
    requires RoutedKids(kids, None, hi)
    ensures KeysFrom(EntriesOf(kids), kids[0].name) <==> KeysFrom(Entries(kids[0].val), kids[0].name)
  {
    LessIsStrictTotalOrder();
    var head := Entries(kids[0].val);
    EntriesAfter(kids, None, hi, 0);
    assert EntriesOf(kids) == head + EntriesOf(kids[1..]);
    assert KeysFrom(EntriesOf(kids[1..]), kids[0].name);
    if KeysFrom(EntriesOf(kids), kids[0].name) {
      assert forall i :: 0 <= i < |head| ==> EntriesOf(kids)[i] == head[i];
    }
  }

  /** So on such trees a query sees if and only if the leftmost path hides nothing from it. */
  ghost predicate LeftmostSees<V>(n: Node<V>, start: Option<Str>, end: Option<Str>)
    decreases n
  {
    match n
    case Leaf(_) => true
    case Internal(kids) =>
      kids != [] ==>
        && (!Before(kids[0].name, end) ==> NoneAsked(Entries(kids[0].val), start, end))
        && LeftmostSees(kids[0].val, start, end)
  }

  lemma {:induction false} BuiltSees<V>(n: Node<V>, hi: Option<Str>, start: Option<Str>, end: Option<Str>)
    requires Routed(n, None, hi) && Built(n)
    ensures Sees(n, start, end) <==> LeftmostSees(n, start, end)
    decreases n
  {
    match n
    case Leaf(_) =>
    case Internal(kids) =>
      BuiltSees(kids[0].val, KidHi(kids, 0, hi), start, end);
      forall i | 1 <= i < |kids|
        ensures Sees(kids[i].val, start, end)
      {
        AnchoredIsHonest(kids[i].val, kids[i].name, KidHi(kids, i, hi));
        HonestSees(kids[i].val, start, end);
      }
      if !Before(kids[0].name, end) { OnlyFirstChildAsked(kids, hi, start, end); }
  }

  lemma OnlyFirstChildAsked<V>(kids: seq<Entry<Node<V>>>, hi: Option<Str>, start: Option<Str>, end: Option<Str>)
    requires RoutedKids(kids, None, hi) && !Before(kids[0].name, end)
    ensures NoneAsked(EntriesOf(kids), start, end) <==> NoneAsked(Entries(kids[0].val), start, end)
  {
    var head, rest := Entries(kids[0].val), EntriesOf(kids[1..]);
    EntriesAfter(kids, None, hi, 0);
    assert KeysFrom(rest, kids[0].name) by { LessIsStrictTotalOrder(); }
    NoneAbove(rest, kids[0].name, start, end);
    if NoneAsked(head + rest, start, end) {
      forall i | 0 <= i < |head| ensures !From(head[i].name, start) || !Before(head[i].name, end) {
        assert (head + rest)[i] == head[i];
      }
    }
  }

  // ---------------------------------------------------------------- prefixes

  ghost function WithPrefix<V>(d: seq<Entry<V>>, p: Str): seq<Entry<V>> {
    if d == [] then [] else (if StartsWith(d[0].name, p) then [d[0]] else []) + WithPrefix(d[1..], p)
  }

  lemma {:induction false} SliceIsWithPrefix<V>(d: seq<Entry<V>>, p: Str)
    requires p != [] && p[|p| - 1] < MAX_UNIT
    ensures Slice(d, Some(p), Some(IncrementPrefix(p))) == WithPrefix(d, p)
  {
    if d != [] {
      PrefixInterval(p, d[0].name);
      SliceIsWithPrefix(d[1..], p);
    }
  }

  /** On a routed tree a prefix query returns exactly the entries with the prefix if and only if
      it sees. */
  lemma PrefixExactly<V>(t: Node<V>, p: Str)
    requires Routed(t, None, None)
    requires p != [] && p[|p| - 1] < MAX_UNIT
    ensures Prefix(t, p) == WithPrefix(Entries(t), p) <==> Sees(t, Some(p), Some(IncrementPrefix(p)))
  {
    QueryExactly(t, Some(p), Some(IncrementPrefix(p)));
    SliceIsWithPrefix(Entries(t), p);
  }

  lemma WrappedPrefixIsNotLess(p: Str)
    requires p == [] || p[|p| - 1] == MAX_UNIT
    ensures !Less(p, IncrementPrefix(p))
  {
    if p != [] {
      var n, e := |p| - 1, IncrementPrefix(p);
      assert p[0..n] == e[0..n];
      SkipCommon(p, e, 0, n);
    }
  }

  /** The empty prefix, and one ending in U+FFFF, yield nothing from any routed tree. */
  lemma WrappedPrefixFindsNothing<V>(t: Node<V>, p: Str)
    requires Routed(t, None, None)
    requires p == [] || p[|p| - 1] == MAX_UNIT
    ensures Prefix(t, p) == []
  {
    LessIsStrictTotalOrder();
    WrappedPrefixIsNotLess(p);
    if Prefix(t, p) != [] {
      var e := Prefix(t, p)[0];
      RangeMeetsBounds(t, Some(p), Some(IncrementPrefix(p)), e);
    }
  }

  lemma {:induction false} LeafRangeMeetsBounds<V>(items: seq<Entry<V>>, start: Option<Str>, end: Option<Str>,
                                                   e: Entry<V>)
    requires e in LeafRange(items, start, end)
    ensures From(e.name, start) && Before(e.name, end)
  {
    if e != items[0] || !From(items[0].name, start) { LeafRangeMeetsBounds(items[1..], start, end, e); }
  }

  lemma {:induction false} RangeMeetsBounds<V>(n: Node<V>, start: Option<Str>, end: Option<Str>, e: Entry<V>)
    requires e in Range(n, start, end)
    ensures From(e.name, start) && Before(e.name, end)
    decreases n
  {
    match n
    case Leaf(items) => LeafRangeMeetsBounds(items, start, end, e);
    case Internal(kids) =>
      var i := RangeOfChild(kids, start, end, e);
      RangeMeetsBounds(kids[i].val, start, end, e);
  }

  const T3' := Internal([D(5, Leaf([E(5)])), D(6, Leaf([E(6), E(7)]))])
  const T4' := Internal([D(5, Leaf([E(1), E(5)])), D(6, Leaf([E(6), E(7)]))])

  /** Order 3, inserts only: after 5, 6, 7 the first leaf is listed under 5, and inserting 1
      does not lower that name. The prefix query for 1 then stops before looking. */
  lemma PrefixMissesAnInsertedKey()
    ensures Build([(K(5), 0)] + [(K(6), 0)] + [(K(7), 0)] + [(K(1), 0)], 2) == Some(T4')
    ensures Get(T4', K(1)) == Some(0) && Prefix(T4', K(1)) == [] && !Honest(T4')
  {
    BuildThree(T3');
    InsertOne();
    BuildSnoc([(K(5), 0)] + [(K(6), 0)] + [(K(7), 0)], (K(1), 0), 2);
    MissingOne();
  }

  lemma MissingOne()
    ensures Get(T4', K(1)) == Some(0) && Prefix(T4', K(1)) == [] && !Honest(T4')
  {
    assert EntriesOf(T4'.kids)[0] == E(1);
  }

  lemma InsertOne()
    ensures Insert(Some(T3'), K(1), 0, 2) == T4'
  {
    var leaf := Leaf([E(1), E(5)]);
    LeafStep([E(5)], 0, 1, [E(1), E(5)]);
    KidStep(T3'.kids, 0, 1, Whole(leaf), T4'.kids);
    RootStep(T3', 1, Whole(T4'));
  }

  lemma BuildSnoc<V>(ops: seq<(Str, V)>, op: (Str, V), maxKeys: nat)
    requires maxKeys >= 1
    ensures Build(ops + [op], maxKeys) == Some(Insert(Build(ops, maxKeys), op.0, op.1, maxKeys))
  {
    assert (ops + [op])[..|ops|] == ops;
  }

  lemma BuildThree(t3: Node<int>)
    requires t3 == Internal([D(5, Leaf([E(5)])), D(6, Leaf([E(6), E(7)]))])
    ensures Build([(K(5), 0)] + [(K(6), 0)] + [(K(7), 0)], 2) == Some(t3)
  {
    BuildSnoc([], (K(5), 0), 2);
    assert [] + [(K(5), 0)] == [(K(5), 0)];
    assert SetEntry([], K(5), 0) == [E(5)];
    LeafStep([E(5)], 1, 6, [E(5), E(6)]);
    RootStep(Leaf([E(5)]), 6, Whole(Leaf([E(5), E(6)])));
    BuildSnoc([(K(5), 0)], (K(6), 0), 2);
    LeafStep([E(5), E(6)], 2, 7, [E(5), E(6), E(7)]);
    SplitThreeItems(E(5), E(6), E(7));
    RootStep(Leaf([E(5), E(6)]), 7, SplitLeaf([E(5), E(6), E(7)]));
    BuildSnoc([(K(5), 0)] + [(K(6), 0)], (K(7), 0), 2);
  }
}
