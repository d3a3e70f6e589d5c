/** The tree as a finite map: single operations, and whole runs of them. */
module BTreeMap {
  import opened Keys
  import opened Directory
  import opened BTree
  import opened BTreeRouting
  import opened BTreeInsert

  // ---------------------------------------------------------------- one insert

  lemma NewRootRoutes<V>(g: Grown<V>, x: Str)
    requires g.Split? && NamesOk(g, None, None)
    ensures (var root := SetEntry(SetEntry([], g.leftFirst, g.left), g.rightFirst, g.right);
             root == [Entry(g.leftFirst, g.left), Entry(g.rightFirst, g.right)]
             && Get(Internal(root), x) == GrownGet(g, x) && Entries(Internal(root)) == GrownEntries(g))
  {
    LessIsStrictTotalOrder();
    var l, r := Entry(g.leftFirst, g.left), Entry(g.rightFirst, g.right);
    var none: seq<Entry<Node<V>>> := [];
    TwoPuts(none, none, l, r);
    assert none + none == none && none + ([l] + [r]) + none == [l, r];
    FindChildUnique([l, r], x, if Less(x, r.name) then 0 else 1);
    assert [l, r][1..] == [r];
    EntriesOfOne(r);
  }

  /** A reader after the insert sees exactly the map with the key updated. */
  ghost predicate IsMapUpdate<V>(t: Node<V>, key: Str, value: V, maxKeys: nat)
    requires maxKeys >= 1
  {
    forall x :: Get(Insert(Some(t), key, value, maxKeys), x) == if x == key then Some(value) else Get(t, x)
  }

  /** On every routed tree the traversal after an insert is the updated one, while lookups see
      the updated map if and only if no splitting node holds a key below its new first name. */
  lemma InsertIsMapUpdateExactly<V>(t: Node<V>, key: Str, value: V, maxKeys: nat)
    requires maxKeys >= 1 && Routed(t, None, None) && key != []
    ensures Entries(Insert(Some(t), key, value, maxKeys)) == Put(Entries(t), key, value)
    ensures IsMapUpdate(t, key, value, maxKeys) <==>
            (Get(t, key) == Some(value) || SafeToSplit(t, key, maxKeys))
  {
    EntriesSorted(t, None, None);
    PutIsUpdate(Entries(t), key, value);
    GetIsLookup(t, None, None, key);
    if Get(t, key) == Some(value) {
      SameLookups(Put(Entries(t), key, value), Entries(t));
    } else {
      var g := InsertRecursive(t, key, value, maxKeys);
      InsertStores(t, None, None, key, value, maxKeys);
      if g.Split? { NewRootRoutes(g, key); }
      RoutesRightExactly(t, None, None, key, value, maxKeys);
      forall x
        ensures Get(Insert(Some(t), key, value, maxKeys), x) == GrownGet(g, x)
        ensures Lookup(Put(Entries(t), key, value), x) == if x == key then Some(value) else Get(t, x)
        ensures x == [] ==> GrownGet(g, x) == Lookup(Put(Entries(t), key, value), x)
      {
        if g.Split? { NewRootRoutes(g, x); }
        GetIsLookup(t, None, None, x);
        if x == [] {
          LookupNone(Put(Entries(t), key, value), x);
          GrownGetStored(g, x);
          LookupFound(GrownEntries(g), x);
        }
      }
      UpdateIffRoutes(t, key, value, maxKeys);
    }
  }

  lemma UpdateIffRoutes<V>(t: Node<V>, key: Str, value: V, maxKeys: nat)
    requires maxKeys >= 1
    requires forall x ::
               Get(Insert(Some(t), key, value, maxKeys), x) == GrownGet(InsertRecursive(t, key, value, maxKeys), x)
    requires forall x :: Lookup(Put(Entries(t), key, value), x) == if x == key then Some(value) else Get(t, x)
    requires GrownGet(InsertRecursive(t, key, value, maxKeys), []) == Lookup(Put(Entries(t), key, value), [])
    ensures IsMapUpdate(t, key, value, maxKeys) <==> RoutesRight(t, None, None, key, value, maxKeys)
  {
    if RoutesRight(t, None, None, key, value, maxKeys) {
      forall x
        ensures Get(Insert(Some(t), key, value, maxKeys), x) == if x == key then Some(value) else Get(t, x)
      {
        if x != [] { assert Within(x, None, None); }
      }
    }
    if IsMapUpdate(t, key, value, maxKeys) {
      forall x | Within(x, None, None)
        ensures GrownGet(InsertRecursive(t, key, value, maxKeys), x) == Lookup(Put(Entries(t), key, value), x)
      {
        assert Get(Insert(Some(t), key, value, maxKeys), x) == if x == key then Some(value) else Get(t, x);
      }
    }
  }

  /** listDirectory skips empty names, so the empty key can be inserted but never stored. */
  lemma {:induction false} EmptyKeyIsNotStored<V>(n: Node<V>, lo: Option<Str>, hi: Option<Str>, value: V, maxKeys: nat)
    requires maxKeys >= 1 && Routed(n, lo, hi) && !TooBig(n, maxKeys)
    ensures InsertRecursive(n, [], value, maxKeys) == Whole(n)
    decreases n
  {
    match n
    case Leaf(_) =>
    case Internal(kids) =>
      var i := FindChild(kids, []);
      EmptyKeyIsNotStored(kids[i].val, KidLo(kids, i, lo), KidHi(kids, i, hi), value, maxKeys);
      PutAt(kids, i, kids[i].val);
      assert kids[i := Entry(kids[i].name, kids[i].val)] == kids;
  }

  ghost predicate TooBig<V>(n: Node<V>, maxKeys: nat)
    decreases n
  {
    match n
    case Leaf(items) => |items| > maxKeys
    case Internal(kids) => |kids| > maxKeys || exists i :: 0 <= i < |kids| && TooBig(kids[i].val, maxKeys)
  }

  // ---------------------------------------------------------------- routing kept by insert

  /** SafeToSplit for names as well as keys: what a later operation needs too. */
  ghost predicate StaysRouted<V>(n: Node<V>, key: Str, maxKeys: nat) {
    match n
    case Leaf(_) => true
    case Internal(kids) =>
      kids != [] ==>
      var i := FindChild(kids, key);
      var child := kids[i].val;
      && StaysRouted(child, key, maxKeys)
      && (i > 0 && Overflows(child, key, maxKeys) ==>
            var b := FirstNameAfter(child, key, maxKeys);
            NamesFrom(child, b) && !Less(key, b))
  }

  lemma {:induction false} StaysRoutedIsSafe<V>(n: Node<V>, key: Str, maxKeys: nat)
    requires StaysRouted(n, key, maxKeys)
    ensures SafeToSplit(n, key, maxKeys)
    decreases n
  {
    match n
    case Leaf(_) =>
    case Internal(kids) =>
      if kids != [] {
        var i := FindChild(kids, key);
        StaysRoutedIsSafe(kids[i].val, key, maxKeys);
        if i > 0 && Overflows(kids[i].val, key, maxKeys) {
          NamesFromKeys(kids[i].val, FirstNameAfter(kids[i].val, key, maxKeys));
        }
      }
  }

  ghost predicate GrownRouted<V>(g: Grown<V>, lo: Option<Str>, hi: Option<Str>) {
    match g
    case Whole(node) => Routed(node, lo, hi)
    case Split(left, right, lf, rf) => NamesOk(g, lo, hi) && Routed(left, lo, Some(rf)) && Routed(right, Some(rf), hi)
  }

  ghost predicate GrownFrom<V>(g: Grown<V>, b: Str) {
    match g
    case Whole(node) => NamesFrom(node, b)
    case Split(left, right, lf, rf) => NamesFrom(left, b) && NamesFrom(right, b) && !Less(lf, b) && !Less(rf, b)
  }

  /** An insert at or above b introduces no name below b. */
  lemma {:induction false} InsertNamesFrom<V>(n: Node<V>, lo: Option<Str>, hi: Option<Str>, key: Str, value: V,
                                              maxKeys: nat, b: Str)
    requires maxKeys >= 1 && Routed(n, lo, hi) && Within(key, lo, hi) && NamesFrom(n, b) && !Less(key, b)
    ensures GrownFrom(InsertRecursive(n, key, value, maxKeys), b)
    decreases n
  {
    match n
    case Leaf(items) => PutIsUpdate(items, key, value);
    case Internal(kids) =>
      var i := FindChild(kids, key);
      KeyWithinChild(kids, lo, hi, key);
      var lo', hi' := KidLo(kids, i, lo), KidHi(kids, i, hi);
      var g := InsertRecursive(kids[i].val, key, value, maxKeys);
      InsertNamesFrom(kids[i].val, lo', hi', key, value, maxKeys, b);
      InsertStores(kids[i].val, lo', hi', key, value, maxKeys);
      ReplaceChildSplices(kids, lo, hi, i, g);
      SplicedNamesFrom(kids, i, g, b);
  }

  lemma SplicedNamesFrom<V>(kids: seq<Entry<Node<V>>>, i: nat, g: Grown<V>, b: Str)
    requires NamesFrom(Internal(kids), b) && i < |kids| && GrownFrom(g, b)
    ensures NamesFrom(Internal(Spliced(kids, i, g)), b)
    ensures |Spliced(kids, i, g)| >= 2 ==> GrownFrom(SplitInternal(Spliced(kids, i, g)), b)
  {
    var kids' := Spliced(kids, i, g);
    forall j | 0 <= j < |kids'|
      ensures !Less(kids'[j].name, b) && NamesFrom(kids'[j].val, b)
    {
      assert j < i ==> kids'[j] == kids[j];
    }
  }

  lemma SplicedRouted<V>(kids: seq<Entry<Node<V>>>, lo: Option<Str>, hi: Option<Str>, i: nat, g: Grown<V>)
    requires RoutedKids(kids, lo, hi) && i < |kids|
    requires GrownRouted(g, KidLo(kids, i, lo), KidHi(kids, i, hi))
    requires g.Split? && i > 0 ==> Routed(g.left, Some(g.leftFirst), Some(g.rightFirst))
    ensures RoutedKids(Spliced(kids, i, g), lo, hi)
  {
    SplicedSorted(kids, lo, hi, i, g);
    var kids' := Spliced(kids, i, g);
    forall j | 0 <= j < |kids'|
      ensures Routed(kids'[j].val, KidLo(kids', j, lo), KidHi(kids', j, hi))
    {
      if j < i {
        SplicedRoutedBefore(kids, lo, hi, i, g, j);
      } else if j < i + |GrownKids(kids[i].name, g)| {
        SplicedRoutedAt(kids, lo, hi, i, g, j);
      } else {
        SplicedRoutedAfter(kids, lo, hi, i, g, j);
      }
    }
  }

  lemma SplicedRoutedBefore<V>(kids: seq<Entry<Node<V>>>, lo: Option<Str>, hi: Option<Str>, i: nat, g: Grown<V>, j: nat)
    requires RoutedKids(kids, lo, hi) && j < i < |kids|
    requires NamesOk(g, Some(kids[i].name), KidHi(kids, i, hi))
    ensures (var kids' := Spliced(kids, i, g); Routed(kids'[j].val, KidLo(kids', j, lo), KidHi(kids', j, hi)))
  {
    var kids' := Spliced(kids, i, g);
    assert kids'[j] == kids[j];
    if j + 1 < i {
      assert kids'[j + 1] == kids[j + 1];
    } else {
      LessIsStrictTotalOrder();
      RoutedWiden(kids[j].val, KidLo(kids, j, lo), KidHi(kids, j, hi), KidLo(kids', j, lo), KidHi(kids', j, hi));
    }
  }

  lemma SplicedRoutedAfter<V>(kids: seq<Entry<Node<V>>>, lo: Option<Str>, hi: Option<Str>, i: nat, g: Grown<V>, j: nat)
    requires RoutedKids(kids, lo, hi) && i < |kids|
    requires i + |GrownKids(kids[i].name, g)| <= j < |Spliced(kids, i, g)|
    ensures (var kids' := Spliced(kids, i, g); Routed(kids'[j].val, KidLo(kids', j, lo), KidHi(kids', j, hi)))
  {
    var kids' := Spliced(kids, i, g);
    var m := j + 1 - |GrownKids(kids[i].name, g)|;
    assert kids'[j] == kids[m];
    assert m + 1 < |kids| ==> kids'[j + 1] == kids[m + 1];
  }

  lemma SplicedRoutedAt<V>(kids: seq<Entry<Node<V>>>, lo: Option<Str>, hi: Option<Str>, i: nat, g: Grown<V>, j: nat)
    requires i < |kids| && GrownRouted(g, KidLo(kids, i, lo), KidHi(kids, i, hi))
    requires g.Split? && i > 0 ==> Routed(g.left, Some(g.leftFirst), Some(g.rightFirst))
    requires i <= j < i + |GrownKids(kids[i].name, g)|
    ensures (var kids' := Spliced(kids, i, g); Routed(kids'[j].val, KidLo(kids', j, lo), KidHi(kids', j, hi)))
  {
    var kids' := Spliced(kids, i, g);
    assert i + 1 < |kids| ==> kids'[i + |GrownKids(kids[i].name, g)|] == kids[i + 1];
  }

  lemma {:induction false} InsertKeepsRouted<V>(n: Node<V>, lo: Option<Str>, hi: Option<Str>, key: Str, value: V,
                                                maxKeys: nat)
    requires maxKeys >= 1 && Routed(n, lo, hi) && Within(key, lo, hi) && StaysRouted(n, key, maxKeys)
    ensures GrownRouted(InsertRecursive(n, key, value, maxKeys), lo, hi)
    decreases n
  {
    InsertStores(n, lo, hi, key, value, maxKeys);
    match n
    case Leaf(items) => LeafKeepsRouted(items, lo, hi, key, value, maxKeys);
    case Internal(kids) =>
      var i := FindChild(kids, key);
      var child, lo', hi' := kids[i].val, KidLo(kids, i, lo), KidHi(kids, i, hi);
      KeyWithinChild(kids, lo, hi, key);
      var g := InsertRecursive(child, key, value, maxKeys);
      InsertKeepsRouted(child, lo', hi', key, value, maxKeys);
      InsertStores(child, lo', hi', key, value, maxKeys);
      if g.Split? && i > 0 {
        OverflowPredicts(child, lo', hi', key, value, maxKeys);
        InsertNamesFrom(child, lo', hi', key, value, maxKeys, g.leftFirst);
        RoutedRaise(g.left, lo', Some(g.rightFirst), g.leftFirst);
      }
      ReplaceChildSplices(kids, lo, hi, i, g);
      SplicedRouted(kids, lo, hi, i, g);
      var kids' := Spliced(kids, i, g);
      if |kids'| > maxKeys {
        SplitInternalRouted(kids', lo, hi);
      }
  }

  lemma SplitInternalRouted<V>(kids: seq<Entry<Node<V>>>, lo: Option<Str>, hi: Option<Str>)
    requires RoutedKids(kids, lo, hi) && |kids| >= 2
    ensures GrownRouted(SplitInternal(kids), lo, hi)
  {
    var mid := |kids| / 2;
    RoutedSlice(kids, lo, hi, 0, mid);
    RoutedSlice(kids, lo, hi, mid, |kids|);
    assert kids[0..mid] == kids[..mid] && kids[mid..|kids|] == kids[mid..];
  }

  lemma LeafKeepsRouted<V>(items: seq<Entry<V>>, lo: Option<Str>, hi: Option<Str>, key: Str, value: V, maxKeys: nat)
    requires maxKeys >= 1 && Sorted(items) && AllWithin(items, lo, hi) && Within(key, lo, hi)
    ensures GrownRouted(InsertIntoLeaf(items, key, value, maxKeys), lo, hi)
  {
    PutIsUpdate(items, key, value);
    var items' := Put(items, key, value);
    if |items'| > maxKeys {
      var mid := |items'| / 2;
      NamesWithinSlice(items', lo, hi, 0, mid);
      NamesWithinSlice(items', lo, hi, mid, |items'|);
      assert items'[0..mid] == items'[..mid] && items'[mid..|items'|] == items'[mid..];
    }
  }

  lemma TwoKidsRoute<V>(l: Entry<Node<V>>, r: Entry<Node<V>>)
    requires Routed(l.val, None, Some(r.name)) && Routed(r.val, Some(r.name), None)
    requires Less(l.name, r.name) && l.name != [] && r.name != []
    ensures Routed(Internal([l, r]), None, None)
  {
    var kids := [l, r];
    assert KidLo(kids, 0, None) == None && KidHi(kids, 0, None) == Some(r.name);
    assert KidLo(kids, 1, None) == Some(r.name) && KidHi(kids, 1, None) == None;
  }

  lemma RootInsertKeepsRouted<V>(t: Node<V>, key: Str, value: V, maxKeys: nat)
    requires maxKeys >= 1 && Routed(t, None, None) && key != [] && StaysRouted(t, key, maxKeys)
    ensures Routed(Insert(Some(t), key, value, maxKeys), None, None)
  {
    if Get(t, key) != Some(value) {
      var g := InsertRecursive(t, key, value, maxKeys);
      InsertKeepsRouted(t, None, None, key, value, maxKeys);
      if g.Split? {
        NewRootRoutes(g, key);
        TwoKidsRoute(Entry(g.leftFirst, g.left), Entry(g.rightFirst, g.right));
      }
    }
  }
}
