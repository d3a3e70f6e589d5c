/** Insertion: what it stores, where the result routes, and exactly when that is map update. */
module BTreeInsert {
  import opened Keys
  import opened Directory
  import opened BTree
  import opened BTreeRouting

  // ---------------------------------------------------------------- the grown child in its parent

  ghost function GrownEntries<V>(g: Grown<V>): seq<Entry<V>> {
    match g
    case Whole(node) => Entries(node)
    case Split(left, right, _, _) => Entries(left) + Entries(right)
  }

  /** Where a parent that lists the grown child would look for a key. */
  ghost function GrownGet<V>(g: Grown<V>, key: Str): Option<V> {
    match g
    case Whole(node) => Get(node, key)
    case Split(left, right, _, rf) => if Less(key, rf) then Get(left, key) else Get(right, key)
  }

  /** The split names lie in the interval of the node that split, in order. */
  ghost predicate NamesOk<V>(g: Grown<V>, lo: Option<Str>, hi: Option<Str>) {
    g.Split? ==> Within(g.leftFirst, lo, hi) && Within(g.rightFirst, lo, hi) && Less(g.leftFirst, g.rightFirst)
  }

  ghost function GrownKids<V>(name: Str, g: Grown<V>): seq<Entry<Node<V>>> {
    match g
    case Whole(node) => [Entry(name, node)]
    case Split(left, right, lf, rf) => [Entry(lf, left), Entry(rf, right)]
  }

  ghost function Spliced<V>(kids: seq<Entry<Node<V>>>, i: nat, g: Grown<V>): seq<Entry<Node<V>>>
    requires i < |kids|
  {
    kids[..i] + GrownKids(kids[i].name, g) + kids[i + 1..]
  }

  lemma NamesAround<T>(kids: seq<Entry<T>>, lo: Option<Str>, hi: Option<Str>, i: nat, name: Str)
    requires Sorted(kids) && i < |kids|
    requires Within(name, KidLo(kids, i, lo), KidHi(kids, i, hi))
    ensures forall j :: 0 <= j < i ==> Less(kids[j].name, name)
    ensures forall j :: i < j < |kids| ==> Less(name, kids[j].name)
  {
    LessIsStrictTotalOrder();
  }

  /** No sibling is overwritten: the directory edits put the grown child in place. */
  lemma ReplaceChildSplices<V>(kids: seq<Entry<Node<V>>>, lo: Option<Str>, hi: Option<Str>, i: nat, g: Grown<V>)
    requires Sorted(kids) && AllWithin(kids, lo, hi) && i < |kids|
    requires NamesOk(g, KidLo(kids, i, lo), KidHi(kids, i, hi))
    ensures ReplaceChild(kids, kids[i].name, g) == Spliced(kids, i, g)
  {
    match g
    case Whole(node) =>
      PutAt(kids, i, node);
    case Split(left, right, lf, rf) =>
      RemoveAt(kids, i);
      NamesAround(kids, lo, hi, i, lf);
      NamesAround(kids, lo, hi, i, rf);
      TwoPuts(kids[..i], kids[i + 1..], Entry(lf, left), Entry(rf, right));
      assert [Entry(lf, left)] + [Entry(rf, right)] == GrownKids(kids[i].name, g);
  }

  lemma TwoPuts<T>(a: seq<Entry<T>>, b: seq<Entry<T>>, l: Entry<T>, r: Entry<T>)
    requires forall j :: 0 <= j < |a| ==> Less(a[j].name, l.name) && Less(a[j].name, r.name)
    requires forall j :: 0 <= j < |b| ==> Less(l.name, b[j].name) && Less(r.name, b[j].name)
    requires Less(l.name, r.name)
    ensures Put(Put(a + b, l.name, l.val), r.name, r.val) == a + ([l] + [r]) + b
  {
    PutBetween(a + b, |a|, l.name, l.val);
    assert (a + b)[..|a|] == a && (a + b)[|a|..] == b;
    var one := a + [l];
    PutBetween(one + b, |a| + 1, r.name, r.val);
    assert (one + b)[..|a| + 1] == one && (one + b)[|a| + 1..] == b;
    assert one + [r] == a + ([l] + [r]);
  }

  lemma SplicedSorted<V>(kids: seq<Entry<Node<V>>>, lo: Option<Str>, hi: Option<Str>, i: nat, g: Grown<V>)
    requires Sorted(kids) && AllWithin(kids, lo, hi) && i < |kids|
    requires NamesOk(g, KidLo(kids, i, lo), KidHi(kids, i, hi))
    ensures Sorted(Spliced(kids, i, g)) && AllWithin(Spliced(kids, i, g), lo, hi)
  {
    match g
    case Whole(node) =>
      assert Spliced(kids, i, g) == kids[i := Entry(kids[i].name, node)];
    case Split(left, right, lf, rf) =>
      NamesAround(kids, lo, hi, i, lf);
      NamesAround(kids, lo, hi, i, rf);
      WithinOuter(kids, lo, hi, i, lf);
      WithinOuter(kids, lo, hi, i, rf);
      var two := [Entry(lf, left), Entry(rf, right)];
      SortedJoin(kids[..i], two);
      SidesApart(kids, i);
      SortedJoin(kids[..i] + two, kids[i + 1..]);
  }

  ghost predicate Apart<T>(a: seq<Entry<T>>, b: seq<Entry<T>>) {
    forall i, j :: 0 <= i < |a| && 0 <= j < |b| ==> Less(a[i].name, b[j].name)
  }

  lemma SortedJoin<T>(a: seq<Entry<T>>, b: seq<Entry<T>>)
    requires Sorted(a) && Sorted(b) && Apart(a, b)
    ensures Sorted(a + b)
  {
  }

  lemma SidesApart<T>(kids: seq<Entry<T>>, i: nat)
    requires Sorted(kids) && i < |kids|
    ensures Apart(kids[..i], kids[i + 1..])
  {
  }

  /** A name within a child's bounds is within the node's. */
  lemma WithinOuter<T>(kids: seq<Entry<T>>, lo: Option<Str>, hi: Option<Str>, i: nat, name: Str)
    requires AllWithin(kids, lo, hi) && i < |kids| && Within(name, KidLo(kids, i, lo), KidHi(kids, i, hi))
    ensures Within(name, lo, hi)
  {
    LessIsStrictTotalOrder();
  }

  lemma SplicedEntries<V>(kids: seq<Entry<Node<V>>>, i: nat, g: Grown<V>)
    requires i < |kids|
    ensures EntriesOf(Spliced(kids, i, g)) == EntriesOf(kids[..i]) + GrownEntries(g) + EntriesOf(kids[i + 1..])
  {
    EntriesOfParts(kids[..i], GrownKids(kids[i].name, g), kids[i + 1..]);
    match g
    case Whole(node) => EntriesOfOne(Entry(kids[i].name, node));
    case Split(left, right, lf, rf) =>
      EntriesOfAppend([Entry(lf, left)], [Entry(rf, right)]);
      EntriesOfOne(Entry(lf, left));
      EntriesOfOne(Entry(rf, right));
      assert GrownKids(kids[i].name, g) == [Entry(lf, left)] + [Entry(rf, right)];
  }

  // ---------------------------------------------------------------- what is stored

  lemma SplitInternalEntries<V>(kids: seq<Entry<Node<V>>>)
    requires |kids| >= 2
    ensures GrownEntries(SplitInternal(kids)) == EntriesOf(kids)
  {
    var mid := |kids| / 2;
    EntriesOfAppend(kids[..mid], kids[mid..]);
    assert kids == kids[..mid] + kids[mid..];
  }

  /** Storage is always right: whatever the separators, the traversal of the result is the
      traversal of the tree with the key put in place. */
  lemma {:induction false} InsertStores<V>(n: Node<V>, lo: Option<Str>, hi: Option<Str>, key: Str, value: V,
                                           maxKeys: nat)
    requires maxKeys >= 1 && Routed(n, lo, hi) && Within(key, lo, hi)
    ensures var g := InsertRecursive(n, key, value, maxKeys);
            GrownEntries(g) == Put(Entries(n), key, value) && NamesOk(g, lo, hi)
    decreases n
  {
    match n
    case Leaf(items) => LeafInsertStores(items, lo, hi, key, value, maxKeys);
    case Internal(kids) =>
      var i := FindChild(kids, key);
      KeyWithinChild(kids, lo, hi, key);
      var g := InsertRecursive(kids[i].val, key, value, maxKeys);
      InsertStores(kids[i].val, KidLo(kids, i, lo), KidHi(kids, i, hi), key, value, maxKeys);
      ReplaceChildSplices(kids, lo, hi, i, g);
      SplicedSorted(kids, lo, hi, i, g);
      SplicedEntries(kids, i, g);
      PutInParts(kids, lo, hi, key, value);
      var kids' := Spliced(kids, i, g);
      if |kids'| > maxKeys {
        SplitInternalEntries(kids');
      }
  }

  lemma KeyWithinChild<V>(kids: seq<Entry<Node<V>>>, lo: Option<Str>, hi: Option<Str>, key: Str)
    requires kids != [] && Within(key, lo, hi)
    ensures var i := FindChild(kids, key); Within(key, KidLo(kids, i, lo), KidHi(kids, i, hi))
  {
  }

  /** An insert below an internal node, as one splice of its children. */
  lemma InternalInsert<V>(kids: seq<Entry<Node<V>>>, lo: Option<Str>, hi: Option<Str>, key: Str, value: V, maxKeys: nat)
    requires maxKeys >= 1 && RoutedKids(kids, lo, hi) && Within(key, lo, hi)
    ensures (var i := FindChild(kids, key);
             && Routed(kids[i].val, KidLo(kids, i, lo), KidHi(kids, i, hi))
             && Within(key, KidLo(kids, i, lo), KidHi(kids, i, hi))
             && var kids' := Spliced(kids, i, InsertRecursive(kids[i].val, key, value, maxKeys));
                InsertRecursive(Internal(kids), key, value, maxKeys) ==
                if |kids'| > maxKeys then SplitInternal(kids') else Whole(Internal(kids')))
  {
    var i := FindChild(kids, key);
    KeyWithinChild(kids, lo, hi, key);
    InsertStores(kids[i].val, KidLo(kids, i, lo), KidHi(kids, i, hi), key, value, maxKeys);
    ReplaceChildSplices(kids, lo, hi, i, InsertRecursive(kids[i].val, key, value, maxKeys));
  }

  lemma LeafInsertStores<V>(items: seq<Entry<V>>, lo: Option<Str>, hi: Option<Str>, key: Str, value: V, maxKeys: nat)
    requires maxKeys >= 1 && Sorted(items) && AllWithin(items, lo, hi) && Within(key, lo, hi)
    ensures var g := InsertIntoLeaf(items, key, value, maxKeys);
            GrownEntries(g) == Put(items, key, value) && NamesOk(g, lo, hi)
  {
    PutIsUpdate(items, key, value);
    var items' := Put(items, key, value);
    if |items'| > maxKeys {
      var mid := |items'| / 2;
      assert items' == items'[..mid] + items'[mid..];
    }
  }

  lemma PutInParts<V>(kids: seq<Entry<Node<V>>>, lo: Option<Str>, hi: Option<Str>, key: Str, value: V)
    requires RoutedKids(kids, lo, hi)
    ensures (var i := FindChild(kids, key);
             Put(EntriesOf(kids), key, value) ==
             EntriesOf(kids[..i]) + Put(Entries(kids[i].val), key, value) + EntriesOf(kids[i + 1..]))
  {
    LessIsStrictTotalOrder();
    var i := FindChild(kids, key);
    Parts(kids, lo, hi, i);
    var a, b, c := EntriesOf(kids[..i]), Entries(kids[i].val), EntriesOf(kids[i + 1..]);
    PutLeft(a + b, c, key, value);
    PutRight(a, b, key, value);
  }

  // ---------------------------------------------------------------- where the result routes

  lemma FindChildUnique<T>(kids: seq<Entry<T>>, key: Str, r: nat)
    requires Sorted(kids) && r < |kids|
    requires r > 0 ==> !Less(key, kids[r].name)
    requires r + 1 < |kids| ==> Less(key, kids[r + 1].name)
    ensures FindChild(kids, key) == r
  {
    LessIsStrictTotalOrder();
  }

  /** Splitting a directory of children does not move any key's route. */
  lemma SplitInternalRoutes<V>(kids: seq<Entry<Node<V>>>, key: Str)
    requires Sorted(kids) && |kids| >= 2
    ensures GrownGet(SplitInternal(kids), key) == Get(Internal(kids), key)
  {
    LessIsStrictTotalOrder();
    var mid := |kids| / 2;
    var r := FindChild(kids, key);
    if Less(key, kids[mid].name) {
      assert r < mid;
      FindChildUnique(kids[..mid], key, r);
    } else {
      assert r >= mid;
      FindChildUnique(kids[mid..], key, r - mid);
    }
  }

  lemma SplitLeafRoutes<V>(items: seq<Entry<V>>, key: Str)
    requires Sorted(items) && |items| >= 2
    ensures GrownGet(SplitLeaf(items), key) == Lookup(items, key)
  {
    LessIsStrictTotalOrder();
    var mid := |items| / 2;
    assert items == items[..mid] + items[mid..];
    LookupAppend(items[..mid], items[mid..], key);
    if Less(key, items[mid].name) {
      LookupNone(items[mid..], key);
    } else {
      LookupNone(items[..mid], key);
    }
  }

  /** Keys not routed to child i keep their child. */
  lemma SplicedKeepsOthers<V>(kids: seq<Entry<Node<V>>>, lo: Option<Str>, hi: Option<Str>, i: nat, g: Grown<V>,
                              key: Str)
    requires Sorted(kids) && AllWithin(kids, lo, hi) && i < |kids|
    requires NamesOk(g, KidLo(kids, i, lo), KidHi(kids, i, hi))
    requires Sorted(Spliced(kids, i, g)) && FindChild(kids, key) != i
    ensures Get(Internal(Spliced(kids, i, g)), key) == Get(kids[FindChild(kids, key)].val, key)
  {
    var kids' := Spliced(kids, i, g);
    var r := FindChild(kids, key);
    if r < i {
      assert kids'[r] == kids[r];
      assert Less(key, kids'[r + 1].name) by {
        if r + 1 < i { assert kids'[r + 1] == kids[r + 1]; } else { LessIsStrictTotalOrder(); }
      }
      FindChildUnique(kids', key, r);
    } else {
      var r' := if g.Split? then r + 1 else r;
      assert kids'[r'] == kids[r];
      if r + 1 < |kids| { assert kids'[r' + 1] == kids[r + 1]; }
      FindChildUnique(kids', key, r');
    }
  }

  lemma SplicedRoutesChild<V>(kids: seq<Entry<Node<V>>>, i: nat, g: Grown<V>, key: Str)
    requires i < |kids| && Sorted(Spliced(kids, i, g)) && FindChild(kids, key) == i
    requires g.Split? && i > 0 ==> !Less(key, g.leftFirst)
    ensures Get(Internal(Spliced(kids, i, g)), key) == GrownGet(g, key)
  {
    var kids' := Spliced(kids, i, g);
    match g
    case Whole(node) =>
      if i + 1 < |kids| { assert kids'[i + 1] == kids[i + 1]; }
      FindChildUnique(kids', key, i);
    case Split(left, right, lf, rf) =>
      if i + 1 < |kids| { assert kids'[i + 2] == kids[i + 1]; }
      FindChildUnique(kids', key, if Less(key, rf) then i else i + 1);
  }

  /** Routes through the parent: only keys between the old and the new name of a split child
      that is not the first one change hands. */
  lemma SplicedRoutes<V>(kids: seq<Entry<Node<V>>>, lo: Option<Str>, hi: Option<Str>, i: nat, g: Grown<V>, key: Str)
    requires Sorted(kids) && AllWithin(kids, lo, hi) && i < |kids|
    requires NamesOk(g, KidLo(kids, i, lo), KidHi(kids, i, hi))
    ensures var r := FindChild(kids, key);
            Get(Internal(Spliced(kids, i, g)), key) ==
            if r != i then Get(kids[r].val, key)
            else if g.Split? && i > 0 && Less(key, g.leftFirst) then Get(kids[i - 1].val, key)
            else GrownGet(g, key)
  {
    SplicedSorted(kids, lo, hi, i, g);
    if FindChild(kids, key) != i {
      SplicedKeepsOthers(kids, lo, hi, i, g, key);
    } else if g.Split? && i > 0 && Less(key, g.leftFirst) {
      var kids' := Spliced(kids, i, g);
      assert kids'[i - 1] == kids[i - 1];
      assert i - 1 > 0 ==> !Less(key, kids[i - 1].name);
      FindChildUnique(kids', key, i - 1);
    } else {
      SplicedRoutesChild(kids, i, g, key);
    }
  }

  // ---------------------------------------------------------------- exactly when insert is map update

  /** Whether inserting the key makes this node split: a matter of entry counts on its path. */
  predicate Overflows<V>(n: Node<V>, key: Str, maxKeys: nat) {
    match n
    case Leaf(items) => |items| + (if key == [] || Lookup(items, key).Some? then 0 else 1) > maxKeys
    case Internal(kids) =>
      if kids == [] then (if key == [] then 0 else 1) > maxKeys else
      |kids| + (if Overflows(kids[FindChild(kids, key)].val, key, maxKeys) then 1 else 0) > maxKeys
  }

  /** The first name this node has after the insert. */
  function FirstNameAfter<V>(n: Node<V>, key: Str, maxKeys: nat): Str {
    match n
    case Leaf(items) => if items == [] || Less(key, items[0].name) then key else items[0].name
    case Internal(kids) =>
      if kids == [] then key
      else if FindChild(kids, key) == 0 && Overflows(kids[0].val, key, maxKeys)
        then FirstNameAfter(kids[0].val, key, maxKeys)
      else kids[0].name
  }

  /** Every node on the key's path that splits, and is not its parent's first child, holds no
      key below the first name it is about to be listed under. */
  ghost predicate SafeToSplit<V>(n: Node<V>, key: Str, maxKeys: nat) {
    match n
    case Leaf(_) => true
    case Internal(kids) =>
      kids != [] ==>
      var i := FindChild(kids, key);
      var child := kids[i].val;
      && SafeToSplit(child, key, maxKeys)
      && (i > 0 && Overflows(child, key, maxKeys) ==>
            var b := FirstNameAfter(child, key, maxKeys);
            KeysFrom(Entries(child), b) && !Less(key, b))
  }

  /** The pre-call functions predict the split and its left name. */
  lemma {:induction false} OverflowPredicts<V>(n: Node<V>, lo: Option<Str>, hi: Option<Str>, key: Str, value: V,
                                               maxKeys: nat)
    requires maxKeys >= 1 && Routed(n, lo, hi) && Within(key, lo, hi)
    ensures var g := InsertRecursive(n, key, value, maxKeys);
            && g.Split? == Overflows(n, key, maxKeys)
            && (g.Split? ==> g.leftFirst == FirstNameAfter(n, key, maxKeys))
    decreases n
  {
    match n
    case Leaf(items) =>
      PutIsUpdate(items, key, value);
      LookupFound(items, key);
      if items != [] && !Less(key, items[0].name) && items[0].name != key {
        assert Put(items, key, value)[0] == items[0];
      }
    case Internal(kids) =>
      var i := FindChild(kids, key);
      KeyWithinChild(kids, lo, hi, key);
      var g := InsertRecursive(kids[i].val, key, value, maxKeys);
      OverflowPredicts(kids[i].val, KidLo(kids, i, lo), KidHi(kids, i, hi), key, value, maxKeys);
      InsertStores(kids[i].val, KidLo(kids, i, lo), KidHi(kids, i, hi), key, value, maxKeys);
      ReplaceChildSplices(kids, lo, hi, i, g);
      assert Spliced(kids, i, g)[0].name == if i == 0 && g.Split? then g.leftFirst else kids[0].name;
  }

  ghost predicate RoutesRight<V>(n: Node<V>, lo: Option<Str>, hi: Option<Str>, key: Str, value: V, maxKeys: nat)
    requires maxKeys >= 1
  {
    forall x :: Within(x, lo, hi) ==>
      GrownGet(InsertRecursive(n, key, value, maxKeys), x) == Lookup(Put(Entries(n), key, value), x)
  }

  lemma LeafRoutesRight<V>(items: seq<Entry<V>>, lo: Option<Str>, hi: Option<Str>, key: Str, value: V, maxKeys: nat)
    requires maxKeys >= 1 && Sorted(items) && key != []
    ensures RoutesRight(Leaf(items), lo, hi, key, value, maxKeys)
  {
    PutIsUpdate(items, key, value);
    var items' := Put(items, key, value);
    if |items'| > maxKeys {
      forall x
        ensures GrownGet(SplitLeaf(items'), x) == Lookup(items', x)
      {
        SplitLeafRoutes(items', x);
      }
    }
  }

  /** One internal node: how a lookup in the result relates to the grown child's. */
  lemma InternalRoute<V>(kids: seq<Entry<Node<V>>>, lo: Option<Str>, hi: Option<Str>, key: Str, value: V, maxKeys: nat,
                         x: Str)
    requires maxKeys >= 1 && RoutedKids(kids, lo, hi) && Within(key, lo, hi)
    ensures var i := FindChild(kids, key);
            var g := InsertRecursive(kids[i].val, key, value, maxKeys);
            var r := FindChild(kids, x);
            GrownGet(InsertRecursive(Internal(kids), key, value, maxKeys), x) ==
            if r != i then Get(kids[r].val, x)
            else if g.Split? && i > 0 && Less(x, g.leftFirst) then Get(kids[i - 1].val, x)
            else GrownGet(g, x)
  {
    var i := FindChild(kids, key);
    KeyWithinChild(kids, lo, hi, key);
    var g := InsertRecursive(kids[i].val, key, value, maxKeys);
    InsertStores(kids[i].val, KidLo(kids, i, lo), KidHi(kids, i, hi), key, value, maxKeys);
    ReplaceChildSplices(kids, lo, hi, i, g);
    SplicedSorted(kids, lo, hi, i, g);
    SplicedRoutes(kids, lo, hi, i, g, x);
    if |Spliced(kids, i, g)| > maxKeys {
      SplitInternalRoutes(Spliced(kids, i, g), x);
    }
  }

  /** What the result ought to answer, part by part. */
  lemma InternalLookup<V>(kids: seq<Entry<Node<V>>>, lo: Option<Str>, hi: Option<Str>, key: Str, value: V, x: Str)
    requires RoutedKids(kids, lo, hi) && Within(key, lo, hi)
    ensures var i := FindChild(kids, key);
            var r := FindChild(kids, x);
            Lookup(Put(EntriesOf(kids), key, value), x) ==
            if r == i then Lookup(Put(Entries(kids[i].val), key, value), x) else Get(kids[r].val, x)
  {
    var i, r := FindChild(kids, key), FindChild(kids, x);
    EntriesOfSorted(kids, lo, hi);
    EntriesSorted(kids[i].val, KidLo(kids, i, lo), KidHi(kids, i, hi));
    PutIsUpdate(EntriesOf(kids), key, value);
    PutIsUpdate(Entries(kids[i].val), key, value);
    LookupInParts(kids, lo, hi, x);
    GetIsLookup(kids[r].val, KidLo(kids, r, lo), KidHi(kids, r, hi), x);
  }

  lemma {:induction false} RoutesRightExactly<V>(n: Node<V>, lo: Option<Str>, hi: Option<Str>, key: Str, value: V,
                                                 maxKeys: nat)
    requires maxKeys >= 1 && Routed(n, lo, hi) && Within(key, lo, hi)
    ensures RoutesRight(n, lo, hi, key, value, maxKeys) <==> SafeToSplit(n, key, maxKeys)
    decreases n
  {
    match n
    case Leaf(items) => LeafRoutesRight(items, lo, hi, key, value, maxKeys);
    case Internal(kids) =>
      var i := FindChild(kids, key);
      var lo', hi' := KidLo(kids, i, lo), KidHi(kids, i, hi);
      KeyWithinChild(kids, lo, hi, key);
      RoutesRightExactly(kids[i].val, lo', hi', key, value, maxKeys);
      if SafeToSplit(n, key, maxKeys) {
        forall x | Within(x, lo, hi)
          ensures GrownGet(InsertRecursive(n, key, value, maxKeys), x) == Lookup(Put(Entries(n), key, value), x)
        {
          SafeRoute(kids, lo, hi, key, value, maxKeys, x);
        }
      } else if RoutesRight(n, lo, hi, key, value, maxKeys) {
        UnsafeRoute(kids, lo, hi, key, value, maxKeys);
      }
  }

  lemma SafeRoute<V>(kids: seq<Entry<Node<V>>>, lo: Option<Str>, hi: Option<Str>, key: Str, value: V, maxKeys: nat,
                     x: Str)
    requires maxKeys >= 1 && RoutedKids(kids, lo, hi) && Within(key, lo, hi) && Within(x, lo, hi)
    requires SafeToSplit(Internal(kids), key, maxKeys)
    requires (var i := FindChild(kids, key);
              RoutesRight(kids[i].val, KidLo(kids, i, lo), KidHi(kids, i, hi), key, value, maxKeys))
    ensures GrownGet(InsertRecursive(Internal(kids), key, value, maxKeys), x) ==
            Lookup(Put(EntriesOf(kids), key, value), x)
  {
    var i := FindChild(kids, key);
    var g := InsertRecursive(kids[i].val, key, value, maxKeys);
    InternalRoute(kids, lo, hi, key, value, maxKeys, x);
    InternalLookup(kids, lo, hi, key, value, x);
    if FindChild(kids, x) == i {
      KeyWithinChild(kids, lo, hi, x);
      if g.Split? && i > 0 && Less(x, g.leftFirst) {
        NotInLeftSibling(kids, lo, hi, i, x);
        SafeBelow(kids, lo, hi, key, value, maxKeys, x);
      }
    }
  }

  lemma SafeBelow<V>(kids: seq<Entry<Node<V>>>, lo: Option<Str>, hi: Option<Str>, key: Str, value: V, maxKeys: nat,
                     x: Str)
    requires maxKeys >= 1 && RoutedKids(kids, lo, hi) && Within(key, lo, hi)
    requires SafeToSplit(Internal(kids), key, maxKeys)
    requires (var i := FindChild(kids, key);
              var g := InsertRecursive(kids[i].val, key, value, maxKeys);
              g.Split? && i > 0 && Less(x, g.leftFirst))
    ensures Lookup(Put(Entries(kids[FindChild(kids, key)].val), key, value), x) == None
  {
    var i := FindChild(kids, key);
    var child, lo', hi' := kids[i].val, KidLo(kids, i, lo), KidHi(kids, i, hi);
    KeyWithinChild(kids, lo, hi, key);
    OverflowPredicts(child, lo', hi', key, value, maxKeys);
    EntriesSorted(child, lo', hi');
    NotBelow(Entries(child), key, value, FirstNameAfter(child, key, maxKeys), x);
  }

  lemma NotBelow<T>(d: seq<Entry<T>>, key: Str, value: T, b: Str, x: Str)
    requires Sorted(d) && KeysFrom(d, b) && !Less(key, b) && Less(x, b)
    ensures Lookup(Put(d, key, value), x) == None
  {
    PutIsUpdate(d, key, value);
    LookupNone(d, x);
  }

  lemma NotInLeftSibling<V>(kids: seq<Entry<Node<V>>>, lo: Option<Str>, hi: Option<Str>, i: nat, x: Str)
    requires RoutedKids(kids, lo, hi) && 0 < i < |kids| && !Less(x, kids[i].name)
    ensures Get(kids[i - 1].val, x) == None
  {
    var lo', hi' := KidLo(kids, i - 1, lo), KidHi(kids, i - 1, hi);
    EntriesSorted(kids[i - 1].val, lo', hi');
    GetIsLookup(kids[i - 1].val, lo', hi', x);
    LookupNone(Entries(kids[i - 1].val), x);
  }

  lemma WithinChild<V>(kids: seq<Entry<Node<V>>>, lo: Option<Str>, hi: Option<Str>, i: nat, x: Str)
    requires Sorted(kids) && AllWithin(kids, lo, hi) && i < |kids|
    requires Within(x, KidLo(kids, i, lo), KidHi(kids, i, hi))
    ensures Within(x, lo, hi) && FindChild(kids, x) == i
  {
    LessIsStrictTotalOrder();
    FindChildUnique(kids, x, i);
  }

  /** If the result routes right then nothing was below the split child's new name. */
  lemma UnsafeRoute<V>(kids: seq<Entry<Node<V>>>, lo: Option<Str>, hi: Option<Str>, key: Str, value: V, maxKeys: nat)
    requires maxKeys >= 1 && RoutedKids(kids, lo, hi) && Within(key, lo, hi)
    requires RoutesRight(Internal(kids), lo, hi, key, value, maxKeys)
    requires (var i := FindChild(kids, key);
              RoutesRight(kids[i].val, KidLo(kids, i, lo), KidHi(kids, i, hi), key, value, maxKeys)
              <==> SafeToSplit(kids[i].val, key, maxKeys))
    ensures SafeToSplit(Internal(kids), key, maxKeys)
  {
    LessIsStrictTotalOrder();
    var i := FindChild(kids, key);
    var child, lo', hi' := kids[i].val, KidLo(kids, i, lo), KidHi(kids, i, hi);
    var g := InsertRecursive(child, key, value, maxKeys);
    var want := Put(Entries(child), key, value);
    KeyWithinChild(kids, lo, hi, key);
    OverflowPredicts(child, lo', hi', key, value, maxKeys);
    EntriesSorted(child, lo', hi');
    PutIsUpdate(Entries(child), key, value);
    InsertStores(child, lo', hi', key, value, maxKeys);
    if g.Split? && i > 0 {
      forall x | Within(x, lo', hi') && Less(x, g.leftFirst)
        ensures Lookup(want, x) == None
      {
        WithinChild(kids, lo, hi, i, x);
        InternalRoute(kids, lo, hi, key, value, maxKeys, x);
        InternalLookup(kids, lo, hi, key, value, x);
        NotInLeftSibling(kids, lo, hi, i, x);
      }
      assert !Less(key, g.leftFirst);
      forall j | 0 <= j < |Entries(child)|
        ensures !Less(Entries(child)[j].name, g.leftFirst)
      {
        LookupSome(Entries(child), j);
      }
    }
    forall x | Within(x, lo', hi')
      ensures GrownGet(g, x) == Lookup(want, x)
    {
      WithinChild(kids, lo, hi, i, x);
      ChildRoute(kids, lo, hi, key, value, maxKeys, x);
    }
  }

  lemma ChildRoute<V>(kids: seq<Entry<Node<V>>>, lo: Option<Str>, hi: Option<Str>, key: Str, value: V, maxKeys: nat,
                      x: Str)
    requires maxKeys >= 1 && RoutedKids(kids, lo, hi) && Within(key, lo, hi) && Within(x, lo, hi)
    requires RoutesRight(Internal(kids), lo, hi, key, value, maxKeys)
    requires FindChild(kids, x) == FindChild(kids, key)
    ensures (var i := FindChild(kids, key);
             GrownGet(InsertRecursive(kids[i].val, key, value, maxKeys), x) ==
             Lookup(Put(Entries(kids[i].val), key, value), x))
  {
    var i := FindChild(kids, key);
    InternalRoute(kids, lo, hi, key, value, maxKeys, x);
    InternalLookup(kids, lo, hi, key, value, x);
    var g := InsertRecursive(kids[i].val, key, value, maxKeys);
    if g.Split? && i > 0 && Less(x, g.leftFirst) {
      NotInLeftSibling(kids, lo, hi, i, x);
      KeyWithinChild(kids, lo, hi, key);
      InsertStores(kids[i].val, KidLo(kids, i, lo), KidHi(kids, i, hi), key, value, maxKeys);
      GrownGetStored(g, x);
      LookupFound(GrownEntries(g), x);
    }
  }

  /** `get` only ever returns what is stored, whatever the separators say. */
  lemma {:induction false} GetStored<V>(n: Node<V>, key: Str)
    requires Get(n, key).Some?
    ensures Entry(key, Get(n, key).value) in Entries(n)
    decreases n
  {
    match n
    case Leaf(items) => LookupStored(items, key);
    case Internal(kids) =>
      var i := FindChild(kids, key);
      GetStored(kids[i].val, key);
      EntriesOfSplit(kids, i);
  }

  lemma {:induction false} LookupStored<T>(d: seq<Entry<T>>, name: Str)
    requires Lookup(d, name).Some?
    ensures Entry(name, Lookup(d, name).value) in d
  {
    if d[0].name != name {
      LookupStored(d[1..], name);
    }
  }

  lemma GrownGetStored<V>(g: Grown<V>, key: Str)
    ensures GrownGet(g, key).Some? ==> Entry(key, GrownGet(g, key).value) in GrownEntries(g)
  {
    match g
    case Whole(n) => if Get(n, key).Some? { GetStored(n, key); }
    case Split(l, r, _, _) =>
      if Get(l, key).Some? { GetStored(l, key); }
      if Get(r, key).Some? { GetStored(r, key); }
  }
}
