/** The operations the source writes as loops over a directory being built: leaf creation, the
    two splits, and merge. */
module BTreeMerge {
  import opened Keys
  import opened Directory
  import opened BTree
  import opened BTreeRouting
  import opened BTreeInsert
  import opened BTreeMap
  import opened BTreeBuild

  /** Setting the entries of a sorted slice one by one, from an empty directory, rebuilds it. */
  method CopyEntries<T>(src: seq<Entry<T>>) returns (d: seq<Entry<T>>)
    requires Sorted(src) && forall i :: 0 <= i < |src| ==> src[i].name != []
    ensures d == src
  {
    d := [];
    for i := 0 to |src|
      invariant d == src[..i]
    {
      PutBetween(d, |d|, src[i].name, src[i].val);
      assert src[..i] + [src[i]] + [] == src[..i + 1];
      d := SetEntry(d, src[i].name, src[i].val);
    }
  }

  method SplitLeafEntries<V>(items: seq<Entry<V>>) returns (g: Grown<V>)
    requires Sorted(items) && AllWithin(items, None, None) && |items| >= 2
    ensures g == SplitLeaf(items)
    ensures GrownEntries(g) == items && NamesOk(g, None, None)
    ensures g.left.items != [] && g.right.items != []
  {
    var mid := |items| / 2;
    var leftEntries, rightEntries := items[..mid], items[mid..];
    var left := CopyEntries(leftEntries);
    var right := CopyEntries(rightEntries);
    g := Split(Leaf(left), Leaf(right), leftEntries[0].name, rightEntries[0].name);
    assert items == left + right;
  }

  method SplitInternalNode<V>(kids: seq<Entry<Node<V>>>, ghost lo: Option<Str>, ghost hi: Option<Str>)
    returns (g: Grown<V>)
    requires RoutedKids(kids, lo, hi) && |kids| >= 2
    ensures g == SplitInternal(kids)
    ensures GrownRouted(g, lo, hi) && GrownEntries(g) == EntriesOf(kids)
  {
    var mid := |kids| / 2;
    var leftEntries, rightEntries := kids[..mid], kids[mid..];
    var left := CopyEntries(leftEntries);
    var right := CopyEntries(rightEntries);
    g := Split(Internal(left), Internal(right), leftEntries[0].name, rightEntries[0].name);
    SplitInternalRouted(kids, lo, hi);
    SplitInternalEntries(kids);
  }

  /** createLeaf: later items of one name replace earlier ones, the empty name is not listed. */
  method CreateLeaf<V>(items: seq<(Str, V)>) returns (n: Node<V>)
    ensures n.Leaf? && Routed(n, None, None)
    ensures forall x :: Get(n, x) == MapGet(Model(items), x)
  {
    var node: seq<Entry<V>> := [];
    assert Model(items[..0]) == map[];
    for i := 0 to |items|
      invariant Sorted(node) && AllWithin(node, None, None)
      invariant forall x :: Lookup(node, x) == MapGet(Model(items[..i]), x)
    {
      assert items[..i + 1][..i] == items[..i];
      PutIsUpdate(node, items[i].0, items[i].1);
      node := SetEntry(node, items[i].0, items[i].1);
    }
    assert items[..|items|] == items;
    n := Leaf(node);
  }

  /** The value a key has after merging the given entries into m. */
  ghost function Union<V>(m: map<Str, V>, added: seq<Entry<V>>, preferOther: bool, key: Str): Option<V> {
    if Lookup(added, key).Some? && (preferOther || key !in m) then Lookup(added, key) else MapGet(m, key)
  }

  /** Merging any routed tree into a tree built by inserts is map union with the chosen
      preference, and the result is again such a tree. */
  method Merge<V(==)>(base: Option<Node<V>>, other: Option<Node<V>>, preferOther: bool, maxKeys: nat,
                      ghost h: nat, ghost m: map<Str, V>)
    returns (r: Option<Node<V>>, ghost h': nat, ghost m': map<Str, V>)
    requires maxKeys >= 2
    requires base.Some? ==> Stands(base.value, h, m, maxKeys)
    requires other.Some? ==> Routed(other.value, None, None)
    ensures other == None ==> r == base
    ensures base == None ==> r == other
    ensures base.Some? && other.Some? ==>
              && r.Some? && Stands(r.value, h', m', maxKeys)
              && forall x :: Get(r.value, x) == Union(m, Entries(other.value), preferOther, x)
  {
    h', m' := h, m;
    if other == None { return base, h, m; }
    if base == None { return other, h, m; }
    var result := base.value;
    var entries := Entries(other.value);
    EntriesSorted(other.value, None, None);
    for i := 0 to |entries|
      invariant Stands(result, h', m', maxKeys)
      invariant forall x :: MapGet(m', x) == Union(m, entries[..i], preferOther, x)
    {
      var key, value := entries[i].name, entries[i].val;
      UnionSnoc(m, m', entries, i, preferOther);
      assert Get(result, key) == MapGet(m', key);
      if Get(result, key) == None || preferOther {
        h' := InsertStands(result, h', m', key, value, maxKeys);
        result := Insert(Some(result), key, value, maxKeys);
        m' := m'[key := value];
      }
    }
    assert entries[..|entries|] == entries;
    r := Some(result);
  }

  lemma UnionSnoc<V>(m: map<Str, V>, m': map<Str, V>, d: seq<Entry<V>>, i: nat, preferOther: bool)
    requires Sorted(d) && i < |d|
    requires forall x :: MapGet(m', x) == Union(m, d[..i], preferOther, x)
    ensures (var m'' := if d[i].name !in m' || preferOther then m'[d[i].name := d[i].val] else m';
             forall x :: MapGet(m'', x) == Union(m, d[..i + 1], preferOther, x))
  {
    NotYetMerged(d, i);
    LookupSnoc(d, i);
    var m'' := if d[i].name !in m' || preferOther then m'[d[i].name := d[i].val] else m';
    forall x
      ensures MapGet(m'', x) == Union(m, d[..i + 1], preferOther, x)
    {
      assert MapGet(m', x) == Union(m, d[..i], preferOther, x);
    }
  }

  lemma NotYetMerged<V>(d: seq<Entry<V>>, i: nat)
    requires Sorted(d) && i < |d|
    ensures Lookup(d[..i], d[i].name) == None
  {
    LessIsStrictTotalOrder();
    LookupNone(d[..i], d[i].name);
  }

  lemma LookupSnoc<V>(d: seq<Entry<V>>, i: nat)
    requires i < |d|
    ensures forall x :: Lookup(d[..i + 1], x) ==
              if Lookup(d[..i], x).Some? then Lookup(d[..i], x) else if x == d[i].name then Some(d[i].val) else None
  {
    assert d[..i + 1] == d[..i] + [d[i]];
    forall x
      ensures Lookup(d[..i + 1], x) ==
              if Lookup(d[..i], x).Some? then Lookup(d[..i], x) else if x == d[i].name then Some(d[i].val) else None
    {
      LookupAppend(d[..i], [d[i]], x);
      LookupNone([d[i]][1..], x);
    }
  }
}
