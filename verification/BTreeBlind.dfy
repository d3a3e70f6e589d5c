/** How ordinary inserts make a query blind: the first split names the first leaf, and no later
    insert lowers that name. */
module BTreeBlind {
  import opened Keys
  import opened Directory
  import opened BTree
  import opened BTreeMap
  import opened BTreeBuild
  import opened BTreeRange

  ghost predicate DistinctKeys<V>(ops: seq<(Str, V)>) {
    && (forall i :: 0 <= i < |ops| ==> ops[i].0 != [])
    && forall i, j :: 0 <= i < j < |ops| ==> ops[i].0 != ops[j].0
  }

  ghost predicate IsKey<V>(ops: seq<(Str, V)>, name: Str) {
    exists i :: 0 <= i < |ops| && ops[i].0 == name
  }

  /** One entry for each operation, in key order. */
  ghost predicate Holds<V>(items: seq<Entry<V>>, ops: seq<(Str, V)>) {
    && Sorted(items)
    && |items| == |ops|
    && forall i :: 0 <= i < |items| ==> items[i].name != [] && IsKey(ops, items[i].name)
  }

  /** One more key goes into a directory of the others. */
  lemma PutOneMore<V>(items: seq<Entry<V>>, ops: seq<(Str, V)>)
    requires DistinctKeys(ops) && ops != [] && Holds(items, ops[..|ops| - 1])
    ensures (var last := ops[|ops| - 1]; Lookup(items, last.0) == None && Holds(SetEntry(items, last.0, last.1), ops))
  {
    var init, last := ops[..|ops| - 1], ops[|ops| - 1];
    forall i | 0 <= i < |items| ensures items[i].name != last.0 {
      assert IsKey(init, items[i].name);
    }
    LookupNone(items, last.0);
    PutIsUpdate(items, last.0, last.1);
    var items' := Put(items, last.0, last.1);
    forall i | 0 <= i < |items'| ensures items'[i].name != [] && IsKey(ops, items'[i].name) {
      if items'[i].name == last.0 {
        assert ops[|ops| - 1].0 == items'[i].name;
      } else {
        assert items'[i] in items;
        assert IsKey(init, items'[i].name);
        var j :| 0 <= j < |init| && init[j].0 == items'[i].name;
        assert ops[j].0 == items'[i].name;
      }
    }
  }

  /** Until it is full, the tree is one leaf. */
  lemma {:induction false} FirstLeaf<V>(ops: seq<(Str, V)>, maxKeys: nat) returns (items: seq<Entry<V>>)
    requires DistinctKeys(ops) && 1 <= |ops| <= maxKeys
    ensures Build(ops, maxKeys) == Some(Leaf(items)) && Holds(items, ops)
  {
    var init, last := ops[..|ops| - 1], ops[|ops| - 1];
    items := [];
    if init != [] { items := FirstLeaf(init, maxKeys); }
    PutOneMore(items, ops);
    items := SetEntry(items, last.0, last.1);
  }

  /** The tree after its first split. */
  ghost function TwoLeaves<V>(left: seq<Entry<V>>, right: seq<Entry<V>>, first: Str): Node<V>
    requires right != []
  {
    Internal([Entry(first, Leaf(left)), Entry(right[0].name, Leaf(right))])
  }

  /** The first insert that is too many splits the leaf, and names the halves by their first keys. */
  lemma FirstSplit<V>(ops: seq<(Str, V)>, maxKeys: nat) returns (items: seq<Entry<V>>)
    requires DistinctKeys(ops) && maxKeys >= 1 && |ops| == maxKeys + 1
    ensures Holds(items, ops)
    ensures Build(ops, maxKeys) == Some(TwoLeaves(items[..|items| / 2], items[|items| / 2..], items[0].name))
  {
    var init, last := ops[..maxKeys], ops[maxKeys];
    items := FirstLeaf(init, maxKeys);
    PutOneMore(items, ops);
    items := SetEntry(items, last.0, last.1);
    var g := SplitLeaf(items);
    assert Less(items[0].name, items[|items| / 2].name);
    NewRootRoutes(g, last.0);
  }

  /** A smaller key goes into the first leaf, whose name stays. */
  lemma SmallerKeyIsFirst<V>(left: seq<Entry<V>>, right: seq<Entry<V>>, first: Str, key: Str, value: V, maxKeys: nat)
    requires maxKeys >= 2 && right != [] && left != [] && |left| < maxKeys && left[0].name == first && first != []
    requires key != [] && Sorted(left) && Less(key, first) && Less(first, right[0].name)
    ensures Insert(Some(TwoLeaves(left, right, first)), key, value, maxKeys) ==
            TwoLeaves([Entry(key, value)] + left, right, first)
  {
    LessIsStrictTotalOrder();
    var t := TwoLeaves(left, right, first);
    assert FindChild(t.kids, key) == 0;
    BelowAll(left, key);
    LookupNone(left, key);
    assert Get(t, key) == None;
    assert SetEntry(left, key, value) == [Entry(key, value)] + left;
    var leaf, t' := Leaf([Entry(key, value)] + left), TwoLeaves([Entry(key, value)] + left, right, first);
    assert InsertRecursive(Leaf(left), key, value, maxKeys) == Whole(leaf);
    PutAt(t.kids, 0, leaf);
    assert t.kids[0 := Entry(first, leaf)] == t'.kids;
    assert InsertRecursive(t, key, value, maxKeys) == Whole(t');
  }

  /** Of any order: fill the tree until it splits, with keys not below some bound; a key below the
      bound is then stored, and hidden from every query with that upper bound. */
  lemma HiddenBelowFirstName<V>(ops: seq<(Str, V)>, key: Str, value: V, maxKeys: nat, start: Option<Str>, end: Str)
    requires maxKeys >= 2 && DistinctKeys(ops) && |ops| == maxKeys + 1
    requires forall i :: 0 <= i < |ops| ==> !Less(ops[i].0, end)
    requires key != [] && Less(key, end)
    ensures Get(Build(ops + [(key, value)], maxKeys).value, key) == Some(value)
    ensures From(key, start) ==> Range(Build(ops + [(key, value)], maxKeys).value, start, Some(end)) == []
  {
    var items := FirstSplit(ops, maxKeys);
    var mid := |items| / 2;
    var left, right := items[..mid], items[mid..];
    LessIsStrictTotalOrder();
    assert IsKey(ops, items[0].name);
    SmallerKeyIsFirst(left, right, items[0].name, key, value, maxKeys);
    assert (ops + [(key, value)])[..|ops|] == ops;
    var t := TwoLeaves([Entry(key, value)] + left, right, items[0].name);
    assert Build(ops + [(key, value)], maxKeys) == Some(t);
    assert FindChild(t.kids, key) == 0;
    if From(key, start) { StopsAtOnce(t.kids, start, Some(end), Entry(key, value)); }
  }
}
