/** Trees built from null by inserts alone: names are exact lower bounds, all leaves have one
    depth, nodes keep their occupancy, and the whole run refines a finite map. */
module BTreeBuild {
  import opened Keys
  import opened Directory
  import opened BTree
  import opened BTreeRouting
  import opened BTreeInsert
  import opened BTreeMap

  // ---------------------------------------------------------------- exact names

  /** The node is listed under its smallest key, and so is everything below it. */
  ghost predicate Anchored<V>(n: Node<V>, first: Str)
    decreases n
  {
    match n
    case Leaf(items) => items != [] && items[0].name == first
    case Internal(kids) =>
      && kids != [] && kids[0].name == first
      && forall i :: 0 <= i < |kids| ==> Anchored(kids[i].val, kids[i].name)
  }

  /** Anchored everywhere off the leftmost path, where names are never lowered. */
  ghost predicate Built<V>(n: Node<V>)
    decreases n
  {
    match n
    case Leaf(_) => true
    case Internal(kids) =>
      && kids != [] && Built(kids[0].val)
      && forall i :: 1 <= i < |kids| ==> Anchored(kids[i].val, kids[i].name)
  }

  lemma {:induction false} AnchoredStaysRouted<V>(n: Node<V>, first: Str, hi: Option<Str>, key: Str, maxKeys: nat)
    requires Routed(n, Some(first), hi) && Anchored(n, first) && Within(key, Some(first), hi)
    ensures StaysRouted(n, key, maxKeys) && FirstNameAfter(n, key, maxKeys) == first
    decreases n
  {
    match n
    case Leaf(_) =>
    case Internal(kids) =>
      var i := FindChild(kids, key);
      KeyWithinChild(kids, Some(first), hi, key);
      assert KidLo(kids, i, Some(first)) == Some(kids[i].name);
      AnchoredStaysRouted(kids[i].val, kids[i].name, KidHi(kids, i, hi), key, maxKeys);
      RoutedNamesFrom(kids[i].val, kids[i].name, KidHi(kids, i, hi));
  }

  lemma {:induction false} BuiltStaysRouted<V>(n: Node<V>, hi: Option<Str>, key: Str, maxKeys: nat)
    requires Routed(n, None, hi) && Built(n) && Within(key, None, hi)
    ensures StaysRouted(n, key, maxKeys)
    decreases n
  {
    match n
    case Leaf(_) =>
    case Internal(kids) =>
      var i := FindChild(kids, key);
      KeyWithinChild(kids, None, hi, key);
      if i == 0 {
        BuiltStaysRouted(kids[0].val, KidHi(kids, 0, hi), key, maxKeys);
      } else {
        AnchoredStaysRouted(kids[i].val, kids[i].name, KidHi(kids, i, hi), key, maxKeys);
        RoutedNamesFrom(kids[i].val, kids[i].name, KidHi(kids, i, hi));
      }
  }

  ghost predicate GrownAnchored<V>(g: Grown<V>, first: Str) {
    match g
    case Whole(node) => Anchored(node, first)
    case Split(left, right, lf, rf) => lf == first && Anchored(left, first) && Anchored(right, rf)
  }

  ghost predicate GrownBuilt<V>(g: Grown<V>) {
    match g
    case Whole(node) => Built(node)
    case Split(left, right, _, rf) => Built(left) && Anchored(right, rf)
  }

  lemma {:induction false} InsertKeepsAnchored<V>(n: Node<V>, first: Str, hi: Option<Str>, key: Str, value: V,
                                                  maxKeys: nat)
    requires maxKeys >= 1 && Routed(n, Some(first), hi) && Anchored(n, first) && Within(key, Some(first), hi)
    ensures GrownAnchored(InsertRecursive(n, key, value, maxKeys), first)
    decreases n
  {
    match n
    case Leaf(items) =>
    case Internal(kids) =>
      var i := FindChild(kids, key);
      InternalInsert(kids, Some(first), hi, key, value, maxKeys);
      assert KidLo(kids, i, Some(first)) == Some(kids[i].name);
      InsertKeepsAnchored(kids[i].val, kids[i].name, KidHi(kids, i, hi), key, value, maxKeys);
      SplicedAnchored(kids, i, InsertRecursive(kids[i].val, key, value, maxKeys), 0);
      GrowAnchored(Spliced(kids, i, InsertRecursive(kids[i].val, key, value, maxKeys)), first, maxKeys);
  }

  lemma GrowAnchored<V>(kids: seq<Entry<Node<V>>>, first: Str, maxKeys: nat)
    requires maxKeys >= 1 && kids != [] && kids[0].name == first
    requires forall j :: 0 <= j < |kids| ==> Anchored(kids[j].val, kids[j].name)
    ensures GrownAnchored(if |kids| > maxKeys then SplitInternal(kids) else Whole(Internal(kids)), first)
  {
    if |kids| > maxKeys {
      var mid := |kids| / 2;
      assert forall j :: 0 <= j < mid ==> kids[..mid][j] == kids[j];
      assert forall j :: 0 <= j < |kids| - mid ==> kids[mid..][j] == kids[mid + j];
    }
  }

  /** From child `from` on, everything stays anchored under its name. */
  lemma SplicedAnchored<V>(kids: seq<Entry<Node<V>>>, i: nat, g: Grown<V>, from: nat)
    requires from <= i < |kids| && GrownAnchored(g, kids[i].name)
    requires forall j :: from <= j < |kids| ==> Anchored(kids[j].val, kids[j].name)
    ensures forall j :: from <= j < |Spliced(kids, i, g)| ==>
              Anchored(Spliced(kids, i, g)[j].val, Spliced(kids, i, g)[j].name)
    ensures Spliced(kids, i, g)[0].name == kids[0].name
    ensures i > 0 ==> Spliced(kids, i, g)[0] == kids[0]
  {
    var kids' := Spliced(kids, i, g);
    forall j | from <= j < |kids'|
      ensures Anchored(kids'[j].val, kids'[j].name)
    {
      if j < i {
        assert kids'[j] == kids[j];
      } else if j >= i + |GrownKids(kids[i].name, g)| {
        assert kids'[j] == kids[j + 1 - |GrownKids(kids[i].name, g)|];
      }
    }
  }

  lemma {:induction false} InsertKeepsBuilt<V>(n: Node<V>, hi: Option<Str>, key: Str, value: V, maxKeys: nat)
    requires maxKeys >= 1 && Routed(n, None, hi) && Built(n) && Within(key, None, hi)
    ensures GrownBuilt(InsertRecursive(n, key, value, maxKeys))
    decreases n
  {
    match n
    case Leaf(items) =>
    case Internal(kids) =>
      var i := FindChild(kids, key);
      var g := InsertRecursive(kids[i].val, key, value, maxKeys);
      InternalInsert(kids, None, hi, key, value, maxKeys);
      if i == 0 {
        InsertKeepsBuilt(kids[0].val, KidHi(kids, 0, hi), key, value, maxKeys);
        SplicedBuilt(kids, g);
      } else {
        InsertKeepsAnchored(kids[i].val, kids[i].name, KidHi(kids, i, hi), key, value, maxKeys);
        SplicedAnchored(kids, i, g, 1);
      }
      var kids' := Spliced(kids, i, g);
      assert Built(Internal(kids'));
      if |kids'| > maxKeys { SplitBuilt(kids'); }
  }

  lemma SplicedBuilt<V>(kids: seq<Entry<Node<V>>>, g: Grown<V>)
    requires Built(Internal(kids)) && GrownBuilt(g)
    ensures Built(Internal(Spliced(kids, 0, g)))
  {
    var kids' := Spliced(kids, 0, g);
    forall j | 1 <= j < |kids'|
      ensures Anchored(kids'[j].val, kids'[j].name)
    {
      if j >= |GrownKids(kids[0].name, g)| {
        assert kids'[j] == kids[j + 1 - |GrownKids(kids[0].name, g)|];
      }
    }
  }

  lemma SplitBuilt<V>(kids: seq<Entry<Node<V>>>)
    requires Built(Internal(kids)) && |kids| >= 2
    ensures GrownBuilt(SplitInternal(kids))
  {
    var right := kids[|kids| / 2..];
    forall j | 0 <= j < |right|
      ensures Anchored(right[j].val, right[j].name)
    {
      assert right[j] == kids[|kids| / 2 + j];
    }
  }

  // ---------------------------------------------------------------- occupancy and depth

  /** All leaves h levels down; between least and maxKeys entries here, and at least half an
      order's worth in every node below. */
  ghost predicate Shaped<V>(n: Node<V>, h: nat, least: nat, maxKeys: nat)
    decreases n
  {
    match n
    case Leaf(items) => h == 0 && least <= |items| <= maxKeys
    case Internal(kids) =>
      && h > 0 && least <= |kids| <= maxKeys
      && forall i :: 0 <= i < |kids| ==> Shaped(kids[i].val, h - 1, (maxKeys + 1) / 2, maxKeys)
  }

  ghost predicate GrownShaped<V>(g: Grown<V>, h: nat, least: nat, maxKeys: nat) {
    match g
    case Whole(node) => Shaped(node, h, least, maxKeys)
    case Split(left, right, _, _) =>
      Shaped(left, h, (maxKeys + 1) / 2, maxKeys) && Shaped(right, h, (maxKeys + 1) / 2, maxKeys)
  }

  lemma {:induction false} InsertKeepsShape<V>(n: Node<V>, lo: Option<Str>, hi: Option<Str>, h: nat, least: nat,
                                               key: Str, value: V, maxKeys: nat)
    requires maxKeys >= 1 && Routed(n, lo, hi) && Within(key, lo, hi) && Shaped(n, h, least, maxKeys)
    ensures GrownShaped(InsertRecursive(n, key, value, maxKeys), h, least, maxKeys)
    decreases n
  {
    match n
    case Leaf(items) => LeafKeepsShape(items, least, key, value, maxKeys);
    case Internal(kids) =>
      var i := FindChild(kids, key);
      var lo', hi' := KidLo(kids, i, lo), KidHi(kids, i, hi);
      KeyWithinChild(kids, lo, hi, key);
      var g := InsertRecursive(kids[i].val, key, value, maxKeys);
      InsertKeepsShape(kids[i].val, lo', hi', h - 1, (maxKeys + 1) / 2, key, value, maxKeys);
      InsertStores(kids[i].val, lo', hi', key, value, maxKeys);
      ReplaceChildSplices(kids, lo, hi, i, g);
      ParentShaped(kids, i, g, InsertRecursive(n, key, value, maxKeys), h, least, maxKeys);
  }

  lemma ParentShaped<V>(kids: seq<Entry<Node<V>>>, i: nat, g: Grown<V>, r: Grown<V>, h: nat, least: nat, maxKeys: nat)
    requires maxKeys >= 1 && i < |kids| && Shaped(Internal(kids), h, least, maxKeys)
    requires GrownShaped(g, h - 1, (maxKeys + 1) / 2, maxKeys)
    requires (var kids' := Spliced(kids, i, g);
              r == if |kids'| > maxKeys then SplitInternal(kids') else Whole(Internal(kids')))
    ensures GrownShaped(r, h, least, maxKeys)
  {
    SplicedShaped(kids, i, g, h, maxKeys);
    GrowShaped(Spliced(kids, i, g), r, h, least, maxKeys);
  }

  lemma LeafKeepsShape<V>(items: seq<Entry<V>>, least: nat, key: Str, value: V, maxKeys: nat)
    requires maxKeys >= 1 && Sorted(items) && key != [] && least <= |items| <= maxKeys
    ensures GrownShaped(InsertIntoLeaf(items, key, value, maxKeys), 0, least, maxKeys)
  {
    PutMembers(items, key, value);
  }

  lemma GrowShaped<V>(kids: seq<Entry<Node<V>>>, g: Grown<V>, h: nat, least: nat, maxKeys: nat)
    requires maxKeys >= 1 && h > 0 && least <= |kids| <= maxKeys + 1
    requires g == if |kids| > maxKeys then SplitInternal(kids) else Whole(Internal(kids))
    requires forall j :: 0 <= j < |kids| ==> Shaped(kids[j].val, h - 1, (maxKeys + 1) / 2, maxKeys)
    ensures GrownShaped(g, h, least, maxKeys)
  {
    if |kids| > maxKeys {
      var mid := |kids| / 2;
      assert forall j :: 0 <= j < mid ==> kids[..mid][j] == kids[j];
      assert forall j :: 0 <= j < |kids| - mid ==> kids[mid..][j] == kids[mid + j];
    }
  }

  lemma SplicedShaped<V>(kids: seq<Entry<Node<V>>>, i: nat, g: Grown<V>, h: nat, maxKeys: nat)
    requires i < |kids| && h > 0 && GrownShaped(g, h - 1, (maxKeys + 1) / 2, maxKeys)
    requires forall j :: 0 <= j < |kids| ==> Shaped(kids[j].val, h - 1, (maxKeys + 1) / 2, maxKeys)
    ensures forall j :: 0 <= j < |Spliced(kids, i, g)| ==>
              Shaped(Spliced(kids, i, g)[j].val, h - 1, (maxKeys + 1) / 2, maxKeys)
  {
    var kids' := Spliced(kids, i, g);
    forall j | 0 <= j < |kids'|
      ensures Shaped(kids'[j].val, h - 1, (maxKeys + 1) / 2, maxKeys)
    {
      if j < i {
        assert kids'[j] == kids[j];
      } else if j >= i + |GrownKids(kids[i].name, g)| {
        assert kids'[j] == kids[j + 1 - |GrownKids(kids[i].name, g)|];
      }
    }
  }

  lemma {:induction false} ShapedIsNotTooBig<V>(n: Node<V>, h: nat, least: nat, maxKeys: nat)
    requires Shaped(n, h, least, maxKeys)
    ensures !TooBig(n, maxKeys)
    decreases n
  {
    match n
    case Leaf(_) =>
    case Internal(kids) =>
      forall i | 0 <= i < |kids|
        ensures !TooBig(kids[i].val, maxKeys)
      {
        ShapedIsNotTooBig(kids[i].val, h - 1, (maxKeys + 1) / 2, maxKeys);
      }
  }

  /** The root is exempt from the lower bound, but an internal root has two children. */
  ghost predicate RootShaped<V>(n: Node<V>, h: nat, maxKeys: nat) {
    Shaped(n, h, if n.Leaf? then 0 else 2, maxKeys)
  }

  // ---------------------------------------------------------------- whole runs of inserts

  function Build<V(==)>(ops: seq<(Str, V)>, maxKeys: nat): Option<Node<V>>
    requires maxKeys >= 1
  {
    if ops == [] then None
    else
      var last := ops[|ops| - 1];
      Some(Insert(Build(ops[..|ops| - 1], maxKeys), last.0, last.1, maxKeys))
  }

  /** The finite map the run stands for: later writes win, the empty key is never stored. */
  ghost function Model<V>(ops: seq<(Str, V)>): map<Str, V> {
    if ops == [] then map[]
    else
      var last := ops[|ops| - 1];
      var before := Model(ops[..|ops| - 1]);
      if last.0 == [] then before else before[last.0 := last.1]
  }

  ghost function MapGet<V>(m: map<Str, V>, key: Str): Option<V> {
    if key in m then Some(m[key]) else None
  }

  /** What every tree built by inserts satisfies, and the map it stands for. */
  ghost predicate Stands<V>(t: Node<V>, h: nat, m: map<Str, V>, maxKeys: nat) {
    && Routed(t, None, None) && Built(t) && RootShaped(t, h, maxKeys)
    && forall x :: Get(t, x) == MapGet(m, x)
  }

  lemma NoOpInsertStands<V>(t: Node<V>, h: nat, m: map<Str, V>, key: Str, value: V, maxKeys: nat)
    requires maxKeys >= 2 && Stands(t, h, m, maxKeys)
    requires key == [] || Get(t, key) == Some(value)
    ensures Insert(Some(t), key, value, maxKeys) == t
    ensures (if key == [] then m else m[key := value]) == m
  {
    if key == [] {
      GetIsLookup(t, None, None, key);
      EntriesSorted(t, None, None);
      LookupNone(Entries(t), key);
      ShapedIsNotTooBig(t, h, if t.Leaf? then 0 else 2, maxKeys);
      EmptyKeyIsNotStored(t, None, None, value, maxKeys);
    }
  }

  lemma InsertShapesRoot<V>(t: Node<V>, h: nat, key: Str, value: V, maxKeys: nat) returns (h': nat)
    requires maxKeys >= 2 && Routed(t, None, None) && Built(t) && RootShaped(t, h, maxKeys)
    requires key != [] && Get(t, key) != Some(value)
    ensures h <= h' <= h + 1
    ensures (var t' := Insert(Some(t), key, value, maxKeys); Built(t') && RootShaped(t', h', maxKeys))
  {
    var g := InsertRecursive(t, key, value, maxKeys);
    InsertKeepsBuilt(t, None, key, value, maxKeys);
    InsertKeepsShape(t, None, None, h, if t.Leaf? then 0 else 2, key, value, maxKeys);
    InsertStores(t, None, None, key, value, maxKeys);
    h' := if g.Split? then h + 1 else h;
    if g.Split? {
      NewRootRoutes(g, key);
      NewRootShaped(Entry(g.leftFirst, g.left), Entry(g.rightFirst, g.right), h, maxKeys);
    } else {
      WholeKeepsKind(t, key, value, maxKeys);
    }
  }

  lemma NewRootShaped<V>(l: Entry<Node<V>>, r: Entry<Node<V>>, h: nat, maxKeys: nat)
    requires maxKeys >= 2 && Built(l.val) && Anchored(r.val, r.name)
    requires Shaped(l.val, h, (maxKeys + 1) / 2, maxKeys) && Shaped(r.val, h, (maxKeys + 1) / 2, maxKeys)
    ensures Built(Internal([l, r])) && RootShaped(Internal([l, r]), h + 1, maxKeys)
  {
  }

  lemma WholeKeepsKind<V>(t: Node<V>, key: Str, value: V, maxKeys: nat)
    requires maxKeys >= 1 && Built(t) && InsertRecursive(t, key, value, maxKeys).Whole?
    ensures InsertRecursive(t, key, value, maxKeys).node.Leaf? == t.Leaf?
  {
  }

  lemma InsertStands<V>(t: Node<V>, h: nat, m: map<Str, V>, key: Str, value: V, maxKeys: nat) returns (h': nat)
    requires maxKeys >= 2 && Stands(t, h, m, maxKeys)
    ensures h <= h' <= h + 1
    ensures Stands(Insert(Some(t), key, value, maxKeys), h', if key == [] then m else m[key := value], maxKeys)
  {
    h' := h;
    if key == [] || Get(t, key) == Some(value) {
      NoOpInsertStands(t, h, m, key, value, maxKeys);
    } else {
      BuiltStaysRouted(t, None, key, maxKeys);
      StaysRoutedIsSafe(t, key, maxKeys);
      InsertIsMapUpdateExactly(t, key, value, maxKeys);
      RootInsertKeepsRouted(t, key, value, maxKeys);
      h' := InsertShapesRoot(t, h, key, value, maxKeys);
    }
  }

  lemma FirstInsertStands<V>(key: Str, value: V, maxKeys: nat)
    requires maxKeys >= 2
    ensures Stands(Insert(None, key, value, maxKeys), 0, if key == [] then map[] else map[key := value], maxKeys)
  {
    var t := Insert(None, key, value, maxKeys);
    var e := Entry(key, value);
    if key != [] {
      assert t == Leaf([e]);
      forall x
        ensures Get(t, x) == MapGet(map[key := value], x)
      {
        LookupAppend([e], [], x);
        LookupNone([e][1..], x);
      }
    }
  }

  /** Every run of inserts from null, with order at least 3, refines its finite map: lookups
      answer the map, the traversal is strictly sorted, leaves have equal depth and nodes keep
      their occupancy bounds. */
  lemma {:induction false} BuildRefinesMap<V>(ops: seq<(Str, V)>, maxKeys: nat) returns (h: nat)
    requires maxKeys >= 2 && ops != []
    ensures Stands(Build(ops, maxKeys).value, h, Model(ops), maxKeys)
    ensures Sorted(Entries(Build(ops, maxKeys).value))
    ensures forall x :: Lookup(Entries(Build(ops, maxKeys).value), x) == MapGet(Model(ops), x)
  {
    var last := ops[|ops| - 1];
    var rest := ops[..|ops| - 1];
    if rest == [] {
      FirstInsertStands(last.0, last.1, maxKeys);
      h := 0;
      assert Model(rest) == map[];
    } else {
      h := BuildRefinesMap(rest, maxKeys);
      h := InsertStands(Build(rest, maxKeys).value, h, Model(rest), last.0, last.1, maxKeys);
    }
    var t := Build(ops, maxKeys).value;
    assert t == Insert(Build(rest, maxKeys), last.0, last.1, maxKeys);
    EntriesSorted(t, None, None);
    forall x
      ensures Lookup(Entries(t), x) == MapGet(Model(ops), x)
    {
      GetIsLookup(t, None, None, x);
    }
  }
}
