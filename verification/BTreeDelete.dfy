/** Deletion, and runs that mix inserts and deletes. */
module BTreeDelete {
  import opened Keys
  import opened Directory
  import opened BTree
  import opened BTreeRouting
  import opened BTreeInsert
  import opened BTreeMap
  import opened BTreeBuild

  // ---------------------------------------------------------------- one delete

  /** Taking child i out of a routed directory leaves it routed: a neighbour's interval grows. */
  lemma RemovedRouted<V>(kids: seq<Entry<Node<V>>>, lo: Option<Str>, hi: Option<Str>, i: nat)
    requires RoutedKids(kids, lo, hi) && i < |kids| && |kids| > 1
    ensures RoutedKids(kids[..i] + kids[i + 1..], lo, hi)
  {
    var rest := kids[..i] + kids[i + 1..];
    forall j | 0 <= j < |rest|
      ensures Routed(rest[j].val, KidLo(rest, j, lo), KidHi(rest, j, hi))
    {
      RemovedRoutedAt(kids, lo, hi, i, j);
    }
  }

  lemma RemovedRoutedAt<V>(kids: seq<Entry<Node<V>>>, lo: Option<Str>, hi: Option<Str>, i: nat, j: nat)
    requires RoutedKids(kids, lo, hi) && i < |kids| && j < |kids| - 1
    ensures (var rest := kids[..i] + kids[i + 1..]; Routed(rest[j].val, KidLo(rest, j, lo), KidHi(rest, j, hi)))
  {
    var rest := kids[..i] + kids[i + 1..];
    var m := if j < i then j else j + 1;
    assert rest[j] == kids[m];
    if j + 1 < |rest| { assert rest[j + 1] == if j + 1 < i then kids[j + 1] else kids[j + 2]; }
    LessIsStrictTotalOrder();
    RoutedWiden(kids[m].val, KidLo(kids, m, lo), KidHi(kids, m, hi), KidLo(rest, j, lo), KidHi(rest, j, hi));
  }

  lemma RemoveInParts<V>(kids: seq<Entry<Node<V>>>, lo: Option<Str>, hi: Option<Str>, key: Str)
    requires RoutedKids(kids, lo, hi)
    ensures (var i := FindChild(kids, key);
             Remove(EntriesOf(kids), key) ==
             EntriesOf(kids[..i]) + Remove(Entries(kids[i].val), key) + EntriesOf(kids[i + 1..]))
  {
    LessIsStrictTotalOrder();
    var i := FindChild(kids, key);
    Parts(kids, lo, hi, i);
    var a, b, c := EntriesOf(kids[..i]), Entries(kids[i].val), EntriesOf(kids[i + 1..]);
    RemoveAppend(a + b, c, key);
    RemoveAppend(a, b, key);
    RemoveAbsent(a, key);
    RemoveAbsent(c, key);
  }

  ghost predicate DeleteOk<V>(n: Node<V>, lo: Option<Str>, hi: Option<Str>, key: Str) {
    ResultOk(Delete(n, key), lo, hi, Remove(Entries(n), key))
  }

  /** Removal of the key from the traversal, with routing kept through the removal of an
      emptied child and the collapse onto a single one. */
  lemma {:induction false} DeleteRemoves<V>(n: Node<V>, lo: Option<Str>, hi: Option<Str>, key: Str)
    requires Routed(n, lo, hi)
    ensures DeleteOk(n, lo, hi, key)
    decreases n
  {
    match n
    case Leaf(items) =>
      RemoveIsDelete(items, key);
      if Lookup(items, key) == None { LookupFound(items, key); RemoveAbsent(items, key); }
    case Internal(kids) =>
      var i := FindChild(kids, key);
      DeleteRemoves(kids[i].val, KidLo(kids, i, lo), KidHi(kids, i, hi), key);
      DeleteFromInternal(kids, lo, hi, key);
  }

  lemma DeleteFromInternal<V>(kids: seq<Entry<Node<V>>>, lo: Option<Str>, hi: Option<Str>, key: Str)
    requires RoutedKids(kids, lo, hi)
    requires (var i := FindChild(kids, key); DeleteOk(kids[i].val, KidLo(kids, i, lo), KidHi(kids, i, hi), key))
    ensures DeleteOk(Internal(kids), lo, hi, key)
  {
    var i := FindChild(kids, key);
    var want := Remove(EntriesOf(kids), key);
    RemoveInParts(kids, lo, hi, key);
    match Delete(kids[i].val, key)
    case None =>
      ChildEmptied(kids, lo, hi, i, want);
      assert Delete(Internal(kids), key) == Collapsed(Remove(kids, kids[i].name));
    case Some(child) =>
      ChildShrunk(kids, lo, hi, i, child, want);
      assert Delete(Internal(kids), key) == Some(Internal(SetEntry(kids, kids[i].name, child)));
  }

  /** No internal node has only one child, or none. */
  ghost predicate Branching<V>(n: Node<V>) {
    n.Internal? ==> |n.kids| >= 2 && forall i :: 0 <= i < |n.kids| ==> Branching(n.kids[i].val)
  }

  /** A deletion leaves no chains of single children where there were none, and never an empty node
      below the root. */
  lemma {:induction false} DeleteKeepsBranching<V>(n: Node<V>, lo: Option<Str>, hi: Option<Str>, key: Str)
    requires Routed(n, lo, hi) && Branching(n)
    ensures Delete(n, key).Some? ==> Branching(Delete(n, key).value)
    decreases n
  {
    if n.Internal? {
      var kids := n.kids;
      var i := FindChild(kids, key);
      DeleteKeepsBranching(kids[i].val, KidLo(kids, i, lo), KidHi(kids, i, hi), key);
      match Delete(kids[i].val, key)
      case None => RemoveAt(kids, i);
      case Some(child) =>
        ReplaceChildSplices(kids, lo, hi, i, Whole(child));
    }
  }

  ghost function Collapsed<V>(rest: seq<Entry<Node<V>>>): Option<Node<V>> {
    if rest == [] then None else if |rest| == 1 then Some(rest[0].val) else Some(Internal(rest))
  }

  ghost predicate ResultOk<V>(r: Option<Node<V>>, lo: Option<Str>, hi: Option<Str>, want: seq<Entry<V>>) {
    match r
    case None => want == []
    case Some(m) => Entries(m) == want && Routed(m, lo, hi)
  }

  lemma ChildShrunk<V>(kids: seq<Entry<Node<V>>>, lo: Option<Str>, hi: Option<Str>, i: nat, child: Node<V>,
                       want: seq<Entry<V>>)
    requires RoutedKids(kids, lo, hi) && i < |kids|
    requires Routed(child, KidLo(kids, i, lo), KidHi(kids, i, hi))
    requires want == EntriesOf(kids[..i]) + Entries(child) + EntriesOf(kids[i + 1..])
    ensures ResultOk(Some(Internal(SetEntry(kids, kids[i].name, child))), lo, hi, want)
  {
    var g := Whole(child);
    ReplaceChildSplices(kids, lo, hi, i, g);
    SplicedRouted(kids, lo, hi, i, g);
    SplicedEntries(kids, i, g);
  }

  lemma ChildEmptied<V>(kids: seq<Entry<Node<V>>>, lo: Option<Str>, hi: Option<Str>, i: nat, want: seq<Entry<V>>)
    requires RoutedKids(kids, lo, hi) && i < |kids|
    requires want == EntriesOf(kids[..i]) + [] + EntriesOf(kids[i + 1..])
    ensures ResultOk(Collapsed(Remove(kids, kids[i].name)), lo, hi, want)
  {
    RemoveAt(kids, i);
    var rest := kids[..i] + kids[i + 1..];
    EntriesOfAppend(kids[..i], kids[i + 1..]);
    assert EntriesOf(rest) == want;
    if |kids| > 1 { RemovedRouted(kids, lo, hi, i); }
    if |rest| == 1 { OnlyKidRouted(rest, lo, hi); }
  }

  lemma OnlyKidRouted<V>(rest: seq<Entry<Node<V>>>, lo: Option<Str>, hi: Option<Str>)
    requires RoutedKids(rest, lo, hi) && |rest| == 1
    ensures Routed(rest[0].val, lo, hi) && EntriesOf(rest) == Entries(rest[0].val)
  {
    assert rest == [rest[0]];
    EntriesOfOne(rest[0]);
  }

  /** Every leaf holds a key, as it does in every tree the operations reach except an empty root. */
  ghost predicate Full<V>(n: Node<V>)
    decreases n
  {
    match n
    case Leaf(items) => items != []
    case Internal(kids) => kids != [] && forall i :: 0 <= i < |kids| ==> Full(kids[i].val)
  }

  lemma {:induction false} FullHasEntries<V>(n: Node<V>)
    requires Full(n)
    ensures Entries(n) != []
    decreases n
  {
    match n
    case Leaf(_) =>
    case Internal(kids) => FullHasEntries(kids[0].val);
  }

  lemma {:induction false} DeleteKeepsFull<V>(n: Node<V>, lo: Option<Str>, hi: Option<Str>, key: Str)
    requires Routed(n, lo, hi) && Full(n)
    ensures Delete(n, key).Some? ==> Full(Delete(n, key).value)
    decreases n
  {
    match n
    case Leaf(_) =>
    case Internal(kids) =>
      var i := FindChild(kids, key);
      DeleteKeepsFull(kids[i].val, KidLo(kids, i, lo), KidHi(kids, i, hi), key);
      RemoveAt(kids, i);
      if Delete(kids[i].val, key).Some? { PutAt(kids, i, Delete(kids[i].val, key).value); }
  }

  ghost function RootGet<V>(root: Option<Node<V>>, key: Str): Option<V> {
    if root.Some? then Get(root.value, key) else None
  }

  /** `delete` is map removal on every routed tree, keeps it routed, and returns null exactly
      when nothing is left. */
  lemma DeleteIsMapRemove<V>(t: Node<V>, key: Str)
    requires Routed(t, None, None)
    ensures forall x :: RootGet(Delete(t, key), x) == if x == key then None else Get(t, x)
    ensures Delete(t, key).Some? ==> Routed(Delete(t, key).value, None, None)
    ensures Full(t) ==> (Delete(t, key) == None <==> forall x :: x != key ==> Get(t, x) == None)
  {
    DeleteRemoves(t, None, None, key);
    EntriesSorted(t, None, None);
    RemoveIsDelete(Entries(t), key);
    forall x
      ensures RootGet(Delete(t, key), x) == if x == key then None else Get(t, x)
    {
      GetIsLookup(t, None, None, x);
      if Delete(t, key).Some? { GetIsLookup(Delete(t, key).value, None, None, x); }
    }
    if Full(t) && Delete(t, key).Some? {
      var m := Delete(t, key).value;
      DeleteKeepsFull(t, None, None, key);
      FullHasEntries(m);
      EntriesSorted(m, None, None);
      LookupSome(Entries(m), 0);
      var x := Entries(m)[0].name;
      GetIsLookup(m, None, None, x);
      assert RootGet(Delete(t, key), x) != None;
    }
  }

  /** The one tree that deletion does not turn into null: an empty leaf, which an insert of the
      empty key leaves behind. */
  lemma EmptyLeafIsReturned<V>(key: Str)
    ensures Delete<V>(Leaf([]), key) == Some(Leaf([]))
    ensures forall value: V :: Insert(None, [], value, 31) == Leaf([])
  {
  }

  // ---------------------------------------------------------------- capacity under both operations

  lemma {:induction false} InsertKeepsFit<V>(n: Node<V>, lo: Option<Str>, hi: Option<Str>, key: Str, value: V,
                                             maxKeys: nat)
    requires maxKeys >= 1 && Routed(n, lo, hi) && Within(key, lo, hi) && !TooBig(n, maxKeys)
    ensures GrownFits(InsertRecursive(n, key, value, maxKeys), maxKeys)
    decreases n
  {
    match n
    case Leaf(items) => PutIsUpdate(items, key, value);
    case Internal(kids) =>
      var i := FindChild(kids, key);
      var lo', hi' := KidLo(kids, i, lo), KidHi(kids, i, hi);
      KeyWithinChild(kids, lo, hi, key);
      var g := InsertRecursive(kids[i].val, key, value, maxKeys);
      InsertKeepsFit(kids[i].val, lo', hi', key, value, maxKeys);
      InsertStores(kids[i].val, lo', hi', key, value, maxKeys);
      ReplaceChildSplices(kids, lo, hi, i, g);
      SplicedFits(kids, i, g, maxKeys);
  }

  ghost predicate GrownFits<V>(g: Grown<V>, maxKeys: nat) {
    match g
    case Whole(m) => !TooBig(m, maxKeys)
    case Split(l, r, _, _) => !TooBig(l, maxKeys) && !TooBig(r, maxKeys)
  }

  lemma SplicedFits<V>(kids: seq<Entry<Node<V>>>, i: nat, g: Grown<V>, maxKeys: nat)
    requires maxKeys >= 1 && i < |kids| && !TooBig(Internal(kids), maxKeys) && GrownFits(g, maxKeys)
    ensures (var kids' := Spliced(kids, i, g);
             GrownFits(if |kids'| > maxKeys then SplitInternal(kids') else Whole(Internal(kids')), maxKeys))
  {
    var kids' := Spliced(kids, i, g);
    forall j | 0 <= j < |kids'|
      ensures !TooBig(kids'[j].val, maxKeys)
    {
      if j < i { assert kids'[j] == kids[j]; }
      else if j >= i + |GrownKids(kids[i].name, g)| { assert kids'[j] == kids[j + 1 - |GrownKids(kids[i].name, g)|]; }
    }
  }

  ghost predicate GrownFull<V>(g: Grown<V>) {
    match g
    case Whole(m) => Full(m)
    case Split(l, r, _, _) => Full(l) && Full(r)
  }

  lemma {:induction false} InsertKeepsFull<V>(n: Node<V>, lo: Option<Str>, hi: Option<Str>, key: Str, value: V,
                                              maxKeys: nat)
    requires maxKeys >= 1 && Routed(n, lo, hi) && Within(key, lo, hi) && (Full(n) || n == Leaf([]))
    ensures GrownFull(InsertRecursive(n, key, value, maxKeys))
    decreases n
  {
    match n
    case Leaf(items) => PutIsUpdate(items, key, value);
    case Internal(kids) =>
      var i := FindChild(kids, key);
      var g := InsertRecursive(kids[i].val, key, value, maxKeys);
      InternalInsert(kids, lo, hi, key, value, maxKeys);
      InsertKeepsFull(kids[i].val, KidLo(kids, i, lo), KidHi(kids, i, hi), key, value, maxKeys);
      SplicedFull(kids, i, g, maxKeys);
  }

  lemma SplicedFull<V>(kids: seq<Entry<Node<V>>>, i: nat, g: Grown<V>, maxKeys: nat)
    requires maxKeys >= 1 && i < |kids| && Full(Internal(kids)) && GrownFull(g)
    ensures (var kids' := Spliced(kids, i, g);
             GrownFull(if |kids'| > maxKeys then SplitInternal(kids') else Whole(Internal(kids'))))
  {
    var kids' := Spliced(kids, i, g);
    forall j | 0 <= j < |kids'|
      ensures Full(kids'[j].val)
    {
      if j < i { assert kids'[j] == kids[j]; }
      else if j >= i + |GrownKids(kids[i].name, g)| { assert kids'[j] == kids[j + 1 - |GrownKids(kids[i].name, g)|]; }
    }
  }

  lemma {:induction false} DeleteKeepsFit<V>(n: Node<V>, lo: Option<Str>, hi: Option<Str>, key: Str, maxKeys: nat)
    requires Routed(n, lo, hi) && !TooBig(n, maxKeys)
    ensures Delete(n, key).Some? ==> !TooBig(Delete(n, key).value, maxKeys)
    decreases n
  {
    match n
    case Leaf(items) => RemoveNotLonger(items, key);
    case Internal(kids) =>
      var i := FindChild(kids, key);
      DeleteKeepsFit(kids[i].val, KidLo(kids, i, lo), KidHi(kids, i, hi), key, maxKeys);
      RemoveAt(kids, i);
      if Delete(kids[i].val, key).Some? { PutAt(kids, i, Delete(kids[i].val, key).value); }
  }

  lemma {:induction false} RemoveNotLonger<T>(d: seq<Entry<T>>, name: Str)
    ensures |Remove(d, name)| <= |d|
  {
    if d != [] { RemoveNotLonger(d[1..], name); }
  }

  // ---------------------------------------------------------------- mixed runs

  datatype Op<V> = Ins(key: Str, value: V) | Del(key: Str)

  function Step<V(==)>(root: Option<Node<V>>, op: Op<V>, maxKeys: nat): Option<Node<V>>
    requires maxKeys >= 1
  {
    match op
    case Ins(key, value) => Some(Insert(root, key, value, maxKeys))
    case Del(key) => if root.None? then None else Delete(root.value, key)
  }

  function Run<V(==)>(ops: seq<Op<V>>, maxKeys: nat): Option<Node<V>>
    requires maxKeys >= 1
  {
    if ops == [] then None else Step(Run(ops[..|ops| - 1], maxKeys), ops[|ops| - 1], maxKeys)
  }

  ghost function MapStep<V>(m: map<Str, V>, op: Op<V>): map<Str, V> {
    match op
    case Ins(key, value) => if key == [] then m else m[key := value]
    case Del(key) => m - {key}
  }

  ghost function MapRun<V>(ops: seq<Op<V>>): map<Str, V> {
    if ops == [] then map[] else MapStep(MapRun(ops[..|ops| - 1]), ops[|ops| - 1])
  }

  /** A check before each insert: no node about to be split away from its left sibling has
      something below the first name it will be listed under. */
  ghost predicate Careful<V>(ops: seq<Op<V>>, maxKeys: nat)
    requires maxKeys >= 1
  {
    ops != [] ==>
      var before := ops[..|ops| - 1];
      var root := Run(before, maxKeys);
      && Careful(before, maxKeys)
      && (ops[|ops| - 1].Ins? && root.Some? ==> StaysRouted(root.value, ops[|ops| - 1].key, maxKeys))
  }

  ghost predicate Good<V>(root: Option<Node<V>>, m: map<Str, V>, maxKeys: nat) {
    && (root.Some? ==> Routed(root.value, None, None) && !TooBig(root.value, maxKeys))
    && (root.Some? ==> Full(root.value) || root.value == Leaf([]))
    && forall x :: RootGet(root, x) == MapGet(m, x)
  }

  lemma InsertIsGood<V>(t: Node<V>, m: map<Str, V>, key: Str, value: V, maxKeys: nat)
    requires maxKeys >= 2 && Good(Some(t), m, maxKeys) && StaysRouted(t, key, maxKeys)
    ensures Good(Some(Insert(Some(t), key, value, maxKeys)), MapStep(m, Ins(key, value)), maxKeys)
  {
    if key == [] {
      GetIsLookup(t, None, None, key);
      EntriesSorted(t, None, None);
      LookupNone(Entries(t), key);
      EmptyKeyIsNotStored(t, None, None, value, maxKeys);
      assert Insert(Some(t), key, value, maxKeys) == t;
    } else {
      StaysRoutedIsSafe(t, key, maxKeys);
      InsertIsMapUpdateExactly(t, key, value, maxKeys);
      RootInsertKeepsRouted(t, key, value, maxKeys);
      RootInsertKeepsFit(t, key, value, maxKeys);
      RootInsertIsFull(t, key, value, maxKeys);
      forall x
        ensures Get(Insert(Some(t), key, value, maxKeys), x) == MapGet(m[key := value], x)
      {
        assert RootGet(Some(t), x) == MapGet(m, x);
      }
    }
  }

  lemma RootInsertKeepsFit<V>(t: Node<V>, key: Str, value: V, maxKeys: nat)
    requires maxKeys >= 2 && Routed(t, None, None) && key != [] && !TooBig(t, maxKeys)
    ensures !TooBig(Insert(Some(t), key, value, maxKeys), maxKeys)
  {
    var g := InsertRecursive(t, key, value, maxKeys);
    InsertKeepsFit(t, None, None, key, value, maxKeys);
    InsertStores(t, None, None, key, value, maxKeys);
    if g.Split? {
      NewRootRoutes(g, key);
      var l, r := Entry(g.leftFirst, g.left), Entry(g.rightFirst, g.right);
      assert !TooBig(Internal([l, r]), maxKeys);
    }
  }

  lemma RootInsertIsFull<V>(t: Node<V>, key: Str, value: V, maxKeys: nat)
    requires maxKeys >= 2 && Routed(t, None, None) && key != [] && (Full(t) || t == Leaf([]))
    ensures Full(Insert(Some(t), key, value, maxKeys))
  {
    if Get(t, key) != Some(value) {
      var g := InsertRecursive(t, key, value, maxKeys);
      InsertKeepsFull(t, None, None, key, value, maxKeys);
      InsertStores(t, None, None, key, value, maxKeys);
      if g.Split? {
        NewRootRoutes(g, key);
        assert Full(Internal([Entry(g.leftFirst, g.left), Entry(g.rightFirst, g.right)]));
      }
    }
  }

  lemma DeleteIsGood<V>(t: Node<V>, m: map<Str, V>, key: Str, maxKeys: nat)
    requires Good(Some(t), m, maxKeys)
    ensures Good(Delete(t, key), m - {key}, maxKeys)
  {
    DeleteIsMapRemove(t, key);
    DeleteKeepsFit(t, None, None, key, maxKeys);
    if Full(t) { DeleteKeepsFull(t, None, None, key); }
    forall x
      ensures RootGet(Delete(t, key), x) == MapGet(m - {key}, x)
    {
      assert RootGet(Some(t), x) == MapGet(m, x);
    }
  }

  /** Any mixed run in which every insert passes the check refines its finite map. */
  lemma {:induction false} CarefulRunRefinesMap<V>(ops: seq<Op<V>>, maxKeys: nat)
    requires maxKeys >= 2 && Careful(ops, maxKeys)
    ensures Good(Run(ops, maxKeys), MapRun(ops), maxKeys)
  {
    if ops != [] {
      var before, op := ops[..|ops| - 1], ops[|ops| - 1];
      var root := Run(before, maxKeys);
      CarefulRunRefinesMap(before, maxKeys);
      match op
      case Ins(key, value) =>
        if root.Some? {
          InsertIsGood(root.value, MapRun(before), key, value, maxKeys);
        } else {
          FirstInsertStands(key, value, maxKeys);
          FirstInsertIsGood(MapRun(before), key, value, maxKeys);
        }
      case Del(key) =>
        if root.Some? { DeleteIsGood(root.value, MapRun(before), key, maxKeys); }
        else { assert forall x :: RootGet(root, x) == MapGet(MapRun(before), x); }
    }
  }

  /** After such a run the map is empty exactly when the tree is null, or is the empty leaf. */
  lemma NothingLeftExactly<V>(ops: seq<Op<V>>, maxKeys: nat)
    requires maxKeys >= 2 && Careful(ops, maxKeys)
    ensures MapRun(ops) == map[] <==> Run(ops, maxKeys) == None || Run(ops, maxKeys) == Some(Leaf([]))
  {
    CarefulRunRefinesMap(ops, maxKeys);
    var root, m := Run(ops, maxKeys), MapRun(ops);
    if root.Some? && Full(root.value) {
      var t := root.value;
      FullHasEntries(t);
      EntriesSorted(t, None, None);
      LookupSome(Entries(t), 0);
      GetIsLookup(t, None, None, Entries(t)[0].name);
      assert RootGet(root, Entries(t)[0].name) == MapGet(m, Entries(t)[0].name);
    } else {
      forall x ensures x !in m {
        assert RootGet(root, x) == MapGet(m, x);
      }
    }
  }

  ghost predicate NamedKeys<V>(ops: seq<Op<V>>) {
    forall i :: 0 <= i < |ops| ==> ops[i].key != []
  }

  /** The empty leaf comes from the empty key alone: without it the tree is null exactly when the
      map is empty. */
  lemma NullExactly<V>(ops: seq<Op<V>>, maxKeys: nat)
    requires maxKeys >= 2 && Careful(ops, maxKeys) && NamedKeys(ops)
    ensures MapRun(ops) == map[] <==> Run(ops, maxKeys) == None
  {
    NothingLeftExactly(ops, maxKeys);
    NoEmptyLeaf(ops, maxKeys);
  }

  lemma {:induction false} NoEmptyLeaf<V>(ops: seq<Op<V>>, maxKeys: nat)
    requires maxKeys >= 2 && Careful(ops, maxKeys) && NamedKeys(ops)
    ensures Run(ops, maxKeys) != Some(Leaf([]))
  {
    if ops != [] {
      var before, op := ops[..|ops| - 1], ops[|ops| - 1];
      var root := Run(before, maxKeys);
      NoEmptyLeaf(before, maxKeys);
      CarefulRunRefinesMap(before, maxKeys);
      match op
      case Ins(key, value) =>
        if root.Some? { RootInsertIsFull(root.value, key, value, maxKeys); }
      case Del(key) =>
        if root.Some? { DeleteKeepsFull(root.value, None, None, key); }
    }
  }

  lemma FirstInsertIsGood<V>(m: map<Str, V>, key: Str, value: V, maxKeys: nat)
    requires maxKeys >= 2 && Good<V>(None, m, maxKeys)
    ensures Good(Some(Insert(None, key, value, maxKeys)), MapStep(m, Ins(key, value)), maxKeys)
  {
    FirstInsertStands(key, value, maxKeys);
    var t := Insert(None, key, value, maxKeys);
    ShapedIsNotTooBig(t, 0, 0, maxKeys);
    forall x
      ensures Get(t, x) == MapGet(MapStep(m, Ins(key, value)), x)
    {
      assert RootGet<V>(None, x) == MapGet(m, x);
      assert Get(t, x) == MapGet(if key == [] then map[] else map[key := value], x);
    }
  }
}
