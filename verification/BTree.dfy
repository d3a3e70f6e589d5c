/** The persistent B-tree over content-addressed directories. A CID is modelled as the
    immutable node it names, so `delete` returning the same CID is returning the same node. */
module BTree {
  import opened Keys
  import opened Directory

  /** A directory with no entries, or with a non-directory entry, is a leaf. */
  datatype Node<V> = Leaf(items: seq<Entry<V>>) | Internal(kids: seq<Entry<Node<V>>>)

  /** The result of a recursive insert: the new node, or the two halves of its split. */
  datatype Grown<V> =
    | Whole(node: Node<V>)
    | Split(left: Node<V>, right: Node<V>, leftFirst: Str, rightFirst: Str)

  // ---------------------------------------------------------------- operations

  /** findChild: the first child whose successor's name is above the key. */
  function FindChild<T>(kids: seq<Entry<T>>, key: Str): (r: nat)
    requires kids != []
    ensures r < |kids|
    ensures r + 1 < |kids| ==> Less(key, kids[r + 1].name)
    ensures forall j :: 0 < j <= r ==> !Less(key, kids[j].name)
  {
    FindChildFrom(kids, key, 0)
  }

  function FindChildFrom<T>(kids: seq<Entry<T>>, key: Str, i: nat): (r: nat)
    requires i < |kids|
    ensures i <= r < |kids|
    ensures r + 1 < |kids| ==> Less(key, kids[r + 1].name)
    ensures forall j :: i < j <= r ==> !Less(key, kids[j].name)
    decreases |kids| - i
  {
    if i + 1 < |kids| && !Less(key, kids[i + 1].name) then FindChildFrom(kids, key, i + 1) else i
  }

  function Get<V>(n: Node<V>, key: Str): Option<V> {
    match n
    case Leaf(items) => Lookup(items, key)
    case Internal(kids) =>
      if kids == [] then None else Get(kids[FindChild(kids, key)].val, key)
  }

  function SplitLeaf<V>(items: seq<Entry<V>>): Grown<V>
    requires |items| >= 2
  {
    var mid := |items| / 2;
    Split(Leaf(items[..mid]), Leaf(items[mid..]), items[0].name, items[mid].name)
  }

  function SplitInternal<V>(kids: seq<Entry<Node<V>>>): Grown<V>
    requires |kids| >= 2
  {
    var mid := |kids| / 2;
    Split(Internal(kids[..mid]), Internal(kids[mid..]), kids[0].name, kids[mid].name)
  }

  function InsertIntoLeaf<V>(items: seq<Entry<V>>, key: Str, value: V, maxKeys: nat): Grown<V>
    requires maxKeys >= 1
  {
    var items' := SetEntry(items, key, value);
    if |items'| > maxKeys then SplitLeaf(items') else Whole(Leaf(items'))
  }

  /** The parent's directory after the child called `name` has grown. */
  function ReplaceChild<V>(kids: seq<Entry<Node<V>>>, name: Str, grown: Grown<V>): seq<Entry<Node<V>>> {
    match grown
    case Whole(node) => SetEntry(kids, name, node)
    case Split(left, right, lf, rf) => SetEntry(SetEntry(Remove(kids, name), lf, left), rf, right)
  }

  function InsertRecursive<V>(n: Node<V>, key: Str, value: V, maxKeys: nat): Grown<V>
    requires maxKeys >= 1
  {
    match n
    case Leaf(items) => InsertIntoLeaf(items, key, value, maxKeys)
    case Internal(kids) =>
      if kids == [] then InsertIntoLeaf([], key, value, maxKeys) else
      var child := kids[FindChild(kids, key)];
      var kids' := ReplaceChild(kids, child.name, InsertRecursive(child.val, key, value, maxKeys));
      if |kids'| > maxKeys then SplitInternal(kids') else Whole(Internal(kids'))
  }

  function Insert<V(==)>(root: Option<Node<V>>, key: Str, value: V, maxKeys: nat): Node<V>
    requires maxKeys >= 1
  {
    match root
    case None => Leaf(SetEntry([], key, value))
    case Some(n) =>
      if Get(n, key) == Some(value) then n else
      match InsertRecursive(n, key, value, maxKeys)
      case Whole(node) => node
      case Split(left, right, lf, rf) => Internal(SetEntry(SetEntry([], lf, left), rf, right))
  }

  function Delete<V>(n: Node<V>, key: Str): Option<Node<V>> {
    match n
    case Leaf(items) =>
      if Lookup(items, key) == None then Some(n)
      else if Remove(items, key) == [] then None
      else Some(Leaf(Remove(items, key)))
    case Internal(kids) =>
      if kids == [] then Some(n) else
      var child := kids[FindChild(kids, key)];
      match Delete(child.val, key)
      case None =>
        var rest := Remove(kids, child.name);
        if rest == [] then None
        else if |rest| == 1 then Some(rest[0].val)
        else Some(Internal(rest))
      case Some(child') => Some(Internal(SetEntry(kids, child.name, child')))
  }

  /** traverseInOrder */
  function Entries<V>(n: Node<V>): seq<Entry<V>>
    decreases n, 1
  {
    match n
    case Leaf(items) => items
    case Internal(kids) => EntriesOf(kids)
  }

  function EntriesOf<V>(kids: seq<Entry<Node<V>>>): seq<Entry<V>>
    decreases kids, 0
  {
    if kids == [] then [] else Entries(kids[0].val) + EntriesOf(kids[1..])
  }
}
