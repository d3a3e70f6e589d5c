/** Routing: when the separators of a tree lead every stored key to its own leaf. */
module BTreeRouting {
  import opened Keys
  import opened Directory
  import opened BTree

  ghost predicate Within(key: Str, lo: Option<Str>, hi: Option<Str>) {
    key != [] && (lo.Some? ==> !Less(key, lo.value)) && (hi.Some? ==> Less(key, hi.value))
  }

  ghost predicate AllWithin<T>(d: seq<Entry<T>>, lo: Option<Str>, hi: Option<Str>) {
    forall i :: 0 <= i < |d| ==> Within(d[i].name, lo, hi)
  }

  /** The keys findChild sends to child i: its own name bounds them only when i > 0. */
  ghost function KidLo<T>(kids: seq<Entry<T>>, i: nat, lo: Option<Str>): Option<Str>
    requires i < |kids|
  {
    if i == 0 then lo else Some(kids[i].name)
  }

  ghost function KidHi<T>(kids: seq<Entry<T>>, i: nat, hi: Option<Str>): Option<Str>
    requires i < |kids|
  {
    if i + 1 < |kids| then Some(kids[i + 1].name) else hi
  }

  /** Every key and every name below lies in the interval that findChild routes here. */
  ghost predicate Routed<V>(n: Node<V>, lo: Option<Str>, hi: Option<Str>)
    decreases n, 1
  {
    match n
    case Leaf(items) => Sorted(items) && AllWithin(items, lo, hi)
    case Internal(kids) => RoutedKids(kids, lo, hi)
  }

  ghost predicate RoutedKids<V>(kids: seq<Entry<Node<V>>>, lo: Option<Str>, hi: Option<Str>)
    decreases kids, 0
  {
    && kids != [] && Sorted(kids) && AllWithin(kids, lo, hi)
    && forall i :: 0 <= i < |kids| ==> Routed(kids[i].val, KidLo(kids, i, lo), KidHi(kids, i, hi))
  }

  lemma NamesWithinSlice<T>(kids: seq<Entry<T>>, lo: Option<Str>, hi: Option<Str>, i: nat, j: nat)
    requires Sorted(kids) && AllWithin(kids, lo, hi) && i < j <= |kids|
    ensures Sorted(kids[i..j]) && AllWithin(kids[i..j], KidLo(kids, i, lo), KidHi(kids, j - 1, hi))
  {
    LessIsStrictTotalOrder();
  }

  /** A child keeps its bounds in a slice of its directory. */
  lemma SliceBounds<T>(kids: seq<Entry<T>>, lo: Option<Str>, hi: Option<Str>, i: nat, j: nat, m: nat)
    requires i + m < j <= |kids|
    ensures kids[i..j][m] == kids[i + m]
    ensures KidLo(kids[i..j], m, KidLo(kids, i, lo)) == KidLo(kids, i + m, lo)
    ensures KidHi(kids[i..j], m, KidHi(kids, j - 1, hi)) == KidHi(kids, i + m, hi)
  {
  }

  lemma RoutedSlice<V>(kids: seq<Entry<Node<V>>>, lo: Option<Str>, hi: Option<Str>, i: nat, j: nat)
    requires RoutedKids(kids, lo, hi) && i < j <= |kids|
    ensures RoutedKids(kids[i..j], KidLo(kids, i, lo), KidHi(kids, j - 1, hi))
  {
    NamesWithinSlice(kids, lo, hi, i, j);
    var s := kids[i..j];
    forall m | 0 <= m < |s|
      ensures Routed(s[m].val, KidLo(s, m, KidLo(kids, i, lo)), KidHi(s, m, KidHi(kids, j - 1, hi)))
    {
      SliceBounds(kids, lo, hi, i, j, m);
    }
  }

  // ---------------------------------------------------------------- traversal order

  lemma {:induction false} EntriesOfAppend<V>(a: seq<Entry<Node<V>>>, b: seq<Entry<Node<V>>>)
    ensures EntriesOf(a + b) == EntriesOf(a) + EntriesOf(b)
  {
    if a == [] {
      assert a + b == b;
    } else {
      assert (a + b)[1..] == a[1..] + b;
      EntriesOfAppend(a[1..], b);
    }
  }

  lemma EntriesOfOne<V>(e: Entry<Node<V>>)
    ensures EntriesOf([e]) == Entries(e.val)
  {
    assert [e][1..] == [];
  }

  /** The traversal of a routed tree is strictly sorted and stays in its interval. */
  lemma {:induction false} EntriesSorted<V>(n: Node<V>, lo: Option<Str>, hi: Option<Str>)
    requires Routed(n, lo, hi)
    ensures Sorted(Entries(n)) && AllWithin(Entries(n), lo, hi)
    decreases n, 1
  {
    match n
    case Leaf(_) =>
    case Internal(kids) => EntriesOfSorted(kids, lo, hi);
  }

  lemma {:induction false} EntriesOfSorted<V>(kids: seq<Entry<Node<V>>>, lo: Option<Str>, hi: Option<Str>)
    requires RoutedKids(kids, lo, hi)
    ensures Sorted(EntriesOf(kids)) && AllWithin(EntriesOf(kids), lo, hi)
    decreases kids, 0
  {
    EntriesSorted(kids[0].val, lo, KidHi(kids, 0, hi));
    if |kids| > 1 {
      RoutedSlice(kids, lo, hi, 1, |kids|);
      assert kids[1..|kids|] == kids[1..];
      EntriesOfSorted(kids[1..], Some(kids[1].name), hi);
      JoinSorted(Entries(kids[0].val), EntriesOf(kids[1..]), lo, kids[1].name, hi);
    } else {
      assert kids == [kids[0]];
      EntriesOfOne(kids[0]);
    }
  }

  /** Two sorted lists on the two sides of a separator join to one. */
  lemma JoinSorted<T>(a: seq<Entry<T>>, b: seq<Entry<T>>, lo: Option<Str>, mid: Str, hi: Option<Str>)
    requires Sorted(a) && AllWithin(a, lo, Some(mid)) && Sorted(b) && AllWithin(b, Some(mid), hi) && Within(mid, lo, hi)
    ensures Sorted(a + b) && AllWithin(a + b, lo, hi)
  {
    var d := a + b;
    forall i, j | 0 <= i < j < |d| ensures Less(d[i].name, d[j].name) {
      if i < |a| && j >= |a| { BetweenSides(a[i].name, mid, b[j - |a|].name); }
    }
    forall i | 0 <= i < |d| ensures Within(d[i].name, lo, hi) {
      if i < |a| { StillBelow(a[i].name, mid, hi); } else { StillAbove(b[i - |a|].name, mid, lo); }
    }
  }

  lemma BetweenSides(x: Str, mid: Str, y: Str)
    requires Less(x, mid) && !Less(y, mid)
    ensures Less(x, y)
  {
    LessIsStrictTotalOrder();
  }

  lemma StillBelow(x: Str, mid: Str, hi: Option<Str>)
    requires Less(x, mid) && (hi.Some? ==> Less(mid, hi.value))
    ensures hi.Some? ==> Less(x, hi.value)
  {
    if hi.Some? { LessIsTransitive(x, mid, hi.value); }
  }

  lemma StillAbove(y: Str, mid: Str, lo: Option<Str>)
    requires !Less(y, mid) && (lo.Some? ==> !Less(mid, lo.value))
    ensures lo.Some? ==> !Less(y, lo.value)
  {
    LessIsStrictTotalOrder();
  }

  lemma EntriesOfParts<V>(a: seq<Entry<Node<V>>>, m: seq<Entry<Node<V>>>, b: seq<Entry<Node<V>>>)
    ensures EntriesOf(a + m + b) == EntriesOf(a) + EntriesOf(m) + EntriesOf(b)
  {
    EntriesOfAppend(a + m, b);
    EntriesOfAppend(a, m);
  }

  lemma EntriesOfSplit<V>(kids: seq<Entry<Node<V>>>, i: nat)
    requires i < |kids|
    ensures EntriesOf(kids) == EntriesOf(kids[..i]) + Entries(kids[i].val) + EntriesOf(kids[i + 1..])
  {
    EntriesOfParts(kids[..i], [kids[i]], kids[i + 1..]);
    AroundOne(kids, i);
    EntriesOfOne(kids[i]);
  }

  lemma AroundOne<T>(s: seq<T>, i: nat)
    requires i < |s|
    ensures s[..i] + [s[i]] + s[i + 1..] == s
  {
  }

  lemma EntriesBefore<V>(kids: seq<Entry<Node<V>>>, lo: Option<Str>, hi: Option<Str>, i: nat)
    requires RoutedKids(kids, lo, hi) && i < |kids|
    ensures AllWithin(EntriesOf(kids[..i]), lo, Some(kids[i].name)) && (i == 0 ==> EntriesOf(kids[..i]) == [])
  {
    if i > 0 {
      RoutedSlice(kids, lo, hi, 0, i);
      assert kids[0..i] == kids[..i];
      EntriesOfSorted(kids[..i], lo, Some(kids[i].name));
    }
  }

  lemma EntriesAfter<V>(kids: seq<Entry<Node<V>>>, lo: Option<Str>, hi: Option<Str>, i: nat)
    requires RoutedKids(kids, lo, hi) && i < |kids|
    ensures AllWithin(EntriesOf(kids[i + 1..]), KidHi(kids, i, hi), hi)
    ensures (i + 1 == |kids| ==> EntriesOf(kids[i + 1..]) == [])
  {
    if i + 1 < |kids| {
      RoutedSlice(kids, lo, hi, i + 1, |kids|);
      assert kids[i + 1..|kids|] == kids[i + 1..];
      EntriesOfSorted(kids[i + 1..], Some(kids[i + 1].name), hi);
    }
  }

  /** Child i's part of the traversal, and what lies before and after it. */
  lemma Parts<V>(kids: seq<Entry<Node<V>>>, lo: Option<Str>, hi: Option<Str>, i: nat)
    requires RoutedKids(kids, lo, hi) && i < |kids|
    ensures EntriesOf(kids) == EntriesOf(kids[..i]) + Entries(kids[i].val) + EntriesOf(kids[i + 1..])
    ensures AllWithin(EntriesOf(kids[..i]), lo, Some(kids[i].name)) && (i == 0 ==> EntriesOf(kids[..i]) == [])
    ensures Sorted(Entries(kids[i].val)) && AllWithin(Entries(kids[i].val), KidLo(kids, i, lo), KidHi(kids, i, hi))
    ensures AllWithin(EntriesOf(kids[i + 1..]), KidHi(kids, i, hi), hi)
    ensures (i + 1 == |kids| ==> EntriesOf(kids[i + 1..]) == [])
  {
    EntriesOfSplit(kids, i);
    EntriesSorted(kids[i].val, KidLo(kids, i, lo), KidHi(kids, i, hi));
    EntriesBefore(kids, lo, hi, i);
    EntriesAfter(kids, lo, hi, i);
  }

  /** A key inside the interval is looked up in the part of the child it is routed to. */
  lemma LookupInParts<V>(kids: seq<Entry<Node<V>>>, lo: Option<Str>, hi: Option<Str>, key: Str)
    requires RoutedKids(kids, lo, hi)
    ensures var i := FindChild(kids, key);
            Lookup(EntriesOf(kids), key) == Lookup(Entries(kids[i].val), key)
  {
    LessIsStrictTotalOrder();
    var i := FindChild(kids, key);
    Parts(kids, lo, hi, i);
    var a, b, c := EntriesOf(kids[..i]), Entries(kids[i].val), EntriesOf(kids[i + 1..]);
    LookupAppend(a + b, c, key);
    LookupAppend(a, b, key);
    LookupNone(a, key);
    LookupNone(c, key);
  }

  /** On a routed tree `get` finds exactly what the traversal contains. */
  lemma {:induction false} GetIsLookup<V>(n: Node<V>, lo: Option<Str>, hi: Option<Str>, key: Str)
    requires Routed(n, lo, hi)
    ensures Get(n, key) == Lookup(Entries(n), key)
    decreases n
  {
    match n
    case Leaf(_) =>
    case Internal(kids) =>
      var i := FindChild(kids, key);
      LookupInParts(kids, lo, hi, key);
      GetIsLookup(kids[i].val, KidLo(kids, i, lo), KidHi(kids, i, hi), key);
  }

  /** Bounds may always be widened. */
  lemma {:induction false} RoutedWiden<V>(n: Node<V>, lo: Option<Str>, hi: Option<Str>, lo': Option<Str>,
                                          hi': Option<Str>)
    requires Routed(n, lo, hi)
    requires lo'.Some? ==> lo.Some? && !Less(lo.value, lo'.value)
    requires hi'.Some? ==> hi.Some? && !Less(hi'.value, hi.value)
    ensures Routed(n, lo', hi')
    decreases n
  {
    LessIsStrictTotalOrder();
    match n
    case Leaf(_) =>
    case Internal(kids) =>
      forall i | 0 <= i < |kids|
        ensures Routed(kids[i].val, KidLo(kids, i, lo'), KidHi(kids, i, hi'))
      {
        RoutedWiden(kids[i].val, KidLo(kids, i, lo), KidHi(kids, i, hi), KidLo(kids, i, lo'), KidHi(kids, i, hi'));
      }
  }

  /** Every key and name below is at least b. */
  ghost predicate NamesFrom<V>(n: Node<V>, b: Str)
    decreases n
  {
    match n
    case Leaf(items) => forall i :: 0 <= i < |items| ==> !Less(items[i].name, b)
    case Internal(kids) => forall i :: 0 <= i < |kids| ==> !Less(kids[i].name, b) && NamesFrom(kids[i].val, b)
  }

  ghost predicate KeysFrom<T>(d: seq<Entry<T>>, b: Str) {
    forall i :: 0 <= i < |d| ==> !Less(d[i].name, b)
  }

  /** The lower bound may be raised to b when nothing below is under b. */
  lemma {:induction false} RoutedRaise<V>(n: Node<V>, lo: Option<Str>, hi: Option<Str>, b: Str)
    requires Routed(n, lo, hi) && NamesFrom(n, b)
    ensures Routed(n, Some(b), hi)
    decreases n
  {
    LessIsStrictTotalOrder();
    match n
    case Leaf(_) =>
    case Internal(kids) =>
      RoutedRaise(kids[0].val, lo, KidHi(kids, 0, hi), b);
      forall i | 0 <= i < |kids|
        ensures Routed(kids[i].val, KidLo(kids, i, Some(b)), KidHi(kids, i, hi))
      {
        if i > 0 { assert KidLo(kids, i, Some(b)) == KidLo(kids, i, lo); }
      }
  }

  lemma {:induction false} RoutedNamesFrom<V>(n: Node<V>, lo: Str, hi: Option<Str>)
    requires Routed(n, Some(lo), hi)
    ensures NamesFrom(n, lo)
    decreases n
  {
    LessIsStrictTotalOrder();
    match n
    case Leaf(_) =>
    case Internal(kids) =>
      forall i | 0 <= i < |kids|
        ensures NamesFrom(kids[i].val, lo)
      {
        RoutedWiden(kids[i].val, KidLo(kids, i, Some(lo)), KidHi(kids, i, hi), Some(lo), KidHi(kids, i, hi));
        RoutedNamesFrom(kids[i].val, lo, KidHi(kids, i, hi));
      }
  }

  lemma {:induction false} NamesFromKeys<V>(n: Node<V>, b: Str)
    requires NamesFrom(n, b)
    ensures KeysFrom(Entries(n), b)
    decreases n, 1
  {
    match n
    case Leaf(_) =>
    case Internal(kids) => NamesFromKeysOf(kids, b);
  }

  lemma {:induction false} NamesFromKeysOf<V>(kids: seq<Entry<Node<V>>>, b: Str)
    requires forall i :: 0 <= i < |kids| ==> NamesFrom(kids[i].val, b)
    ensures KeysFrom(EntriesOf(kids), b)
    decreases kids, 0
  {
    if kids != [] {
      NamesFromKeys(kids[0].val, b);
      NamesFromKeysOf(kids[1..], b);
    }
  }
}
