/** A concrete run, order 3, in which an insert after a delete loses another key. */
module BTreeWitness {
  import opened Keys
  import opened Directory
  import opened BTree
  import opened BTreeRouting
  import opened BTreeInsert
  import opened BTreeMap
  import opened BTreeDelete

  function K(c: Unit): Str { [c] }

  function E(c: Unit): Entry<int> { Entry(K(c), 0) }

  function D(c: Unit, n: Node<int>): Entry<Node<int>> { Entry(K(c), n) }

  lemma LeafStep(items: seq<Entry<int>>, i: nat, c: Unit, r: seq<Entry<int>>)
    requires i <= |items| && r == items[..i] + [E(c)] + items[i..]
    requires forall j :: 0 <= j < i ==> Less(items[j].name, K(c))
    requires forall j :: i <= j < |items| ==> Less(K(c), items[j].name)
    ensures Lookup(items, K(c)) == None
    ensures InsertIntoLeaf(items, K(c), 0, 2) == if |r| > 2 then SplitLeaf(r) else Whole(Leaf(r))
  {
    LessIsStrictTotalOrder();
    PutBetween(items, i, K(c), 0);
    LookupNone(items, K(c));
  }

  lemma KidStep(kids: seq<Entry<Node<int>>>, i: nat, c: Unit, g: Grown<int>, r: seq<Entry<Node<int>>>)
    requires Sorted(kids) && AllWithin(kids, None, None) && i < |kids| && FindChild(kids, K(c)) == i
    requires InsertRecursive(kids[i].val, K(c), 0, 2) == g && Get(kids[i].val, K(c)) == None
    requires NamesOk(g, KidLo(kids, i, None), KidHi(kids, i, None))
    requires r == kids[..i] + GrownKids(kids[i].name, g) + kids[i + 1..]
    ensures InsertRecursive(Internal(kids), K(c), 0, 2) == if |r| > 2 then SplitInternal(r) else Whole(Internal(r))
    ensures Get(Internal(kids), K(c)) == None
  {
    ReplaceChildSplices(kids, None, None, i, g);
  }

  lemma RootStep(t: Node<int>, c: Unit, g: Grown<int>)
    requires Get(t, K(c)) == None && InsertRecursive(t, K(c), 0, 2) == g && NamesOk(g, None, None)
    ensures Step(Some(t), Ins(K(c), 0), 2) == Some(
      match g
      case Whole(n) => n
      case Split(l, r, lf, rf) => Internal([Entry(lf, l), Entry(rf, r)]))
  {
    if g.Split? { NewRootRoutes(g, K(c)); }
  }

  /** Three children split one and two. */
  lemma SplitThree(a: Entry<Node<int>>, b: Entry<Node<int>>, c: Entry<Node<int>>)
    ensures SplitInternal([a, b, c]) == Split(Internal([a]), Internal([b, c]), a.name, b.name)
  {
    assert [a, b, c][..1] == [a] && [a, b, c][1..] == [b, c];
  }

  lemma SplitThreeItems(a: Entry<int>, b: Entry<int>, c: Entry<int>)
    ensures SplitLeaf([a, b, c]) == Split(Leaf([a]), Leaf([b, c]), a.name, b.name)
  {
    assert [a, b, c][..1] == [a] && [a, b, c][1..] == [b, c];
  }

  const L1 := Leaf([E(1)])
  const L5 := Leaf([E(5)])
  const L7 := Leaf([E(7)])
  const L8 := Leaf([E(8)])
  const P := Internal([D(1, Internal([D(1, L1)]))])
  const N5 := Internal([D(7, L7), D(8, Leaf([E(8), E(11)]))])
  const N7 := Internal([D(7, Leaf([E(6), E(7)])), D(8, Leaf([E(8), E(11)]))])
  const T3 := Internal([D(1, L1), D(5, Leaf([E(5), E(8)]))])
  const T4 := Internal([D(1, Internal([D(1, L1)])), D(5, Internal([D(5, L5), D(7, Leaf([E(7), E(8)]))]))])
  const T5 := Internal([D(1, P), D(5, Internal([D(5, Internal([D(5, L5)])), D(7, N5)]))])
  const T6 := Internal([D(1, P), D(5, N5)])
  const T7 := Internal([D(1, P), D(5, N7)])
  const T8 := Internal([D(1, Internal([D(1, P)])),
                        D(7, Internal([D(7, Internal([D(7, Leaf([E(6), E(7)]))])),
                                       D(8, Internal([D(8, L8), D(11, Leaf([E(11), E(12)]))]))]))])

  lemma Steps1to3()
    ensures Step(Step(Step(None, Ins(K(8), 0), 2), Ins(K(5), 0), 2), Ins(K(1), 0), 2) == Some(T3)
  {
    var t1 := Step(None, Ins(K(8), 0), 2);
    assert SetEntry([], K(8), 0) == [E(8)];
    LeafStep([E(8)], 0, 5, [E(5), E(8)]);
    RootStep(Leaf([E(8)]), 5, Whole(Leaf([E(5), E(8)])));
    LeafStep([E(5), E(8)], 0, 1, [E(1), E(5), E(8)]);
    SplitThreeItems(E(1), E(5), E(8));
    RootStep(Leaf([E(5), E(8)]), 1, SplitLeaf([E(1), E(5), E(8)]));
  }

  lemma Step4()
    ensures Step(Some(T3), Ins(K(7), 0), 2) == Some(T4)
  {
    var r := [D(1, L1), D(5, L5), D(7, Leaf([E(7), E(8)]))];
    LeafStep([E(5), E(8)], 1, 7, [E(5), E(7), E(8)]);
    SplitThreeItems(E(5), E(7), E(8));
    KidStep(T3.kids, 1, 7, SplitLeaf([E(5), E(7), E(8)]), r);
    SplitThree(r[0], r[1], r[2]);
    RootStep(T3, 7, SplitInternal(r));
  }

  const M4 := [D(5, L5), D(7, Leaf([E(7), E(8)]))]

  lemma Step5Below()
    ensures InsertRecursive(Internal(M4), K(11), 0, 2) == Split(Internal([D(5, L5)]), N5, K(5), K(7))
    ensures Get(Internal(M4), K(11)) == None
  {
    var r := [D(5, L5), D(7, L7), D(8, Leaf([E(8), E(11)]))];
    LeafStep([E(7), E(8)], 2, 11, [E(7), E(8), E(11)]);
    SplitThreeItems(E(7), E(8), E(11));
    KidStep(M4, 1, 11, SplitLeaf([E(7), E(8), E(11)]), r);
    SplitThree(r[0], r[1], r[2]);
  }

  lemma Step5()
    ensures Step(Some(T4), Ins(K(11), 0), 2) == Some(T5)
  {
    var r := [D(1, Internal([D(1, L1)])), D(5, Internal([D(5, L5)])), D(7, N5)];
    Step5Below();
    KidStep(T4.kids, 1, 11, Split(Internal([D(5, L5)]), N5, K(5), K(7)), r);
    SplitThree(r[0], r[1], r[2]);
    RootStep(T4, 11, SplitInternal(r));
  }

  lemma Step6()
    ensures Step(Some(T5), Del(K(5)), 2) == Some(T6)
  {
    RemoveAt([E(5)], 0);
    assert Delete(L5, K(5)) == None;
    RemoveAt([D(5, L5)], 0);
    assert Delete(Internal([D(5, L5)]), K(5)) == None;
    var kids := [D(5, Internal([D(5, L5)])), D(7, N5)];
    RemoveAt(kids, 0);
    assert Delete(Internal(kids), K(5)) == Some(N5);
    PutAt(T5.kids, 1, N5);
    assert T5.kids[1 := D(5, N5)] == T6.kids;
  }

  lemma Step7()
    ensures Step(Some(T6), Ins(K(6), 0), 2) == Some(T7)
  {
    var g := Whole(Leaf([E(6), E(7)]));
    LeafStep([E(7)], 0, 6, [E(6), E(7)]);
    KidStep(N5.kids, 0, 6, g, N7.kids);
    KidStep(T6.kids, 1, 6, Whole(N7), T7.kids);
    RootStep(T6, 6, Whole(T7));
  }

  const L67 := Leaf([E(6), E(7)])
  const N8 := Internal([D(8, L8), D(11, Leaf([E(11), E(12)]))])

  lemma Step8Below()
    ensures InsertRecursive(N7, K(12), 0, 2) == Split(Internal([D(7, L67)]), N8, K(7), K(8))
    ensures Get(N7, K(12)) == None
  {
    var r := [D(7, L67), D(8, L8), D(11, Leaf([E(11), E(12)]))];
    LeafStep([E(8), E(11)], 2, 12, [E(8), E(11), E(12)]);
    SplitThreeItems(E(8), E(11), E(12));
    KidStep(N7.kids, 1, 12, SplitLeaf([E(8), E(11), E(12)]), r);
    SplitThree(r[0], r[1], r[2]);
  }

  lemma Step8()
    ensures Step(Some(T7), Ins(K(12), 0), 2) == Some(T8)
  {
    var r := [D(1, P), D(7, Internal([D(7, L67)])), D(8, N8)];
    Step8Below();
    KidStep(T7.kids, 1, 12, Split(Internal([D(7, L67)]), N8, K(7), K(8)), r);
    SplitThree(r[0], r[1], r[2]);
    RootStep(T7, 12, SplitInternal(r));
  }

  lemma Lookups()
    ensures Get(T7, K(6)) == Some(0)
    ensures Get(T8, K(6)) == None
  {
    LookupNone(L1.items, K(6));
    assert Get(L1, K(6)) == None;
    assert Get(Internal([D(1, L1)]), K(6)) == None;
    assert Get(P, K(6)) == None;
    assert FindChild(T8.kids, K(6)) == 0;
  }

  lemma RunSnoc<V>(ops: seq<Op<V>>, op: Op<V>, maxKeys: nat)
    requires maxKeys >= 1
    ensures Run(ops + [op], maxKeys) == Step(Run(ops, maxKeys), op, maxKeys)
    ensures MapRun(ops + [op]) == MapStep(MapRun(ops), op)
  {
    assert (ops + [op])[..|ops|] == ops;
  }

  const BEFORE: seq<Op<int>> :=
    [] + [Ins(K(8), 0)] + [Ins(K(5), 0)] + [Ins(K(1), 0)] + [Ins(K(7), 0)] + [Ins(K(11), 0)] + [Del(K(5))] +
    [Ins(K(6), 0)]

  /** Deleting 5 empties the first child of the node listed under 5 but leaves that name; 6 is
      then stored there, below the node's new first name 7; the next split lists the node under
      7, and 6 is no longer found, although the run never deleted it. */
  lemma DeleteThenInsertLosesAKey()
    ensures RootGet(Run(BEFORE, 2), K(6)) == Some(0)
    ensures RootGet(Run(BEFORE + [Ins(K(12), 0)], 2), K(6)) == None
    ensures K(6) in MapRun(BEFORE + [Ins(K(12), 0)])
    ensures !Careful(BEFORE + [Ins(K(12), 0)], 2)
  {
    RunOfBefore();
    RunSnoc(BEFORE, Ins(K(12), 0), 2);
    Step8();
    Lookups();
    if Careful(BEFORE + [Ins(K(12), 0)], 2) {
      CarefulRunRefinesMap(BEFORE + [Ins(K(12), 0)], 2);
    }
  }

  lemma RunOfBefore()
    ensures Run(BEFORE, 2) == Some(T7) && K(6) in MapRun(BEFORE)
  {
    var o1: seq<Op<int>> := [] + [Ins(K(8), 0)];
    var o3 := o1 + [Ins(K(5), 0)] + [Ins(K(1), 0)];
    RunSnoc([], Ins(K(8), 0), 2);
    RunSnoc(o1, Ins(K(5), 0), 2);
    RunSnoc(o1 + [Ins(K(5), 0)], Ins(K(1), 0), 2);
    Steps1to3();
    var o5 := o3 + [Ins(K(7), 0)] + [Ins(K(11), 0)];
    RunSnoc(o3, Ins(K(7), 0), 2);
    RunSnoc(o3 + [Ins(K(7), 0)], Ins(K(11), 0), 2);
    Step4(); Step5();
    RunSnoc(o5, Del(K(5)), 2);
    RunSnoc(o5 + [Del(K(5))], Ins(K(6), 0), 2);
    Step6(); Step7();
  }
}
