/** BEP 52 Merkle trees. The pair hash is any function; injectivity is assumed only where a
    proof has to identify its leaf. */
module Merkle {

  function Pow2(k: nat): (r: nat)
    ensures r >= 1 && (k > 0 ==> r % 2 == 0)
  {
    if k == 0 then 1 else 2 * Pow2(k - 1)
  }

  lemma {:induction false} Pow2Monotone(j: nat, k: nat)
    requires j <= k
    ensures Pow2(j) <= Pow2(k) && (j < k ==> Pow2(j) < Pow2(k))
  {
    if j < k { Pow2Monotone(j, k - 1); }
  }

  lemma {:induction false} Pow2Sum(j: nat, k: nat)
    ensures Pow2(j + k) == Pow2(j) * Pow2(k)
  {
    if j > 0 {
      Pow2Sum(j - 1, k);
      assert Pow2(j + k) == 2 * Pow2(j - 1 + k);
      Doubled(Pow2(j - 1), Pow2(k));
    }
  }

  lemma Doubled(a: nat, b: nat)
    ensures 2 * (a * b) == (2 * a) * b
  {
  }

  // ---------------------------------------------------------------- merkleNumLeafs

  /** JavaScript's n << 1: the result is a signed 32-bit integer. */
  function Shl1(n: int): int {
    var m := (2 * n) % 0x1_0000_0000;
    if m >= 0x8000_0000 then m - 0x1_0000_0000 else m
  }

  /** n after i turns of the loop. */
  function Shifted(i: nat): int {
    if i == 0 then 1 else Shl1(Shifted(i - 1))
  }

  lemma Shl1Doubles(n: nat)
    requires n < 0x4000_0000
    ensures Shl1(n) == 2 * n
  {
  }

  lemma Pow2Below(i: nat)
    requires i < 30
    ensures Pow2(i) < 0x4000_0000
  {
    var top := i + (30 - i);
    Pow2Monotone(i, top);
    Pow2Thirty(top);
  }

  lemma {:induction false} ShiftedIsPow2(i: nat)
    requires i <= 30
    ensures Shifted(i) == Pow2(i)
  {
    if i > 0 {
      ShiftedIsPow2(i - 1);
      Pow2Below(i - 1);
      Shl1Doubles(Pow2(i - 1));
    }
  }

  lemma Shl1Edges()
    ensures Shl1(0x4000_0000) == -0x8000_0000 && Shl1(-0x8000_0000) == 0 && Shl1(0) == 0
  {
  }

  /** Past 2^30 the variable turns negative, then zero for ever. */
  lemma {:induction false} ShiftedOverflows(i: nat)
    requires i > 30
    ensures Shifted(i) == if i == 31 then -0x8000_0000 else 0
  {
    Shl1Edges();
    assert Shifted(i) == Shl1(Shifted(i - 1));
    if i == 31 {
      ShiftedIsPow2(i - 1);
      Pow2Thirty(i - 1);
    } else {
      ShiftedOverflows(i - 1);
    }
  }

  lemma Pow2Thirty(k: nat)
    requires k == 30
    ensures Pow2(k) == 0x4000_0000
  {
    assert Pow2(10) == 1024;
    Pow2Sum(10, 10);
    Pow2Sum(20, 10);
  }

  /** The loop of merkleNumLeafs terminates exactly for at most 2^30 blocks. */
  lemma NumLeafsTerminatesExactly(blocks: nat)
    requires blocks > 0
    ensures (exists i :: Shifted(i) >= blocks) <==> blocks <= 0x4000_0000
  {
    var top :| top == 30;
    Pow2Thirty(top);
    ShiftedIsPow2(top);
    forall i | Shifted(i) >= blocks
      ensures blocks <= 0x4000_0000
    {
      if i <= 30 {
        ShiftedIsPow2(i);
        Pow2Monotone(i, top);
      } else {
        ShiftedOverflows(i);
      }
    }
  }

  /** merkleNumLeafs: the least power of two that is at least the number of blocks. */
  method NumLeafs(blocks: int) returns (n: nat, ghost k: nat)
    requires blocks <= 0x4000_0000
    ensures blocks <= 0 ==> n == 0
    ensures blocks > 0 ==> n == Pow2(k) && blocks <= n && (k > 0 ==> Pow2(k - 1) < blocks)
  {
    k := 0;
    if blocks <= 0 { return 0, 0; }
    var m := 1;
    while m < blocks
      invariant k <= 30 && m == Pow2(k) == Shifted(k)
      invariant k > 0 ==> Pow2(k - 1) < blocks
      decreases 30 - k
    {
      if k == 30 { Pow2Thirty(k); }
      Pow2Below(k);
      Shl1Doubles(m);
      m, k := Shl1(m), k + 1;
    }
    n := m;
  }

  // ---------------------------------------------------------------- the tree a list of leaves stands for

  /** The root of a perfect binary tree over 2^k leaves. */
  ghost function Root<T>(h: (T, T) -> T, s: seq<T>, k: nat): T
    requires |s| == Pow2(k)
  {
    if k == 0 then s[0]
    else h(Root(h, s[..Pow2(k - 1)], k - 1), Root(h, s[Pow2(k - 1)..], k - 1))
  }

  function Repeat<T>(x: T, n: nat): (r: seq<T>)
    ensures |r| == n && forall i :: 0 <= i < n ==> r[i] == x
  {
    if n == 0 then [] else [x] + Repeat(x, n - 1)
  }

  /** BEP 52: the leaf layer is filled up with zero hashes. */
  function Padded<T>(leaves: seq<T>, n: nat, zero: T): seq<T>
    requires |leaves| <= n
  {
    leaves + Repeat(zero, n - |leaves|)
  }

  /** The next layer up. */
  ghost function Up<T>(h: (T, T) -> T, s: seq<T>): (r: seq<T>)
    ensures |r| == |s| / 2
    ensures forall i :: 0 <= i < |r| ==> r[i] == h(s[2 * i], s[2 * i + 1])
  {
    UpFrom(h, s, 0)
  }

  ghost function UpFrom<T>(h: (T, T) -> T, s: seq<T>, n: nat): (r: seq<T>)
    requires n <= |s| / 2
    ensures |r| == |s| / 2 - n
    ensures forall i :: 0 <= i < |r| ==> r[i] == h(s[2 * (n + i)], s[2 * (n + i) + 1])
    decreases |s| / 2 - n
  {
    if n == |s| / 2 then [] else [h(s[2 * n], s[2 * n + 1])] + UpFrom(h, s, n + 1)
  }

  lemma UpSlice<T>(h: (T, T) -> T, s: seq<T>, a: nat, b: nat)
    requires |s| % 2 == 0 && a <= b <= |s| / 2
    ensures Up(h, s[2 * a..2 * b]) == Up(h, s)[a..b]
  {
    var t := s[2 * a..2 * b];
    forall i | 0 <= i < b - a ensures Up(h, t)[i] == Up(h, s)[a + i] {
      assert t[2 * i] == s[2 * (a + i)] && t[2 * i + 1] == s[2 * (a + i) + 1];
    }
  }

  lemma UpHalves<T>(h: (T, T) -> T, s: seq<T>, quarter: nat)
    requires |s| == 4 * quarter
    ensures Up(h, s)[..quarter] == Up(h, s[..2 * quarter]) && Up(h, s)[quarter..] == Up(h, s[2 * quarter..])
  {
    UpSlice(h, s, 0, quarter);
    UpSlice(h, s, quarter, 2 * quarter);
    assert s[2 * 0..2 * quarter] == s[..2 * quarter] && s[2 * quarter..2 * (2 * quarter)] == s[2 * quarter..];
    assert Up(h, s)[0..quarter] == Up(h, s)[..quarter] && Up(h, s)[quarter..2 * quarter] == Up(h, s)[quarter..];
  }

  lemma {:induction false} RootOfUp<T>(h: (T, T) -> T, s: seq<T>, k: nat)
    requires k > 0 && |s| == Pow2(k)
    ensures Root(h, s, k) == Root(h, Up(h, s), k - 1)
  {
    if k > 1 {
      var half, quarter := Pow2(k - 1), Pow2(k - 2);
      RootOfUp(h, s[..half], k - 1);
      RootOfUp(h, s[half..], k - 1);
      UpHalves(h, s, quarter);
    } else {
      assert Root(h, s[..1], 0) == s[0] && Root(h, s[1..], 0) == s[1];
    }
  }

  /** One level of merkleRoot: pairs, the last one completed by the running pad. */
  ghost function UpPadded<T>(h: (T, T) -> T, current: seq<T>, pad: T): seq<T> {
    Up(h, if |current| % 2 == 0 then current else current + [pad])
  }

  lemma UpPaddedIsUp<T>(h: (T, T) -> T, current: seq<T>, pad: T, n: nat)
    requires |current| <= n && n % 2 == 0
    ensures Up(h, Padded(current, n, pad)) == Padded(UpPadded(h, current, pad), n / 2, h(pad, pad))
  {
  }

  /** The inner loop of merkleRoot. */
  method NextLevel<T>(h: (T, T) -> T, current: seq<T>, padHash: T) returns (nextLevel: seq<T>)
    ensures nextLevel == UpPadded(h, current, padHash)
  {
    nextLevel := [];
    ghost var want := UpPadded(h, current, padHash);
    var i := 0;
    while i < |current|
      invariant i % 2 == 0 && i <= |current| + 1 && |nextLevel| == i / 2
      invariant forall t :: 0 <= t < |nextLevel| ==> nextLevel[t] == want[t]
    {
      if i + 1 < |current| {
        nextLevel := nextLevel + [h(current[i], current[i + 1])];
      } else {
        nextLevel := nextLevel + [h(current[i], padHash)];
      }
      i := i + 2;
    }
    assert nextLevel == want;
  }

  lemma LevelUp<T>(h: (T, T) -> T, current: seq<T>, pad: T, j: nat)
    requires j > 0 && |current| <= Pow2(j)
    ensures |UpPadded(h, current, pad)| <= Pow2(j - 1)
    ensures Root(h, Padded(current, Pow2(j), pad), j) ==
            Root(h, Padded(UpPadded(h, current, pad), Pow2(j - 1), h(pad, pad)), j - 1)
  {
    RootOfUp(h, Padded(current, Pow2(j), pad), j);
    UpPaddedIsUp(h, current, pad, Pow2(j));
  }

  /** merkleRoot, with its scratch layer and running pad hash: the root of the tree padded with
      zero hashes to numLeafs leaves. */
  method MerkleRoot<T>(h: (T, T) -> T, zero: T, leaves: seq<T>, numLeafs: nat, ghost k: nat) returns (root: T)
    requires numLeafs == Pow2(k) && |leaves| <= numLeafs
    ensures leaves == [] ==> root == zero
    ensures leaves != [] ==> root == Root(h, Padded(leaves, numLeafs, zero), k)
  {
    if |leaves| == 0 { return zero; }
    if |leaves| == 1 && numLeafs == 1 {
      assert k == 0;
      return leaves[0];
    }
    var current := leaves;
    var padHash := zero;
    var levelSize := numLeafs;
    ghost var j: nat := k;
    while levelSize > 1
      invariant j <= k && levelSize == Pow2(j) && 1 <= |current| <= levelSize
      invariant Root(h, Padded(current, levelSize, padHash), j) == Root(h, Padded(leaves, numLeafs, zero), k)
      decreases levelSize
    {
      LevelUp(h, current, padHash, j);
      var nextLevel := NextLevel(h, current, padHash);
      padHash := h(padHash, padHash);
      current := nextLevel;
      levelSize := levelSize / 2;
      j := j - 1;
    }
    assert j == 0;
    root := current[0];
  }

  // ---------------------------------------------------------------- the flat tree

  /** Layout: node i has children 2i + 1 and 2i + 2; the leaves come last. */
  ghost predicate FlatTree<T>(h: (T, T) -> T, tree: seq<T>, leaves: seq<T>, k: nat): (r: bool)
    ensures r ==> |tree| % 2 == 1
  {
    && |leaves| == Pow2(k) && |tree| == 2 * Pow2(k) - 1
    && (forall t :: 0 <= t < Pow2(k) ==> tree[Pow2(k) - 1 + t] == leaves[t])
    && forall i :: 0 <= i < Pow2(k) - 1 ==> IsParent(h, tree, i)
  }

  ghost predicate IsParent<T>(h: (T, T) -> T, tree: seq<T>, i: nat) {
    2 * i + 2 < |tree| && tree[i] == h(tree[2 * i + 1], tree[2 * i + 2])
  }

  function GetParent(idx: nat): nat
    requires idx > 0
  {
    (idx - 1) / 2
  }

  function GetSibling(idx: nat): nat
    requires idx > 0
  {
    if idx % 2 == 1 then idx + 1 else idx - 1
  }

  /** The flat tree, complete from node `from` on. */
  ghost predicate FlatFrom<T>(h: (T, T) -> T, tree: seq<T>, leaves: seq<T>, firstLeaf: nat, from: nat) {
    && |tree| == firstLeaf + |leaves| == 2 * firstLeaf + 1
    && (forall t :: 0 <= t < |leaves| ==> tree[firstLeaf + t] == leaves[t])
    && forall i :: from <= i < firstLeaf ==> IsParent(h, tree, i)
  }

  /** merkleBuildTree: leaves in place, then every level above from the one below. */
  method BuildTree<T>(h: (T, T) -> T, zero: T, leaves: seq<T>) returns (tree: seq<T>, ghost k: nat)
    requires |leaves| <= 0x4000_0000
    ensures leaves == [] ==> tree == [zero]
    ensures leaves != [] ==> |leaves| <= Pow2(k) && (k > 0 ==> Pow2(k - 1) < |leaves|)
    ensures leaves != [] ==> FlatTree(h, tree, Padded(leaves, Pow2(k), zero), k)
  {
    if |leaves| == 0 { return [zero], 0; }
    var numLeafs: nat;
    numLeafs, k := NumLeafs(|leaves|);
    var firstLeaf := numLeafs - 1;
    var a := new T[numLeafs * 2 - 1](_ => zero);
    PlaceLeaves(a, firstLeaf, leaves, numLeafs, zero);
    ghost var all := Padded(leaves, numLeafs, zero);
    BuildLevels(h, a, firstLeaf, numLeafs, all, k);
    tree := a[..];
  }

  /** The outer loop of merkleBuildTree. */
  method BuildLevels<T>(h: (T, T) -> T, a: array<T>, firstLeaf: nat, numLeafs: nat, ghost all: seq<T>, ghost k: nat)
    requires numLeafs == Pow2(k) == |all| && firstLeaf == numLeafs - 1
    requires FlatFrom(h, a[..], all, firstLeaf, firstLeaf)
    modifies a
    ensures FlatTree(h, a[..], all, k)
  {
    var levelStart, levelSize := firstLeaf, numLeafs;
    ghost var j: nat := k;
    while levelSize > 1
      invariant levelSize == Pow2(j) && levelStart == levelSize - 1 <= firstLeaf
      invariant FlatFrom(h, a[..], all, firstLeaf, levelStart)
      decreases levelSize
    {
      assert levelSize == 2 * Pow2(j - 1);
      ghost var before := a[..];
      BuildLevel(h, a, levelStart, levelSize, Pow2(j - 1));
      LevelAdded(h, before, a[..], all, firstLeaf, levelStart, Pow2(j - 1));
      levelStart, levelSize := GetParent(levelStart), levelSize / 2;
      j := j - 1;
    }
  }

  lemma LevelAdded<T>(h: (T, T) -> T, before: seq<T>, tree: seq<T>, all: seq<T>, firstLeaf: nat, levelStart: nat,
                      half: nat)
    requires FlatFrom(h, before, all, firstLeaf, levelStart) && half > 0 && levelStart == 2 * half - 1 <= firstLeaf
    requires |tree| == |before| && forall i :: 0 <= i < |tree| && !(half - 1 <= i < levelStart) ==> tree[i] == before[i]
    requires forall i :: half - 1 <= i < levelStart ==> IsParent(h, tree, i)
    ensures FlatFrom(h, tree, all, firstLeaf, half - 1)
  {
    forall i | half - 1 <= i < firstLeaf ensures IsParent(h, tree, i) {
      if i >= levelStart { assert IsParent(h, before, i); }
    }
  }

  method PlaceLeaves<T>(a: array<T>, firstLeaf: nat, leaves: seq<T>, numLeafs: nat, zero: T)
    requires |leaves| <= numLeafs && firstLeaf + numLeafs == a.Length
    modifies a
    ensures forall t :: 0 <= t < numLeafs ==> a[firstLeaf + t] == Padded(leaves, numLeafs, zero)[t]
  {
    for i := 0 to numLeafs
      invariant forall t :: 0 <= t < i ==> a[firstLeaf + t] == Padded(leaves, numLeafs, zero)[t]
    {
      a[firstLeaf + i] := if i < |leaves| then leaves[i] else zero;
    }
  }

  /** The inner loop of merkleBuildTree: the parents of one level, in place. */
  method BuildLevel<T>(h: (T, T) -> T, a: array<T>, levelStart: nat, levelSize: nat, ghost half: nat)
    requires half > 0 && levelSize == 2 * half && levelStart == levelSize - 1
    requires levelStart + levelSize <= a.Length
    modifies a
    ensures forall i :: half - 1 <= i < levelStart ==> IsParent(h, a[..], i)
    ensures forall i :: 0 <= i < a.Length && !(half - 1 <= i < levelStart) ==> a[i] == old(a[i])
  {
    var parent := GetParent(levelStart);
    var i := levelStart;
    while i < levelStart + levelSize
      invariant i == 2 * parent + 1 && half - 1 <= parent <= levelStart
      invariant forall t :: half - 1 <= t < parent ==> a[t] == h(a[2 * t + 1], a[2 * t + 2])
      invariant forall t :: 0 <= t < a.Length && !(half - 1 <= t < parent) ==> a[t] == old(a[t])
    {
      a[parent] := h(a[i], a[i + 1]);
      parent := parent + 1;
      i := i + 2;
    }
  }

  /** The layer j levels above the leaves. */
  ghost function Layer<T>(h: (T, T) -> T, s: seq<T>, k: nat, j: nat): (r: seq<T>)
    requires |s| == Pow2(k) && j <= k
    ensures |r| == Pow2(k - j)
    decreases j
  {
    if j == 0 then s else Layer(h, Up(h, s), k - 1, j - 1)
  }

  lemma {:induction false} LayerStep<T>(h: (T, T) -> T, s: seq<T>, k: nat, j: nat)
    requires |s| == Pow2(k) && 0 < j <= k
    ensures Layer(h, s, k, j) == Up(h, Layer(h, s, k, j - 1))
    decreases j
  {
    if j > 1 { LayerStep(h, Up(h, s), k - 1, j - 1); }
  }

  /** p windows of 2^j leaves: p * 2^j, kept linear. */
  function Offset(p: nat, j: nat): nat {
    if p == 0 then 0 else Offset(p - 1, j) + Pow2(j)
  }

  lemma {:induction false} OffsetIsProduct(p: nat, j: nat)
    ensures Offset(p, j) == p * Pow2(j)
  {
    if p > 0 { OffsetIsProduct(p - 1, j); }
  }

  lemma {:induction false} OffsetMonotone(p: nat, p': nat, j: nat)
    requires p <= p'
    ensures Offset(p, j) <= Offset(p', j)
  {
    if p < p' { OffsetMonotone(p, p' - 1, j); }
  }

  lemma {:induction false} OffsetDoubles(p: nat, j: nat)
    ensures Offset(p, j + 1) == 2 * Offset(p, j) == Offset(2 * p, j)
  {
    if p > 0 {
      OffsetDoubles(p - 1, j);
      assert Offset(2 * p, j) == Offset(2 * p - 1, j) + Pow2(j) == Offset(2 * (p - 1), j) + 2 * Pow2(j);
    }
  }

  lemma {:induction false} OffsetAll(d: nat, j: nat)
    ensures Offset(Pow2(d), j) == Pow2(d + j)
  {
    if d > 0 {
      OffsetDoubles(Pow2(d - 1), j);
      OffsetAll(d - 1, j);
    } else {
      assert Offset(1, j) == Offset(0, j) + Pow2(j);
    }
  }

  /** Window p lies within the 2^(d + j) leaves exactly when p < 2^d. */
  lemma WindowInRange(d: nat, j: nat, p: nat)
    ensures p < Pow2(d) ==> Offset(p, j) + Pow2(j) <= Pow2(d + j)
    ensures p >= Pow2(d) ==> Offset(p, j) >= Pow2(d + j)
  {
    OffsetAll(d, j);
    if p < Pow2(d) { OffsetMonotone(p + 1, Pow2(d), j); } else { OffsetMonotone(Pow2(d), p, j); }
  }

  lemma RootOfSlice<T>(h: (T, T) -> T, s: seq<T>, j: nat, a: nat, b: nat)
    requires j > 0 && |s| % 2 == 0 && a <= b <= |s| / 2 && b - a == Pow2(j - 1)
    ensures Pow2(j) == 2 * b - 2 * a
    ensures Root(h, s[2 * a..2 * b], j) == Root(h, Up(h, s)[a..b], j - 1)
  {
    RootOfUp(h, s[2 * a..2 * b], j);
    UpSlice(h, s, a, b);
  }

  lemma RootOfWindow<T>(h: (T, T) -> T, s: seq<T>, j: nat, p: nat)
    requires j > 0 && |s| % 2 == 0 && Offset(p, j - 1) + Pow2(j - 1) <= |Up(h, s)|
    ensures Offset(p, j) + Pow2(j) <= |s|
    ensures Root(h, s[Offset(p, j)..Offset(p, j) + Pow2(j)], j)
         == Root(h, Up(h, s)[Offset(p, j - 1)..Offset(p, j - 1) + Pow2(j - 1)], j - 1)
  {
    OffsetDoubles(p, j - 1);
    RootOfSlice(h, s, j, Offset(p, j - 1), Offset(p, j - 1) + Pow2(j - 1));
  }

  /** Node p of layer j covers 2^j leaves from p * 2^j on. */
  lemma {:induction false} LayerCovers<T>(h: (T, T) -> T, s: seq<T>, k: nat, d: nat, j: nat, p: nat)
    requires |s| == Pow2(k) && k == d + j && p < Pow2(d)
    ensures Offset(p, j) + Pow2(j) <= |s|
    ensures Layer(h, s, k, j)[p] == Root(h, s[Offset(p, j)..Offset(p, j) + Pow2(j)], j)
    decreases j
  {
    if j == 0 {
      LeafWindow(h, s, p);
    } else {
      LayerBelow(h, s, k, j);
      LayerCovers(h, Up(h, s), k - 1, d, j - 1, p);
      RootOfWindow(h, s, j, p);
    }
  }

  lemma LayerBelow<T>(h: (T, T) -> T, s: seq<T>, k: nat, j: nat)
    requires |s| == Pow2(k) && 0 < j <= k
    ensures |Up(h, s)| == Pow2(k - 1) && Layer(h, s, k, j) == Layer(h, Up(h, s), k - 1, j - 1)
  {
  }

  lemma LeafWindow<T>(h: (T, T) -> T, s: seq<T>, p: nat)
    requires p < |s|
    ensures Offset(p, 0) == p && Pow2(0) == 1 && Root(h, s[Offset(p, 0)..Offset(p, 0) + Pow2(0)], 0) == s[p]
  {
    OffsetIsProduct(p, 0);
  }

  lemma LayerParent<T>(h: (T, T) -> T, s: seq<T>, k: nat, j: nat, p: nat)
    requires |s| == Pow2(k) && 0 < j <= k && p < Pow2(k - j)
    ensures 2 * p + 1 < |Layer(h, s, k, j - 1)|
    ensures Layer(h, s, k, j)[p] == h(Layer(h, s, k, j - 1)[2 * p], Layer(h, s, k, j - 1)[2 * p + 1])
  {
    LayerStep(h, s, k, j);
  }

  lemma ParentOfPair<T>(h: (T, T) -> T, tree: seq<T>, leaves: seq<T>, k: nat, d: nat, p: nat)
    requires FlatTree(h, tree, leaves, k) && d < k && p < Pow2(d)
    ensures Pow2(d + 1) + 2 * p < |tree| && 2 * p + 1 < Pow2(d + 1)
    ensures tree[Pow2(d) - 1 + p] == h(tree[Pow2(d + 1) - 1 + 2 * p], tree[Pow2(d + 1) - 1 + (2 * p + 1)])
  {
    Pow2Monotone(d + 1, k);
    assert IsParent(h, tree, Pow2(d) - 1 + p);
  }

  /** If the two children are the layer's below, the parent is this layer's. */
  lemma LayerFromBelow<T>(h: (T, T) -> T, tree: seq<T>, leaves: seq<T>, k: nat, d: nat, j: nat, p: nat)
    requires FlatTree(h, tree, leaves, k) && k == d + j && j > 0 && p < Pow2(d)
    requires Pow2(d + 1) + 2 * p < |tree| && 2 * p + 1 < |Layer(h, leaves, k, j - 1)|
    requires tree[Pow2(d + 1) - 1 + 2 * p] == Layer(h, leaves, k, j - 1)[2 * p]
    requires tree[Pow2(d + 1) - 1 + (2 * p + 1)] == Layer(h, leaves, k, j - 1)[2 * p + 1]
    ensures Pow2(d) - 1 + p < |tree|
    ensures tree[Pow2(d) - 1 + p] == Layer(h, leaves, k, j)[p]
  {
    ParentOfPair(h, tree, leaves, k, d, p);
    LayerParent(h, leaves, k, j, p);
  }

  /** The flat tree holds every layer, the one with 2^d nodes from index 2^d - 1 on. */
  lemma {:induction false} TreeHoldsLayer<T>(h: (T, T) -> T, tree: seq<T>, leaves: seq<T>, k: nat, d: nat, j: nat,
                                             p: nat)
    requires FlatTree(h, tree, leaves, k) && k == d + j && p < Pow2(d)
    ensures Pow2(d) - 1 + p < |tree|
    ensures tree[Pow2(d) - 1 + p] == Layer(h, leaves, k, j)[p]
    decreases j
  {
    if j == 0 {
      assert Layer(h, leaves, k, j) == leaves;
    } else {
      TreeHoldsLayer(h, tree, leaves, k, d + 1, j - 1, 2 * p);
      TreeHoldsLayer(h, tree, leaves, k, d + 1, j - 1, 2 * p + 1);
      LayerFromBelow(h, tree, leaves, k, d, j, p);
    }
  }

  /** Both builders give the same root. */
  lemma FlatTreeRoot<T>(h: (T, T) -> T, tree: seq<T>, leaves: seq<T>, k: nat)
    requires FlatTree(h, tree, leaves, k)
    ensures tree[0] == Root(h, leaves, k)
  {
    TreeHoldsLayer(h, tree, leaves, k, 0, k, 0);
    LayerCovers(h, leaves, k, 0, k, 0);
    assert leaves[0..Pow2(k)] == leaves;
  }

  lemma SamePower(k: nat, k': nat, n: nat)
    requires n <= Pow2(k) && (k > 0 ==> Pow2(k - 1) < n)
    requires n <= Pow2(k') && (k' > 0 ==> Pow2(k' - 1) < n)
    ensures k == k'
  {
    if k < k' { Pow2Monotone(k, k' - 1); }
    if k' < k { Pow2Monotone(k', k - 1); }
  }

  // ---------------------------------------------------------------- piece layers

  function CeilDiv(a: nat, b: nat): nat
    requires b > 0
  {
    (a + b - 1) / b
  }

  function Min(a: nat, b: nat): nat {
    if a <= b then a else b
  }

  lemma MulMonotone(x: nat, y: nat, b: nat)
    requires x <= y
    ensures x * b <= y * b
  {
  }

  lemma PieceStart(n: nat, b: nat, p: nat)
    requires b > 0 && p < CeilDiv(n, b)
    ensures p * b < n
  {
    var c := CeilDiv(n, b);
    CeilDivBelow(n, b);
    MulMonotone(p + 1, c, b);
    assert (p + 1) * b == p * b + b;
  }

  lemma CeilDivBelow(n: nat, b: nat)
    requires b > 0
    ensures CeilDiv(n, b) * b <= n + b - 1
  {
  }

  /** The root over the leaves of piece p, padded to a full piece of 2^q blocks. */
  ghost predicate IsPieceRoot<T>(h: (T, T) -> T, zero: T, leaves: seq<T>, q: nat, p: nat, root: T) {
    var start := Offset(p, q);
    start < |leaves| && root == Root(h, Padded(leaves[start..Min(start + Pow2(q), |leaves|)], Pow2(q), zero), q)
  }

  method ComputePieceLayers<T>(h: (T, T) -> T, zero: T, leaves: seq<T>, blocksPerPiece: nat, ghost q: nat)
    returns (layers: seq<T>)
    requires blocksPerPiece == Pow2(q)
    ensures |layers| == CeilDiv(|leaves|, blocksPerPiece)
    ensures forall p :: 0 <= p < |layers| ==> IsPieceRoot(h, zero, leaves, q, p, layers[p])
  {
    layers := [];
    var pieceCount := CeilDiv(|leaves|, blocksPerPiece);
    for p := 0 to pieceCount
      invariant |layers| == p
      invariant forall i :: 0 <= i < p ==> IsPieceRoot(h, zero, leaves, q, i, layers[i])
    {
      PieceStart(|leaves|, blocksPerPiece, p);
      var pieceRoot := OnePiece(h, zero, leaves, blocksPerPiece, q, p);
      layers := layers + [pieceRoot];
    }
  }

  method OnePiece<T>(h: (T, T) -> T, zero: T, leaves: seq<T>, blocksPerPiece: nat, ghost q: nat, p: nat)
    returns (root: T)
    requires blocksPerPiece == Pow2(q) && p * blocksPerPiece < |leaves|
    ensures IsPieceRoot(h, zero, leaves, q, p, root)
  {
    OffsetIsProduct(p, q);
    var start := p * blocksPerPiece;
    var end := Min(start + blocksPerPiece, |leaves|);
    root := MerkleRoot(h, zero, leaves[start..end], blocksPerPiece, q);
  }

  lemma PaddedPiece<T>(leaves: seq<T>, n: nat, zero: T, b: nat, start: nat)
    requires |leaves| <= n && start < |leaves| && start + b <= n
    ensures Padded(leaves, n, zero)[start..start + b] == Padded(leaves[start..Min(start + b, |leaves|)], b, zero)
  {
  }

  /** BEP 52: each piece layer hash is the node of the padded file tree that covers the piece,
      q = log2(blocksPerPiece) levels above the leaves. */
  lemma PieceLayerIsTreeLayer<T>(h: (T, T) -> T, zero: T, leaves: seq<T>, tree: seq<T>, k: nat, d: nat, q: nat, p: nat)
    requires k == d + q && |leaves| <= Pow2(k) && Offset(p, q) < |leaves|
    requires FlatTree(h, tree, Padded(leaves, Pow2(k), zero), k)
    ensures Pow2(d) - 1 + p < |tree| && IsPieceRoot(h, zero, leaves, q, p, tree[Pow2(d) - 1 + p])
  {
    var all := Padded(leaves, Pow2(k), zero);
    WindowInRange(d, q, p);
    NodeCovers(h, tree, all, k, d, q, p);
    PaddedPiece(leaves, Pow2(k), zero, Pow2(q), Offset(p, q));
  }

  /** Node p of the layer with 2^d nodes is the root over the 2^q leaves from p * 2^q on. */
  lemma NodeCovers<T>(h: (T, T) -> T, tree: seq<T>, all: seq<T>, k: nat, d: nat, q: nat, p: nat)
    requires FlatTree(h, tree, all, k) && k == d + q && p < Pow2(d)
    ensures Pow2(d) - 1 + p < |tree| && Offset(p, q) + Pow2(q) <= |all|
    ensures tree[Pow2(d) - 1 + p] == Root(h, all[Offset(p, q)..Offset(p, q) + Pow2(q)], q)
  {
    TreeHoldsLayer(h, tree, all, k, d, q, p);
    LayerCovers(h, all, k, d, q, p);
  }

  // ---------------------------------------------------------------- proofs

  /** The siblings on the way up from node idx. */
  ghost function ProofFrom<T>(tree: seq<T>, idx: nat): seq<T>
    requires idx < |tree| && |tree| % 2 == 1
  {
    if idx == 0 then [] else [tree[GetSibling(idx)]] + ProofFrom(tree, GetParent(idx))
  }

  method GetProof<T>(tree: seq<T>, leafIndex: nat, numLeafs: nat) returns (proofs: seq<T>)
    requires |tree| == 2 * numLeafs - 1 && leafIndex < numLeafs
    ensures proofs == ProofFrom(tree, numLeafs - 1 + leafIndex)
  {
    proofs := [];
    var idx: nat := numLeafs - 1 + leafIndex;
    while idx > 0
      invariant idx < |tree| && proofs + ProofFrom(tree, idx) == ProofFrom(tree, numLeafs - 1 + leafIndex)
    {
      proofs := proofs + [tree[GetSibling(idx)]];
      idx := GetParent(idx);
    }
  }

  /** Math.floor((idx - 1) / 2), which stays at -1 once a proof is too long. */
  function ParentIndex(idx: int): int {
    (idx - 1) / 2
  }

  /** The hash a verifier computes from a node and its claimed uncles. */
  function Climb<T>(h: (T, T) -> T, hash: T, idx: int, proof: seq<T>): T
    decreases |proof|
  {
    if proof == [] then hash
    else Climb(h, if idx % 2 == 1 then h(hash, proof[0]) else h(proof[0], hash), ParentIndex(idx), proof[1..])
  }

  method VerifyProof<T(==)>(h: (T, T) -> T, leaf: T, leafIndex: nat, proof: seq<T>, root: T, numLeafs: nat)
    returns (ok: bool)
    ensures ok <==> Climb(h, leaf, numLeafs - 1 + leafIndex, proof) == root
  {
    var hash, idx := leaf, (numLeafs - 1 + leafIndex) as int;
    for i := 0 to |proof|
      invariant Climb(h, hash, idx, proof[i..]) == Climb(h, leaf, numLeafs - 1 + leafIndex, proof)
    {
      assert proof[i..][1..] == proof[i + 1..];
      hash := if idx % 2 == 1 then h(hash, proof[i]) else h(proof[i], hash);
      idx := ParentIndex(idx);
    }
    ok := hash == root;
  }

  lemma SiblingExists(n: nat, idx: nat)
    requires 0 < idx < n && n % 2 == 1
    ensures GetSibling(idx) < n && GetParent(idx) < idx
  {
  }

  lemma ProofStep<T>(tree: seq<T>, idx: nat)
    requires 0 < idx < |tree| && |tree| % 2 == 1
    ensures GetParent(idx) < idx && |ProofFrom(tree, idx)| == 1 + |ProofFrom(tree, GetParent(idx))|
    ensures ProofFrom(tree, idx)[1..] == ProofFrom(tree, GetParent(idx))
    ensures GetSibling(idx) < |tree| && ProofFrom(tree, idx)[0] == tree[GetSibling(idx)]
  {
    SiblingExists(|tree|, idx);
    var rest := ProofFrom(tree, GetParent(idx));
    assert ProofFrom(tree, idx) == [tree[GetSibling(idx)]] + rest;
  }

  /** One level up the tree's own proof. */
  lemma OwnProofStep<T>(h: (T, T) -> T, tree: seq<T>, idx: nat) returns (p: nat)
    requires 0 < idx < |tree| && |tree| % 2 == 1 && IsParent(h, tree, GetParent(idx))
    ensures p == GetParent(idx) < idx
    ensures Climb(h, tree[idx], idx, ProofFrom(tree, idx)) == Climb(h, tree[p], p, ProofFrom(tree, p))
  {
    p := GetParent(idx);
    ProofStep(tree, idx);
    ParentFromSides(h, tree, idx, p);
    ClimbFirst(h, tree[idx], idx, ProofFrom(tree, idx));
  }

  /** The parent's hash, from the child on either side. */
  lemma ParentFromSides<T>(h: (T, T) -> T, tree: seq<T>, idx: nat, p: nat)
    requires 0 < idx < |tree| && p == GetParent(idx) && IsParent(h, tree, p)
    ensures GetSibling(idx) < |tree| && ParentIndex(idx) == p
    ensures tree[p] == Combined(h, tree[idx], tree[GetSibling(idx)], idx % 2 == 1)
  {
    assert idx == 2 * p + 1 || idx == 2 * p + 2;
  }

  /** The first level of a climb. */
  lemma ClimbFirst<T>(h: (T, T) -> T, x: T, idx: int, proof: seq<T>)
    requires proof != []
    ensures Climb(h, x, idx, proof) == Climb(h, Combined(h, x, proof[0], idx % 2 == 1), ParentIndex(idx), proof[1..])
  {
  }

  lemma ParentOf<T>(h: (T, T) -> T, tree: seq<T>, leaves: seq<T>, k: nat, idx: nat)
    requires FlatTree(h, tree, leaves, k) && 0 < idx < |tree|
    ensures |tree| % 2 == 1 && IsParent(h, tree, GetParent(idx))
  {
  }

  lemma {:induction false} OwnProofClimbs<T>(h: (T, T) -> T, tree: seq<T>, leaves: seq<T>, k: nat, idx: nat)
    requires FlatTree(h, tree, leaves, k) && idx < |tree|
    ensures Climb(h, tree[idx], idx, ProofFrom(tree, idx)) == tree[0]
    decreases idx
  {
    if idx == 0 {
      assert ProofFrom(tree, idx) == [];
    } else {
      ParentOf(h, tree, leaves, k, idx);
      var p := OwnProofStep(h, tree, idx);
      OwnProofClimbs(h, tree, leaves, k, p);
    }
  }

  ghost predicate Injective<T(!new)>(h: (T, T) -> T) {
    forall a, b, c, d :: Collide(h, a, b, c, d) ==> a == c && b == d
  }

  ghost predicate Collide<T>(h: (T, T) -> T, a: T, b: T, c: T, d: T) {
    h(a, b) == h(c, d)
  }

  /** One level: equal parents have equal children. */
  lemma LevelIdentifies<T(!new)>(h: (T, T) -> T, tree: seq<T>, idx: nat, x: T, uncle: T)
    requires Injective(h) && 0 < idx < |tree| && IsParent(h, tree, GetParent(idx))
    requires (if idx % 2 == 1 then h(x, uncle) else h(uncle, x)) == tree[GetParent(idx)]
    ensures GetSibling(idx) < |tree| && x == tree[idx] && uncle == tree[GetSibling(idx)]
  {
    var p := GetParent(idx);
    var left, right := tree[2 * p + 1], tree[2 * p + 2];
    if idx % 2 == 1 {
      assert idx == 2 * p + 1 && Collide(h, x, uncle, left, right);
    } else {
      assert idx == 2 * p + 2 && Collide(h, uncle, x, left, right);
    }
  }

  lemma {:induction false} ProofLength<T>(tree: seq<T>, j: nat, idx: nat)
    requires |tree| % 2 == 1 && idx < |tree| && Pow2(j) - 1 <= idx < 2 * Pow2(j) - 1
    ensures |ProofFrom(tree, idx)| == j
  {
    if j > 0 {
      ProofLength(tree, j - 1, GetParent(idx));
    }
  }

  /** The last j bits. */
  function Low(n: nat, j: nat): (r: nat)
    ensures r < Pow2(j)
  {
    if j == 0 then 0 else 2 * Low(n / 2, j - 1) + n % 2
  }

  lemma SmallerQuotient(q: nat, r: nat, q': nat, r': nat, m: nat)
    requires q < q' && r < m
    ensures q * m + r < q' * m + r'
  {
    MulMonotone(q + 1, q', m);
    assert (q + 1) * m == q * m + m;
  }

  lemma RemainderIsUnique(n: nat, q: nat, m: nat, r: nat)
    requires r < m && n == q * m + r
    ensures n % m == r
  {
    var q', r' := n / m, n % m;
    assert q * m + r == q' * m + r';
    if q < q' { SmallerQuotient(q, r, q', r', m); }
    if q' < q { SmallerQuotient(q', r', q, r, m); }
  }

  lemma {:induction false} LowSplits(n: nat, j: nat) returns (q: nat)
    ensures n == q * Pow2(j) + Low(n, j)
  {
    if j == 0 { return n; }
    q := LowSplits(n / 2, j - 1);
    assert q * (2 * Pow2(j - 1)) == 2 * (q * Pow2(j - 1));
    assert n == 2 * (n / 2) + n % 2;
  }

  lemma LowIsRemainder(n: nat, j: nat)
    ensures Low(n, j) == n % Pow2(j)
    ensures n < Pow2(j) ==> Low(n, j) == n
  {
    var q := LowSplits(n, j);
    RemainderIsUnique(n, q, Pow2(j), Low(n, j));
    if n < Pow2(j) { RemainderIsUnique(n, 0, Pow2(j), n); }
  }

  function Combined<T>(h: (T, T) -> T, x: T, uncle: T, left: bool): T {
    if left then h(x, uncle) else h(uncle, x)
  }

  /** The node that a climb of m levels from index idx is checked against: the one whose way up
      turns to the same sides. */
  function NodeAt(idx: int, m: nat): (r: nat)
    ensures Pow2(m) - 1 <= r < 2 * Pow2(m) - 1
    decreases m
  {
    if m == 0 then 0 else 2 * NodeAt(ParentIndex(idx), m - 1) + if idx % 2 == 1 then 1 else 2
  }

  /** One level: the node's parent, and the sides. */
  lemma NodeAtStep(idx: int, m: nat)
    requires m > 0
    ensures (var node, p := NodeAt(idx, m), NodeAt(ParentIndex(idx), m - 1);
             0 <= p < node && p == GetParent(node) && (node % 2 == 1 <==> idx % 2 == 1))
  {
  }

  lemma NodeAtIsInside<T>(tree: seq<T>, k: nat, idx: int, m: nat)
    requires |tree| == 2 * Pow2(k) - 1 && m <= k
    ensures NodeAt(idx, m) < |tree| && |tree| % 2 == 1 && |ProofFrom(tree, NodeAt(idx, m))| == m
    ensures m < k ==> NodeAt(idx, m) < Pow2(k) - 1
  {
    DepthIsInside(k, m, NodeAt(idx, m));
    ProofLength(tree, m, NodeAt(idx, m));
  }

  lemma DepthIsInside(k: nat, m: nat, node: nat)
    requires m <= k && node < 2 * Pow2(m) - 1
    ensures node < 2 * Pow2(k) - 1 && (m < k ==> node < Pow2(k) - 1)
  {
    Pow2Monotone(m, k);
    if m < k { Pow2Monotone(m + 1, k); }
  }

  /** What a climb needs to know of one level. */
  lemma LevelAt<T>(h: (T, T) -> T, tree: seq<T>, leaves: seq<T>, k: nat, idx: int, m: nat) returns (node: nat, p: nat)
    requires FlatTree(h, tree, leaves, k) && 0 < m <= k
    ensures node == NodeAt(idx, m) && p == NodeAt(ParentIndex(idx), m - 1)
    ensures 0 < node < |tree| && |tree| % 2 == 1 && p == GetParent(node) && IsParent(h, tree, p)
    ensures node % 2 == 1 <==> idx % 2 == 1
  {
    node, p := NodeAt(idx, m), NodeAt(ParentIndex(idx), m - 1);
    NodeAtStep(idx, m);
    NodeAtIsInside(tree, k, idx, m);
    NodeAtIsInside(tree, k, ParentIndex(idx), m - 1);
    assert IsParent(h, tree, p);
  }

  /** That node's own siblings climb from there, whatever index is claimed. */
  lemma {:induction false} OwnProofAt<T>(h: (T, T) -> T, tree: seq<T>, leaves: seq<T>, k: nat, idx: int, m: nat)
    requires FlatTree(h, tree, leaves, k) && m <= k
    ensures (var node := NodeAt(idx, m);
             && node < |tree| && |ProofFrom(tree, node)| == m
             && Climb(h, tree[node], idx, ProofFrom(tree, node)) == tree[0])
    decreases m
  {
    NodeAtIsInside(tree, k, idx, m);
    if m > 0 {
      var node, p := LevelAt(h, tree, leaves, k, idx, m);
      OwnProofAt(h, tree, leaves, k, ParentIndex(idx), m - 1);
      ProofStep(tree, node);
      ParentFromSides(h, tree, node, p);
      ClimbFirst(h, tree[node], idx, ProofFrom(tree, node));
    }
  }

  /** And nothing else climbs to the root. */
  lemma {:induction false} ClimbIdentifies<T(!new)>(h: (T, T) -> T, tree: seq<T>, leaves: seq<T>, k: nat, idx: int,
      x: T, proof: seq<T>)
    requires Injective(h) && FlatTree(h, tree, leaves, k) && |proof| <= k && Climb(h, x, idx, proof) == tree[0]
    ensures (var node := NodeAt(idx, |proof|); node < |tree| && x == tree[node] && proof == ProofFrom(tree, node))
    decreases |proof|
  {
    var m := |proof|;
    NodeAtIsInside(tree, k, idx, m);
    if m > 0 {
      var node, p := LevelAt(h, tree, leaves, k, idx, m);
      ClimbFirst(h, x, idx, proof);
      ClimbIdentifies(h, tree, leaves, k, ParentIndex(idx), Combined(h, x, proof[0], idx % 2 == 1), proof[1..]);
      LevelIdentifies(h, tree, node, x, proof[0]);
      ProofStep(tree, node);
      assert proof == [proof[0]] + proof[1..];
      assert ProofFrom(tree, node) == [ProofFrom(tree, node)[0]] + ProofFrom(tree, node)[1..];
    } else {
      assert proof == ProofFrom(tree, NodeAt(idx, m));
    }
  }

  /** A climb from a leaf's index only sees the last bits of it. */
  lemma {:induction false} NodeAtIsSeen(k: nat, leafIndex: nat, m: nat)
    requires m <= k
    ensures NodeAt(Pow2(k) - 1 + leafIndex, m) == NodeSeen(leafIndex, m)
    decreases m
  {
    if m > 0 {
      ParentHalves(k, leafIndex);
      NodeAtIsSeen(k - 1, leafIndex / 2, m - 1);
    }
  }

  /** One level up, an index loses its last bit. */
  lemma ParentHalves(a: nat, n: nat)
    requires a > 0
    ensures ParentIndex(Pow2(a) - 1 + n) == Pow2(a - 1) - 1 + n / 2
    ensures (Pow2(a) - 1 + n) % 2 == 1 <==> n % 2 == 0
  {
    assert Pow2(a) == 2 * Pow2(a - 1);
  }

  /** The node of the layer with 2^j nodes that a proof of j uncles for this leaf is checked against. */
  function NodeSeen(leafIndex: nat, j: nat): nat {
    Pow2(j) - 1 + Low(leafIndex, j)
  }

  /** The verifier does not check the proof's length: for every leaf index and every level, it
      accepts the node of that level with its own siblings as the leaf. */
  lemma ShortProofAcceptsInteriorNode<T>(h: (T, T) -> T, tree: seq<T>, leaves: seq<T>, k: nat, leafIndex: nat,
                                         level: nat)
    requires FlatTree(h, tree, leaves, k) && level <= k
    ensures (var node := NodeSeen(leafIndex, level);
             && node < |tree| && |ProofFrom(tree, node)| == level
             && Climb(h, tree[node], Pow2(k) - 1 + leafIndex, ProofFrom(tree, node)) == tree[0])
  {
    NodeAtIsSeen(k, leafIndex, level);
    OwnProofAt(h, tree, leaves, k, Pow2(k) - 1 + leafIndex, level);
  }

  /** And that is all it accepts: with at most one uncle per level, a proof passes exactly for the
      node it is checked against, with exactly that node's siblings. */
  lemma AnyProofAcceptedExactly<T(!new)>(h: (T, T) -> T, tree: seq<T>, leaves: seq<T>, k: nat, x: T, leafIndex: nat,
      proof: seq<T>)
    requires Injective(h) && FlatTree(h, tree, leaves, k) && |proof| <= k
    ensures (var node := NodeSeen(leafIndex, |proof|);
             node < |tree| && (Climb(h, x, Pow2(k) - 1 + leafIndex, proof) == tree[0] <==>
                 x == tree[node] && proof == ProofFrom(tree, node)))
  {
    var start := Pow2(k) - 1 + leafIndex;
    NodeAtIsSeen(k, leafIndex, |proof|);
    OwnProofAt(h, tree, leaves, k, start, |proof|);
    if Climb(h, x, start, proof) == tree[0] { ClimbIdentifies(h, tree, leaves, k, start, x, proof); }
  }

  lemma LeafPlace<T>(h: (T, T) -> T, tree: seq<T>, leaves: seq<T>, k: nat, leafIndex: nat)
    requires FlatTree(h, tree, leaves, k) && leafIndex < Pow2(k)
    ensures leaves[leafIndex] == tree[Pow2(k) - 1 + leafIndex]
  {
  }

  /** So a proof with one uncle per level is accepted exactly for the leaf stored at the index,
      with exactly its own uncles. */
  lemma ProofAcceptedExactly<T(!new)>(h: (T, T) -> T, tree: seq<T>, leaves: seq<T>, k: nat, leaf: T, leafIndex: nat,
      proof: seq<T>)
    requires Injective(h) && FlatTree(h, tree, leaves, k) && leafIndex < Pow2(k) && |proof| == k
    ensures Climb(h, leaf, Pow2(k) - 1 + leafIndex, proof) == tree[0] <==>
            leaf == leaves[leafIndex] && proof == ProofFrom(tree, Pow2(k) - 1 + leafIndex)
  {
    assert NodeSeen(leafIndex, k) == Pow2(k) - 1 + leafIndex by { LowIsRemainder(leafIndex, k); }
    LeafPlace(h, tree, leaves, k, leafIndex);
    AnyProofAcceptedExactly(h, tree, leaves, k, leaf, leafIndex, proof);
  }

  // ---------------------------------------------------------------- proofs that are too long

  /** The index after n levels. */
  function Ascend(idx: int, n: nat): int
    decreases n
  {
    if n == 0 then idx else Ascend(ParentIndex(idx), n - 1)
  }

  lemma {:induction false} ClimbSplits<T>(h: (T, T) -> T, x: T, idx: int, proof: seq<T>, n: nat)
    requires n <= |proof|
    ensures Climb(h, x, idx, proof) == Climb(h, Climb(h, x, idx, proof[..n]), Ascend(idx, n), proof[n..])
    decreases n
  {
    if n == 0 {
      assert proof[..0] == [] && proof[0..] == proof;
    } else {
      var up := Combined(h, x, proof[0], idx % 2 == 1);
      ClimbFirst(h, x, idx, proof);
      ClimbFirst(h, x, idx, proof[..n]);
      SplitRest(proof, n);
      ClimbSplits(h, up, ParentIndex(idx), proof[1..], n - 1);
    }
  }

  lemma SplitRest<T>(s: seq<T>, n: nat)
    requires 0 < n <= |s|
    ensures s[..n][0] == s[0] && s[..n][1..] == s[1..][..n - 1] && s[n..] == s[1..][n - 1..]
  {
  }

  ghost predicate IsValue<T(!new)>(h: (T, T) -> T, y: T) {
    exists a, b :: IsPair(h, a, b, y)
  }

  ghost predicate IsPair<T>(h: (T, T) -> T, a: T, b: T, y: T) {
    h(a, b) == y
  }

  lemma {:induction false} ClimbIsValue<T(!new)>(h: (T, T) -> T, x: T, idx: int, proof: seq<T>)
    requires proof != []
    ensures IsValue(h, Climb(h, x, idx, proof))
    decreases |proof|
  {
    ClimbFirst(h, x, idx, proof);
    if |proof| > 1 {
      ClimbIsValue(h, Combined(h, x, proof[0], idx % 2 == 1), ParentIndex(idx), proof[1..]);
    } else {
      var y := Combined(h, x, proof[0], idx % 2 == 1);
      assert Climb(h, x, idx, proof) == y;
      assert if idx % 2 == 1 then IsPair(h, x, proof[0], y) else IsPair(h, proof[0], x, y);
    }
  }

  lemma LeafAtNode<T>(h: (T, T) -> T, tree: seq<T>, leaves: seq<T>, k: nat, node: nat)
    requires FlatTree(h, tree, leaves, k) && Pow2(k) - 1 <= node < |tree|
    ensures tree[node] in leaves
  {
    LeafPlace(h, tree, leaves, k, node - (Pow2(k) - 1));
  }

  lemma FullClimbExactly<T(!new)>(h: (T, T) -> T, tree: seq<T>, leaves: seq<T>, k: nat, y: T, idx: int, proof: seq<T>)
    requires Injective(h) && FlatTree(h, tree, leaves, k) && |proof| == k
    ensures (var node := NodeAt(idx, k);
             && node < |tree| && tree[node] in leaves
             && (Climb(h, y, idx, proof) == tree[0] <==> y == tree[node] && proof == ProofFrom(tree, node)))
  {
    OwnProofAt(h, tree, leaves, k, idx, k);
    LeafAtNode(h, tree, leaves, k, NodeAt(idx, k));
    if Climb(h, y, idx, proof) == tree[0] { ClimbIdentifies(h, tree, leaves, k, idx, y, proof); }
  }

  /** With more uncles than levels, a proof is accepted exactly when the uncles too many climb to a
      leaf, and the rest are that leaf's own siblings. */
  lemma LongProofAcceptedExactly<T(!new)>(h: (T, T) -> T, tree: seq<T>, leaves: seq<T>, k: nat, x: T, leafIndex: nat,
      proof: seq<T>)
    returns (node: nat, y: T)
    requires Injective(h) && FlatTree(h, tree, leaves, k) && |proof| > k
    ensures node == NodeAt(Ascend(Pow2(k) - 1 + leafIndex, |proof| - k), k)
    ensures y == Climb(h, x, Pow2(k) - 1 + leafIndex, proof[..|proof| - k]) && IsValue(h, y)
    ensures node < |tree| && tree[node] in leaves
    ensures Climb(h, x, Pow2(k) - 1 + leafIndex, proof) == tree[0] <==>
            y == tree[node] && proof[|proof| - k..] == ProofFrom(tree, node)
  {
    var start, over := Pow2(k) - 1 + leafIndex, |proof| - k;
    y := Climb(h, x, start, proof[..over]);
    node := NodeAt(Ascend(start, over), k);
    ClimbSplits(h, x, start, proof, over);
    ClimbIsValue(h, x, start, proof[..over]);
    FullClimbExactly(h, tree, leaves, k, y, Ascend(start, over), proof[over..]);
  }

  ghost predicate AcceptsLong<T>(h: (T, T) -> T, tree: seq<T>, k: nat, x: T, leafIndex: nat, proof: seq<T>)
    requires tree != []
  {
    |proof| > k && Climb(h, x, Pow2(k) - 1 + leafIndex, proof) == tree[0]
  }

  /** So some longer proof is accepted if and only if some leaf hash is itself the hash of a pair. */
  lemma LongProofsExactly<T(!new)>(h: (T, T) -> T, tree: seq<T>, leaves: seq<T>, k: nat)
    requires Injective(h) && FlatTree(h, tree, leaves, k)
    ensures (exists x, leafIndex, proof :: AcceptsLong(h, tree, k, x, leafIndex, proof)) <==>
            exists t :: 0 <= t < |leaves| && IsValue(h, leaves[t])
  {
    forall x, leafIndex: nat, proof | AcceptsLong(h, tree, k, x, leafIndex, proof)
      ensures exists t :: 0 <= t < |leaves| && IsValue(h, leaves[t])
    {
      var node, y := LongProofAcceptedExactly(h, tree, leaves, k, x, leafIndex, proof);
      var t :| 0 <= t < |leaves| && leaves[t] == tree[node];
    }
    if t :| 0 <= t < |leaves| && IsValue(h, leaves[t]) {
      var a, b :| IsPair(h, a, b, leaves[t]);
      var proof := PairIsAccepted(h, tree, leaves, k, t, a, b);
      assert AcceptsLong(h, tree, k, a, Pow2(k) + 2 * t, proof);
    }
  }

  /** The left half of a leaf that is a pair, claimed one level below it. */
  lemma PairIsAccepted<T>(h: (T, T) -> T, tree: seq<T>, leaves: seq<T>, k: nat, t: nat, a: T, b: T)
    returns (proof: seq<T>)
    requires FlatTree(h, tree, leaves, k) && t < |leaves| && IsPair(h, a, b, leaves[t])
    ensures |proof| == k + 1 && Climb(h, a, Pow2(k) - 1 + (Pow2(k) + 2 * t), proof) == tree[0]
  {
    var node := Pow2(k) - 1 + t;
    LeafPlace(h, tree, leaves, k, t);
    ProofLength(tree, k, node);
    OwnProofClimbs(h, tree, leaves, k, node);
    proof := [b] + ProofFrom(tree, node);
    PairIndex(Pow2(k), t);
    assert proof[1..] == ProofFrom(tree, node);
    ClimbFirst(h, a, Pow2(k) - 1 + (Pow2(k) + 2 * t), proof);
  }

  lemma PairIndex(n: nat, t: nat)
    ensures ParentIndex(n - 1 + (n + 2 * t)) == n - 1 + t && (n - 1 + (n + 2 * t)) % 2 == 1
  {
    assert n - 1 + (n + 2 * t) == 2 * (n - 1 + t) + 1;
  }
}
