/** The two BEP 52 tree builders: from the whole file, and block by block. */
module Bep52Builders {
  import opened Bytes
  import opened Directory
  import opened FileStore
  import Merkle

  const BLOCK_SIZE := 16384

  /** The root over the blocks' hashes: the tree zero-padded to the least power of two. */
  ghost predicate IsRootOf(h: (Hash, Hash) -> Hash, zero: Hash, leaves: seq<Hash>, root: Hash) {
    if leaves == [] then root == zero else exists k :: LeastPower(|leaves|, k) && root == PaddedRoot(h, zero, leaves, k)
  }

  ghost predicate LeastPower(n: nat, k: nat) {
    n <= Merkle.Pow2(k) && (k > 0 ==> Merkle.Pow2(k - 1) < n)
  }

  ghost function PaddedRoot(h: (Hash, Hash) -> Hash, zero: Hash, leaves: seq<Hash>, k: nat): Hash
    requires LeastPower(|leaves|, k)
  {
    Merkle.Root(h, Merkle.Padded(leaves, Merkle.Pow2(k), zero), k)
  }

  lemma RootIsUnique(h: (Hash, Hash) -> Hash, zero: Hash, leaves: seq<Hash>, r: Hash, r': Hash)
    requires IsRootOf(h, zero, leaves, r) && IsRootOf(h, zero, leaves, r')
    ensures r == r'
  {
    if leaves != [] {
      var k :| LeastPower(|leaves|, k) && r == PaddedRoot(h, zero, leaves, k);
      var k' :| LeastPower(|leaves|, k') && r' == PaddedRoot(h, zero, leaves, k');
      Merkle.SamePower(k, k', |leaves|);
    }
  }

  /** Three blocks: the fourth leaf is the zero hash, and left comes before right. */
  lemma ThreeBlocks(h: (Hash, Hash) -> Hash, zero: Hash, a: Hash, b: Hash, c: Hash, root: Hash)
    requires IsRootOf(h, zero, [a, b, c], root)
    ensures root == h(h(a, b), h(c, zero))
  {
    assert Merkle.Pow2(0) == 1 && Merkle.Pow2(1) == 2 && Merkle.Pow2(2) == 4;
    var k :| LeastPower(3, k) && root == PaddedRoot(h, zero, [a, b, c], k);
    Merkle.SamePower(k, 2, 3);
    var leaves := Merkle.Padded([a, b, c], 4, zero);
    assert leaves == [a, b, c, zero];
    assert Merkle.Root(h, leaves, 2) == h(Merkle.Root(h, leaves[..2], 1), Merkle.Root(h, leaves[2..], 1));
  }

  function BlockSize(i: nat): nat {
    BLOCK_SIZE
  }

  function Blocks(data: Bytes): seq<Bytes> {
    Chunks(BlockSize, data, 0)
  }

  /** A file's blocks are its stretches of 16 KiB, the last as long as what is left. */
  lemma {:induction false} BlocksExactly(data: Bytes, i: nat, from: nat)
    requires i < |Chunks(BlockSize, data, from)|
    ensures i * 16_384 < |data|
    ensures Chunks(BlockSize, data, from)[i] == data[i * 16_384..Min((i + 1) * 16_384, |data|)]
    ensures |Chunks(BlockSize, data, from)| == Merkle.CeilDiv(|data|, 16_384)
  {
    if |data| > 16_384 {
      var rest := data[16_384..];
      assert Chunks(BlockSize, data, from) == [data[..16_384]] + Chunks(BlockSize, rest, from + 1);
      BlocksExactly(rest, if i > 0 then i - 1 else 0, from + 1);
      if i > 0 {
        var end := Min(i * 16_384, |rest|);
        assert rest[(i - 1) * 16_384..end] == data[16_384 + (i - 1) * 16_384..16_384 + end];
      }
    } else {
      assert data[0..|data|] == data;
    }
  }

  function HashAll(sha: Bytes -> Hash, blocks: seq<Bytes>): (r: seq<Hash>)
    ensures |r| == |blocks| && forall i :: 0 <= i < |r| ==> r[i] == sha(blocks[i])
  {
    if blocks == [] then [] else [sha(blocks[0])] + HashAll(sha, blocks[1..])
  }

  lemma HashAllSnoc(sha: Bytes -> Hash, blocks: seq<Bytes>, x: Bytes)
    ensures HashAll(sha, blocks + [x]) == HashAll(sha, blocks) + [sha(x)]
  {
  }

  /** The root, blocks' hashes and length of a file. */
  datatype Tree = Tree(root: Hash, size: nat, leafHashes: seq<Hash>)

  ghost predicate IsTreeOf(sha: Bytes -> Hash, h: (Hash, Hash) -> Hash, zero: Hash, data: Bytes, t: Tree) {
    && t.size == |data|
    && t.leafHashes == HashAll(sha, Blocks(data))
    && IsRootOf(h, zero, t.leafHashes, t.root)
  }

  /** The file determines the tree, so the two builders agree. */
  lemma BuildersAgree(sha: Bytes -> Hash, h: (Hash, Hash) -> Hash, zero: Hash, data: Bytes, t: Tree, t': Tree)
    requires IsTreeOf(sha, h, zero, data, t) && IsTreeOf(sha, h, zero, data, t')
    ensures t == t'
  {
    RootIsUnique(h, zero, t.leafHashes, t.root, t'.root);
  }

  method RootOfLeaves(h: (Hash, Hash) -> Hash, zero: Hash, leafHashes: seq<Hash>) returns (root: Hash)
    requires |leafHashes| <= 0x4000_0000
    ensures IsRootOf(h, zero, leafHashes, root)
  {
    if |leafHashes| == 0 { return zero; }
    var numLeafs, k := Merkle.NumLeafs(|leafHashes|);
    root := Merkle.MerkleRoot(h, zero, leafHashes, numLeafs, k);
    assert root == PaddedRoot(h, zero, leafHashes, k);
  }

  /** The first |done| blocks are cut off and hashed. */
  ghost predicate HashedSoFar(sha: Bytes -> Hash, data: Bytes, start: nat, done: seq<Bytes>, leafHashes: seq<Hash>) {
    && start <= |data|
    && Blocks(data) == done + Chunks(BlockSize, data[start..], |done|)
    && leafHashes == HashAll(sha, done)
  }

  lemma HashStep(sha: Bytes -> Hash, data: Bytes, start: nat, done: seq<Bytes>, leafHashes: seq<Hash>)
    requires HashedSoFar(sha, data, start, done, leafHashes) && start < |data|
    ensures (var end := Min(start + BLOCK_SIZE, |data|);
             var block := data[start..end];
             HashedSoFar(sha, data, end, done + [block], leafHashes + [sha(block)]))
  {
    var end := Min(start + BLOCK_SIZE, |data|);
    var block := data[start..end];
    NextChunk(BlockSize, data, start, |done|);
    HashAllSnoc(sha, done, block);
    var later := Chunks(BlockSize, data[end..], |done| + 1);
    assert done + ([block] + later) == (done + [block]) + later;
  }

  ghost predicate NoClash(sha: Bytes -> Hash, a: Bytes, b: Bytes) {
    sha(a) == sha(b) ==> a == b
  }

  /** The store has every block under its hash, if hashes do not collide. */
  ghost predicate StoresBlocks(sha: Bytes -> Hash, store: Option<Store>, blocks: seq<Bytes>) {
    store.Some? && (forall a, b :: NoClash(sha, a, b)) ==>
      forall i :: 0 <= i < |blocks| ==> sha(blocks[i]) in store.value && store.value[sha(blocks[i])] == blocks[i]
  }

  method StoreBlock(sha: Bytes -> Hash, store: Option<Store>, block: Bytes, ghost done: seq<Bytes>)
    returns (store': Option<Store>)
    requires StoresBlocks(sha, store, done)
    ensures StoresBlocks(sha, store', done + [block]) && store'.Some? == store.Some?
  {
    store' := store;
    if store.Some? {
      store' := Some(store.value[sha(block) := block]);
      forall i | 0 <= i < |done| && sha(done[i]) == sha(block)
        ensures NoClash(sha, done[i], block) ==> done[i] == block
      {
      }
    }
  }

  /** The piece layer over the blocks' hashes: one padded subtree root per piece. */
  ghost predicate IsPieceLayer(h: (Hash, Hash) -> Hash, zero: Hash, leaves: seq<Hash>, q: nat, layer: seq<Hash>) {
    && |layer| == Merkle.CeilDiv(|leaves|, Merkle.Pow2(q))
    && forall p :: 0 <= p < |layer| ==> Merkle.IsPieceRoot(h, zero, leaves, q, p, layer[p])
  }

  /** Bep52TreeBuilder.buildFromData, for pieces of 2^q blocks: the tree, the piece layer if a
      piece is more than one block, and the blocks in the store, if there is one. */
  method BuildFromData(sha: Bytes -> Hash, h: (Hash, Hash) -> Hash, zero: Hash, data: Bytes, blocksPerPiece: nat,
                       store: Option<Store>, ghost q: nat)
    returns (t: Tree, pieceLayers: Option<seq<Hash>>, store': Option<Store>)
    requires |data| <= BLOCK_SIZE * 0x4000_0000 && blocksPerPiece == Merkle.Pow2(q)
    ensures IsTreeOf(sha, h, zero, data, t)
    ensures pieceLayers.Some? <==> data != [] && blocksPerPiece > 1
    ensures pieceLayers.Some? ==> IsPieceLayer(h, zero, t.leafHashes, q, pieceLayers.value)
    ensures StoresBlocks(sha, store', Blocks(data)) && store'.Some? == store.Some?
  {
    if |data| == 0 { return Tree(zero, 0, []), None, store; }
    var leafHashes;
    leafHashes, store' := HashBlocks(sha, data, store);
    BlockCount(data);
    var root := RootOfLeaves(h, zero, leafHashes);
    pieceLayers := None;
    if blocksPerPiece > 1 {
      var layers := Merkle.ComputePieceLayers(h, zero, leafHashes, blocksPerPiece, q);
      pieceLayers := Some(layers);
    }
    t := Tree(root, |data|, leafHashes);
  }

  method HashBlocks(sha: Bytes -> Hash, data: Bytes, store: Option<Store>)
    returns (leafHashes: seq<Hash>, store': Option<Store>)
    ensures leafHashes == HashAll(sha, Blocks(data))
    ensures StoresBlocks(sha, store', Blocks(data)) && store'.Some? == store.Some?
  {
    var blockCount := Merkle.CeilDiv(|data|, BLOCK_SIZE);
    leafHashes, store' := [], store;
    ghost var done: seq<Bytes> := [];
    assert data[0..] == data && [] + Blocks(data) == Blocks(data);
    for i := 0 to blockCount
      invariant HashedSoFar(sha, data, Min(i * BLOCK_SIZE, |data|), done, leafHashes)
      invariant StoresBlocks(sha, store', done) && store'.Some? == store.Some?
    {
      var start := i * BLOCK_SIZE;
      var end := Min(start + BLOCK_SIZE, |data|);
      var block := data[start..end];
      HashStep(sha, data, start, done, leafHashes);
      store' := StoreBlock(sha, store', block, done);
      leafHashes, done := leafHashes + [sha(block)], done + [block];
    }
    assert data[|data|..] == [] && done + [] == done;
  }

  /** Bep52StreamBuilder */
  class StreamBuilder {
    const sha: Bytes -> Hash
    const pair: (Hash, Hash) -> Hash
    const zero: Hash
    const buffer: array<Byte>
    var bufferOffset: nat
    var leafHashes: seq<Hash>
    var totalSize: nat
    var store: Option<Store>
    ghost var full: seq<Bytes>

    ghost predicate Loaded()
      reads this
    {
      && buffer.Length == BLOCK_SIZE && bufferOffset <= BLOCK_SIZE
      && Flushed()
      && FullFrom(BlockSize, full, 0)
    }

    /** The full blocks are hashed and stored. */
    ghost predicate Flushed()
      reads this
    {
      leafHashes == HashAll(sha, full) && StoresBlocks(sha, store, full)
    }

    ghost predicate Filling()
      reads this
    {
      Loaded() && bufferOffset < BLOCK_SIZE
    }

    ghost predicate Valid()
      reads this, buffer
    {
      Filling() && totalSize == |Written()|
    }

    ghost function Written(): Bytes
      requires bufferOffset <= buffer.Length
      reads this, buffer
    {
      Flatten(full) + buffer[..bufferOffset]
    }

    constructor (sha: Bytes -> Hash, pair: (Hash, Hash) -> Hash, zero: Hash, store: Option<Store>)
      ensures Valid() && Written() == [] && fresh(buffer)
      ensures this.sha == sha && this.pair == pair && this.zero == zero && this.store == store
    {
      this.sha, this.pair, this.zero, this.store := sha, pair, zero, store;
      buffer := new Byte[BLOCK_SIZE](_ => 0);
      bufferOffset, leafHashes, totalSize, full := 0, [], 0, [];
    }

    method FlushBlock()
      requires bufferOffset <= buffer.Length && Flushed()
      modifies this`leafHashes, this`bufferOffset, this`full, this`store
      ensures bufferOffset == 0 && Flushed() && store.Some? == old(store.Some?)
      ensures full == old(full) + Rest(old(buffer[..bufferOffset]))
      ensures Written() == old(Written())
    {
      if bufferOffset == 0 {
        assert full + [] == full;
        return;
      }
      var block := buffer[..bufferOffset];
      HashAllSnoc(sha, full, block);
      FlattenSnoc(full, block);
      store := StoreBlock(sha, store, block, full);
      leafHashes, full, bufferOffset := leafHashes + [sha(block)], full + [block], 0;
      assert buffer[..0] == [] && Flatten(full) + [] == Flatten(full);
    }

    /** One turn of append's loop. */
    method AppendSome(data: Bytes, offset: nat) returns (offset': nat)
      requires Filling() && offset < |data|
      modifies this`leafHashes, this`bufferOffset, this`full, this`store, buffer
      ensures Filling() && offset < offset' <= |data| && store.Some? == old(store.Some?)
      ensures Written() == old(Written()) + data[offset..offset']
    {
      var space := BLOCK_SIZE - bufferOffset;
      var toWrite := Min(space, |data| - offset);
      ghost var before := Flatten(full);
      ghost var kept := buffer[..bufferOffset];
      offset' := offset + toWrite;
      var piece := data[offset..offset'];
      Set(buffer, piece, bufferOffset);
      bufferOffset := bufferOffset + toWrite;
      assert buffer[..bufferOffset] == kept + piece;
      assert before + (kept + piece) == (before + kept) + piece;
      if bufferOffset == BLOCK_SIZE {
        FlushBlock();
      }
    }

    method Append(data: Bytes)
      requires Valid()
      modifies this`leafHashes, this`bufferOffset, this`full, this`store, this`totalSize, buffer
      ensures Valid() && Written() == old(Written()) + data && store.Some? == old(store.Some?)
    {
      var offset := 0;
      ghost var before := Written();
      assert before + data[..0] == before;
      while offset < |data|
        invariant Filling() && totalSize == |before| && store.Some? == old(store.Some?)
        invariant offset <= |data| && Written() == before + data[..offset]
        decreases |data| - offset
      {
        ghost var had := offset;
        offset := AppendSome(data, offset);
        assert before + data[..had] + data[had..offset] == before + data[..offset];
      }
      assert data[..offset] == data;
      totalSize := totalSize + |data|;
    }

    /** The tree of everything written, as if it had been given at once. */
    method Finalize() returns (t: Tree)
      requires Valid() && |Written()| <= BLOCK_SIZE * 0x4000_0000
      modifies this`leafHashes, this`bufferOffset, this`full, this`store
      ensures IsTreeOf(sha, pair, zero, old(Written()), t)
      ensures StoresBlocks(sha, store, Blocks(old(Written()))) && store.Some? == old(store.Some?)
    {
      ghost var written := Written();
      FillingIsChunking(BlockSize, full, buffer[..bufferOffset], 0);
      FlushBlock();
      BlockCount(written);
      if |leafHashes| == 0 { return Tree(zero, 0, []); }
      var root := RootOfLeaves(pair, zero, leafHashes);
      t := Tree(root, totalSize, leafHashes);
    }
  }

  lemma {:induction false} BlockCountFrom(w: Bytes, i: nat)
    ensures BLOCK_SIZE * |Chunks(BlockSize, w, i)| < |w| + BLOCK_SIZE
    decreases |w|
  {
    if |w| > BLOCK_SIZE { BlockCountFrom(w[BLOCK_SIZE..], i + 1); }
  }

  lemma BlockCount(w: Bytes)
    requires |w| <= BLOCK_SIZE * 0x4000_0000
    ensures |Blocks(w)| <= 0x4000_0000
  {
    BlockCountFrom(w, 0);
  }
}
