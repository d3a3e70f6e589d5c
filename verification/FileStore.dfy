/** Writing a file in one call, and reading back what was written. Hashing, CHK encryption and
    the node codec are arbitrary functions; what is assumed of them is stated by Lawful. */
module FileStore {
  import opened Directory
  import opened Bytes
  import ChunkTree

  type Hash = Bytes

  /** A link as it is encoded in a tree node; `blob` is its link type. */
  datatype Link = Link(hash: Hash, size: nat, key: Option<Hash>, blob: bool)

  datatype Cid = Cid(hash: Hash, key: Option<Hash>)

  type Store = map<Hash, Bytes>

  datatype Crypto = Crypto(
    sha: Bytes -> Hash,
    encrypt: Bytes -> Bytes,                    // CHK: the key is the hash of the plaintext
    decrypt: (Bytes, Hash) -> Option<Bytes>,    // None: the decryption throws
    encode: seq<Link> -> Bytes,
    decode: Bytes -> Option<seq<Link>>)         // tryDecodeTreeNode

  ghost predicate NoCollision(c: Crypto, a: Bytes, b: Bytes) {
    c.sha(a) == c.sha(b) ==> a == b
  }

  ghost predicate Lawful(c: Crypto) {
    && (forall a, b :: NoCollision(c, a, b))
    && (forall p: Bytes :: c.decrypt(c.encrypt(p), c.sha(p)) == Some(p))
    && (forall ls: seq<Link> :: c.decode(c.encode(ls)) == Some(ls))
  }

  // ---------------------------------------------------------------- chunks

  /** The chunks of w when the chunker is asked from index i on. */
  function Chunks(ch: nat -> nat, w: Bytes, i: nat): seq<Bytes>
    decreases |w|
  {
    if w == [] then []
    else if |w| <= ch(i) || ch(i) == 0 then [w]
    else [w[..ch(i)]] + Chunks(ch, w[ch(i)..], i + 1)
  }

  ghost predicate Positive(ch: nat -> nat) {
    forall i: nat :: ch(i) > 0
  }

  /** Full chunks from index i on. */
  ghost predicate FullFrom(ch: nat -> nat, full: seq<Bytes>, i: nat) {
    forall j :: 0 <= j < |full| ==> |full[j]| == ch(i + j)
  }

  function Rest(rest: Bytes): seq<Bytes> {
    if rest == [] then [] else [rest]
  }

  /** Filling chunk after chunk and keeping a partial one is the only way to chunk a string. */
  lemma {:induction false} FillingIsChunking(ch: nat -> nat, full: seq<Bytes>, rest: Bytes, i: nat)
    requires Positive(ch) && FullFrom(ch, full, i) && |rest| < ch(i + |full|)
    ensures Chunks(ch, Flatten(full) + rest, i) == full + Rest(rest)
  {
    if full == [] {
      assert Flatten(full) + rest == rest;
    } else {
      var tail := Flatten(full[1..]) + rest;
      assert Flatten(full) + rest == full[0] + tail;
      assert |full[0]| == ch(i) by { assert |full[0]| == ch(i + 0); }
      forall j | 0 <= j < |full[1..]| ensures |full[1..][j]| == ch(i + 1 + j) { assert full[1..][j] == full[j + 1]; }
      FillingIsChunking(ch, full[1..], rest, i + 1);
      FirstChunk(ch, full[0], tail, i);
      if tail == [] { NoBytesNoChunks(ch, full[1..], rest, i + 1); }
      assert [full[0]] + (full[1..] + Rest(rest)) == full + Rest(rest);
    }
  }

  lemma FirstChunk(ch: nat -> nat, first: Bytes, tail: Bytes, i: nat)
    requires |first| == ch(i) > 0
    ensures Chunks(ch, first + tail, i) == [first] + if tail == [] then [] else Chunks(ch, tail, i + 1)
  {
    var w := first + tail;
    assert w[ch(i)..] == tail && w[..ch(i)] == first;
    if tail == [] { assert w == first && [first] + [] == [first]; }
  }

  lemma NoBytesNoChunks(ch: nat -> nat, full: seq<Bytes>, rest: Bytes, i: nat)
    requires Positive(ch) && FullFrom(ch, full, i) && Flatten(full) + rest == []
    ensures full == [] && rest == []
  {
    FlattenHead(full);
    assert i + 0 == i;
  }

  lemma FlattenHead(full: seq<Bytes>)
    ensures full != [] ==> |Flatten(full)| >= |full[0]|
  {
  }

  lemma {:induction false} ChunksJoin(ch: nat -> nat, w: Bytes, i: nat)
    ensures Flatten(Chunks(ch, w, i)) == w
    ensures forall j :: 0 <= j < |Chunks(ch, w, i)| ==> Chunks(ch, w, i)[j] != []
    decreases |w|
  {
    var cs := Chunks(ch, w, i);
    if w != [] {
      if |w| <= ch(i) || ch(i) == 0 {
        assert cs[1..] == [] && Flatten(cs) == w + [];
      } else {
        ChunksJoin(ch, w[ch(i)..], i + 1);
        assert cs[1..] == Chunks(ch, w[ch(i)..], i + 1);
        assert w == w[..ch(i)] + w[ch(i)..];
      }
    }
  }

  // ---------------------------------------------------------------- content identifiers

  /** What is stored for a plaintext: the plaintext itself in public mode, else its ciphertext. */
  function Wire(c: Crypto, plain: bool, data: Bytes): Bytes {
    if plain then data else c.encrypt(data)
  }

  function CidOf(c: Crypto, plain: bool, data: Bytes): Cid {
    Cid(c.sha(Wire(c, plain, data)), if plain then None else Some(c.sha(data)))
  }

  function ChunkLink(c: Crypto, plain: bool, chunk: Bytes): Link {
    var id := CidOf(c, plain, chunk);
    Link(id.hash, |chunk|, id.key, true)
  }

  function LinksOf(c: Crypto, plain: bool, chunks: seq<Bytes>): (r: seq<Link>)
    ensures |r| == |chunks| && forall i :: 0 <= i < |chunks| ==> r[i] == ChunkLink(c, plain, chunks[i])
  {
    if chunks == [] then [] else [ChunkLink(c, plain, chunks[0])] + LinksOf(c, plain, chunks[1..])
  }

  /** The root of a file, from its chunks: a flat node, unless there is at most one chunk. */
  function FileCid(c: Crypto, plain: bool, chunks: seq<Bytes>): Cid {
    if chunks == [] then CidOf(c, plain, [])
    else if |chunks| == 1 then CidOf(c, plain, chunks[0])
    else CidOf(c, plain, c.encode(LinksOf(c, plain, chunks)))
  }

  // ---------------------------------------------------------------- the store

  ghost predicate Has(c: Crypto, store: Store, data: Bytes) {
    c.sha(data) in store && store[c.sha(data)] == data
  }

  method PutBytes(c: Crypto, store: Store, data: Bytes) returns (store': Store)
    ensures store' == store[c.sha(data) := data] && Has(c, store', data)
  {
    store' := store[c.sha(data) := data];
  }

  /** Storing anything keeps what is stored, when hashes do not collide. */
  lemma PutKeeps(c: Crypto, store: Store, data: Bytes, d: Bytes)
    requires Lawful(c) && Has(c, store, d)
    ensures Has(c, store[c.sha(data) := data], d)
  {
    assert NoCollision(c, data, d);
  }

  ghost predicate HasAll(c: Crypto, plain: bool, store: Store, chunks: seq<Bytes>) {
    forall i :: 0 <= i < |chunks| ==> Has(c, store, Wire(c, plain, chunks[i]))
  }

  lemma PutKeepsAll(c: Crypto, plain: bool, store: Store, chunks: seq<Bytes>, data: Bytes)
    requires Lawful(c) && HasAll(c, plain, store, chunks)
    ensures HasAll(c, plain, store[c.sha(data) := data], chunks)
  {
    forall i | 0 <= i < |chunks|
      ensures Has(c, store[c.sha(data) := data], Wire(c, plain, chunks[i]))
    {
      PutKeeps(c, store, data, Wire(c, plain, chunks[i]));
    }
  }

  /** Everything a reader of the file needs. */
  ghost predicate StoresFile(c: Crypto, plain: bool, store: Store, chunks: seq<Bytes>) {
    && HasAll(c, plain, store, chunks)
    && (chunks == [] ==> Has(c, store, Wire(c, plain, [])))
    && (|chunks| > 1 ==> Has(c, store, Wire(c, plain, c.encode(LinksOf(c, plain, chunks)))))
  }

  /** putFileEncrypted (a fixed chunker) and TreeBuilder.putFile (plain). */
  method PutFile(c: Crypto, plain: bool, chunker: nat -> nat, data: Bytes, store: Store)
    returns (cid: Cid, size: nat, store': Store)
    requires Lawful(c) && Positive(chunker)
    ensures cid == FileCid(c, plain, Chunks(chunker, data, 0)) && size == |data|
    ensures StoresFile(c, plain, store', Chunks(chunker, data, 0))
  {
    size, store' := |data|, store;
    if |data| <= chunker(0) {
      store' := PutBytes(c, store', Wire(c, plain, data));
      cid := CidOf(c, plain, data);
      return;
    }
    var links;
    links, store' := PutChunks(c, plain, chunker, data, store');
    ghost var all := Chunks(chunker, data, 0);
    var node := c.encode(links);
    PutKeepsAll(c, plain, store', all, Wire(c, plain, node));
    store' := PutBytes(c, store', Wire(c, plain, node));
    cid := CidOf(c, plain, node);
  }

  /** The first |full| chunks are cut off, stored and linked. */
  ghost predicate CutSoFar(c: Crypto, plain: bool, ch: nat -> nat, data: Bytes, offset: nat, full: seq<Bytes>,
                           links: seq<Link>, store: Store) {
    && offset <= |data|
    && Chunks(ch, data, 0) == full + Chunks(ch, data[offset..], |full|)
    && links == LinksOf(c, plain, full)
    && HasAll(c, plain, store, full)
  }

  lemma CutStep(c: Crypto, plain: bool, ch: nat -> nat, data: Bytes, offset: nat, full: seq<Bytes>, links: seq<Link>,
                store: Store, store': Store)
    requires CutSoFar(c, plain, ch, data, offset, full, links, store)
    requires offset < |data| && ch(|full|) > 0
    requires HasAll(c, plain, store', full + [data[offset..Min(offset + ch(|full|), |data|)]])
    ensures (var end := Min(offset + ch(|full|), |data|);
             var chunk := data[offset..end];
             CutSoFar(c, plain, ch, data, end, full + [chunk], links + [ChunkLink(c, plain, chunk)], store'))
  {
    var end := Min(offset + ch(|full|), |data|);
    var chunk := data[offset..end];
    NextChunk(ch, data, offset, |full|);
    LinksSnoc(c, plain, full, chunk);
    var later := Chunks(ch, data[end..], |full| + 1);
    MoveOne(full, chunk, later);
  }

  lemma MoveOne(done: seq<Bytes>, chunk: Bytes, later: seq<Bytes>)
    ensures done + ([chunk] + later) == (done + [chunk]) + later
  {
  }

  /** The chunk loop: every chunk stored and linked in order. */
  method PutChunks(c: Crypto, plain: bool, chunker: nat -> nat, data: Bytes, store: Store)
    returns (links: seq<Link>, store': Store)
    requires Lawful(c) && Positive(chunker)
    ensures links == LinksOf(c, plain, Chunks(chunker, data, 0)) && HasAll(c, plain, store', Chunks(chunker, data, 0))
  {
    links, store' := [], store;
    var offset, chunkIndex := 0, 0;
    ghost var full: seq<Bytes> := [];
    assert data[0..] == data && [] + Chunks(chunker, data, 0) == Chunks(chunker, data, 0);
    while offset < |data|
      invariant offset <= |data| && chunkIndex == |full|
      invariant CutSoFar(c, plain, chunker, data, offset, full, links, store')
      decreases |data| - offset
    {
      offset, links, store', full := PutNext(c, plain, chunker, data, offset, chunkIndex, links, store', full);
      chunkIndex := chunkIndex + 1;
    }
    AllCut(c, plain, chunker, data, full, links, store');
  }

  lemma AllCut(c: Crypto, plain: bool, ch: nat -> nat, data: Bytes, full: seq<Bytes>, links: seq<Link>, store: Store)
    requires CutSoFar(c, plain, ch, data, |data|, full, links, store)
    ensures full == Chunks(ch, data, 0)
  {
    assert data[|data|..] == [] && full + [] == full;
  }

  /** One turn of it. */
  method PutNext(c: Crypto, plain: bool, chunker: nat -> nat, data: Bytes, offset: nat, chunkIndex: nat,
                 links: seq<Link>, store: Store, ghost full: seq<Bytes>)
    returns (offset': nat, links': seq<Link>, store': Store, ghost full': seq<Bytes>)
    requires Lawful(c) && Positive(chunker) && offset < |data| && chunkIndex == |full|
    requires CutSoFar(c, plain, chunker, data, offset, full, links, store)
    ensures offset < offset' <= |data| && |full'| == |full| + 1
    ensures CutSoFar(c, plain, chunker, data, offset', full', links', store')
  {
    assert chunker(chunkIndex) > 0;
    offset' := Min(offset + chunker(chunkIndex), |data|);
    var chunk := data[offset..offset'];
    var link;
    link, store' := PutChunk(c, plain, chunk, store, full);
    CutStep(c, plain, chunker, data, offset, full, links, store, store');
    links', full' := links + [link], full + [chunk];
  }

  method PutChunk(c: Crypto, plain: bool, chunk: Bytes, store: Store, ghost full: seq<Bytes>)
    returns (link: Link, store': Store)
    requires Lawful(c) && HasAll(c, plain, store, full)
    ensures link == ChunkLink(c, plain, chunk) && HasAll(c, plain, store', full + [chunk])
  {
    PutKeepsAll(c, plain, store, full, Wire(c, plain, chunk));
    store' := PutBytes(c, store, Wire(c, plain, chunk));
    link := ChunkLink(c, plain, chunk);
  }

  lemma NextChunk(ch: nat -> nat, data: Bytes, offset: nat, i: nat)
    requires offset < |data| && ch(i) > 0
    ensures (var end := Min(offset + ch(i), |data|);
             Chunks(ch, data[offset..], i) == [data[offset..end]] + Chunks(ch, data[end..], i + 1))
  {
    var w := data[offset..];
    if |w| <= ch(i) {
      assert data[|data|..] == [] && data[offset..|data|] == w;
    } else {
      assert w[..ch(i)] == data[offset..offset + ch(i)] && w[ch(i)..] == data[offset + ch(i)..];
    }
  }

  lemma {:induction false} LinksSnoc(c: Crypto, plain: bool, chunks: seq<Bytes>, x: Bytes)
    ensures LinksOf(c, plain, chunks + [x]) == LinksOf(c, plain, chunks) + [ChunkLink(c, plain, x)]
  {
  }

  // ---------------------------------------------------------------- reading back

  /** A link as a reader sees it: what the store holds, decrypted (unless the file is public) and,
      unless it is a blob, decoded. `depth` bounds how many levels of nodes are followed. */
  function Resolve(c: Crypto, plain: bool, store: Store, link: Link, depth: nat): ChunkTree.Link
    decreases depth, 1
  {
    ChunkTree.Link(link.size, plain || link.key.Some?, ResolveTarget(c, plain, store, link, depth))
  }

  function ResolveTarget(c: Crypto, plain: bool, store: Store, link: Link, depth: nat): ChunkTree.Target
    decreases depth, 0
  {
    if link.hash !in store || !(plain || link.key.Some?) then ChunkTree.Missing
    else
      var data := if plain then Some(store[link.hash]) else c.decrypt(store[link.hash], link.key.value);
      if data.None? then ChunkTree.Broken
      else if link.blob then ChunkTree.Blob(data.value)
      else
        var node := c.decode(data.value);
        if node.None? || depth == 0 then ChunkTree.Broken
        else ChunkTree.Node(ResolveAll(c, plain, store, node.value, depth - 1))
  }

  function ResolveAll(c: Crypto, plain: bool, store: Store, links: seq<Link>, depth: nat): (r: seq<ChunkTree.Link>)
    ensures |r| == |links|
    decreases depth, |links| + 2
  {
    if links == [] then []
    else [Resolve(c, plain, store, links[0], depth)] + ResolveAll(c, plain, store, links[1..], depth)
  }

  lemma {:induction false} ResolvedAt(c: Crypto, plain: bool, store: Store, links: seq<Link>, depth: nat, i: nat)
    requires i < |links|
    ensures ResolveAll(c, plain, store, links, depth)[i] == Resolve(c, plain, store, links[i], depth)
  {
    if i > 0 { ResolvedAt(c, plain, store, links[1..], depth, i - 1); }
  }

  /** getRootNodeOrBlob: a stored value that reads as a node is used raw unless its decryption
      reads as a node too. None: not stored. Err: the decryption throws. */
  function RootBytes(c: Crypto, store: Store, hash: Hash, key: Hash): Option<Result<Bytes>> {
    if hash !in store then None
    else
      var stored := store[hash];
      var data := c.decrypt(stored, key);
      if data.None? then Some(if c.decode(stored).Some? then Ok(stored) else Err)
      else if c.decode(data.value).Some? || c.decode(stored).None? then Some(Ok(data.value))
      else Some(Ok(stored))
  }

  function RootOf(c: Crypto, plain: bool, store: Store, bytes: Bytes, depth: nat): ChunkTree.Root {
    var node := c.decode(bytes);
    if node.Some? then ChunkTree.NodeRoot(ResolveAll(c, plain, store, node.value, depth)) else ChunkTree.BlobRoot(bytes)
  }

  /** Everything is stored under its own hash. */
  ghost predicate ContentAddressed(c: Crypto, store: Store) {
    forall h :: h in store ==> c.sha(store[h]) == h
  }

  /** A stored chunk is read as itself, one that is not stored as missing. */
  lemma ChunkResolves(c: Crypto, plain: bool, store: Store, chunk: Bytes, depth: nat)
    requires Lawful(c)
    ensures (var link := Resolve(c, plain, store, ChunkLink(c, plain, chunk), depth);
             && (Has(c, store, Wire(c, plain, chunk)) ==> link == ChunkTree.Link(|chunk|, true, ChunkTree.Blob(chunk)))
             && (c.sha(Wire(c, plain, chunk)) !in store ==> link == ChunkTree.Link(|chunk|, true, ChunkTree.Missing)))
  {
  }

  lemma {:induction false} ChunksResolve(c: Crypto, plain: bool, store: Store, chunks: seq<Bytes>, depth: nat)
    requires Lawful(c) && HasAll(c, plain, store, chunks)
    ensures (var links := ResolveAll(c, plain, store, LinksOf(c, plain, chunks), depth);
             ChunkTree.Sound(links) && ChunkTree.Content(links) == Flatten(chunks))
  {
    var links := ResolveAll(c, plain, store, LinksOf(c, plain, chunks), depth);
    if chunks != [] {
      assert Has(c, store, Wire(c, plain, chunks[0]));
      ChunkResolves(c, plain, store, chunks[0], depth);
      forall i | 0 <= i < |chunks[1..]| ensures Has(c, store, Wire(c, plain, chunks[1..][i])) {
        assert chunks[1..][i] == chunks[i + 1];
      }
      ChunksResolve(c, plain, store, chunks[1..], depth);
      assert LinksOf(c, plain, chunks)[1..] == LinksOf(c, plain, chunks[1..]);
      assert links[1..] == ResolveAll(c, plain, store, LinksOf(c, plain, chunks[1..]), depth);
      forall i | 0 <= i < |links| ensures ChunkTree.SoundLink(links[i]) {
        assert i > 0 ==> links[i] == links[1..][i - 1];
      }
    }
  }

  /** The node of a file's chunks is whole, so that it is read and not refused, if and only if
      every chunk is stored. */
  lemma ChunkedFileNeedsAll(c: Crypto, plain: bool, store: Store, chunks: seq<Bytes>, depth: nat)
    requires Lawful(c) && ContentAddressed(c, store)
    ensures (ChunkTree.Whole(ResolveAll(c, plain, store, LinksOf(c, plain, chunks), depth)) <==>
             forall i :: 0 <= i < |chunks| ==> c.sha(Wire(c, plain, chunks[i])) in store)
  {
    var links := ResolveAll(c, plain, store, LinksOf(c, plain, chunks), depth);
    forall i | 0 <= i < |chunks|
      ensures ChunkTree.WholeLink(links[i]) <==> c.sha(Wire(c, plain, chunks[i])) in store
    {
      ResolvedAt(c, plain, store, LinksOf(c, plain, chunks), depth, i);
      ChunkResolves(c, plain, store, chunks[i], depth);
      if c.sha(Wire(c, plain, chunks[i])) in store { StoredIsHad(c, store, Wire(c, plain, chunks[i])); }
    }
  }

  lemma StoredIsHad(c: Crypto, store: Store, data: Bytes)
    requires Lawful(c) && ContentAddressed(c, store) && c.sha(data) in store
    ensures Has(c, store, data)
  {
    assert NoCollision(c, store[c.sha(data)], data);
  }

  lemma ChunksOfLarge(chunker: nat -> nat, data: Bytes)
    requires Positive(chunker) && |data| > chunker(0)
    ensures |Chunks(chunker, data, 0)| > 1 && Flatten(Chunks(chunker, data, 0)) == data
  {
    assert chunker(0) > 0;
    ChunksJoin(chunker, data, 0);
    ChunksJoin(chunker, data[chunker(0)..], 1);
  }

  /** A file of more than one chunk always reads back as a sound tree holding the data. */
  lemma ChunkedFileReadsBack(c: Crypto, store: Store, chunker: nat -> nat, data: Bytes, depth: nat)
    requires Lawful(c) && Positive(chunker) && |data| > chunker(0)
    requires StoresFile(c, false, store, Chunks(chunker, data, 0))
    ensures (var cid := FileCid(c, false, Chunks(chunker, data, 0));
             var bytes := RootBytes(c, store, cid.hash, cid.key.value);
             && bytes.Some? && bytes.value.Ok?
             && var root := RootOf(c, false, store, bytes.value.value, depth);
                ChunkTree.SoundRoot(root) && ChunkTree.RootContent(root) == data)
  {
    ChunksOfLarge(chunker, data);
    ChunksResolve(c, false, store, Chunks(chunker, data, 0), depth);
  }

  /** A public file needs no key. A small one is stored as it is, under its own hash, and read as
      itself unless it decodes as a tree node; a larger one always reads back as a sound tree. */
  lemma PublicFileReadsBackExactly(c: Crypto, store: Store, chunker: nat -> nat, data: Bytes, depth: nat)
    requires Lawful(c) && Positive(chunker) && StoresFile(c, true, store, Chunks(chunker, data, 0))
    ensures (var cid := FileCid(c, true, Chunks(chunker, data, 0));
             && cid.key.None? && cid.hash in store
             && var root := RootOf(c, true, store, store[cid.hash], depth);
                if |data| <= chunker(0) then
                  && cid.hash == c.sha(data) && store[cid.hash] == data
                  && (root == ChunkTree.BlobRoot(data) <==> c.decode(data).None?)
                else
                  ChunkTree.SoundRoot(root) && ChunkTree.RootContent(root) == data)
  {
    if |data| <= chunker(0) {
      SmallPublicFile(c, store, chunker, data);
    } else {
      ChunksOfLarge(chunker, data);
      LargePublicFile(c, store, Chunks(chunker, data, 0), depth);
    }
  }

  lemma SmallPublicFile(c: Crypto, store: Store, chunker: nat -> nat, data: Bytes)
    requires |data| <= chunker(0) && StoresFile(c, true, store, Chunks(chunker, data, 0))
    ensures FileCid(c, true, Chunks(chunker, data, 0)) == Cid(c.sha(data), None) && Has(c, store, data)
  {
    if data == [] {
      assert Has(c, store, Wire(c, true, []));
    } else {
      assert Chunks(chunker, data, 0) == [data];
      assert Has(c, store, Wire(c, true, [data][0]));
    }
  }

  lemma LargePublicFile(c: Crypto, store: Store, chunks: seq<Bytes>, depth: nat)
    requires Lawful(c) && |chunks| > 1 && StoresFile(c, true, store, chunks)
    ensures (var cid := FileCid(c, true, chunks);
             && cid.key.None? && cid.hash in store
             && var root := RootOf(c, true, store, store[cid.hash], depth);
                ChunkTree.SoundRoot(root) && ChunkTree.RootContent(root) == Flatten(chunks))
  {
    ChunksResolve(c, true, store, chunks, depth);
  }

  /** What a reader makes of one stored, encrypted value. */
  lemma ValueReadsBack(c: Crypto, store: Store, p: Bytes)
    requires Lawful(c) && Has(c, store, c.encrypt(p))
    ensures RootBytes(c, store, c.sha(c.encrypt(p)), c.sha(p)) ==
            Some(Ok(if c.decode(p).Some? || c.decode(c.encrypt(p)).None? then p else c.encrypt(p)))
  {
  }

  /** A file of at most one chunk reads back as itself exactly when neither it nor its
      ciphertext happens to be the encoding of a tree node. */
  lemma SmallFileReadsBackExactly(c: Crypto, store: Store, chunker: nat -> nat, data: Bytes, depth: nat)
    requires Lawful(c) && |data| <= chunker(0)
    requires StoresFile(c, false, store, Chunks(chunker, data, 0))
    ensures (var cid := FileCid(c, false, Chunks(chunker, data, 0));
             var bytes := RootBytes(c, store, cid.hash, cid.key.value);
             && bytes.Some? && bytes.value.Ok?
             && (RootOf(c, false, store, bytes.value.value, depth) == ChunkTree.BlobRoot(data) <==>
                 c.decode(data).None? && c.decode(c.encrypt(data)).None?))
  {
    SmallFileCid(c, store, chunker, data);
    ValueReadsBack(c, store, data);
  }

  /** Which bytes such a read returns: a file that is the encoded root node of another stored
      file is read as that other file. */
  lemma NodeFileReadsAsItsTree(c: Crypto, store: Store, chunker: nat -> nat, chunks: seq<Bytes>, depth: nat)
    requires Lawful(c) && HasAll(c, false, store, chunks)
    requires (var data := c.encode(LinksOf(c, false, chunks));
              |data| <= chunker(0) && StoresFile(c, false, store, Chunks(chunker, data, 0)))
    ensures (var cid := FileCid(c, false, Chunks(chunker, c.encode(LinksOf(c, false, chunks)), 0));
             var bytes := RootBytes(c, store, cid.hash, cid.key.value);
             && bytes.Some? && bytes.value.Ok?
             && var root := RootOf(c, false, store, bytes.value.value, depth);
                ChunkTree.SoundRoot(root) && ChunkTree.RootContent(root) == Flatten(chunks))
  {
    var data := c.encode(LinksOf(c, false, chunks));
    SmallFileCid(c, store, chunker, data);
    ValueReadsBack(c, store, data);
    assert c.decode(data) == Some(LinksOf(c, false, chunks));
    ChunksResolve(c, false, store, chunks, depth);
  }

  lemma SmallFileCid(c: Crypto, store: Store, chunker: nat -> nat, data: Bytes)
    requires |data| <= chunker(0) && StoresFile(c, false, store, Chunks(chunker, data, 0))
    ensures Has(c, store, c.encrypt(data))
    ensures FileCid(c, false, Chunks(chunker, data, 0)) == Cid(c.sha(c.encrypt(data)), Some(c.sha(data)))
  {
    if data == [] {
      assert Has(c, store, Wire(c, false, []));
    } else {
      assert Chunks(chunker, data, 0) == [data];
      assert Has(c, store, Wire(c, false, [data][0]));
    }
  }
}
