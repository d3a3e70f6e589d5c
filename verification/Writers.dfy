/** Writing a file piece by piece. The writer's state is described by the bytes appended so far;
    the root it ends with is the one a single put of those bytes would give. */
module Writers {
  import opened Directory
  import opened Bytes
  import opened FileStore

  lemma Longer(before: Bytes, data: Bytes, a: nat, b: nat)
    requires a <= b <= |data|
    ensures (before + data[..a]) + data[a..b] == before + data[..b]
  {
  }

  lemma FullOneMore(ch: nat -> nat, full: seq<Bytes>, chunk: Bytes)
    requires FullFrom(ch, full, 0) && |chunk| == ch(|full|)
    ensures FullFrom(ch, full + [chunk], 0)
  {
  }

  /** StreamWriter; StreamBuilder is the same machine with `plain` set. */
  class StreamWriter {
    const crypto: Crypto
    const chunker: nat -> nat
    const plain: bool
    var store: Store
    var buffer: array<Byte>
    var bufferOffset: nat
    var chunks: seq<Link>
    var totalSize: nat
    ghost var full: seq<Bytes>    // the contents of the completed chunks

    ghost predicate Linked()
      reads this
    {
      && Lawful(crypto) && Positive(chunker)
      && bufferOffset <= buffer.Length
      && chunks == LinksOf(crypto, plain, full) && HasAll(crypto, plain, store, full)
    }

    /** Every completed chunk is full and the buffer holds no more than the next one. */
    ghost predicate Loaded()
      reads this
    {
      Linked() && FullFrom(chunker, full, 0) && bufferOffset <= chunker(|full|)
    }

    ghost predicate Filling()
      reads this
    {
      Loaded() && bufferOffset < chunker(|full|)
    }

    ghost predicate Valid()
      reads this, buffer
    {
      Filling() && totalSize == |Written()|
    }

    /** All bytes appended so far. */
    ghost function Written(): Bytes
      requires bufferOffset <= buffer.Length
      reads this, buffer
    {
      Flatten(full) + buffer[..bufferOffset]
    }

    constructor (crypto: Crypto, chunker: nat -> nat, plain: bool, store: Store)
      requires Lawful(crypto) && Positive(chunker)
      ensures Valid() && Written() == [] && fresh(buffer) && this.store == store
      ensures this.crypto == crypto && this.chunker == chunker && this.plain == plain
    {
      this.crypto, this.chunker, this.plain, this.store := crypto, chunker, plain, store;
      buffer := new Byte[chunker(0)](_ => 0);
      bufferOffset, chunks, totalSize, full := 0, [], 0, [];
      new;
      assert chunker(|full|) > 0;
    }

    /** Copies the buffer into one of the size of the next chunk, unless it has that size. */
    method Resize()
      requires Filling()
      modifies this`buffer
      ensures Filling() && buffer.Length == chunker(|full|) && Written() == old(Written())
      ensures buffer == old(buffer) || fresh(buffer)
    {
      var targetSize := chunker(|chunks|);
      if buffer.Length != targetSize {
        var newBuffer := new Byte[targetSize](_ => 0);
        var kept := buffer[..bufferOffset];
        Set(newBuffer, kept, 0);
        buffer := newBuffer;
        assert newBuffer[..bufferOffset] == kept;
      }
    }

    /** Copies in as much as fits: the buffer may become full. */
    method Fill(data: Bytes, offset: nat) returns (offset': nat)
      requires Filling() && buffer.Length == chunker(|full|) && offset < |data|
      modifies this`bufferOffset, buffer
      ensures Loaded() && offset < offset' <= |data|
      ensures Written() == old(Written()) + data[offset..offset']
    {
      var space := chunker(|chunks|) - bufferOffset;
      var toWrite := Min(space, |data| - offset);
      ghost var before := Flatten(full);
      ghost var kept := buffer[..bufferOffset];
      offset' := offset + toWrite;
      var piece := data[offset..offset'];
      Set(buffer, piece, bufferOffset);
      bufferOffset := bufferOffset + toWrite;
      assert buffer[..bufferOffset] == kept + piece;
      assert before + (kept + piece) == (before + kept) + piece;
    }

    /** Stores a chunk and links it; the buffer is not touched. */
    method StoreChunk(chunk: Bytes) returns (link: Link)
      requires Linked()
      modifies this`store
      ensures Linked() && link == ChunkLink(crypto, plain, chunk)
      ensures HasAll(crypto, plain, store, full + [chunk])
    {
      link, store := PutChunk(crypto, plain, chunk, store, full);
      assert HasAll(crypto, plain, store, full) by {
        forall i | 0 <= i < |full| ensures Has(crypto, store, Wire(crypto, plain, full[i])) {
          assert (full + [chunk])[i] == full[i];
        }
      }
    }

    method FlushChunk()
      requires Linked()
      modifies this`store, this`chunks, this`full, this`bufferOffset
      ensures Linked() && bufferOffset == 0
      ensures full == old(full) + Rest(old(buffer[..bufferOffset]))
      ensures Written() == old(Written())
    {
      if bufferOffset == 0 {
        assert full + [] == full;
        return;
      }
      var chunk := buffer[..bufferOffset];
      var link := StoreChunk(chunk);
      LinksSnoc(crypto, plain, full, chunk);
      FlattenSnoc(full, chunk);
      chunks, full, bufferOffset := chunks + [link], full + [chunk], 0;
      assert buffer[..0] == [] && Flatten(full) + [] == Flatten(full);
    }

    /** A full buffer becomes the next chunk. */
    method FlushFull()
      requires Loaded() && bufferOffset == chunker(|full|)
      modifies this`store, this`chunks, this`full, this`bufferOffset
      ensures Filling() && Written() == old(Written())
    {
      ghost var had, chunk := full, buffer[..bufferOffset];
      assert chunker(|had|) > 0 && chunker(|had| + 1) > 0;
      FlushChunk();
      assert full == had + [chunk];
      FullOneMore(chunker, had, chunk);
    }

    /** One turn of append's loop. */
    method AppendSome(data: Bytes, offset: nat) returns (offset': nat)
      requires Filling() && offset < |data|
      modifies this`store, this`chunks, this`full, this`bufferOffset, this`buffer, buffer
      ensures Filling() && (buffer == old(buffer) || fresh(buffer))
      ensures offset < offset' <= |data|
      ensures Written() == old(Written()) + data[offset..offset']
    {
      Resize();
      offset' := Fill(data, offset);
      if bufferOffset == chunker(|chunks|) {
        FlushFull();
      }
    }

    method Append(data: Bytes)
      requires Valid()
      modifies this`store, this`chunks, this`full, this`bufferOffset, this`buffer, this`totalSize, buffer
      ensures Valid() && (buffer == old(buffer) || fresh(buffer))
      ensures Written() == old(Written()) + data
    {
      ghost var before := Written();
      AppendAll(data);
      totalSize := totalSize + |data|;
      assert Written() == before + data;
    }

    /** The loop of append. */
    method AppendAll(data: Bytes)
      requires Filling()
      modifies this`store, this`chunks, this`full, this`bufferOffset, this`buffer, buffer
      ensures Filling() && (buffer == old(buffer) || fresh(buffer))
      ensures Written() == old(Written()) + data
    {
      var offset := 0;
      ghost var before := Written();
      assert before + data[..0] == before;
      while offset < |data|
        invariant Filling() && (buffer == old(buffer) || fresh(buffer))
        invariant offset <= |data| && Written() == before + data[..offset]
        decreases |data| - offset
      {
        ghost var had := offset;
        offset := AppendSome(data, offset);
        Longer(before, data, had, offset);
      }
      assert data[..offset] == data;
    }

    /** The root of a list of completed chunks; a single chunk is its own root. */
    method BuildTree(links: seq<Link>, ghost contents: seq<Bytes>) returns (cid: Cid)
      requires Linked() && contents != [] && links == LinksOf(crypto, plain, contents)
      requires HasAll(crypto, plain, store, contents)
      modifies this`store
      ensures Linked() && cid == FileCid(crypto, plain, contents) && StoresFile(crypto, plain, store, contents)
    {
      if |links| == 1 {
        return Cid(links[0].hash, links[0].key);
      }
      var node := crypto.encode(links);
      PutKeepsAll(crypto, plain, store, contents, Wire(crypto, plain, node));
      PutKeepsAll(crypto, plain, store, full, Wire(crypto, plain, node));
      store := PutBytes(crypto, store, Wire(crypto, plain, node));
      cid := CidOf(crypto, plain, node);
    }

    /** What is written, chunked in one go. */
    ghost function Whole(): seq<Bytes>
      requires bufferOffset <= buffer.Length
      reads this, buffer
    {
      Chunks(chunker, Written(), 0)
    }

    /** A filling writer holds exactly the chunks that a single put would cut. */
    lemma FillingWhole()
      requires Filling()
      ensures Whole() == full + Rest(buffer[..bufferOffset])
      ensures Whole() == [] <==> Written() == []
      ensures full == [] && bufferOffset == 0 <==> Written() == []
    {
      FillingIsChunking(chunker, full, buffer[..bufferOffset], 0);
      if Written() == [] { NoBytesNoChunks(chunker, full, buffer[..bufferOffset], 0); }
    }

    /** The root of what is written so far. Only the store grows: everything the writer does
        later is as if it had not been asked. */
    method CurrentRoot() returns (cid: Option<Cid>)
      requires Valid()
      modifies this`store
      ensures Valid()
      ensures cid == if Written() == [] then None else Some(FileCid(crypto, plain, Whole()))
      ensures Written() != [] ==> StoresFile(crypto, plain, store, Whole())
    {
      FillingWhole();
      if |chunks| == 0 && bufferOffset == 0 { return None; }
      var tempChunks := chunks;
      ghost var contents := full;
      if bufferOffset > 0 {
        var chunk := buffer[..bufferOffset];
        var link := StoreChunk(chunk);
        LinksSnoc(crypto, plain, full, chunk);
        tempChunks, contents := tempChunks + [link], full + [chunk];
      } else {
        assert full + [] == full;
      }
      var root := BuildTree(tempChunks, contents);
      cid := Some(root);
    }

    /** The same root and size as one put of everything written. */
    method Finalize() returns (cid: Cid, size: nat)
      requires Valid()
      modifies this`store, this`chunks, this`full, this`bufferOffset
      ensures cid == FileCid(crypto, plain, old(Whole())) && size == |old(Written())|
      ensures StoresFile(crypto, plain, store, old(Whole()))
    {
      FillingWhole();
      size := totalSize;
      FlushChunk();
      if |chunks| == 0 {
        store := PutBytes(crypto, store, Wire(crypto, plain, []));
        return CidOf(crypto, plain, []), 0;
      }
      cid := BuildTree(chunks, full);
    }
  }
}
