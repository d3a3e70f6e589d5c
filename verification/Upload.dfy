/** Copying a byte stream into a writer, regrouped into batches. */
module Upload {
  import opened Directory
  import opened Bytes
  import opened FileStore
  import opened Writers

  /** What append is called with: never nothing, never more than batchBytes, and exactly
      batchBytes except perhaps for the last. A batchBytes of 0 turns batching off. */
  ghost predicate EvenBatches(batches: seq<Bytes>, batchBytes: nat) {
    forall i :: 0 <= i < |batches| ==>
      && |batches[i]| > 0
      && (batchBytes > 0 ==> |batches[i]| <= batchBytes && (i < |batches| - 1 ==> |batches[i]| == batchBytes))
  }

  ghost predicate FullBatches(batches: seq<Bytes>, batchBytes: nat) {
    forall i :: 0 <= i < |batches| ==> |batches[i]| > 0 && (batchBytes > 0 ==> |batches[i]| == batchBytes)
  }

  /** The variables that streamUploadWithProgress keeps, and what it has appended. */
  class Uploader {
    const writer: StreamWriter
    const batchBytes: nat
    var bufferedChunks: seq<Bytes>
    var bufferedBytes: nat
    ghost var batches: seq<Bytes>

    constructor (writer: StreamWriter, batchBytes: nat)
      requires writer.Valid() && writer.Written() == []
      ensures this.writer == writer && this.batchBytes == batchBytes
      ensures Valid() && Seen() == [] && batches == []
    {
      this.writer, this.batchBytes := writer, batchBytes;
      bufferedChunks, bufferedBytes, batches := [], 0, [];
    }

    /** Everything read so far: what was written, and what waits. */
    ghost function Seen(): Bytes
      reads this
    {
      Flatten(batches) + Flatten(bufferedChunks)
    }

    ghost predicate Counted()
      reads this
    {
      bufferedBytes == |Flatten(bufferedChunks)|
    }

    ghost predicate Valid()
      reads this, writer, writer.buffer
    {
      Counted() && writer.Valid() && writer.Written() == Flatten(batches)
    }

    /** The head of the buffered bytes: maxBytes of them, or all when there are no more or when
        no maximum (0) is given; None when nothing is buffered. */
    method TakeBuffered(maxBytes: nat) returns (batch: Option<Bytes>)
      requires Counted()
      modifies this`bufferedChunks, this`bufferedBytes
      ensures Counted() && (batch.None? <==> old(bufferedBytes) == 0)
      ensures batch.None? ==> bufferedChunks == old(bufferedChunks)
      ensures batch.Some? ==> batch.value + Flatten(bufferedChunks) == old(Flatten(bufferedChunks))
      ensures batch.Some? ==>
                |batch.value| == if maxBytes == 0 then old(bufferedBytes) else Min(maxBytes, old(bufferedBytes))
    {
      if bufferedBytes == 0 { return None; }
      if maxBytes == 0 || bufferedBytes <= maxBytes {
        var all := Concat(bufferedChunks);
        bufferedChunks, bufferedBytes := [], 0;
        return Some(all);
      }
      var parts := TakeParts(maxBytes);
      var merged := Concat(parts);
      batch := Some(merged);
    }

    /** Whole chunks from the front while they fit, then a piece of the next. */
    method TakeParts(maxBytes: nat) returns (parts: seq<Bytes>)
      requires Counted() && maxBytes <= bufferedBytes
      modifies this`bufferedChunks, this`bufferedBytes
      ensures Counted() && |Flatten(parts)| == maxBytes
      ensures Flatten(parts) + Flatten(bufferedChunks) == old(Flatten(bufferedChunks))
    {
      parts := [];
      var remaining := maxBytes;
      ghost var before := Flatten(bufferedChunks);
      while remaining > 0 && |bufferedChunks| > 0
        invariant Counted() && 0 <= remaining <= bufferedBytes
        invariant |Flatten(parts)| == maxBytes - remaining
        invariant Flatten(parts) + Flatten(bufferedChunks) == before
        decreases |bufferedChunks|, remaining
      {
        var head := bufferedChunks[0];
        var take := if |head| <= remaining then |head| else remaining;
        Rebracket(parts, bufferedChunks, take);
        parts := parts + [head[..take]];
        bufferedBytes := bufferedBytes - take;
        bufferedChunks := if |head| <= remaining then bufferedChunks[1..] else [head[take..]] + bufferedChunks[1..];
        remaining := remaining - take;
      }
      assert bufferedChunks == [] ==> Flatten(bufferedChunks) == [];
    }

    /** One append of one batch; false when nothing is buffered. */
    method FlushOneBatch(maxBytes: nat) returns (flushed: bool)
      requires Valid()
      modifies this`bufferedChunks, this`bufferedBytes, this`batches, writer, writer.buffer
      ensures Valid() && (writer.buffer == old(writer.buffer) || fresh(writer.buffer))
      ensures Seen() == old(Seen()) && (flushed <==> old(bufferedBytes) > 0)
      ensures !flushed ==> batches == old(batches)
      ensures flushed ==> |batches| == |old(batches)| + 1 && batches[..|old(batches)|] == old(batches)
      ensures flushed ==>
                |batches[|batches| - 1]| ==
                if maxBytes == 0 then old(bufferedBytes) else Min(maxBytes, old(bufferedBytes))
      ensures bufferedBytes == if maxBytes == 0 then 0 else Max(0, old(bufferedBytes) - maxBytes)
    {
      ghost var waiting := Flatten(bufferedChunks);
      var batch := TakeBuffered(maxBytes);
      if batch.None? { return false; }
      writer.Append(batch.value);
      FlattenSnoc(batches, batch.value);
      Moved(Flatten(batches), batch.value, Flatten(bufferedChunks), waiting);
      batches := batches + [batch.value];
      flushed := true;
    }

    /** After it less than one batch is buffered, nothing at all without batching. */
    method FlushBuffered()
      requires Valid() && FullBatches(batches, batchBytes)
      modifies this`bufferedChunks, this`bufferedBytes, this`batches, writer, writer.buffer
      ensures Valid() && FullBatches(batches, batchBytes) && Seen() == old(Seen())
      ensures (writer.buffer == old(writer.buffer) || fresh(writer.buffer))
      ensures if batchBytes > 0 then bufferedBytes < batchBytes else bufferedBytes == 0
    {
      if batchBytes > 0 {
        while bufferedBytes >= batchBytes
          invariant Valid() && FullBatches(batches, batchBytes) && Seen() == old(Seen())
          invariant (writer.buffer == old(writer.buffer) || fresh(writer.buffer))
          decreases bufferedBytes
        {
          ghost var had := batches;
          var flushed := FlushOneBatch(batchBytes);
          OneMoreBatch(had, batches, batchBytes);
        }
        return;
      }
      ghost var had := batches;
      var flushed := FlushOneBatch(0);
      if flushed { OneMoreBatch(had, batches, batchBytes); }
      while flushed
        invariant Valid() && FullBatches(batches, batchBytes) && Seen() == old(Seen())
        invariant (writer.buffer == old(writer.buffer) || fresh(writer.buffer))
        invariant bufferedBytes == 0
        decreases flushed
      {
        flushed := FlushOneBatch(0);
      }
    }

    /** One chunk read from the source. */
    method Read(chunk: Bytes)
      requires Valid() && FullBatches(batches, batchBytes)
      modifies this`bufferedChunks, this`bufferedBytes, this`batches, writer, writer.buffer
      ensures Valid() && FullBatches(batches, batchBytes) && Seen() == old(Seen()) + chunk
      ensures (writer.buffer == old(writer.buffer) || fresh(writer.buffer))
      ensures if batchBytes > 0 then bufferedBytes < batchBytes else bufferedBytes == 0
    {
      FlattenSnoc(bufferedChunks, chunk);
      bufferedChunks, bufferedBytes := bufferedChunks + [chunk], bufferedBytes + |chunk|;
      assert Seen() == old(Seen()) + chunk;
      if batchBytes > 0 && bufferedBytes >= batchBytes { FlushBuffered(); }
      if batchBytes == 0 { FlushBuffered(); }
    }

    /** The remainder, once the source has ended. */
    method Drain()
      requires Valid() && FullBatches(batches, batchBytes)
      requires if batchBytes > 0 then bufferedBytes < batchBytes else bufferedBytes == 0
      modifies this`bufferedChunks, this`bufferedBytes, this`batches, writer, writer.buffer
      ensures Valid() && EvenBatches(batches, batchBytes) && Flatten(batches) == old(Seen())
    {
      ghost var had := batches;
      var flushed := FlushOneBatch(batchBytes);
      LastBatch(had, batches, batchBytes, flushed);
      while flushed
        invariant Valid() && EvenBatches(batches, batchBytes) && Seen() == old(Seen())
        invariant (writer.buffer == old(writer.buffer) || fresh(writer.buffer))
        invariant bufferedBytes == 0
        decreases flushed
      {
        flushed := FlushOneBatch(batchBytes);
      }
      assert Flatten(bufferedChunks) == [];
    }
  }

  lemma Rebracket(parts: seq<Bytes>, waiting: seq<Bytes>, take: nat)
    requires waiting != [] && take <= |waiting[0]|
    ensures (var parts' := parts + [waiting[0][..take]];
             && |Flatten(parts')| == |Flatten(parts)| + take
             && Flatten(parts') + Flatten([waiting[0][take..]] + waiting[1..]) == Flatten(parts) + Flatten(waiting)
             && (take == |waiting[0]| ==> Flatten(parts') + Flatten(waiting[1..]) == Flatten(parts) + Flatten(waiting)))
  {
    var head, rest := waiting[0], waiting[1..];
    FlattenSnoc(parts, head[..take]);
    Regroup(Flatten(parts), head, take, Flatten(rest));
    assert ([head[take..]] + rest)[1..] == rest;
  }

  lemma Moved(done: Bytes, batch: Bytes, rest: Bytes, waiting: Bytes)
    requires batch + rest == waiting
    ensures (done + batch) + rest == done + waiting
  {
  }

  lemma Regroup(front: Bytes, head: Bytes, take: nat, rest: Bytes)
    requires take <= |head|
    ensures (front + head[..take]) + (head[take..] + rest) == front + (head + rest)
    ensures take == |head| ==> (front + head[..take]) + rest == front + (head + rest)
  {
    assert head == head[..take] + head[take..];
  }

  lemma LastBatch(had: seq<Bytes>, batches: seq<Bytes>, batchBytes: nat, flushed: bool)
    requires FullBatches(had, batchBytes) && (!flushed ==> batches == had)
    requires flushed ==> |batches| == |had| + 1 && batches[..|had|] == had
    requires flushed ==> |batches[|had|]| > 0 && (batchBytes > 0 ==> |batches[|had|]| <= batchBytes)
    ensures EvenBatches(batches, batchBytes)
  {
    forall i | 0 <= i < |had| ensures batches[i] == had[i] {
      if flushed { assert batches[i] == batches[..|had|][i]; }
    }
  }

  lemma OneMoreBatch(had: seq<Bytes>, batches: seq<Bytes>, batchBytes: nat)
    requires FullBatches(had, batchBytes) && |batches| == |had| + 1 && batches[..|had|] == had
    requires |batches[|had|]| > 0 && (batchBytes > 0 ==> |batches[|had|]| == batchBytes)
    ensures FullBatches(batches, batchBytes)
  {
    forall i | 0 <= i < |batches| ensures |batches[i]| > 0 && (batchBytes > 0 ==> |batches[i]| == batchBytes) {
      assert i < |had| ==> batches[i] == had[i];
    }
  }

  /** streamUploadWithProgress: the batches join up to the source, and the result is that of one
      put of all its bytes, whatever the source's chunks and the batch size. */
  method StreamUpload(source: seq<Bytes>, writer: StreamWriter, batchBytes: nat)
    returns (cid: Cid, size: nat, ghost batches: seq<Bytes>)
    requires writer.Valid() && writer.Written() == []
    modifies writer, writer.buffer
    ensures Flatten(batches) == Flatten(source) && EvenBatches(batches, batchBytes)
    ensures cid == FileCid(writer.crypto, writer.plain, Chunks(writer.chunker, Flatten(source), 0))
    ensures size == |Flatten(source)|
    ensures StoresFile(writer.crypto, writer.plain, writer.store, Chunks(writer.chunker, Flatten(source), 0))
  {
    var up := new Uploader(writer, batchBytes);
    for i := 0 to |source|
      invariant up.writer == writer && up.batchBytes == batchBytes && up.Valid()
      invariant (writer.buffer == old(writer.buffer) || fresh(writer.buffer))
      invariant FullBatches(up.batches, batchBytes) && up.Seen() == Flatten(source[..i])
      invariant if batchBytes > 0 then up.bufferedBytes < batchBytes else up.bufferedBytes == 0
    {
      assert source[..i + 1] == source[..i] + [source[i]];
      FlattenSnoc(source[..i], source[i]);
      up.Read(source[i]);
    }
    assert source[..|source|] == source;
    up.Drain();
    batches := up.batches;
    cid, size := writer.Finalize();
  }
}
