/** streamFileRangeChunks: re-chunking a byte range of a file stream. */
module MediaStream {
  import opened Directory
  import opened Bytes
  import ChunkTree

  /** All output chunks have chunkSize bytes, except that the last may be shorter, not empty. */
  ghost predicate Chunked(out: seq<Bytes>, chunkSize: nat) {
    && (forall i :: 0 <= i < |out| - 1 ==> |out[i]| == chunkSize)
    && (out != [] ==> 0 < |out[|out| - 1]| <= chunkSize)
  }

  ghost predicate AllFull(out: seq<Bytes>, chunkSize: nat) {
    forall i :: 0 <= i < |out| ==> |out[i]| == chunkSize
  }

  /** What was yielded and what is pending are the wanted ones of the bytes seen. */
  ghost predicate Taken(out: seq<Bytes>, held: Bytes, seen: Bytes, wanted: nat, remaining: int) {
    remaining >= 0 && Flatten(out) + held == seen[..Min(wanted, |seen|)] && remaining == wanted - |Flatten(out) + held|
  }

  lemma TakenMore(out: seq<Bytes>, held: Bytes, seen: Bytes, wanted: nat, remaining: int, chunk: Bytes,
                  out': seq<Bytes>, held': Bytes)
    requires Taken(out, held, seen, wanted, remaining)
    requires Flatten(out') + held' == Flatten(out) + held + chunk[..Min(|chunk|, remaining)]
    ensures Taken(out', held', seen + chunk, wanted, remaining - Min(|chunk|, remaining))
  {
    if remaining > 0 {
      assert seen[..Min(wanted, |seen|)] == seen;
    }
    assert (seen + chunk)[..Min(wanted, |seen + chunk|)] ==
           seen[..Min(wanted, |seen|)] + chunk[..Min(|chunk|, remaining)];
  }

  /** Nothing remains to be taken, so the rest of the source does not matter. */
  lemma TakenAll(out: seq<Bytes>, held: Bytes, source: seq<Bytes>, s: nat, wanted: nat, remaining: int)
    requires s <= |source| && Taken(out, held, Flatten(source[..s]), wanted, remaining)
    requires (s == |source| || remaining == 0)
    ensures Flatten(out) + held == Flatten(source)[..Min(wanted, |Flatten(source)|)]
  {
    FlattenAppend(source[..s], source[s..]);
    assert source == source[..s] + source[s..];
    if s == |source| { assert source[..s] == source; }
  }

  /** The wanted bytes are there before the last piece of the source. */
  ghost predicate EnoughBefore(source: seq<Bytes>, wanted: nat) {
    exists s :: 0 <= s < |source| && |Flatten(source[..s])| >= wanted
  }

  /** The bytes after `wanted` are dropped; pending is a buffer of chunkSize bytes, replaced
      once it has been yielded. The loop stops at the first piece that is not needed, if there is one. */
  method ReChunk(source: seq<Bytes>, wanted: nat, chunkSize: nat) returns (out: seq<Bytes>, stopped: bool)
    requires chunkSize > 0
    ensures Flatten(out) == Flatten(source)[..Min(wanted, |Flatten(source)|)]
    ensures Chunked(out, chunkSize)
    ensures stopped <==> EnoughBefore(source, wanted)
  {
    out := [];
    var remaining: int := wanted;
    var pending := new Byte[chunkSize](_ => 0);
    var pendingLength := 0;
    var s := 0;
    assert source[..0] == [];
    while s < |source| && remaining > 0
      invariant s <= |source| && 0 <= pendingLength < chunkSize == pending.Length && fresh(pending)
      invariant AllFull(out, chunkSize) && Taken(out, pending[..pendingLength], Flatten(source[..s]), wanted, remaining)
      invariant forall t :: 0 <= t < s ==> |Flatten(source[..t])| < wanted
    {
      ghost var held, before := pending[..pendingLength], out;
      var chunk := source[s];
      if |chunk| > 0 {
        out, pending, pendingLength :=
          TakePiece(chunk[..Min(|chunk|, remaining)], out, pending, pendingLength, chunkSize);
      }
      NextChunk(source, s, before, held, wanted, remaining, out, pending[..pendingLength]);
      remaining := remaining - Min(|chunk|, remaining);
      s := s + 1;
    }
    TakenAll(out, pending[..pendingLength], source, s, wanted, remaining);
    FlattenSnoc(out, pending[..pendingLength]);
    if pendingLength > 0 {
      out := out + [pending[..pendingLength]];
    }
    stopped := s < |source|;
  }

  lemma NextChunk(source: seq<Bytes>, s: nat, out: seq<Bytes>, held: Bytes, wanted: nat, remaining: int,
                  out': seq<Bytes>, held': Bytes)
    requires s < |source| && Taken(out, held, Flatten(source[..s]), wanted, remaining)
    requires Flatten(out') + held' == Flatten(out) + held + source[s][..Min(|source[s]|, remaining)]
    ensures Taken(out', held', Flatten(source[..s + 1]), wanted, remaining - Min(|source[s]|, remaining))
  {
    assert source[..s + 1] == source[..s] + [source[s]];
    FlattenSnoc(source[..s], source[s]);
    TakenMore(out, held, Flatten(source[..s]), wanted, remaining, source[s], out', held');
  }

  /** The inner loop: one source piece. */
  method TakePiece(piece: Bytes, before: seq<Bytes>, buffer: array<Byte>, length: nat, chunkSize: nat)
    returns (out: seq<Bytes>, pending: array<Byte>, pendingLength: nat)
    requires length < chunkSize == buffer.Length && AllFull(before, chunkSize)
    modifies buffer
    ensures pendingLength < chunkSize == pending.Length && (pending == buffer || fresh(pending))
    ensures AllFull(out, chunkSize)
    ensures Flatten(out) + pending[..pendingLength] == Flatten(before) + old(buffer[..length]) + piece
  {
    out, pending, pendingLength := before, buffer, length;
    var cursor := 0;
    ghost var had := Flatten(before) + buffer[..length];
    while cursor < |piece|
      invariant cursor <= |piece| && pendingLength < chunkSize == pending.Length
      invariant (pending == buffer || fresh(pending))
      invariant AllFull(out, chunkSize)
      invariant Flatten(out) + pending[..pendingLength] == had + piece[..cursor]
    {
      var available := |piece| - cursor;
      var toCopy :=
        if pendingLength == 0 && available >= chunkSize then chunkSize else Min(chunkSize - pendingLength, available);
      Regroup(Flatten(out) + pending[..pendingLength], had, piece, cursor, toCopy);
      if pendingLength == 0 && available >= chunkSize {
        out := Emit(out, piece[cursor..cursor + chunkSize], chunkSize);
        assert pending[..0] == [];
      } else {
        out, pending, pendingLength :=
          FillPending(out, pending, pendingLength, piece[cursor..cursor + toCopy], chunkSize);
      }
      cursor := cursor + toCopy;
    }
    assert piece[..|piece|] == piece;
  }

  method Emit(before: seq<Bytes>, chunk: Bytes, chunkSize: nat) returns (out: seq<Bytes>)
    requires AllFull(before, chunkSize) && |chunk| == chunkSize
    ensures AllFull(out, chunkSize) && Flatten(out) == Flatten(before) + chunk
  {
    FlattenSnoc(before, chunk);
    out := before + [chunk];
  }

  /** Copies into the pending buffer, and yields it once it is full. */
  method FillPending(before: seq<Bytes>, buffer: array<Byte>, length: nat, copied: Bytes, chunkSize: nat)
    returns (out: seq<Bytes>, pending: array<Byte>, pendingLength: nat)
    requires AllFull(before, chunkSize) && length < chunkSize == buffer.Length && 0 < |copied| <= chunkSize - length
    modifies buffer
    ensures pendingLength < chunkSize == pending.Length && (pending == buffer || fresh(pending))
    ensures AllFull(out, chunkSize)
    ensures Flatten(out) + pending[..pendingLength] == Flatten(before) + old(buffer[..length]) + copied
  {
    ghost var held := buffer[..length];
    Set(buffer, copied, length);
    pendingLength := length + |copied|;
    assert buffer[..pendingLength] == held + copied;
    out, pending := before, buffer;
    if pendingLength == chunkSize {
      out := Emit(before, buffer[..], chunkSize);
      assert buffer[..] == buffer[..pendingLength];
      pending := new Byte[chunkSize](_ => 0);
      pendingLength := 0;
      assert pending[..0] == [];
    }
  }

  lemma Regroup(done: Bytes, had: Bytes, piece: Bytes, cursor: nat, n: nat)
    requires cursor + n <= |piece| && done == had + piece[..cursor]
    ensures done + piece[cursor..cursor + n] == had + piece[..cursor + n]
  {
    assert piece[..cursor + n] == piece[..cursor] + piece[cursor..cursor + n];
  }

  /** A range of a file, streamed in chunks: over a sound chunk tree, exactly the bytes from
      start to endInclusive. Over any tree `source` are the pieces that the stream yields, and `ok`
      says whether it ends well: an error of the stream comes through unless a piece that is not
      needed comes before it. */
  method StreamFileRangeChunks(root: ChunkTree.Root, start: nat, endInclusive: int, chunkSize: int, prefetch: nat)
    returns (r: Result<seq<Bytes>>, ghost source: seq<Bytes>, ghost ok: bool)
    requires prefetch >= 1
    ensures chunkSize <= 0 ==> r == Err
    ensures chunkSize > 0 && endInclusive < start ==> r == Ok([])
    ensures chunkSize > 0 && start <= endInclusive ==>
              && (ok <==> (root.NodeRoot? ==> ChunkTree.Streamable(root.links, start)))
              && (ok ==> Flatten(source) == ChunkTree.StreamedRoot(root, start))
              && (r.Ok? <==> ok || EnoughBefore(source, endInclusive - start + 1))
              && (r.Ok? ==> Flatten(r.value) == Cut(Flatten(source), 0, Some(endInclusive - start + 1)))
    ensures r.Ok? ==> Chunked(r.value, chunkSize)
    ensures chunkSize > 0 && ChunkTree.SoundRoot(root) ==>
              && r.Ok?
              && Flatten(r.value) == Cut(ChunkTree.RootContent(root), start, Some(endInclusive + 1))
  {
    source, ok := [], true;
    if chunkSize <= 0 { return Err, source, ok; }
    if endInclusive < start { return Ok([]), source, ok; }
    var pieces, ended := ChunkTree.ReadFileStream(root, start, prefetch);
    source, ok := pieces, ended;
    var out, stopped := ReChunk(pieces, endInclusive - start + 1, chunkSize);
    r := if ended || stopped then Ok(out) else Err;
  }
}
