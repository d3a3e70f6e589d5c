/** Writing the social graph through a 16 KB buffer. */
module GraphWriter {
  import opened Keys
  import opened Bytes
  import opened Varint
  import opened GraphFormat
  import opened Hex
  import opened UniqueIds

  const CHUNK_SIZE := 16384

  /** The local buffer of toBinaryChunks. */
  class ByteWriter {
    var buf: array<Byte>
    var pos: nat
    var out: seq<Bytes>

    ghost predicate Valid()
      reads this
    {
      && buf.Length == CHUNK_SIZE && pos <= CHUNK_SIZE
      && forall i :: 0 <= i < |out| ==> |out[i]| == CHUNK_SIZE
    }

    /** All bytes so far, whatever the chunk boundaries cut through. */
    ghost function Written(): Bytes
      requires pos <= buf.Length
      reads this, buf
    {
      Flatten(out) + buf[..pos]
    }

    constructor ()
      ensures Valid() && Written() == [] && fresh(buf)
    {
      buf := new Byte[CHUNK_SIZE](_ => 0);
      pos, out := 0, [];
    }

    /** A full buffer becomes a chunk. */
    method FlushFull()
      requires Valid() && pos == CHUNK_SIZE
      modifies this
      ensures Valid() && pos == 0 && Written() == old(Written()) && fresh(buf)
    {
      FlattenSnoc(out, buf[..pos]);
      out := out + [buf[..pos]];
      buf := new Byte[CHUNK_SIZE](_ => 0);
      pos := 0;
      assert Written() == Flatten(out) + [];
    }

    method WriteByte(b: Byte)
      requires Valid()
      modifies this, buf
      ensures Valid() && Written() == old(Written()) + [b] && (buf == old(buf) || fresh(buf))
    {
      if pos >= buf.Length { FlushFull(); }
      ghost var was, had := buf[..pos], Flatten(out);
      buf[pos] := b;
      pos := pos + 1;
      assert buf[..pos] == was + [b];
      assert had + (was + [b]) == had + was + [b];
    }

    method WriteBytes(bytes: Bytes)
      requires Valid()
      modifies this, buf
      ensures Valid() && Written() == old(Written()) + bytes && (buf == old(buf) || fresh(buf))
    {
      var i := 0;
      ghost var before := Written();
      assert before + bytes[..0] == before;
      while i < |bytes|
        invariant Valid() && i <= |bytes| && Written() == before + bytes[..i]
        invariant buf == old(buf) || fresh(buf)
        decreases |bytes| - i, pos
      {
        if buf.Length - pos == 0 {
          FlushFull();
          continue;
        }
        var len := Min(buf.Length - pos, |bytes| - i);
        CopyIn(bytes[i..i + len]);
        assert before + bytes[..i] + bytes[i..i + len] == before + bytes[..i + len];
        i := i + len;
      }
      assert bytes[..i] == bytes;
    }

    method CopyIn(piece: Bytes)
      requires Valid() && pos + |piece| <= CHUNK_SIZE
      modifies this`pos, buf
      ensures Valid() && Written() == old(Written()) + piece
    {
      ghost var was, had := buf[..pos], Flatten(out);
      Set(buf, piece, pos);
      pos := pos + |piece|;
      assert buf[..pos] == was + piece;
      assert had + (was + piece) == had + was + piece;
    }

    method WriteVar(v: int)
      requires Valid()
      modifies this, buf
      ensures Valid() && Written() == old(Written()) + Encode(v) && (buf == old(buf) || fresh(buf))
    {
      var n := Unsigned(v);
      ghost var before := Written();
      ghost var done: Bytes := [];
      assert before + done == before && done + EncodeUnsigned(n) == Encode(v);
      while n >= 0x80
        invariant Valid() && Written() == before + done && done + EncodeUnsigned(n) == Encode(v)
        invariant buf == old(buf) || fresh(buf)
        decreases n
      {
        var low, high := Low(n), High(n);
        Grown(before, done, [low + 0x80]);
        Grown(done, [low + 0x80], EncodeUnsigned(high));
        WriteByte(low + 0x80);
        done := done + [low + 0x80];
        n := high;
      }
      Grown(before, done, [n]);
      WriteByte(n);
    }
  }

  // ---------------------------------------------------------------- records

  lemma {:induction false} VarBytesSnoc(vs: seq<Id>, v: Id)
    ensures VarBytes(vs + [v]) == VarBytes(vs) + Encode(v)
  {
    if vs == [] {
      assert [v][1..] == [] && VarBytes([v]) == Encode(v) + [];
    } else {
      assert (vs + [v])[1..] == vs[1..] + [v];
      VarBytesSnoc(vs[1..], v);
    }
  }

  lemma {:induction false} IdsBytesSnoc(ids: seq<IdRecord>, r: IdRecord)
    requires HexNames(ids) && IsHex(r.name)
    ensures HexNames(ids + [r]) && IdsBytes(ids + [r]) == IdsBytes(ids) + IdBytes(r)
  {
    if ids == [] {
      assert [r][1..] == [] && IdsBytes([r]) == IdBytes(r) + [];
    } else {
      var all := ids + [r];
      assert all[1..] == ids[1..] + [r] && all[0] == ids[0];
      IdsBytesSnoc(ids[1..], r);
      assert HexNames(all);
      Grown(IdBytes(ids[0]), IdsBytes(ids[1..]), IdBytes(r));
    }
  }

  lemma {:induction false} ListsBytesSnoc(ls: seq<ListRecord>, l: ListRecord)
    ensures ListsBytes(ls + [l]) == ListsBytes(ls) + ListBytes(l)
  {
    if ls == [] {
      assert [l][1..] == [] && ListsBytes([l]) == ListBytes(l) + [];
    } else {
      assert (ls + [l])[1..] == ls[1..] + [l];
      ListsBytesSnoc(ls[1..], l);
    }
  }

  lemma Grown(before: Bytes, a: Bytes, b: Bytes)
    ensures before + a + b == before + (a + b)
  {
  }

  // ---------------------------------------------------------------- the graph to write

  /** One entry of a map of sets, with its set in iteration order. */
  datatype Entry = Entry(owner: Id, targets: seq<Id>)

  type Ordered = seq<Entry>

  function TargetsOf(adj: Ordered, owner: Id): seq<Id> {
    if adj == [] then [] else if adj[0].owner == owner then adj[0].targets else TargetsOf(adj[1..], owner)
  }

  ghost predicate Distinct(s: seq<Id>) {
    forall i, j :: 0 <= i < j < |s| ==> s[i] != s[j]
  }

  /** JavaScript's Set.add on an insertion-ordered set. */
  function Include(s: seq<Id>, x: Id): seq<Id> {
    if x in s then s else s + [x]
  }

  datatype Limit = Limit(owner: Id, limit: nat)

  /** What to write: the id block, and for each kept owner how many of its targets. */
  datatype Plan = Plan(usedIds: seq<Id>, follows: seq<Limit>, mutes: seq<Limit>)

  /** No owner is promised more targets than it has. */
  ghost predicate WithinSets(limits: seq<Limit>, adj: Ordered) {
    forall i :: 0 <= i < |limits| ==> limits[i].limit <= |TargetsOf(adj, limits[i].owner)|
  }

  function TimeOf(times: map<Id, int>, owner: Id): int {
    if owner in times then times[owner] else 0
  }

  /** The record that a limit stands for: a prefix of the owner's targets. */
  function RecordOf(l: Limit, adj: Ordered, times: map<Id, int>): ListRecord
    requires l.limit <= |TargetsOf(adj, l.owner)|
  {
    ListRecord(l.owner, TimeOf(times, l.owner), TargetsOf(adj, l.owner)[..l.limit])
  }

  function RecordsOf(limits: seq<Limit>, adj: Ordered, times: map<Id, int>): (r: seq<ListRecord>)
    requires WithinSets(limits, adj)
    ensures |r| == |limits| && forall i :: 0 <= i < |r| ==> r[i] == RecordOf(limits[i], adj, times)
  {
    if limits == [] then []
    else RecordsOf(limits[..|limits| - 1], adj, times) + [RecordOf(limits[|limits| - 1], adj, times)]
  }

  predicate AllNamed(ids: seq<Id>, names: map<Id, Str>) {
    forall i :: 0 <= i < |ids| ==> ids[i] in names && IsHex(names[ids[i]])
  }

  function IdRecordsOf(ids: seq<Id>, names: map<Id, Str>): (r: seq<IdRecord>)
    requires AllNamed(ids, names)
    ensures |r| == |ids| && forall i :: 0 <= i < |r| ==> r[i] == IdRecord(names[ids[i]], ids[i])
  {
    if ids == [] then []
    else IdRecordsOf(ids[..|ids| - 1], names) + [IdRecord(names[ids[|ids| - 1]], ids[|ids| - 1])]
  }

  /** The graph's maps, as the encoder iterates over them. */
  datatype Source = Source(followed: Ordered, muted: Ordered,
                           followTimes: map<Id, int>, muteTimes: map<Id, int>, names: map<Id, Str>)

  function ImageOf(p: Plan, g: Source): Image
    requires AllNamed(p.usedIds, g.names) && WithinSets(p.follows, g.followed) && WithinSets(p.mutes, g.muted)
  {
    Image(IdRecordsOf(p.usedIds, g.names),
          RecordsOf(p.follows, g.followed, g.followTimes),
          RecordsOf(p.mutes, g.muted, g.muteTimes))
  }

  // ---------------------------------------------------------------- writing

  method WriteIds(w: ByteWriter, ids: seq<Id>, names: map<Id, Str>) returns (ok: bool)
    requires w.Valid()
    modifies w, w.buf
    ensures w.Valid() && (w.buf == old(w.buf) || fresh(w.buf))
    ensures ok <==> AllNamed(ids, names)
    ensures ok ==>
              HexNames(IdRecordsOf(ids, names)) && w.Written() == old(w.Written()) + IdBlock(IdRecordsOf(ids, names))
  {
    ghost var before := w.Written();
    w.WriteVar(|ids|);
    ok := WriteIdRecords(w, ids, names);
    if ok { Grown(before, Encode(|ids|), IdsBytes(IdRecordsOf(ids, names))); }
  }

  method WriteIdRecords(w: ByteWriter, ids: seq<Id>, names: map<Id, Str>) returns (ok: bool)
    requires w.Valid()
    modifies w, w.buf
    ensures w.Valid() && (w.buf == old(w.buf) || fresh(w.buf))
    ensures ok <==> AllNamed(ids, names)
    ensures ok ==>
              HexNames(IdRecordsOf(ids, names)) && w.Written() == old(w.Written()) + IdsBytes(IdRecordsOf(ids, names))
  {
    ghost var before := w.Written();
    assert before + [] == before;
    for i := 0 to |ids|
      invariant w.Valid() && (w.buf == old(w.buf) || fresh(w.buf))
      invariant IdsDone(ids, names, i, before, w.Written())
    {
      if ids[i] !in names { return false; }
      var name := names[ids[i]];
      if name == [] || |name| % 2 != 0 || exists k :: 0 <= k < |name| && !HexDigit(name[k]) { return false; }
      IdDone(ids, names, i, before, w.Written());
      WriteId(w, name, ids[i]);
    }
    assert ids[..|ids|] == ids;
    ok := true;
  }

  ghost predicate IdsDone(ids: seq<Id>, names: map<Id, Str>, i: nat, before: Bytes, written: Bytes) {
    && i <= |ids| && AllNamed(ids[..i], names) && HexNames(IdRecordsOf(ids[..i], names))
    && written == before + IdsBytes(IdRecordsOf(ids[..i], names))
  }

  lemma IdDone(ids: seq<Id>, names: map<Id, Str>, i: nat, before: Bytes, written: Bytes)
    requires i < |ids| && IdsDone(ids, names, i, before, written) && ids[i] in names && IsHex(names[ids[i]])
    ensures IdsDone(ids, names, i + 1, before, written + IdBytes(IdRecord(names[ids[i]], ids[i])))
  {
    var r := IdRecord(names[ids[i]], ids[i]);
    assert ids[..i + 1][..i] == ids[..i];
    IdsBytesSnoc(IdRecordsOf(ids[..i], names), r);
    Grown(before, IdsBytes(IdRecordsOf(ids[..i], names)), IdBytes(r));
  }

  method WriteId(w: ByteWriter, name: Str, id: Id)
    requires w.Valid() && IsHex(name)
    modifies w, w.buf
    ensures w.Valid() && (w.buf == old(w.buf) || fresh(w.buf))
    ensures w.Written() == old(w.Written()) + IdBytes(IdRecord(name, id))
  {
    ghost var before := w.Written();
    w.WriteBytes(HexToBytes(name));
    w.WriteVar(id);
    Grown(before, HexToBytes(name), Encode(id));
  }

  /** The header of one list, and its first `limit` targets. */
  method WriteList(w: ByteWriter, l: Limit, adj: Ordered, times: map<Id, int>)
    requires w.Valid() && l.limit <= |TargetsOf(adj, l.owner)|
    modifies w, w.buf
    ensures w.Valid() && (w.buf == old(w.buf) || fresh(w.buf))
    ensures w.Written() == old(w.Written()) + ListBytes(RecordOf(l, adj, times))
  {
    ghost var before := w.Written();
    var ts := TimeOf(times, l.owner);
    w.WriteVar(l.owner);
    w.WriteVar(ts);
    w.WriteVar(l.limit);
    WriteTargets(w, TargetsOf(adj, l.owner), l.limit);
    Quad(before, Encode(l.owner), Encode(ts), Encode(l.limit), VarBytes(TargetsOf(adj, l.owner)[..l.limit]));
  }

  lemma Quad(before: Bytes, a: Bytes, b: Bytes, c: Bytes, d: Bytes)
    ensures before + a + b + c + d == before + (a + (b + (c + d)))
  {
  }

  method WriteTargets(w: ByteWriter, outs: seq<Id>, limit: nat)
    requires w.Valid() && limit <= |outs|
    modifies w, w.buf
    ensures w.Valid() && (w.buf == old(w.buf) || fresh(w.buf))
    ensures w.Written() == old(w.Written()) + VarBytes(outs[..limit])
  {
    ghost var before := w.Written();
    var emitted := 0;
    assert before + VarBytes(outs[..0]) == before;
    for j := 0 to |outs|
      invariant w.Valid() && (w.buf == old(w.buf) || fresh(w.buf))
      invariant emitted == j <= limit && w.Written() == before + VarBytes(outs[..emitted])
    {
      if emitted >= limit { break; }
      assert outs[..emitted + 1] == outs[..emitted] + [outs[emitted]];
      VarBytesSnoc(outs[..emitted], outs[emitted]);
      w.WriteVar(outs[j]);
      Grown(before, VarBytes(outs[..emitted]), Encode(outs[j]));
      emitted := emitted + 1;
    }
  }

  method WriteLists(w: ByteWriter, limits: seq<Limit>, adj: Ordered, times: map<Id, int>)
    requires w.Valid() && WithinSets(limits, adj)
    modifies w, w.buf
    ensures w.Valid() && (w.buf == old(w.buf) || fresh(w.buf))
    ensures w.Written() == old(w.Written()) + ListBlock(RecordsOf(limits, adj, times))
  {
    ghost var before := w.Written();
    w.WriteVar(|limits|);
    ghost var counted := before + Encode(|limits|);
    assert counted + [] == counted;
    for i := 0 to |limits|
      invariant w.Valid() && (w.buf == old(w.buf) || fresh(w.buf))
      invariant ListsDone(limits, adj, times, i, counted, w.Written())
    {
      ListDone(limits, adj, times, i, counted, w.Written());
      WriteList(w, limits[i], adj, times);
    }
    assert limits[..|limits|] == limits;
    Grown(before, Encode(|limits|), ListsBytes(RecordsOf(limits, adj, times)));
  }

  ghost predicate ListsDone(limits: seq<Limit>, adj: Ordered, times: map<Id, int>, i: nat, before: Bytes,
                            written: Bytes) {
    && i <= |limits| && WithinSets(limits[..i], adj)
    && written == before + ListsBytes(RecordsOf(limits[..i], adj, times))
  }

  lemma ListDone(limits: seq<Limit>, adj: Ordered, times: map<Id, int>, i: nat, before: Bytes, written: Bytes)
    requires WithinSets(limits, adj) && i < |limits| && ListsDone(limits, adj, times, i, before, written)
    ensures ListsDone(limits, adj, times, i + 1, before, written + ListBytes(RecordOf(limits[i], adj, times)))
  {
    var done, r := RecordsOf(limits[..i], adj, times), RecordOf(limits[i], adj, times);
    assert limits[..i + 1][..i] == limits[..i];
    ListsBytesSnoc(done, r);
    Grown(before, ListsBytes(done), ListBytes(r));
  }

  /** toBinaryChunks, from its plan on. Every chunk but the last is 16 KB, and together they are
      the image of the plan. Err: an id without a name, or a name that is not hexadecimal. */
  method WriteChunks(p: Plan, g: Source) returns (chunks: Result<seq<Bytes>>)
    requires WithinSets(p.follows, g.followed) && WithinSets(p.mutes, g.muted)
    ensures chunks.Ok? <==> AllNamed(p.usedIds, g.names)
    ensures chunks.Ok? ==> HexNames(ImageOf(p, g).ids) && Flatten(chunks.value) == ImageBytes(ImageOf(p, g))
    ensures chunks.Ok? ==> forall i :: 0 <= i < |chunks.value| - 1 ==> |chunks.value[i]| == 16_384
    ensures chunks.Ok? && chunks.value != [] ==> 0 < |chunks.value[|chunks.value| - 1]| <= 16_384
  {
    var w := new ByteWriter();
    var ok := WriteImage(w, p, g);
    if !ok { return Err; }
    if w.pos == 0 {
      assert w.buf[..0] == [];
      return Ok(w.out);
    }
    FlattenSnoc(w.out, w.buf[..w.pos]);
    chunks := Ok(w.out + [w.buf[..w.pos]]);
  }

  method WriteImage(w: ByteWriter, p: Plan, g: Source) returns (ok: bool)
    requires w.Valid() && w.Written() == []
    requires WithinSets(p.follows, g.followed) && WithinSets(p.mutes, g.muted)
    modifies w, w.buf
    ensures w.Valid() && (ok <==> AllNamed(p.usedIds, g.names))
    ensures ok ==> HexNames(ImageOf(p, g).ids) && w.Written() == ImageBytes(ImageOf(p, g))
  {
    w.WriteVar(VERSION);
    ok := WriteIds(w, p.usedIds, g.names);
    if !ok { return; }
    WriteLists(w, p.follows, g.followed, g.followTimes);
    WriteLists(w, p.mutes, g.muted, g.muteTimes);
    ghost var image := ImageOf(p, g);
    Quad([], Encode(VERSION), IdBlock(image.ids), ListBlock(image.follows), ListBlock(image.mutes));
  }

  /** toBinary: the chunks in one buffer. */
  method ToBinary(p: Plan, g: Source) returns (data: Result<Bytes>)
    requires WithinSets(p.follows, g.followed) && WithinSets(p.mutes, g.muted)
    ensures data.Ok? <==> AllNamed(p.usedIds, g.names)
    ensures data.Ok? ==> HexNames(ImageOf(p, g).ids) && data.value == ImageBytes(ImageOf(p, g))
  {
    var chunks := WriteChunks(p, g);
    if chunks.Err? { return Err; }
    var whole := Concat(chunks.value);
    data := Ok(whole);
  }
}
