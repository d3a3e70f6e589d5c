/** The binary format of the social graph: what the bytes are, and reading them back. */
module GraphFormat {
  import opened Keys
  import opened Bytes
  import opened Hex
  import opened Varint
  import opened UniqueIds

  // ---------------------------------------------------------------- hexadecimal keys

  /** Where hexToBytes does not throw. */
  predicate IsHex(s: Str) {
    s != [] && |s| % 2 == 0 && forall i :: 0 <= i < |s| ==> HexDigit(s[i])
  }

  function HexToBytes(s: Str): (r: Bytes)
    requires |s| % 2 == 0 && forall i :: 0 <= i < |s| ==> HexDigit(s[i])
    ensures |r| == |s| / 2
  {
    if s == [] then [] else [16 * DigitValue(s[0]) + DigitValue(s[1])] + HexToBytes(s[2..])
  }

  function BytesToHex(b: Bytes): (r: Str)
    ensures |r| == 2 * |b|
  {
    if b == [] then [] else [DigitOf(b[0] / 16), DigitOf(b[0] % 16)] + BytesToHex(b[1..])
  }

  /** A 64-digit public key in lower case. */
  predicate IsKey(s: Str) {
    |s| == 64 && IsLowerHex(s)
  }

  /** Upper-case digits come back in lower case, so exactly lower-case keys survive. */
  lemma {:induction false} HexRoundTripExactly(s: Str)
    requires |s| % 2 == 0 && forall i :: 0 <= i < |s| ==> HexDigit(s[i])
    ensures BytesToHex(HexToBytes(s)) == s <==> IsLowerHex(s)
  {
    if s != [] {
      HexRoundTripExactly(s[2..]);
      var a, b, rest := DigitOf(DigitValue(s[0])), DigitOf(DigitValue(s[1])), BytesToHex(HexToBytes(s[2..]));
      assert BytesToHex(HexToBytes(s)) == [a, b] + rest;
      SplitTwo(s, a, b, rest);
      assert (a == s[0] <==> LowerHexDigit(s[0])) && (b == s[1] <==> LowerHexDigit(s[1]));
    }
  }

  lemma SplitTwo(s: Str, a: Unit, b: Unit, rest: Str)
    requires |s| >= 2 && |rest| == |s| - 2
    ensures [a, b] + rest == s <==> a == s[0] && b == s[1] && rest == s[2..]
    ensures IsLowerHex(s) <==> LowerHexDigit(s[0]) && LowerHexDigit(s[1]) && IsLowerHex(s[2..])
  {
    assert s == [s[0], s[1]] + s[2..];
    assert ([a, b] + rest)[2..] == rest;
    if LowerHexDigit(s[0]) && LowerHexDigit(s[1]) && IsLowerHex(s[2..]) {
      forall i | 0 <= i < |s| ensures LowerHexDigit(s[i]) { if i >= 2 { assert s[i] == s[2..][i - 2]; } }
    }
  }

  // ---------------------------------------------------------------- the format

  datatype IdRecord = IdRecord(name: Str, id: Id)

  datatype ListRecord = ListRecord(owner: Id, createdAt: int, targets: seq<Id>)

  datatype Image = Image(ids: seq<IdRecord>, follows: seq<ListRecord>, mutes: seq<ListRecord>)

  const VERSION := 2

  function VarBytes(vs: seq<Id>): Bytes {
    if vs == [] then [] else Encode(vs[0]) + VarBytes(vs[1..])
  }

  function IdBytes(r: IdRecord): Bytes
    requires IsHex(r.name)
  {
    HexToBytes(r.name) + Encode(r.id)
  }

  predicate HexNames(ids: seq<IdRecord>) {
    forall i :: 0 <= i < |ids| ==> IsHex(ids[i].name)
  }

  function IdsBytes(ids: seq<IdRecord>): Bytes
    requires HexNames(ids)
  {
    if ids == [] then [] else IdBytes(ids[0]) + IdsBytes(ids[1..])
  }

  function ListBytes(l: ListRecord): Bytes {
    Encode(l.owner) + (Encode(l.createdAt) + (Encode(|l.targets|) + VarBytes(l.targets)))
  }

  function ListsBytes(ls: seq<ListRecord>): Bytes {
    if ls == [] then [] else ListBytes(ls[0]) + ListsBytes(ls[1..])
  }

  /** A block of records, preceded by their number. */
  function IdBlock(ids: seq<IdRecord>): Bytes
    requires HexNames(ids)
  {
    Encode(|ids|) + IdsBytes(ids)
  }

  function ListBlock(ls: seq<ListRecord>): Bytes {
    Encode(|ls|) + ListsBytes(ls)
  }

  function ImageBytes(w: Image): Bytes
    requires HexNames(w.ids)
  {
    Encode(VERSION) + (IdBlock(w.ids) + (ListBlock(w.follows) + ListBlock(w.mutes)))
  }

  /** The version, 2, comes first; then the block of identifiers, the follow lists, the mute lists. */
  lemma ImageLayout(w: Image)
    requires HexNames(w.ids)
    ensures (var data, ids, follows, mutes := ImageBytes(w), IdBlock(w.ids), ListBlock(w.follows), ListBlock(w.mutes);
             && data[..1] == [2] && data[1..] == ids + follows + mutes)
  {
    assert Encode(VERSION) == [2];
    assert ImageBytes(w)[1..] == IdBlock(w.ids) + (ListBlock(w.follows) + ListBlock(w.mutes));
  }

  /** One user, who follows two and mutes nobody, field by field. */
  lemma SmallImage(name: Str)
    requires IsHex(name)
    ensures ImageBytes(Image([IdRecord(name, 9)], [ListRecord(9, 300, [5, 7])], [ListRecord(9, 4, [])]))
         == [2] + (([1] + (HexToBytes(name) + [9])) + [1, 9, 172, 2, 2, 5, 7] + [1, 9, 4, 0])
  {
    OneId(IdRecord(name, 9));
    SmallLists();
    ImageLayout(Image([IdRecord(name, 9)], [ListRecord(9, 300, [5, 7])], [ListRecord(9, 4, [])]));
  }

  lemma OneId(r: IdRecord)
    requires IsHex(r.name)
    ensures HexNames([r]) && IdBlock([r]) == [1] + (HexToBytes(r.name) + Encode(r.id))
  {
    assert IdsBytes([r]) == IdBytes(r) + IdsBytes([]) == IdBytes(r);
  }

  lemma SmallLists()
    ensures ListBlock([ListRecord(9, 300, [5, 7])]) == [1, 9, 172, 2, 2, 5, 7]
    ensures ListBlock([ListRecord(9, 4, [])]) == [1, 9, 4, 0]
  {
    assert Encode(300) == [172, 2];
    assert VarBytes([5, 7]) == [5, 7] by { assert [5, 7][1..] == [7] && VarBytes([7]) == [7]; }
    OneListBytes(ListRecord(9, 300, [5, 7]), [9, 172, 2, 2, 5, 7]);
    OneListBytes(ListRecord(9, 4, []), [9, 4, 0]);
  }

  lemma OneListBytes(l: ListRecord, bytes: Bytes)
    requires ListBytes(l) == bytes
    ensures ListBlock([l]) == [1] + bytes
  {
    assert ListsBytes([l]) == ListBytes(l) + ListsBytes([]) == bytes;
  }

  /** Each byte of a key is two of its digits, the high one first. */
  lemma {:induction false} HexByteAt(s: Str, i: nat)
    requires |s| % 2 == 0 && (forall k :: 0 <= k < |s| ==> HexDigit(s[k])) && i < |s| / 2
    ensures HexToBytes(s)[i] == 16 * DigitValue(s[2 * i]) + DigitValue(s[2 * i + 1])
  {
    if i > 0 {
      HexByteAt(s[2..], i - 1);
      assert HexToBytes(s)[i] == HexToBytes(s[2..])[i - 1];
    }
  }

  /** Signed 32-bit values. */
  predicate Fits(v: int) {
    -SIGN <= v < SIGN
  }

  ghost predicate AllFit(vs: seq<Id>) {
    forall i :: 0 <= i < |vs| ==> Fits(vs[i])
  }

  ghost predicate IdFits(r: IdRecord) {
    IsKey(r.name) && IsHex(r.name) && Fits(r.id)
  }

  ghost predicate IdsFit(ids: seq<IdRecord>) {
    Fits(|ids|) && forall i :: 0 <= i < |ids| ==> IdFits(ids[i])
  }

  ghost predicate ListFits(l: ListRecord) {
    Fits(l.owner) && Fits(l.createdAt) && Fits(|l.targets|) && AllFit(l.targets)
  }

  ghost predicate ListsFit(ls: seq<ListRecord>) {
    Fits(|ls|) && forall i :: 0 <= i < |ls| ==> ListFits(ls[i])
  }

  /** The parts of a list stand one after the other. */
  lemma FirstVar(data: Bytes, offset: nat, vs: seq<Id>)
    requires vs != [] && At(data, offset, VarBytes(vs))
    ensures At(data, offset, Encode(vs[0])) && At(data, offset + |Encode(vs[0])|, VarBytes(vs[1..]))
    ensures |VarBytes(vs)| == |Encode(vs[0])| + |VarBytes(vs[1..])|
  {
    Split(data, offset, VarBytes(vs), Encode(vs[0]), VarBytes(vs[1..]));
  }

  /** The rest of a list block, which ends at `end`. */
  ghost predicate ListsAhead(data: Bytes, offset: nat, ls: seq<ListRecord>, end: nat) {
    At(data, offset, ListsBytes(ls)) && offset + |ListsBytes(ls)| == end
  }

  lemma FirstList(data: Bytes, offset: nat, ls: seq<ListRecord>, end: nat)
    requires ls != [] && ListsAhead(data, offset, ls, end)
    ensures At(data, offset, ListBytes(ls[0])) && ListsAhead(data, offset + |ListBytes(ls[0])|, ls[1..], end)
  {
    Split(data, offset, ListsBytes(ls), ListBytes(ls[0]), ListsBytes(ls[1..]));
  }

  // ---------------------------------------------------------------- reading

  /* The readers take any bytes at all, and read zeros past the end. Each has a ghost argument,
     what the writer put there, and returns exactly that when it is there and fits. */

  method ReadVar(data: Bytes, offset: nat, ghost v: int) returns (value: Id, offset': nat)
    ensures At(data, offset, Encode(v)) && Fits(v) ==> value == v && offset' == offset + |Encode(v)|
  {
    var r, pattern := DecodeVarint(data, offset);
    if At(data, offset, Encode(v)) { RoundTripExactly(data, offset, v); }
    value, offset' := r.value, offset + r.bytesRead;
  }

  method ReadVars(data: Bytes, offset: nat, count: int, ghost vs: seq<Id>) returns (values: seq<Id>, offset': nat)
    ensures At(data, offset, VarBytes(vs)) && AllFit(vs) && count == |vs| ==>
              values == vs && offset' == offset + |VarBytes(vs)|
  {
    values, offset' := [], offset;
    ghost var there := At(data, offset, VarBytes(vs)) && AllFit(vs) && count == |vs|;
    var j := 0;
    while j < count
      invariant 0 <= j && (there ==> j <= |vs| && values == vs[..j])
      invariant there ==>
                  At(data, offset', VarBytes(vs[j..])) && offset' + |VarBytes(vs[j..])| == offset + |VarBytes(vs)|
      decreases count - j
    {
      if there { FirstVar(data, offset', vs[j..]); }
      var value;
      value, offset' := ReadVar(data, offset', if there then vs[j] else 0);
      values := values + [value];
      j := j + 1;
      assert there ==> vs[j - 1..][1..] == vs[j..];
    }
    assert there ==> vs[j..] == [];
  }

  method ReadId(data: Bytes, offset: nat, ghost r: IdRecord) returns (rec: IdRecord, offset': nat)
    ensures IdFits(r) && At(data, offset, IdBytes(r)) ==> rec == r && offset' == offset + |IdBytes(r)|
  {
    ghost var there := IdFits(r) && At(data, offset, IdBytes(r));
    var from, to := Min(offset, |data|), Min(offset + 32, |data|);
    var hexBytes := data[from..to];
    if there {
      AtParts(data, offset, HexToBytes(r.name), Encode(r.id));
      HexRoundTripExactly(r.name);
      AtIsSlice(data, offset, HexToBytes(r.name));
      assert hexBytes == HexToBytes(r.name);
    }
    var id;
    id, offset' := ReadVar(data, offset + 32, r.id);
    rec := IdRecord(BytesToHex(hexBytes), id);
  }

  ghost predicate IdsRead(data: Bytes, ids: seq<IdRecord>, i: nat, recs: seq<IdRecord>, offset: nat, end: nat) {
    && IdsFit(ids) && HexNames(ids) && i <= |ids| && recs == ids[..i] && HexNames(ids[i..])
    && At(data, offset, IdsBytes(ids[i..])) && offset + |IdsBytes(ids[i..])| == end
  }

  lemma IdsStart(data: Bytes, ids: seq<IdRecord>, offset: nat)
    requires HexNames(ids) && At(data, offset, IdsBytes(ids)) && IdsFit(ids)
    ensures IdsRead(data, ids, 0, [], offset, offset + |IdsBytes(ids)|)
  {
    assert ids[0..] == ids;
  }

  lemma NextId(data: Bytes, ids: seq<IdRecord>, i: nat, recs: seq<IdRecord>, offset: nat, end: nat)
    requires IdsRead(data, ids, i, recs, offset, end) && i < |ids|
    ensures IdFits(ids[i]) && At(data, offset, IdBytes(ids[i]))
    ensures IdsRead(data, ids, i + 1, recs + [ids[i]], offset + |IdBytes(ids[i])|, end)
  {
    var rest := ids[i..];
    assert rest[0] == ids[i] && rest[1..] == ids[i + 1..];
    Split(data, offset, IdsBytes(rest), IdBytes(rest[0]), IdsBytes(rest[1..]));
  }

  lemma IdsEnd(data: Bytes, ids: seq<IdRecord>, recs: seq<IdRecord>, offset: nat, end: nat)
    requires IdsRead(data, ids, |ids|, recs, offset, end)
    ensures recs == ids && offset == end
  {
    assert ids[|ids|..] == [];
  }

  method ReadIds(data: Bytes, offset: nat, count: int, ghost ids: seq<IdRecord>)
    returns (recs: seq<IdRecord>, offset': nat)
    requires HexNames(ids)
    ensures At(data, offset, IdsBytes(ids)) && IdsFit(ids) && count == |ids| ==>
              recs == ids && offset' == offset + |IdsBytes(ids)|
  {
    recs, offset' := [], offset;
    ghost var there := At(data, offset, IdsBytes(ids)) && IdsFit(ids) && count == |ids|;
    ghost var end := offset + |IdsBytes(ids)|;
    var i := 0;
    if there { IdsStart(data, ids, offset); }
    while i < count
      invariant 0 <= i && (there ==> IdsRead(data, ids, i, recs, offset', end))
      decreases count - i
    {
      ghost var r := if there then ids[i] else IdRecord([], 0);
      if there { NextId(data, ids, i, recs, offset', end); }
      var rec;
      rec, offset' := ReadId(data, offset', r);
      recs := recs + [rec];
      i := i + 1;
    }
    if there { IdsEnd(data, ids, recs, offset', end); }
  }

  method ReadList(data: Bytes, offset: nat, ghost l: ListRecord) returns (rec: ListRecord, offset': nat)
    ensures At(data, offset, ListBytes(l)) && ListFits(l) ==> rec == l && offset' == offset + |ListBytes(l)|
  {
    if At(data, offset, ListBytes(l)) { ListParts(data, offset, l); }
    var user, timestamp, count, targets;
    user, offset' := ReadVar(data, offset, l.owner);
    timestamp, offset' := ReadVar(data, offset', l.createdAt);
    count, offset' := ReadVar(data, offset', |l.targets|);
    targets, offset' := ReadVars(data, offset', count, l.targets);
    rec := ListRecord(user, timestamp, targets);
  }

  lemma ListParts(data: Bytes, offset: nat, l: ListRecord)
    requires At(data, offset, ListBytes(l))
    ensures (var o1 := offset + |Encode(l.owner)|;
             var o2 := o1 + |Encode(l.createdAt)|;
             var o3 := o2 + |Encode(|l.targets|)|;
             && At(data, offset, Encode(l.owner))
             && At(data, o1, Encode(l.createdAt))
             && At(data, o2, Encode(|l.targets|))
             && At(data, o3, VarBytes(l.targets)) && o3 + |VarBytes(l.targets)| == offset + |ListBytes(l)|)
  {
    var c := Encode(|l.targets|) + VarBytes(l.targets);
    var b := Encode(l.createdAt) + c;
    AtParts(data, offset, Encode(l.owner), b);
    AtParts(data, offset + |Encode(l.owner)|, Encode(l.createdAt), c);
    AtParts(data, offset + |Encode(l.owner)| + |Encode(l.createdAt)|, Encode(|l.targets|), VarBytes(l.targets));
  }

  ghost predicate ListsRead(data: Bytes, ls: seq<ListRecord>, i: nat, recs: seq<ListRecord>, offset: nat, end: nat) {
    ListsFit(ls) && i <= |ls| && recs == ls[..i] && ListsAhead(data, offset, ls[i..], end)
  }

  lemma NextList(data: Bytes, ls: seq<ListRecord>, i: nat, recs: seq<ListRecord>, offset: nat, end: nat)
    requires ListsRead(data, ls, i, recs, offset, end) && i < |ls|
    ensures ListFits(ls[i]) && At(data, offset, ListBytes(ls[i]))
    ensures ListsRead(data, ls, i + 1, recs + [ls[i]], offset + |ListBytes(ls[i])|, end)
  {
    FirstList(data, offset, ls[i..], end);
    assert ls[i..][1..] == ls[i + 1..] && ls[i..][0] == ls[i];
  }

  lemma ListsStart(data: Bytes, ls: seq<ListRecord>, offset: nat)
    requires At(data, offset, ListsBytes(ls)) && ListsFit(ls)
    ensures ListsRead(data, ls, 0, [], offset, offset + |ListsBytes(ls)|)
  {
    assert ls[0..] == ls;
  }

  lemma ListsEnd(data: Bytes, ls: seq<ListRecord>, recs: seq<ListRecord>, offset: nat, end: nat)
    requires ListsRead(data, ls, |ls|, recs, offset, end)
    ensures recs == ls && offset == end
  {
    assert ls[|ls|..] == [];
  }

  /** One turn of the loop below. */
  method ReadNextList(data: Bytes, offset: nat, recs: seq<ListRecord>, ghost ls: seq<ListRecord>, ghost i: nat,
                      ghost end: nat)
    returns (recs': seq<ListRecord>, offset': nat)
    ensures i < |ls| && ListsRead(data, ls, i, recs, offset, end) ==> ListsRead(data, ls, i + 1, recs', offset', end)
  {
    ghost var l := ListRecord(0, 0, []);
    if i < |ls| && ListsRead(data, ls, i, recs, offset, end) {
      l := ls[i];
      NextList(data, ls, i, recs, offset, end);
    }
    var rec;
    rec, offset' := ReadList(data, offset, l);
    recs' := recs + [rec];
  }

  method ReadLists(data: Bytes, offset: nat, count: int, ghost ls: seq<ListRecord>)
    returns (recs: seq<ListRecord>, offset': nat)
    ensures At(data, offset, ListsBytes(ls)) && ListsFit(ls) && count == |ls| ==>
              recs == ls && offset' == offset + |ListsBytes(ls)|
  {
    recs, offset' := [], offset;
    ghost var there := At(data, offset, ListsBytes(ls)) && ListsFit(ls) && count == |ls|;
    ghost var end := offset + |ListsBytes(ls)|;
    var i := 0;
    if there { ListsStart(data, ls, offset); }
    while i < count
      invariant 0 <= i && (there ==> ListsRead(data, ls, i, recs, offset', end))
      decreases count - i
    {
      recs, offset' := ReadNextList(data, offset', recs, ls, i, end);
      i := i + 1;
    }
    if there { ListsEnd(data, ls, recs, offset', end); }
  }

  method ReadIdBlock(data: Bytes, offset: nat, ghost ids: seq<IdRecord>) returns (recs: seq<IdRecord>, offset': nat)
    requires HexNames(ids)
    ensures At(data, offset, IdBlock(ids)) && IdsFit(ids) ==> recs == ids && offset' == offset + |IdBlock(ids)|
  {
    if At(data, offset, IdBlock(ids)) { Split(data, offset, IdBlock(ids), Encode(|ids|), IdsBytes(ids)); }
    var count;
    count, offset' := ReadVar(data, offset, |ids|);
    recs, offset' := ReadIds(data, offset', count, ids);
  }

  method ReadListBlock(data: Bytes, offset: nat, ghost ls: seq<ListRecord>)
    returns (recs: seq<ListRecord>, offset': nat)
    ensures At(data, offset, ListBlock(ls)) && ListsFit(ls) ==> recs == ls && offset' == offset + |ListBlock(ls)|
  {
    if At(data, offset, ListBlock(ls)) { Split(data, offset, ListBlock(ls), Encode(|ls|), ListsBytes(ls)); }
    var count;
    count, offset' := ReadVar(data, offset, |ls|);
    recs, offset' := ReadLists(data, offset', count, ls);
  }

  ghost predicate ImageFits(w: Image) {
    HexNames(w.ids) && IdsFit(w.ids) && ListsFit(w.follows) && ListsFit(w.mutes)
  }

  /** The parsing half of fromBinary: it recovers every image that fits. */
  method ReadImage(data: Bytes, ghost w: Image) returns (image: Image)
    requires HexNames(w.ids)
    ensures data == ImageBytes(w) && ImageFits(w) ==> image == w
  {
    if data == ImageBytes(w) {
      FourParts(data, Encode(VERSION), IdBlock(w.ids), ListBlock(w.follows), ListBlock(w.mutes));
    }
    var version, ids, follows, mutes, offset;
    version, offset := ReadVar(data, 0, VERSION);
    ids, offset := ReadIdBlock(data, offset, w.ids);
    follows, offset := ReadListBlock(data, offset, w.follows);
    mutes, offset := ReadListBlock(data, offset, w.mutes);
    image := Image(ids, follows, mutes);
  }

  lemma FourParts(data: Bytes, a: Bytes, b: Bytes, c: Bytes, d: Bytes)
    requires data == a + (b + (c + d))
    ensures At(data, 0, a) && At(data, |a|, b) && At(data, |a| + |b|, c) && At(data, |a| + |b| + |c|, d)
  {
    AtIsSlice(data, 0, data);
    AtParts(data, 0, a, b + (c + d));
    AtParts(data, |a|, b, c + d);
    AtParts(data, |a| + |b|, c, d);
  }
}
