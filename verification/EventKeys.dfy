/** The keys of the event indexes: fixed-width reversed timestamps make key order newest first. */
module EventKeys {
  import opened Keys
  import opened Bytes
  import opened Hex

  const MAX_U64 := 0xFFFF_FFFF_FFFF_FFFF
  const MAX_SAFE := 0x1F_FFFF_FFFF_FFFF

  const COLON: Unit := 0x3A
  const MINUS: Unit := 0x2D
  const D: Str := [0x64]
  const T: Str := [0x74]

  type Tag = seq<Str>

  /** A stored event; `rest` is its content and signature. */
  datatype Event = Event(id: Str, pubkey: Str, createdAt: nat, kind: nat, tags: seq<Tag>, rest: Str)

  /** A part of a tag; the empty string also where the tag is too short. */
  function Part(tag: Tag, i: nat): Str {
    if i < |tag| then tag[i] else []
  }

  /** getDTag: the first d tag with a value; empty for null. */
  function DTag(tags: seq<Tag>): Str {
    if tags == [] then []
    else if Part(tags[0], 0) == D && Part(tags[0], 1) != [] then Part(tags[0], 1)
    else DTag(tags[1..])
  }

  /** A tag with the name "d" and a value that is not empty. */
  ghost predicate IsDTag(tag: Tag) {
    |tag| >= 2 && tag[0] == [0x64] && |tag[1]| > 0
  }

  ghost predicate FirstDTag(tags: seq<Tag>, i: nat) {
    i < |tags| && IsDTag(tags[i]) && forall j :: 0 <= j < i ==> !IsDTag(tags[j])
  }

  /** The value of the first such tag. */
  ghost predicate HasDTag(tags: seq<Tag>, value: Str) {
    exists i: nat :: FirstDTag(tags, i) && tags[i][1] == value
  }

  lemma FirstDTagLater(tags: seq<Tag>, i: nat)
    requires tags != [] && !IsDTag(tags[0])
    ensures FirstDTag(tags[1..], i) <==> FirstDTag(tags, i + 1)
  {
    if FirstDTag(tags[1..], i) {
      forall j | 0 <= j < i + 1 ensures !IsDTag(tags[j]) { assert j > 0 ==> tags[j] == tags[1..][j - 1]; }
    }
    if FirstDTag(tags, i + 1) {
      forall j | 0 <= j < i ensures !IsDTag(tags[1..][j]) { assert tags[1..][j] == tags[j + 1]; }
    }
  }

  /** getDTag finds that value; it finds none exactly when there is no such tag. */
  lemma {:induction false} DTagExactly(tags: seq<Tag>, value: Str)
    ensures HasDTag(tags, value) <==> value != [] && DTag(tags) == value
    ensures DTag(tags) == [] <==> forall i :: 0 <= i < |tags| ==> !IsDTag(tags[i])
  {
    if tags != [] {
      DTagExactly(tags[1..], value);
      if IsDTag(tags[0]) {
        assert FirstDTag(tags, 0);
      } else {
        if i: nat :| FirstDTag(tags[1..], i) && tags[1..][i][1] == value { FirstDTagLater(tags, i); }
        if i: nat :| FirstDTag(tags, i) && tags[i][1] == value { FirstDTagLater(tags, i - 1); }
        forall i | 0 <= i < |tags| && IsDTag(tags[i]) ensures IsDTag(tags[1..][i - 1]) {}
      }
    }
  }

  predicate Hex64(s: Str) {
    |s| == 64 && IsLowerHex(s)
  }

  /** What validateEvent checks of the fields used in keys. */
  predicate ValidEvent(e: Event) {
    Hex64(e.id) && Hex64(e.pubkey)
  }

  /** A time beyond 64 bits gives a negative number, whose sign stays in the text. */
  function ReverseTimestamp(createdAt: nat): (r: Str)
    ensures createdAt <= MAX_U64 ==> |r| == 16 && IsLowerHex(r)
  {
    if createdAt <= MAX_U64 then Padded(MAX_U64 - createdAt, 16)
    else ZerosBefore([MINUS] + PadStart(createdAt - MAX_U64, 1), 16)
  }

  /** padStart(width, '0') */
  function ZerosBefore(s: Str, width: nat): Str {
    if |s| >= width then s else [0x30] + ZerosBefore(s, width - 1)
  }

  lemma {:induction false} ZerosAdded(s: Str, width: nat)
    ensures forall u :: u in s ==> u in ZerosBefore(s, width)
    ensures NoColon(s) ==> NoColon(ZerosBefore(s, width))
    decreases width
  {
    if |s| < width { ZerosAdded(s, width - 1); }
  }

  lemma ReversedHasNoColon(createdAt: nat)
    ensures NoColon(ReverseTimestamp(createdAt))
  {
    if createdAt <= MAX_U64 {
      HexHasNoColon(ReverseTimestamp(createdAt));
    } else {
      var text := PadStart(createdAt - MAX_U64, 1);
      HexHasNoColon(text);
      ZerosAdded([MINUS] + text, 16);
    }
  }

  lemma LateHasSign(createdAt: nat)
    requires createdAt > MAX_U64
    ensures MINUS in ReverseTimestamp(createdAt)
  {
    var text := [MINUS] + PadStart(createdAt - MAX_U64, 1);
    assert text[0] == MINUS;
    ZerosAdded(text, 16);
  }

  predicate NoColon(s: Str) {
    forall i :: 0 <= i < |s| ==> s[i] != COLON
  }

  lemma HexHasNoColon(s: Str)
    requires IsLowerHex(s)
    ensures NoColon(s)
  {
    forall i | 0 <= i < |s| ensures s[i] != COLON { assert LowerHexDigit(s[i]); }
  }

  /** timeKey */
  function TimeKey(e: Event): Str {
    ReverseTimestamp(e.createdAt) + ([COLON] + e.id)
  }

  /** Newest first; of two events of one time, the smaller id first. */
  predicate Newer(a: Event, b: Event) {
    a.createdAt > b.createdAt || (a.createdAt == b.createdAt && Less(a.id, b.id))
  }

  lemma Sixteen()
    ensures Pow16(16) == MAX_U64 + 1
  {
    assert Pow16(4) == 0x1_0000;
    assert Pow16(8) == 0x1_0000 * Pow16(4);
    assert Pow16(12) == 0x1_0000 * Pow16(8);
    assert Pow16(16) == 0x1_0000 * Pow16(12);
  }

  /** In any list, under any prefix, key order is newest first, and a key belongs to one id and time. */
  lemma KeyOrderIsNewestFirst(p: Str, a: Event, b: Event)
    requires ValidEvent(a) && ValidEvent(b) && a.createdAt <= MAX_U64 && b.createdAt <= MAX_U64
    ensures (Less(p + TimeKey(a), p + TimeKey(b)) <==>
             a.createdAt > b.createdAt || (a.createdAt == b.createdAt && Less(a.id, b.id)))
    ensures p + TimeKey(a) == p + TimeKey(b) <==> a.createdAt == b.createdAt && a.id == b.id
  {
    Sixteen();
    LessAfterPrefix(p, TimeKey(a), TimeKey(b));
    SameParts(p, TimeKey(a), p, TimeKey(b));
    PaddedOrder(MAX_U64 - a.createdAt, MAX_U64 - b.createdAt, 16);
    TwoParts(ReverseTimestamp(a.createdAt), a.id, ReverseTimestamp(b.createdAt), b.id);
  }

  lemma TwoParts(x: Str, id: Str, y: Str, id': Str)
    requires |x| == |y|
    ensures Less(x + ([COLON] + id), y + ([COLON] + id')) <==> Less(x, y) || (x == y && Less(id, id'))
    ensures x + ([COLON] + id) == y + ([COLON] + id') <==> x == y && id == id'
  {
    LessSplits(x, y, [COLON] + id, [COLON] + id');
    LessAfterPrefix([COLON], id, id');
    SameParts(x, [COLON] + id, y, [COLON] + id');
    SameParts([COLON], id, [COLON], id');
  }

  // ---------------------------------------------------------------- reading the time back

  /** The number of code units up to the last colon, if there is one. */
  function LastColon(s: Str): (r: int)
    ensures -1 <= r < |s|
    ensures r >= 0 ==> s[r] == COLON
    ensures forall i :: r < i < |s| ==> s[i] != COLON
  {
    if s == [] then -1 else if s[|s| - 1] == COLON then |s| - 1 else LastColon(s[..|s| - 1])
  }

  /** The last part but one of key.split(':'); Err when there is none. */
  function LastButOne(key: Str): Result<Str> {
    var i := LastColon(key);
    if i < 0 then Err
    else
      var j := LastColon(key[..i]);
      Ok(key[j + 1..i])
  }

  /** createdAtFromIndexKey; Err where it throws. */
  function CreatedAtOfKey(key: Str): Result<int> {
    var part := LastButOne(key);
    if part.Err? || part.value == [] || exists i :: 0 <= i < |part.value| && !HexDigit(part.value[i]) then Err
    else
      var createdAt := MAX_U64 - Value(part.value);
      if createdAt > MAX_SAFE then Err else Ok(createdAt)
  }

  /** A prefix of index keys: nothing, or parts that each end with a colon. */
  predicate KeyPrefix(p: Str) {
    p == [] || p[|p| - 1] == COLON
  }

  lemma LastPart(a: Str, b: Str)
    requires KeyPrefix(a) && NoColon(b)
    ensures LastColon(a + b) == |a| - 1
  {
    var s := a + b;
    forall i | |a| <= i < |s| ensures s[i] != COLON { assert s[i] == b[i - |a|]; }
    if a != [] { assert s[|a| - 1] == COLON; }
  }

  lemma PartBeforeLast(p: Str, r: Str, id: Str)
    requires KeyPrefix(p) && NoColon(r) && NoColon(id)
    ensures LastButOne(p + (r + ([COLON] + id))) == Ok(r)
  {
    var key := p + (r + ([COLON] + id));
    KeyParts(p, r, COLON, id);
    LastPart(p + r + [COLON], id);
    LastPart(p, r);
    BetweenColons(key, |p + r|, |p| - 1);
  }

  lemma KeyParts(p: Str, r: Str, c: Unit, id: Str)
    ensures (var key := p + (r + ([c] + id));
             key == (p + r + [c]) + id && key[..|p + r|] == p + r && key[|p|..|p + r|] == r)
  {
  }

  lemma BetweenColons(key: Str, i: nat, j: int)
    requires LastColon(key) == i && LastColon(key[..i]) == j
    ensures LastButOne(key) == Ok(key[j + 1..i])
  {
  }

  /** What a time is written as: a number, or for a time beyond 64 bits something with a sign. */
  ghost predicate TimeText(part: Str, createdAt: nat) {
    && part != []
    && if createdAt <= MAX_U64 then IsLowerHex(part) && Value(part) == MAX_U64 - createdAt else MINUS in part
  }

  lemma ReversedIsTimeText(createdAt: nat)
    ensures TimeText(ReverseTimestamp(createdAt), createdAt)
  {
    if createdAt <= MAX_U64 {
      Sixteen();
      PaddedValue(MAX_U64 - createdAt, 16);
    } else {
      LateHasSign(createdAt);
    }
  }

  /** The timestamp is the last part but one, whatever colons the prefix holds. */
  lemma TimePart(p: Str, e: Event) returns (part: Str)
    requires ValidEvent(e) && KeyPrefix(p)
    ensures LastButOne(p + TimeKey(e)) == Ok(part) && TimeText(part, e.createdAt)
  {
    part := ReverseTimestamp(e.createdAt);
    HexHasNoColon(e.id);
    ReversedHasNoColon(e.createdAt);
    PartBeforeLast(p, part, e.id);
    ReversedIsTimeText(e.createdAt);
  }

  lemma ReadsPart(key: Str, part: Str, createdAt: nat)
    requires LastButOne(key) == Ok(part) && TimeText(part, createdAt)
    ensures CreatedAtOfKey(key) == if createdAt <= MAX_SAFE then Ok(createdAt) else Err
  {
    if createdAt <= MAX_U64 {
      forall i | 0 <= i < |part| ensures HexDigit(part[i]) { assert LowerHexDigit(part[i]); }
    } else {
      var i :| 0 <= i < |part| && part[i] == MINUS;
      assert !HexDigit(part[i]);
    }
  }

  /** The time is read back from any index key exactly when it is a safe integer; listing throws
      on a key with a later time, be it that the number is too large or that it has a sign. */
  lemma TimeReadsBackExactly(p: Str, e: Event)
    requires ValidEvent(e) && KeyPrefix(p)
    ensures CreatedAtOfKey(p + TimeKey(e)) == if e.createdAt < 0x20_0000_0000_0000 then Ok(e.createdAt) else Err
  {
    var part := TimePart(p, e);
    ReadsPart(p + TimeKey(e), part, e.createdAt);
  }

  // ---------------------------------------------------------------- the lists

  /** Text before the first colon is read back. */
  lemma FirstPart(x: Str, s: Str, x': Str, s': Str)
    requires NoColon(x) && NoColon(x')
    ensures x + ([COLON] + s) == x' + ([COLON] + s') <==> x == x' && s == s'
    ensures StartsWith(x' + ([COLON] + s'), x + [COLON]) <==> x == x'
  {
    var a, a' := x + ([COLON] + s), x' + ([COLON] + s');
    assert a[|x|] == COLON && a'[|x'|] == COLON;
    if |x| < |x'| { assert a'[|x|] == x'[|x|]; }
    if |x'| < |x| { assert (x + [COLON])[|x'|] == x[|x'|] && a[|x'|] == x[|x'|]; }
    if |x| == |x'| {
      SameParts(x, [COLON] + s, x', [COLON] + s');
      SameParts([COLON], s, [COLON], s');
      assert a'[..|x| + 1] == x' + [COLON];
      SameParts(x, [COLON], x', [COLON]);
    }
  }

  function PadKind(kind: nat): (r: Str)
    ensures IsLowerHex(r)
  {
    PadStart(kind, 8)
  }

  /** A kind is written in hexadecimal, filled up with zeros to 8 digits. */
  lemma PadKindExactly(kind: nat)
    ensures (var r := PadKind(kind); |r| >= 8 && Value(r) == kind && (|r| > 8 ==> r[0] != 0x30))
  {
    NoZerosBeyond(kind, 8);
  }

  /** The four time indexes. */
  datatype Listing = ByTime | ByAuthor | ByAuthorAndKind | ByKind

  /** The prefix under which a list is scanned. */
  function Scope(l: Listing, pubkey: Str, kind: nat): Str {
    match l
    case ByTime => []
    case ByAuthor => pubkey + [COLON]
    case ByAuthorAndKind => pubkey + ([COLON] + (PadKind(kind) + [COLON]))
    case ByKind => PadKind(kind) + [COLON]
  }

  /** timeKey, authorTimeKey, authorKindTimeKey and kindTimeKey */
  function IndexKey(l: Listing, e: Event): Str {
    Scope(l, e.pubkey, e.kind) + TimeKey(e)
  }

  predicate InScope(l: Listing, e: Event, pubkey: Str, kind: nat) {
    match l
    case ByTime => true
    case ByAuthor => e.pubkey == pubkey
    case ByAuthorAndKind => e.pubkey == pubkey && e.kind == kind
    case ByKind => e.kind == kind
  }

  lemma ScopeIsKeyPrefix(l: Listing, pubkey: Str, kind: nat)
    ensures KeyPrefix(Scope(l, pubkey, kind))
    ensures l != ByTime ==> Scope(l, pubkey, kind) != []
  {
  }

  /** An index key has a list's prefix exactly when its event belongs to the list. */
  lemma ScopeExactly(l: Listing, e: Event, pubkey: Str, kind: nat)
    requires ValidEvent(e) && Hex64(pubkey)
    ensures StartsWith(IndexKey(l, e), Scope(l, pubkey, kind)) <==> InScope(l, e, pubkey, kind)
    ensures InScope(l, e, pubkey, kind) ==> IndexKey(l, e) == Scope(l, pubkey, kind) + TimeKey(e)
  {
    HexHasNoColon(pubkey);
    HexHasNoColon(e.pubkey);
    HexHasNoColon(PadKind(kind));
    HexHasNoColon(PadKind(e.kind));
    PadStartIdentifies(e.kind, kind, 8);
    var k, k' := PadKind(kind), PadKind(e.kind);
    match l
    case ByTime =>
    case ByAuthor =>
      assert IndexKey(l, e) == e.pubkey + ([COLON] + TimeKey(e));
      FirstPart(pubkey, [], e.pubkey, TimeKey(e));
    case ByKind =>
      assert IndexKey(l, e) == k' + ([COLON] + TimeKey(e));
      FirstPart(k, [], k', TimeKey(e));
    case ByAuthorAndKind =>
      var rest := k' + ([COLON] + TimeKey(e));
      assert IndexKey(l, e) == e.pubkey + ([COLON] + rest);
      FirstPart(k, [], k', TimeKey(e));
      StartsAfter(e.pubkey, [COLON] + rest, pubkey, [COLON] + (k + [COLON]));
      StartsAfter([COLON], rest, [COLON], k + [COLON]);
  }

  lemma StartsAfter(x: Str, s: Str, x': Str, p: Str)
    requires |x| == |x'|
    ensures StartsWith(x + s, x' + p) <==> x == x' && StartsWith(s, p)
  {
    if |p| <= |s| {
      assert (x + s)[..|x| + |p|] == x + s[..|p|];
      SameParts(x, s[..|p|], x', p);
    }
  }

  /** One key of an index is one prefix and one id. */
  lemma IndexKeyIdentifies(p: Str, a: Event, q: Str, b: Event)
    requires ValidEvent(a) && ValidEvent(b) && a.createdAt <= MAX_U64 && b.createdAt <= MAX_U64
    requires p + TimeKey(a) == q + TimeKey(b)
    ensures p == q && a.id == b.id
  {
    SameParts(p, TimeKey(a), q, TimeKey(b));
    SameParts(ReverseTimestamp(a.createdAt), [COLON] + a.id, ReverseTimestamp(b.createdAt), [COLON] + b.id);
    SameParts([COLON], a.id, [COLON], b.id);
  }

  // ---------------------------------------------------------------- replaceable slots

  function ReplaceableKey(pubkey: Str, kind: nat): Str {
    pubkey + ([COLON] + PadKind(kind))
  }

  function ParameterizedKey(pubkey: Str, kind: nat, dTag: Str): Str {
    pubkey + ([COLON] + (PadKind(kind) + ([COLON] + dTag)))
  }

  /** A replaceable slot is one author, one kind and, for parameterized kinds, one d tag. */
  lemma KeysIdentifySlots(pubkey: Str, kind: nat, dTag: Str, pubkey': Str, kind': nat, dTag': Str)
    requires |pubkey| == |pubkey'| == 64
    ensures ReplaceableKey(pubkey, kind) == ReplaceableKey(pubkey', kind') <==> pubkey == pubkey' && kind == kind'
    ensures ParameterizedKey(pubkey, kind, dTag) == ParameterizedKey(pubkey', kind', dTag') <==>
            pubkey == pubkey' && kind == kind' && dTag == dTag'
  {
    PadStartIdentifies(kind, kind', 8);
    HexHasNoColon(PadKind(kind));
    HexHasNoColon(PadKind(kind'));
    SameParts(pubkey, [COLON] + PadKind(kind), pubkey', [COLON] + PadKind(kind'));
    SameParts([COLON], PadKind(kind), [COLON], PadKind(kind'));
    var s, s' := PadKind(kind) + ([COLON] + dTag), PadKind(kind') + ([COLON] + dTag');
    SameParts(pubkey, [COLON] + s, pubkey', [COLON] + s');
    SameParts([COLON], s, [COLON], s');
    FirstPart(PadKind(kind), dTag, PadKind(kind'), dTag');
  }

  lemma SameParts(x: Str, y: Str, x': Str, y': Str)
    requires |x| == |x'| || |y| == |y'|
    ensures x + y == x' + y' <==> x == x' && y == y'
  {
    if x + y == x' + y' {
      assert |x| == |x'| && |x + y| == |x| + |y|;
      assert (x + y)[..|x|] == x && (x' + y')[..|x|] == x';
      assert (x + y)[|x|..] == y && (x' + y')[|x|..] == y';
    }
  }
}
