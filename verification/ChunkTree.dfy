/** Reading a file stored as a tree of encrypted chunks. The tree is given as the reader sees
    it: each link with what the store returns for it, decrypted and decoded. */
module ChunkTree {
  import opened Directory
  import opened Bytes

  /** Broken: decryption or decoding throws. A declared size may be false. */
  datatype Target = Missing | Broken | Blob(data: Bytes) | Node(links: seq<Link>)

  datatype Link = Link(size: int, hasKey: bool, target: Target)

  function ContentOf(l: Link): Bytes
    decreases l
  {
    match l.target
    case Blob(data) => data
    case Node(links) => Content(links)
    case _ => []
  }

  /** The plaintext below, in order. */
  function Content(links: seq<Link>): Bytes
    decreases links
  {
    if links == [] then [] else ContentOf(links[0]) + Content(links[1..])
  }

  /** Every chunk is there and every link declares the plaintext length below it. */
  ghost predicate Sound(links: seq<Link>)
    decreases links
  {
    forall i :: 0 <= i < |links| ==> SoundLink(links[i])
  }

  ghost predicate SoundLink(l: Link)
    decreases l
  {
    && l.hasKey && l.size == |ContentOf(l)|
    && (l.target.Blob? || (l.target.Node? && Sound(l.target.links)))
  }

  /** Nothing below is missing or broken, whatever the links declare. */
  ghost predicate Whole(links: seq<Link>)
    decreases links
  {
    forall i :: 0 <= i < |links| ==> WholeLink(links[i])
  }

  ghost predicate WholeLink(l: Link)
    decreases l
  {
    l.hasKey && (l.target.Blob? || (l.target.Node? && Whole(l.target.links)))
  }

  /** A sound tree is a whole one whose declared sizes are true. */
  lemma {:induction false} SoundIsWhole(links: seq<Link>)
    requires Sound(links)
    ensures Whole(links)
    decreases links
  {
    forall i | 0 <= i < |links| ensures WholeLink(links[i]) {
      SoundLinkIsWhole(links[i]);
    }
  }

  lemma {:induction false} SoundLinkIsWhole(l: Link)
    requires SoundLink(l)
    ensures WholeLink(l)
    decreases l
  {
    if l.target.Node? { SoundIsWhole(l.target.links); }
  }

  lemma {:induction false} ContentAppend(a: seq<Link>, b: seq<Link>)
    ensures Content(a + b) == Content(a) + Content(b)
  {
    if a == [] {
      assert a + b == b;
    } else {
      assert (a + b)[1..] == a[1..] + b;
      ContentAppend(a[1..], b);
    }
  }

  lemma ContentOne(l: Link)
    ensures Content([l]) == ContentOf(l)
  {
    assert [l][1..] == [];
  }

  lemma ContentCut(links: seq<Link>, i: nat)
    requires i <= |links|
    ensures Content(links) == Content(links[..i]) + Content(links[i..])
  {
    assert links == links[..i] + links[i..];
    ContentAppend(links[..i], links[i..]);
  }

  lemma ContentTake(links: seq<Link>, i: nat)
    requires i < |links|
    ensures Content(links[..i + 1]) == Content(links[..i]) + ContentOf(links[i])
  {
    assert links[..i + 1] == links[..i] + [links[i]];
    ContentAppend(links[..i], [links[i]]);
    ContentOne(links[i]);
  }

  lemma ContentSnoc(links: seq<Link>, i: nat)
    requires i < |links|
    ensures Content(links[..i + 1]) == Content(links[..i]) + ContentOf(links[i])
    ensures Content(links) == Content(links[..i + 1]) + Content(links[i + 1..])
  {
    ContentTake(links, i);
    ContentCut(links, i + 1);
  }

  // ---------------------------------------------------------------- assembling, with a limit

  /** The state shared by one read and all its recursive calls. */
  class ReadState {
    const maxBytes: Option<nat>
    var bytesRead: nat

    constructor (maxBytes: Option<nat>)
      ensures this.maxBytes == maxBytes && bytesRead == 0
    {
      this.maxBytes := maxBytes;
      bytesRead := 0;
    }

    predicate Allows(actual: int) {
      maxBytes.Some? ==> actual <= maxBytes.value
    }
  }

  /** With `at` bytes read before, each link's declared size and each blob's real one stay within
      the limit at the byte where they begin. */
  ghost predicate Admitted(links: seq<Link>, at: nat, limit: nat)
    decreases links
  {
    forall i :: 0 <= i < |links| ==> AdmittedLink(links[i], at + |Content(links[..i])|, limit)
  }

  ghost predicate AdmittedLink(l: Link, at: nat, limit: nat)
    decreases l
  {
    && at + l.size <= limit
    && (l.target.Blob? ==> at + |l.target.data| <= limit)
    && (l.target.Node? ==> Admitted(l.target.links, at, limit))
  }

  ghost predicate Within(links: seq<Link>, at: nat, limit: Option<nat>) {
    limit.Some? ==> Admitted(links, at, limit.value)
  }

  ghost predicate WithinLink(l: Link, at: nat, limit: Option<nat>) {
    limit.Some? ==> AdmittedLink(l, at, limit.value)
  }

  /** True sizes stay within the limit if the whole content does. */
  lemma {:induction false} SoundIsAdmitted(links: seq<Link>, at: nat, limit: nat)
    requires Sound(links) && at + |Content(links)| <= limit
    ensures Admitted(links, at, limit)
    decreases links
  {
    forall i | 0 <= i < |links| ensures AdmittedLink(links[i], at + |Content(links[..i])|, limit) {
      ContentSnoc(links, i);
      SoundLinkIsAdmitted(links[i], at + |Content(links[..i])|, limit);
    }
  }

  lemma {:induction false} SoundLinkIsAdmitted(l: Link, at: nat, limit: nat)
    requires SoundLink(l) && at + |ContentOf(l)| <= limit
    ensures AdmittedLink(l, at, limit)
    decreases l
  {
    if l.target.Node? { SoundIsAdmitted(l.target.links, at, limit); }
  }

  /** assembleEncryptedChunks. It succeeds exactly when nothing is missing or broken and all stays
      within the limit; the counter grows by exactly what is returned and never passes the limit. */
  method AssembleChunks(links: seq<Link>, state: ReadState) returns (r: Result<Bytes>)
    requires state.Allows(state.bytesRead)
    modifies state
    ensures state.Allows(state.bytesRead) && state.bytesRead >= old(state.bytesRead)
    ensures r.Ok? <==> Whole(links) && Within(links, old(state.bytesRead), state.maxBytes)
    ensures r.Ok? ==> r.value == Content(links) && state.bytesRead == old(state.bytesRead) + |r.value|
    decreases links, 0
  {
    var parts: seq<Bytes> := [];
    ghost var before := state.bytesRead;
    assert links[..0] == [];
    for i := 0 to |links|
      invariant Flatten(parts) == Content(links[..i])
      invariant state.Allows(state.bytesRead) && state.bytesRead == before + |Content(links[..i])|
      invariant forall j :: 0 <= j < i ==> AssembledAt(links, j, before, state.maxBytes)
    {
      ContentSnoc(links, i);
      var part := AssembleLink(links[i], state);
      if part.Err? {
        NotAssembled(links, i, before, state.maxBytes);
        return Err;
      }
      FlattenSnoc(parts, part.value);
      parts := parts + [part.value];
    }
    assert links[..|links|] == links;
    AllAssembled(links, before, state.maxBytes);
    var result := Concat(parts);
    r := Ok(result);
  }

  ghost predicate AssembledAt(links: seq<Link>, i: nat, at: nat, limit: Option<nat>)
    requires i < |links|
  {
    WholeLink(links[i]) && WithinLink(links[i], at + |Content(links[..i])|, limit)
  }

  lemma NotAssembled(links: seq<Link>, i: nat, at: nat, limit: Option<nat>)
    requires i < |links| && !AssembledAt(links, i, at, limit)
    ensures !(Whole(links) && Within(links, at, limit))
  {
  }

  lemma AllAssembled(links: seq<Link>, at: nat, limit: Option<nat>)
    requires forall j :: 0 <= j < |links| ==> AssembledAt(links, j, at, limit)
    ensures Whole(links) && Within(links, at, limit)
  {
    forall j | 0 <= j < |links| ensures WholeLink(links[j]) { assert AssembledAt(links, j, at, limit); }
    if limit.Some? {
      forall j | 0 <= j < |links| ensures AdmittedLink(links[j], at + |Content(links[..j])|, limit.value) {
        assert AssembledAt(links, j, at, limit);
      }
    }
  }

  /** One turn of that loop. */
  method AssembleLink(link: Link, state: ReadState) returns (r: Result<Bytes>)
    requires state.Allows(state.bytesRead)
    modifies state
    ensures state.Allows(state.bytesRead) && state.bytesRead >= old(state.bytesRead)
    ensures r.Ok? <==> WholeLink(link) && WithinLink(link, old(state.bytesRead), state.maxBytes)
    ensures r.Ok? ==> r.value == ContentOf(link) && state.bytesRead == old(state.bytesRead) + |r.value|
    decreases link
  {
    if !state.Allows(state.bytesRead + link.size) { return Err; }
    if !link.hasKey { return Err; }
    match link.target {
      case Missing => return Err;
      case Broken => return Err;
      case Node(childLinks) =>
        r := AssembleChunks(childLinks, state);
      case Blob(decrypted) =>
        if !state.Allows(state.bytesRead + |decrypted|) { return Err; }
        state.bytesRead := state.bytesRead + |decrypted|;
        r := Ok(decrypted);
    }
  }

  /** What getRootNodeOrBlob hands to the readers. */
  datatype Root = NodeRoot(links: seq<Link>) | BlobRoot(data: Bytes)

  function RootContent(root: Root): Bytes {
    match root
    case NodeRoot(links) => Content(links)
    case BlobRoot(data) => data
  }

  ghost predicate SoundRoot(root: Root) {
    root.NodeRoot? ==> Sound(root.links)
  }

  function DeclaredSize(links: seq<Link>): int {
    if links == [] then 0 else links[0].size + DeclaredSize(links[1..])
  }

  lemma {:induction false} SoundDeclaredSize(links: seq<Link>)
    requires Sound(links)
    ensures DeclaredSize(links) == |Content(links)|
  {
    if links != [] {
      assert SoundLink(links[0]);
      forall i | 0 <= i < |links[1..]| ensures SoundLink(links[1..][i]) { assert SoundLink(links[i + 1]); }
      SoundDeclaredSize(links[1..]);
    }
  }

  /** Nothing below the root is missing or broken. */
  ghost predicate WholeRoot(root: Root) {
    root.NodeRoot? ==> Whole(root.links)
  }

  /** The declared sizes, as they are met, and the content stay within the limit. */
  ghost predicate RootWithin(root: Root, limit: Option<nat>) {
    limit.Some? ==>
      match root
      case NodeRoot(links) => DeclaredSize(links) <= limit.value && Admitted(links, 0, limit.value)
      case BlobRoot(data) => |data| <= limit.value
  }

  lemma SoundRootReads(root: Root, limit: Option<nat>)
    requires SoundRoot(root)
    ensures WholeRoot(root)
    ensures (limit.Some? ==> |RootContent(root)| <= limit.value) ==> RootWithin(root, limit)
  {
    if root.NodeRoot? {
      SoundIsWhole(root.links);
      SoundDeclaredSize(root.links);
      if limit.Some? && |RootContent(root)| <= limit.value { SoundIsAdmitted(root.links, 0, limit.value); }
    }
  }

  /** readFileEncrypted: never more than maxBytes bytes, whatever the tree declares. It succeeds
      exactly when nothing is missing or broken and all sizes fit; on a sound tree that is when the
      content fits. */
  method ReadFile(root: Root, maxBytes: Option<nat>) returns (r: Result<Bytes>)
    ensures r.Ok? ==> r.value == RootContent(root) && (maxBytes.Some? ==> |r.value| <= maxBytes.value)
    ensures r.Ok? <==> WholeRoot(root) && RootWithin(root, maxBytes)
    ensures SoundRoot(root) ==> (r.Ok? <==> (maxBytes.Some? ==> |RootContent(root)| <= maxBytes.value))
  {
    if SoundRoot(root) { SoundRootReads(root, maxBytes); }
    match root
    case NodeRoot(links) =>
      var declaredSize := DeclaredSize(links);
      if maxBytes.Some? && declaredSize > maxBytes.value { return Err; }
      var state := new ReadState(maxBytes);
      r := AssembleChunks(links, state);
    case BlobRoot(data) =>
      if maxBytes.Some? && |data| > maxBytes.value { return Err; }
      r := Ok(data);
  }

  // ---------------------------------------------------------------- ranges

  /** A link is left out by its declared size, without being fetched. */
  predicate Skipped(l: Link, start: nat, position: int) {
    l.size > 0 && position + l.size <= start
  }

  ghost function Advance(l: Link, start: nat, position: int): int {
    if l.target.Blob? && !Skipped(l, start, position) then |l.target.data| else l.size
  }

  /** Where link i is taken to begin: fetched blobs count with their real size,
      all else as declared. */
  ghost function PositionAfter(links: seq<Link>, i: nat, start: nat): int
    requires i <= |links|
  {
    if i == 0 then 0
    else
      var p := PositionAfter(links, i - 1, start);
      p + Advance(links[i - 1], start, p)
  }

  /** Bytes are still wanted. */
  ghost predicate Wanting(collected: nat, start: nat, end: Option<int>) {
    end.Some? ==> collected < end.value - start
  }

  ghost function UpTo(part: Bytes, start: nat, end: Option<int>, collected: nat): Bytes {
    if end.Some? && 0 <= end.value - start - collected < |part| then part[..end.value - start - collected] else part
  }

  lemma UpToSlice(data: Bytes, from: nat, to: nat, start: nat, end: Option<int>, collected: nat)
    requires from <= to <= |data| && Wanting(collected, start, end)
    ensures (var take := if end.Some? then Min(to - from, end.value - start - collected) else to - from;
             UpTo(data[from..to], start, end, collected) == data[from..from + take])
  {
  }

  /** What the first i links give of the range, be the sizes true or false. */
  ghost function RangeBytes(links: seq<Link>, i: nat, start: nat, end: Option<int>): Bytes
    requires i <= |links|
    decreases links, i
  {
    if i == 0 then []
    else
      var before := RangeBytes(links, i - 1, start, end);
      if !Wanting(|before|, start, end) then before
      else before + RangePart(links[i - 1], start, end, PositionAfter(links, i - 1, start), |before|)
  }

  ghost function RangePart(l: Link, start: nat, end: Option<int>, position: int, collected: nat): Bytes
    decreases l
  {
    if Skipped(l, start, position) then []
    else match l.target
      case Blob(data) => UpTo(Cut(data, Max(0, start - position), Shift(end, position)), start, end, collected)
      case Node(ls) => UpTo(RangeBytes(ls, |ls|, Max(0, start - position), Shift(end, position)), start, end, collected)
      case _ => []
  }

  /** Every link met while bytes are still wanted has a key, and is skipped, a blob, or a node of
      which the same holds. */
  ghost predicate Readable(links: seq<Link>, start: nat, end: Option<int>)
    decreases links, 1
  {
    forall i :: 0 <= i < |links| ==> ReadableAt(links, i, start, end)
  }

  ghost predicate ReadableAt(links: seq<Link>, i: nat, start: nat, end: Option<int>)
    requires i < |links|
    decreases links, 0
  {
    Wanting(|RangeBytes(links, i, start, end)|, start, end) ==>
      ReadableLink(links[i], start, end, PositionAfter(links, i, start))
  }

  ghost predicate ReadableLink(l: Link, start: nat, end: Option<int>, position: int)
    decreases l
  {
    && l.hasKey
    && (Skipped(l, start, position) || l.target.Blob?
        || (l.target.Node? && Readable(l.target.links, Max(0, start - position), Shift(end, position))))
  }

  /** Once enough is collected, the rest of the links does not matter. */
  lemma {:induction false} StaysEnough(links: seq<Link>, i: nat, j: nat, start: nat, end: Option<int>)
    requires i <= j <= |links| && !Wanting(|RangeBytes(links, i, start, end)|, start, end)
    ensures RangeBytes(links, j, start, end) == RangeBytes(links, i, start, end)
    decreases j
  {
    if i < j {
      StaysEnough(links, i, j - 1, start, end);
    }
  }

  /** Never more than was asked for, whatever the tree declares. */
  lemma {:induction false} RangeIsBounded(links: seq<Link>, i: nat, start: nat, end: int)
    requires i <= |links|
    ensures |RangeBytes(links, i, start, Some(end))| <= Max(0, end - start)
    decreases i
  {
    if i > 0 { RangeIsBounded(links, i - 1, start, end); }
  }

  ghost function PartOf(link: Link, start: nat, end: Option<int>, position: int): Bytes {
    Cut(ContentOf(link), Max(0, start - position), Shift(end, position))
  }

  /** Until enough is collected, positions are true; and what is collected is the slice so far. */
  ghost predicate SoFar(links: seq<Link>, i: nat, start: nat, end: Option<int>)
    requires i <= |links|
  {
    && RangeBytes(links, i, start, end) == Cut(Content(links[..i]), start, end)
    && (Wanting(|RangeBytes(links, i, start, end)|, start, end) ==>
          PositionAfter(links, i, start) == |Content(links[..i])|)
  }

  ghost predicate ReadableTo(links: seq<Link>, i: nat, start: nat, end: Option<int>)
    requires i <= |links|
  {
    forall j :: 0 <= j < i ==> ReadableAt(links, j, start, end)
  }

  /** What link i holds is taken as it is, while bytes are wanted. */
  ghost predicate TrueAt(links: seq<Link>, i: nat, start: nat, end: Option<int>)
    requires i < |links|
  {
    var had := Content(links[..i]);
    Wanting(|Cut(had, start, end)|, start, end) ==>
      && RangePart(links[i], start, end, |had|, |Cut(had, start, end)|) == PartOf(links[i], start, end, |had|)
      && Advance(links[i], start, |had|) == |ContentOf(links[i])|
      && ReadableLink(links[i], start, end, |had|)
  }

  lemma RangeOn(links: seq<Link>, i: nat, n: nat, start: nat, end: Option<int>)
    requires n == i + 1 <= |links| && SoFar(links, i, start, end) && TrueAt(links, i, start, end)
    ensures SoFar(links, n, start, end) && ReadableAt(links, i, start, end)
  {
    var had := Content(links[..i]);
    ContentTake(links, i);
    CutAppend(had, ContentOf(links[i]), start, end);
    if !Wanting(|Cut(had, start, end)|, start, end) { CutFull(had, ContentOf(links[i]), start, end.value); }
  }

  lemma ReadableOn(links: seq<Link>, i: nat, n: nat, start: nat, end: Option<int>)
    requires n == i + 1 <= |links| && ReadableTo(links, i, start, end) && ReadableAt(links, i, start, end)
    ensures ReadableTo(links, n, start, end)
  {
  }

  /** On a sound tree of any depth, everything can be read, and the range is the slice of the
      assembled content. */
  lemma {:induction false} SoundRange(links: seq<Link>, i: nat, start: nat, end: Option<int>)
    requires Sound(links) && i <= |links|
    ensures SoFar(links, i, start, end) && ReadableTo(links, i, start, end)
    decreases links, 1, i
  {
    if i == 0 {
      assert links[..0] == [];
    } else {
      SoundRange(links, i - 1, start, end);
      SoundAt(links, i - 1, start, end);
      RangeOn(links, i - 1, i, start, end);
      ReadableOn(links, i - 1, i, start, end);
    }
  }

  lemma {:induction false} SoundAt(links: seq<Link>, i: nat, start: nat, end: Option<int>)
    requires Sound(links) && i < |links|
    ensures TrueAt(links, i, start, end)
    decreases links, 0
  {
    var had := Content(links[..i]);
    assert SoundLink(links[i]);
    if Wanting(|Cut(had, start, end)|, start, end) {
      if end.Some? {
        CutAppend(had, ContentOf(links[i]), start, end);
        CutLength(had + ContentOf(links[i]), start, end.value);
      }
      SoundPart(links[i], start, end, |had|, |Cut(had, start, end)|);
    }
  }

  lemma {:induction false} SoundPart(link: Link, start: nat, end: Option<int>, position: nat, collected: nat)
    requires SoundLink(link) && Wanting(collected, start, end)
    requires end.Some? ==> collected + |PartOf(link, start, end, position)| <= end.value - start
    ensures RangePart(link, start, end, position, collected) == PartOf(link, start, end, position)
    ensures Advance(link, start, position) == |ContentOf(link)| && ReadableLink(link, start, end, position)
    decreases link
  {
    if link.target.Node? {
      var ls := link.target.links;
      SoundRange(ls, |ls|, Max(0, start - position), Shift(end, position));
      assert ls[..|ls|] == ls;
    }
  }

  /** readEncryptedRangeFromNode: it succeeds exactly when the links that are met can be read. On a
      sound tree of any depth they can, and it gives the requested slice of the assembled content. */
  method ReadRange(links: seq<Link>, start: nat, end: Option<int>) returns (r: Result<Bytes>)
    ensures r == if Readable(links, start, end) then Ok(RangeBytes(links, |links|, start, end)) else Err
    ensures Sound(links) ==> r == Ok(Cut(Content(links), start, end))
    decreases links, 0
  {
    var parts: seq<Bytes> := [];
    var position, bytesCollected := 0, 0;
    var i := 0;
    assert links[..0] == [] && links[..|links|] == links;
    if Sound(links) { SoundRange(links, |links|, start, end); }
    InRangeStart(links, start, end);
    while i < |links|
      invariant 0 <= i <= |links| && bytesCollected == |Flatten(parts)|
      invariant InRange(links, i, start, end, position, Flatten(parts))
    {
      if end.Some? && bytesCollected >= end.value - start {
        EnoughCollected(links, i, start, end, position, Flatten(parts));
        break;
      }
      var part, next := RangeOfLink(links[i], start, end, position, bytesCollected);
      if part.Err? {
        NotReadable(links, i, start, end, position, Flatten(parts));
        return Err;
      }
      InRangeMore(links, i, start, end, position, Flatten(parts));
      FlattenSnoc(parts, part.value);
      position := next;
      parts := parts + [part.value];
      bytesCollected := bytesCollected + |part.value|;
      i := i + 1;
    }
    if i == |links| { InRangeAll(links, start, end, position, Flatten(parts)); }
    var result := Concat(parts);
    r := Ok(result);
  }

  /** The state of the loop after i links. */
  ghost predicate InRange(links: seq<Link>, i: nat, start: nat, end: Option<int>, position: int, collected: Bytes) {
    && i <= |links| && ReadableTo(links, i, start, end)
    && collected == RangeBytes(links, i, start, end) && position == PositionAfter(links, i, start)
  }

  lemma InRangeMore(links: seq<Link>, i: nat, start: nat, end: Option<int>, position: int, collected: Bytes)
    requires InRange(links, i, start, end, position, collected) && i < |links| && Wanting(|collected|, start, end)
    requires ReadableLink(links[i], start, end, position)
    ensures InRange(links, i + 1, start, end, position + Advance(links[i], start, position),
                    collected + RangePart(links[i], start, end, position, |collected|))
  {
  }

  lemma InRangeStart(links: seq<Link>, start: nat, end: Option<int>)
    ensures InRange(links, 0, start, end, 0, [])
  {
    assert links[..0] == [];
  }

  lemma NotReadable(links: seq<Link>, i: nat, start: nat, end: Option<int>, position: int, collected: Bytes)
    requires InRange(links, i, start, end, position, collected) && i < |links| && Wanting(|collected|, start, end)
    requires !ReadableLink(links[i], start, end, position)
    ensures !Readable(links, start, end)
  {
    assert !ReadableAt(links, i, start, end);
  }

  lemma InRangeAll(links: seq<Link>, start: nat, end: Option<int>, position: int, collected: Bytes)
    requires InRange(links, |links|, start, end, position, collected)
    ensures Readable(links, start, end) && collected == RangeBytes(links, |links|, start, end)
  {
    assert links[..|links|] == links;
  }

  lemma EnoughCollected(links: seq<Link>, i: nat, start: nat, end: Option<int>, position: int, collected: Bytes)
    requires InRange(links, i, start, end, position, collected) && !Wanting(|collected|, start, end)
    ensures Readable(links, start, end) && collected == RangeBytes(links, |links|, start, end)
  {
    forall j | i <= j <= |links| ensures RangeBytes(links, j, start, end) == collected {
      StaysEnough(links, i, j, start, end);
    }
    forall j | 0 <= j < |links| ensures ReadableAt(links, j, start, end) {
      if j >= i { assert RangeBytes(links, j, start, end) == collected; }
    }
    assert links[..|links|] == links;
  }

  /** One turn of that loop, at byte `position` of the node with `collected` bytes in hand. */
  method RangeOfLink(link: Link, start: nat, end: Option<int>, position: int, collected: nat)
    returns (part: Result<Bytes>, position': int)
    requires Wanting(collected, start, end)
    ensures part ==
            if ReadableLink(link, start, end, position) then Ok(RangePart(link, start, end, position, collected))
            else Err
    ensures part.Ok? ==> position' == position + Advance(link, start, position)
    decreases link
  {
    position' := position;
    if !link.hasKey { return Err, position; }
    if link.size > 0 && position + link.size <= start {
      return Ok([]), position + link.size;
    }
    match link.target {
      case Missing => return Err, position;
      case Broken => return Err, position;
      case Node(childLinks) =>
        var childStart := Max(0, start - position);
        var child := ReadRange(childLinks, childStart, Shift(end, position));
        if child.Err? { return Err, position; }
        var take := if end.Some? then Min(|child.value|, end.value - start - collected) else |child.value|;
        UpToSlice(child.value, 0, |child.value|, start, end, collected);
        assert child.value[0..|child.value|] == child.value && child.value[..take] == child.value[0..0 + take];
        part := Ok(child.value[..take]);
        position' := position + link.size;
      case Blob(decrypted) =>
        position' := position + |decrypted|;
        if position' <= start { return Ok([]), position'; }
        var sliceStart := Max(0, start - position);
        var sliceEnd := if end.Some? then Min(|decrypted|, end.value - position) else |decrypted|;
        if sliceStart < sliceEnd {
          var take :=
            if end.Some? then Min(sliceEnd - sliceStart, end.value - start - collected) else sliceEnd - sliceStart;
          UpToSlice(decrypted, sliceStart, sliceEnd, start, end, collected);
          part := Ok(decrypted[sliceStart..sliceStart + take]);
        } else {
          part := Ok([]);
        }
    }
  }

  /** readFileEncryptedRange */
  method ReadFileRange(root: Root, start: nat, end: Option<nat>) returns (r: Result<Bytes>)
    ensures root.NodeRoot? ==> (r.Ok? <==> Readable(root.links, start, end))
    ensures r.Ok? && end.Some? ==> |r.value| <= Max(0, end.value - start)
    ensures SoundRoot(root) ==> r == Ok(Cut(RootContent(root), start, end))
  {
    match root
    case NodeRoot(links) =>
      r := ReadRange(links, start, end);
      if end.Some? { RangeIsBounded(links, |links|, start, end.value); }
    case BlobRoot(data) =>
      if start >= |data| { return Ok([]); }
      var actualEnd := if end.Some? then Min(end.value, |data|) else |data|;
      r := Ok(if start < actualEnd then data[start..actualEnd] else []);
  }

  // ---------------------------------------------------------------- streaming from an offset

  /** An entry of the prefetch queue: a link and the byte position it is taken to start at. */
  datatype Prefetch = Prefetch(link: Link, position: int)

  lemma {:induction false} DeclaredAppend(a: seq<Link>, b: seq<Link>)
    ensures DeclaredSize(a + b) == DeclaredSize(a) + DeclaredSize(b)
  {
    if a == [] {
      assert a + b == b;
    } else {
      assert (a + b)[1..] == a[1..] + b;
      DeclaredAppend(a[1..], b);
    }
  }

  lemma NextPosition(links: seq<Link>, i: nat)
    requires i < |links|
    ensures DeclaredSize(links[..i + 1]) == DeclaredSize(links[..i]) + links[i].size
  {
    assert links[..i + 1] == links[..i] + [links[i]];
    DeclaredAppend(links[..i], [links[i]]);
    assert [links[i]][1..] == [];
  }

  /** A link declares that it has bytes and ends at or before the offset. */
  ghost predicate EndsBefore(links: seq<Link>, j: nat, offset: nat)
    requires j < |links|
  {
    links[j].size > 0 && DeclaredSize(links[..j + 1]) <= offset
  }

  /** Link i is skipped without being fetched: it and all links before it end before the offset. */
  ghost predicate LeftOut(links: seq<Link>, i: nat, offset: nat)
    requires i < |links|
  {
    forall j :: 0 <= j <= i ==> EndsBefore(links, j, offset)
  }

  /** Every link that is not skipped has a key, and is a blob or a node of which the same holds. */
  ghost predicate Streamable(links: seq<Link>, offset: nat)
    decreases links, 1
  {
    forall i :: 0 <= i < |links| ==> StreamableAt(links, i, offset)
  }

  ghost predicate StreamableAt(links: seq<Link>, i: nat, offset: nat)
    requires i < |links|
    decreases links, 0
  {
    !LeftOut(links, i, offset) ==> StreamableLink(links[i], offset, DeclaredSize(links[..i]))
  }

  ghost predicate StreamableLink(l: Link, offset: nat, position: int)
    decreases l
  {
    l.hasKey && (l.target.Blob? || (l.target.Node? && Streamable(l.target.links, Max(0, offset - position))))
  }

  /** What the first i links give from the offset on, be the sizes true or false. */
  ghost function StreamBytes(links: seq<Link>, i: nat, offset: nat): Bytes
    requires i <= |links|
    decreases links, i
  {
    if i == 0 then []
    else
      StreamBytes(links, i - 1, offset) +
        if LeftOut(links, i - 1, offset) then [] else StreamPart(links[i - 1], offset, DeclaredSize(links[..i - 1]))
  }

  ghost function StreamPart(l: Link, offset: nat, position: int): Bytes
    decreases l
  {
    match l.target
    case Blob(data) => Cut(data, Max(0, offset - position), None)
    case Node(ls) => StreamBytes(ls, |ls|, Max(0, offset - position))
    case _ => []
  }

  ghost predicate StreamableTo(links: seq<Link>, i: nat, offset: nat)
    requires i <= |links|
  {
    forall j :: 0 <= j < i ==> StreamableAt(links, j, offset)
  }

  /** The loop has gone through the first i links. */
  ghost predicate Streamed(links: seq<Link>, i: nat, offset: nat, sofar: Bytes) {
    i <= |links| && StreamableTo(links, i, offset) && sofar == StreamBytes(links, i, offset)
  }

  /** On a sound tree everything can be streamed, and the stream is the content from the offset on. */
  lemma {:induction false} SoundStream(links: seq<Link>, i: nat, offset: nat)
    requires Sound(links) && i <= |links|
    ensures Streamed(links, i, offset, Cut(Content(links[..i]), offset, None))
    ensures DeclaredSize(links[..i]) == |Content(links[..i])|
    decreases links, i
  {
    if i == 0 {
      assert links[..0] == [];
    } else {
      SoundStream(links, i - 1, offset);
      assert SoundLink(links[i - 1]);
      SoundYield(links[i - 1], offset, |Content(links[..i - 1])|);
      StreamsOn(links, i - 1, offset);
    }
  }

  lemma StreamsOn(links: seq<Link>, i: nat, offset: nat)
    requires i < |links| && Streamed(links, i, offset, Cut(Content(links[..i]), offset, None))
    requires links[i].size == |ContentOf(links[i])| && DeclaredSize(links[..i]) == |Content(links[..i])|
    requires StreamableLink(links[i], offset, DeclaredSize(links[..i]))
    requires StreamPart(links[i], offset, DeclaredSize(links[..i])) ==
             Cut(ContentOf(links[i]), Max(0, offset - DeclaredSize(links[..i])), None)
    ensures Streamed(links, i + 1, offset, Cut(Content(links[..i + 1]), offset, None))
    ensures DeclaredSize(links[..i + 1]) == |Content(links[..i + 1])|
  {
    NextPosition(links, i);
    ContentTake(links, i);
    CutAppend(Content(links[..i]), ContentOf(links[i]), offset, None);
    if LeftOut(links, i, offset) { assert EndsBefore(links, i, offset); }
  }

  lemma {:induction false} SoundYield(link: Link, offset: nat, position: nat)
    requires SoundLink(link)
    ensures StreamableLink(link, offset, position)
    ensures StreamPart(link, offset, position) == Cut(ContentOf(link), Max(0, offset - position), None)
    decreases link
  {
    if link.target.Node? {
      var ls := link.target.links;
      SoundStream(ls, |ls|, Max(0, offset - position));
      assert ls[..|ls|] == ls;
    }
  }

  /** The links entirely before the offset are skipped without being fetched. */
  method SkipLinks(links: seq<Link>, offset: nat) returns (startIdx: nat, position: int)
    ensures startIdx <= |links| && position == DeclaredSize(links[..startIdx])
    ensures forall i :: 0 <= i < |links| ==> (LeftOut(links, i, offset) <==> i < startIdx)
  {
    startIdx, position := 0, 0;
    assert links[..0] == [];
    while startIdx < |links| && links[startIdx].size > 0 && position + links[startIdx].size <= offset
      invariant startIdx <= |links| && position == DeclaredSize(links[..startIdx])
      invariant forall j :: 0 <= j < startIdx ==> EndsBefore(links, j, offset)
    {
      NextPosition(links, startIdx);
      position := position + links[startIdx].size;
      startIdx := startIdx + 1;
    }
    if startIdx < |links| {
      NextPosition(links, startIdx);
      assert !EndsBefore(links, startIdx, offset);
    }
  }

  lemma {:induction false} NothingBefore(links: seq<Link>, n: nat, offset: nat)
    requires n <= |links| && forall i :: 0 <= i < n ==> LeftOut(links, i, offset)
    ensures Streamed(links, n, offset, [])
  {
    if n > 0 {
      NothingBefore(links, n - 1, offset);
    } else {
      assert links[..0] == [];
    }
  }

  /** The queue holds the links from index `from` on, each with the position it is taken to start at. */
  ghost predicate Queued(queue: seq<Prefetch>, links: seq<Link>, from: nat) {
    && from + |queue| <= |links|
    && forall j :: 0 <= j < |queue| ==> queue[j] == Prefetch(links[from + j], DeclaredSize(links[..from + j]))
  }

  /** The prefetch state before link i: the queue covers the next `prefetch` links. */
  ghost predicate Prefetched(links: seq<Link>, startIdx: nat, i: nat, prefetch: nat, queue: seq<Prefetch>,
                             nextIdx: nat, position: int)
  {
    var n := |links|;
    && startIdx <= i <= n
    && |queue| == Min(n, prefetch + i) - i
    && startIdx + nextIdx == Max(prefetch + startIdx, Min(prefetch + i, n))
    && Queued(queue, links, i)
    && position == DeclaredSize(links[..Min(n, prefetch + i)])
  }

  method StartPrefetch(links: seq<Link>, startIdx: nat, position: int, prefetch: nat)
    returns (queue: seq<Prefetch>, prefetchPosition: int)
    requires startIdx <= |links| && position == DeclaredSize(links[..startIdx])
    ensures Prefetched(links, startIdx, startIdx, prefetch, queue, prefetch, prefetchPosition)
  {
    queue, prefetchPosition := [], position;
    for i := 0 to Min(prefetch, |links| - startIdx)
      invariant |queue| == i && Queued(queue, links, startIdx)
      invariant prefetchPosition == DeclaredSize(links[..startIdx + i])
    {
      NextPosition(links, startIdx + i);
      queue := queue + [Prefetch(links[startIdx + i], prefetchPosition)];
      prefetchPosition := prefetchPosition + links[startIdx + i].size;
    }
  }

  /** prefetchQueue.shift(), then the start of the next fetch. */
  method ShiftPrefetch(links: seq<Link>, startIdx: nat, ghost i: nat, ghost prefetch: nat,
                       queue: seq<Prefetch>, nextIdx: nat, prefetchPosition: int)
    returns (entry: Prefetch, queue': seq<Prefetch>, nextIdx': nat, prefetchPosition': int)
    requires i < |links| && queue != []
    requires Prefetched(links, startIdx, i, prefetch, queue, nextIdx, prefetchPosition)
    ensures Prefetched(links, startIdx, i + 1, prefetch, queue', nextIdx', prefetchPosition')
    ensures entry == Prefetch(links[i], DeclaredSize(links[..i]))
  {
    entry, queue' := queue[0], queue[1..];
    nextIdx', prefetchPosition' := nextIdx, prefetchPosition;
    if nextIdx < |links| - startIdx {
      var nextLink := links[startIdx + nextIdx];
      NextPosition(links, startIdx + nextIdx);
      queue' := queue' + [Prefetch(nextLink, prefetchPosition)];
      prefetchPosition' := prefetchPosition + nextLink.size;
      nextIdx' := nextIdx + 1;
    }
  }

  /** What comes before the loop over the links. */
  method StartStream(links: seq<Link>, offset: nat, prefetch: nat)
    returns (startIdx: nat, queue: seq<Prefetch>, prefetchPosition: int)
    ensures startIdx <= |links| && Streamed(links, startIdx, offset, [])
    ensures forall i :: startIdx <= i < |links| ==> !LeftOut(links, i, offset)
    ensures Prefetched(links, startIdx, startIdx, prefetch, queue, prefetch, prefetchPosition)
  {
    var position;
    startIdx, position := SkipLinks(links, offset);
    NothingBefore(links, startIdx, offset);
    queue, prefetchPosition := StartPrefetch(links, startIdx, position, prefetch);
  }

  /** streamEncryptedChunksWithOffset: with a prefetch of at least one it ends well exactly when the
      links that are not skipped can be streamed. From a sound tree, the chunks yielded join to its
      content from the offset on. A prefetch of zero throws at the first link to process. */
  method Stream(links: seq<Link>, offset: nat, prefetch: nat) returns (out: seq<Bytes>, ok: bool)
    ensures prefetch >= 1 ==> (ok <==> Streamable(links, offset))
    ensures ok && prefetch >= 1 ==> Flatten(out) == StreamBytes(links, |links|, offset)
    ensures Sound(links) && prefetch >= 1 ==> ok && Flatten(out) == Cut(Content(links), offset, None)
    ensures prefetch == 0 ==> out == []
    decreases links, 1
  {
    out, ok := [], true;
    if Sound(links) { SoundIsStreamed(links, offset); }
    var startIdx, queue, prefetchPosition := StartStream(links, offset, prefetch);
    var nextPrefetchIdx := prefetch;
    for i := startIdx to |links|
      invariant ok && (prefetch == 0 ==> i == startIdx && out == [])
      invariant Prefetched(links, startIdx, i, prefetch, queue, nextPrefetchIdx, prefetchPosition)
      invariant Streamed(links, i, offset, Flatten(out))
    {
      out, ok, queue, nextPrefetchIdx, prefetchPosition :=
        StreamNext(links, startIdx, i, offset, prefetch, queue, nextPrefetchIdx, prefetchPosition, out);
      if !ok {
        if prefetch >= 1 { NotStreamable(links, i, offset); }
        return;
      }
    }
    AllStreamed(links, offset, Flatten(out));
  }

  lemma AllStreamed(links: seq<Link>, offset: nat, sofar: Bytes)
    requires Streamed(links, |links|, offset, sofar)
    ensures Streamable(links, offset) && sofar == StreamBytes(links, |links|, offset)
  {
  }

  lemma NotStreamable(links: seq<Link>, i: nat, offset: nat)
    requires i < |links| && !StreamableAt(links, i, offset)
    ensures !Streamable(links, offset)
  {
  }

  lemma SoundIsStreamed(links: seq<Link>, offset: nat)
    requires Sound(links)
    ensures Streamable(links, offset) && StreamBytes(links, |links|, offset) == Cut(Content(links), offset, None)
  {
    SoundStream(links, |links|, offset);
    assert links[..|links|] == links;
  }

  /** The fetched link that is next, and one fetch more. */
  method StreamNext(links: seq<Link>, startIdx: nat, i: nat, offset: nat, prefetch: nat, queue: seq<Prefetch>,
                    nextIdx: nat, nextPosition: int, sofar: seq<Bytes>)
    returns (out: seq<Bytes>, ok: bool, queue': seq<Prefetch>, nextIdx': nat, nextPosition': int)
    requires i < |links| && Prefetched(links, startIdx, i, prefetch, queue, nextIdx, nextPosition)
    requires Streamed(links, i, offset, Flatten(sofar)) && !LeftOut(links, i, offset)
    ensures ok <==> prefetch >= 1 && StreamableLink(links[i], offset, DeclaredSize(links[..i]))
    ensures ok ==> Streamed(links, i + 1, offset, Flatten(out))
    ensures ok ==> Prefetched(links, startIdx, i + 1, prefetch, queue', nextIdx', nextPosition')
    ensures prefetch == 0 ==> out == sofar
    decreases links, 0
  {
    out, ok, queue', nextIdx', nextPosition' := sofar, false, queue, nextIdx, nextPosition;
    var link := links[i];
    if !link.hasKey || queue == [] || link.target.Missing? { return; }
    var entry;
    entry, queue', nextIdx', nextPosition' := ShiftPrefetch(links, startIdx, i, prefetch, queue, nextIdx, nextPosition);
    var yielded;
    yielded, ok := StreamLink(link, entry.position, offset, prefetch);
    FlattenAppend(sofar, yielded);
    out := sofar + yielded;
  }

  /** What one fetched link contributes to the stream. */
  method StreamLink(link: Link, position: int, offset: nat, prefetch: nat) returns (out: seq<Bytes>, ok: bool)
    requires prefetch >= 1 && link.hasKey
    ensures ok <==> StreamableLink(link, offset, position)
    ensures ok ==> Flatten(out) == StreamPart(link, offset, position)
    decreases link
  {
    match link.target {
      case Missing => return [], false;
      case Broken => return [], false;
      case Node(childLinks) =>
        out, ok := Stream(childLinks, Max(0, offset - position), prefetch);
      case Blob(decrypted) =>
        var chunkStart, chunkEnd := position, position + |decrypted|;
        out, ok := [], true;
        if chunkEnd <= offset { return; }
        if chunkStart >= offset {
          out := [decrypted];
        } else {
          out := [decrypted[offset - chunkStart..]];
        }
        assert out[1..] == [] && Flatten(out) == out[0] + [];
    }
  }

  /** What a stream that ends well yields. */
  ghost function StreamedRoot(root: Root, offset: nat): Bytes {
    match root
    case NodeRoot(links) => StreamBytes(links, |links|, offset)
    case BlobRoot(data) => Cut(data, offset, None)
  }

  /** readFileEncryptedStream */
  method ReadFileStream(root: Root, offset: nat, prefetch: nat) returns (out: seq<Bytes>, ok: bool)
    requires prefetch >= 1
    ensures ok <==> (root.NodeRoot? ==> Streamable(root.links, offset))
    ensures ok ==> Flatten(out) == StreamedRoot(root, offset)
    ensures SoundRoot(root) ==> ok && Flatten(out) == Cut(RootContent(root), offset, None)
  {
    match root
    case NodeRoot(links) =>
      out, ok := Stream(links, offset, prefetch);
    case BlobRoot(data) =>
      if offset >= |data| { return [], true; }
      out, ok := [if offset > 0 then data[offset..] else data], true;
      assert out[1..] == [] && Flatten(out) == out[0] + [];
  }
}
