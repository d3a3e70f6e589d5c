/** Ordinary adds after which an event is in none of its author's lists. */
module EventHidden {
  import opened Keys
  import opened Directory
  import opened BTree
  import opened BTreeRouting
  import opened BTreeBuild
  import opened Hex
  import opened EventKeys
  import opened EventStore
  import BTreeBlind
  import BTreeRange

  lemma InsertsAreDistinct(l: Listing, events: seq<Event>)
    requires Addable(events) && forall i, j :: 0 <= i < j < |events| ==> events[i].id != events[j].id
    ensures BTreeBlind.DistinctKeys(Inserts(Placements(l, events)))
  {
    var ops := Inserts(Placements(l, events));
    forall i | 0 <= i < |ops| ensures ops[i].0 != [] { KeyIsNotEmpty(Placements(l, events), i); }
    forall i, j | 0 <= i < j < |ops| ensures ops[i].0 != ops[j].0 { TwoDiffer(l, events, i, j); }
  }

  lemma KeyIsNotEmpty(placed: seq<Placed>, i: nat)
    requires i < |placed|
    ensures Inserts(placed)[i].0 != []
  {
    InsertAt(placed, i);
    var x := placed[i];
    assert InsertOf(x).0 == x.0 + (ReverseTimestamp(x.1.createdAt) + ([COLON] + x.1.id));
  }

  lemma TwoDiffer(l: Listing, events: seq<Event>, i: nat, j: nat)
    requires i < |events| && j < |events| && events[i].id != events[j].id
    requires ValidEvent(events[i]) && events[i].createdAt <= MAX_SAFE
    requires ValidEvent(events[j]) && events[j].createdAt <= MAX_SAFE
    ensures (var ops := Inserts(Placements(l, events)); ops[i].0 != ops[j].0)
  {
    var placed := Placements(l, events);
    InsertAt(placed, i);
    InsertAt(placed, j);
    KeysDiffer(placed[i], placed[j]);
  }

  lemma KeysDiffer(x: Placed, y: Placed)
    requires ValidEvent(x.1) && ValidEvent(y.1) && x.1.createdAt <= MAX_SAFE && y.1.createdAt <= MAX_SAFE
    requires x.1.id != y.1.id
    ensures InsertOf(x).0 != InsertOf(y).0
  {
    if Key(x) == Key(y) { IndexKeyIdentifies(x.0, x.1, y.0, y.1); }
  }

  /** A scan that finds nothing, although the list has an event, does not see it. */
  lemma EmptyScanIsBlind(t: Node<Event>, placed: seq<Placed>, p: Str, e: Event)
    requires Routed(t, None, None) && IndexOf(placed, Entries(t)) && KeyPrefix(p) && p != []
    requires (p, e) in placed && BTreeRange.Prefix(t, p) == []
    ensures !SeesList(t, p)
  {
    var en := Entry(Key((p, e)), e);
    assert en in Entries(t);
    KeyStarts(p, e);
    if SeesList(t, p) { ScanIsWhole(t, p); }
  }

  lemma PlacementsSnoc(l: Listing, events: seq<Event>, e: Event)
    ensures Placements(l, events + [e]) == Placements(l, events) + [(Scope(l, e.pubkey, e.kind), e)]
  {
    assert (events + [e])[..|events|] == events;
  }

  lemma InsertsSnoc(placed: seq<Placed>, x: Placed)
    ensures Inserts(placed + [x]) == Inserts(placed) + [(Key(x), x.1)]
  {
    assert (placed + [x])[..|placed|] == placed;
  }

  ghost predicate LaterAuthors(events: seq<Event>, e: Event) {
    && (forall i, j :: 0 <= i < j < |events| ==> events[i].id != events[j].id)
    && (forall i :: 0 <= i < |events| ==> Less(e.pubkey, events[i].pubkey))
  }

  /** The by-author index has the event, but the scan for its author's list finds nothing. */
  ghost predicate IsHidden(events: seq<Event>, e: Event, maxKeys: nat) {
    && maxKeys >= 1 && events != [] && ValidEvent(e)
    && var t, p := Build(Inserts(Placements(ByAuthor, events)), maxKeys).value, Scope(ByAuthor, e.pubkey, 0);
       Get(t, IndexKey(ByAuthor, e)) == Some(e) && BTreeRange.Prefix(t, p) == [] && !SeesList(t, p)
  }

  /** The events of later authors fill the index until its first split; then an event of an
      earlier author is stored, but no list of that author finds it. */
  lemma EarlierAuthorIsHidden(events: seq<Event>, e: Event, maxKeys: nat)
    requires maxKeys >= 2 && |events| == maxKeys + 1 && Addable(events + [e]) && LaterAuthors(events, e)
    ensures IsHidden(events + [e], e, maxKeys)
  {
    AddableParts(events, e);
    InsertsAreDistinct(ByAuthor, events);
    HiddenFromScan(events, e, maxKeys);
    NotEmptyButUnseen(events + [e], maxKeys, e);
  }

  lemma AddableParts(events: seq<Event>, e: Event)
    requires Addable(events + [e])
    ensures Addable(events) && ValidEvent(e) && e in events + [e]
  {
    var all := events + [e];
    assert forall i :: 0 <= i < |events| ==> events[i] == all[i];
    assert all[|events|] == e;
  }

  lemma NotEmptyButUnseen(all: seq<Event>, maxKeys: nat, e: Event)
    requires maxKeys >= 2 && Addable(all) && e in all
    ensures (var t, p := Build(Inserts(Placements(ByAuthor, all)), maxKeys).value, Scope(ByAuthor, e.pubkey, 0);
             BTreeRange.Prefix(t, p) == [] ==> !SeesList(t, p))
  {
    var placed, p := Placements(ByAuthor, all), Scope(ByAuthor, e.pubkey, 0);
    PlacementsIndexable(ByAuthor, all);
    IndexEntries(placed, maxKeys);
    var i :| 0 <= i < |all| && all[i] == e;
    assert placed[i] == (p, e);
    var t := Build(Inserts(placed), maxKeys).value;
    if BTreeRange.Prefix(t, p) == [] { EmptyScanIsBlind(t, placed, p, e); }
  }

  lemma HiddenFromScan(events: seq<Event>, e: Event, maxKeys: nat)
    requires maxKeys >= 2 && |events| == maxKeys + 1 && ValidEvent(e)
    requires forall i :: 0 <= i < |events| ==> ValidEvent(events[i]) && Less(e.pubkey, events[i].pubkey)
    requires BTreeBlind.DistinctKeys(Inserts(Placements(ByAuthor, events)))
    ensures (var t := Build(Inserts(Placements(ByAuthor, events + [e])), maxKeys).value;
             var p := Scope(ByAuthor, e.pubkey, 0);
             Get(t, IndexKey(ByAuthor, e)) == Some(e) && BTreeRange.Prefix(t, p) == [])
  {
    var placed, p := Placements(ByAuthor, events), Scope(ByAuthor, e.pubkey, 0);
    var ops, key := Inserts(placed), Key((p, e));
    forall i | 0 <= i < |ops| ensures !Less(ops[i].0, IncrementPrefix(p)) {
      LaterAuthorLater(e.pubkey, events[i]);
      InsertAt(placed, i);
      assert ops[i].0 == Key(placed[i]) == IndexKey(ByAuthor, events[i]);
    }
    KeyStarts(p, e);
    PrefixInterval(p, key);
    BTreeBlind.HiddenBelowFirstName(ops, key, e, maxKeys, Some(p), IncrementPrefix(p));
    PlacementsSnoc(ByAuthor, events, e);
    InsertsSnoc(placed, (p, e));
  }

  lemma LaterAuthorLater(pubkey: Str, e: Event)
    requires ValidEvent(e) && |pubkey| == 64 && Less(pubkey, e.pubkey)
    ensures !Less(IndexKey(ByAuthor, e), IncrementPrefix(Scope(ByAuthor, pubkey, 0)))
  {
    LessIsStrictTotalOrder();
    var end := IncrementPrefix(Scope(ByAuthor, pubkey, 0));
    assert end == pubkey + [COLON + 1];
    assert IndexKey(ByAuthor, e) == e.pubkey + ([COLON] + TimeKey(e));
    LessSplits(e.pubkey, pubkey, [COLON] + TimeKey(e), [COLON + 1]);
  }

  /** A note by the author whose key is this number. */
  function Note(n: nat, author: nat): Event {
    Event(Padded(n, 64), Padded(author, 64), n, 1, [], [])
  }

  function Notes(n: nat, author: nat): (r: seq<Event>)
    ensures |r| == n && forall i :: 0 <= i < n ==> r[i] == Note(i, author)
  {
    if n == 0 then [] else Notes(n - 1, author) + [Note(n - 1, author)]
  }

  lemma {:induction false} Pow16AtLeast(width: nat)
    requires width >= 4
    ensures Pow16(width) >= 0x1_0000
  {
    if width > 4 { Pow16AtLeast(width - 1); } else { assert Pow16(4) == 0x1_0000; }
  }

  lemma SmallNumbers(a: nat, b: nat, width: nat)
    requires a < 0x1_0000 && b < 0x1_0000 && width == 64
    ensures Padded(a, width) == Padded(b, width) <==> a == b
    ensures Less(Padded(a, width), Padded(b, width)) <==> a < b
  {
    Pow16AtLeast(width);
    PaddedOrder(a, b, width);
  }

  lemma NoteIsValid(n: nat, author: nat)
    requires n < 0x1_0000
    ensures ValidEvent(Note(n, author)) && Note(n, author).createdAt <= MAX_SAFE
  {
  }

  lemma NotesDiffer(m: nat, n: nat, author: nat, author': nat)
    requires m < 0x1_0000 && n < 0x1_0000
    ensures Note(m, author).id == Note(n, author').id <==> m == n
  {
    SmallNumbers(m, n, 64);
  }

  /** As many events by one author as the order, and a newer one by an earlier author. */
  ghost predicate NewestByEarlier(notes: seq<Event>, e: Event, order: nat) {
    && |notes| == order && Addable(notes + [e]) && LaterAuthors(notes, e)
    && (forall i, j :: 0 <= i < j < |notes| ==> notes[i].pubkey == notes[j].pubkey)
    && (forall i :: 0 <= i < |notes| ==> notes[i].createdAt < e.createdAt)
  }

  lemma NotesByTwo(order: nat, author: nat, earlier: nat) returns (notes: seq<Event>, e: Event)
    requires order < 0x1_0000 && earlier < author < 0x1_0000
    ensures NewestByEarlier(notes, e, order)
  {
    notes, e := Notes(order, author), Note(order, earlier);
    var all := notes + [e];
    forall i | 0 <= i < |all|
      ensures all[i] == Note(i, if i < order then author else earlier) && ValidEvent(all[i])
      ensures all[i].createdAt <= MAX_SAFE
    {
      NoteIsValid(i, if i < order then author else earlier);
    }
    forall i, j | 0 <= i < |all| && 0 <= j < |all| ensures all[i].id == all[j].id <==> i == j {
      NotesDiffer(i, j, if i < order then author else earlier, if j < order then author else earlier);
    }
    forall i, j | 0 <= i < j < order ensures notes[i].id != notes[j].id { NotesDiffer(i, j, author, author); }
    SmallNumbers(earlier, author, 64);
  }

  /** Such events exist for the default order of 32 and any other, which allows one entry less in
      a node: after as many notes by one author as the order, the newest note of all, by an
      earlier author, is not listed. */
  lemma NewestIsHidden(maxKeys: nat) returns (notes: seq<Event>, e: Event)
    requires 2 <= maxKeys < 0xFFFF
    ensures NewestByEarlier(notes, e, maxKeys + 1) && IsHidden(notes + [e], e, maxKeys)
  {
    notes, e := NotesByTwo(maxKeys + 1, 1, 0);
    EarlierAuthorIsHidden(notes, e, maxKeys);
  }
}
