/** The event store's replaceable slots. */
module EventSlots {
  import opened Keys
  import opened Directory
  import opened BTree
  import opened BTreeBuild
  import opened EventKeys

  // ---------------------------------------------------------------- replaceable slots

  /** compareEvents(a, b) > 0 */
  predicate Beats(a: Event, b: Event) {
    a.createdAt > b.createdAt || (a.createdAt == b.createdAt && Less(b.id, a.id))
  }

  /** upsertWinner */
  function Upsert(root: Option<Node<Event>>, key: Str, e: Event, maxKeys: nat): Option<Node<Event>>
    requires maxKeys >= 1
  {
    var existing := if root.Some? then Get(root.value, key) else None;
    if existing.None? || Beats(e, existing.value) then Some(Insert(root, key, e, maxKeys)) else root
  }

  /** A slot index after a run of adds, each with its slot's key. */
  function Slots(adds: seq<(Str, Event)>, maxKeys: nat): Option<Node<Event>>
    requires maxKeys >= 1
  {
    if adds == [] then None
    else Upsert(Slots(adds[..|adds| - 1], maxKeys), adds[|adds| - 1].0, adds[|adds| - 1].1, maxKeys)
  }

  function GetSlot(root: Option<Node<Event>>, key: Str): Option<Event> {
    if root.None? then None else Get(root.value, key)
  }

  /** e is older than r, or as old and has not the larger id. */
  ghost predicate Older(e: Event, r: Event) {
    e.createdAt < r.createdAt || (e.createdAt == r.createdAt && !Less(r.id, e.id))
  }

  /** r was added to the slot, and is the newest of all added to it; of those of one time, the one
      with the largest id. */
  ghost predicate Winner(adds: seq<(Str, Event)>, key: Str, r: Event) {
    && (key, r) in adds
    && forall i :: 0 <= i < |adds| && adds[i].0 == key ==>
         adds[i].1.createdAt < r.createdAt || (adds[i].1.createdAt == r.createdAt && !Less(r.id, adds[i].1.id))
  }

  ghost predicate SlotsHold(adds: seq<(Str, Event)>, m: map<Str, Event>) {
    forall key :: if key in m then Winner(adds, key, m[key]) else forall i :: 0 <= i < |adds| ==> adds[i].0 != key
  }

  lemma WinnerStays(adds: seq<(Str, Event)>, a: (Str, Event), m: map<Str, Event>)
    requires SlotsHold(adds, m)
    ensures SlotsHold(adds + [a], WithWinner(m, a))
  {
    LessIsStrictTotalOrder();
    var m' := WithWinner(m, a);
    var all := adds + [a];
    forall key ensures if key in m' then Winner(all, key, m'[key]) else forall i :: 0 <= i < |all| ==> all[i].0 != key {
      if key in m {
        assert Winner(adds, key, m[key]);
        assert (key, m[key]) in all;
      }
      assert all[|adds|] == a;
    }
  }

  /** The slot index is a routed tree for the map of winners, whatever the order of arrival. */
  lemma {:induction false} SlotsStand(adds: seq<(Str, Event)>, maxKeys: nat) returns (h: nat, m: map<Str, Event>)
    requires maxKeys >= 2 && forall i :: 0 <= i < |adds| ==> adds[i].0 != []
    ensures SlotsHold(adds, m)
    ensures SlotTree(Slots(adds, maxKeys), h, m, maxKeys)
  {
    if adds == [] { return 0, map[]; }
    var init, a := adds[..|adds| - 1], adds[|adds| - 1];
    h, m := SlotsStand(init, maxKeys);
    WinnerStays(init, a, m);
    assert init + [a] == adds;
    h := UpsertStands(Slots(init, maxKeys), h, m, a.0, a.1, maxKeys);
    m := WithWinner(m, a);
  }

  ghost function WithWinner(m: map<Str, Event>, a: (Str, Event)): map<Str, Event> {
    if a.0 !in m || Beats(a.1, m[a.0]) then m[a.0 := a.1] else m
  }

  ghost predicate SlotTree(t: Option<Node<Event>>, h: nat, m: map<Str, Event>, maxKeys: nat) {
    if t.None? then m == map[] else Stands(t.value, h, m, maxKeys)
  }

  lemma UpsertStands(t: Option<Node<Event>>, h: nat, m: map<Str, Event>, key: Str, e: Event, maxKeys: nat)
    returns (h': nat)
    requires maxKeys >= 2 && key != [] && SlotTree(t, h, m, maxKeys)
    ensures SlotTree(Upsert(t, key, e, maxKeys), h', WithWinner(m, (key, e)), maxKeys)
  {
    h' := h;
    assert GetSlot(t, key) == MapGet(m, key);
    if key !in m || Beats(e, m[key]) {
      if t.None? {
        FirstInsertStands(key, e, maxKeys);
        h' := 0;
      } else {
        h' := InsertStands(t.value, h, m, key, e, maxKeys);
      }
    }
  }

  /** getReplaceable and getParameterizedReplaceable, after any adds in any order: the added
      event of the slot that is the newest, and of those of one time has the largest id. */
  lemma SlotHoldsTheWinner(adds: seq<(Str, Event)>, key: Str, maxKeys: nat)
    requires maxKeys >= 2 && forall i :: 0 <= i < |adds| ==> adds[i].0 != []
    ensures (var r := GetSlot(Slots(adds, maxKeys), key);
             if r.Some? then Winner(adds, key, r.value) else forall i :: 0 <= i < |adds| ==> adds[i].0 != key)
  {
    var h, m := SlotsStand(adds, maxKeys);
    assert GetSlot(Slots(adds, maxKeys), key) == MapGet(m, key);
  }

  /** So two runs that add the same events leave the same winner, if one id is one event. */
  lemma OrderDoesNotMatter(adds: seq<(Str, Event)>, adds': seq<(Str, Event)>, key: Str, maxKeys: nat)
    requires maxKeys >= 2 && forall i :: 0 <= i < |adds| ==> adds[i].0 != []
    requires multiset(adds) == multiset(adds')
    requires forall i, j :: 0 <= i < |adds| && 0 <= j < |adds| && adds[i].1.id == adds[j].1.id ==>
               adds[i].1 == adds[j].1
    ensures GetSlot(Slots(adds, maxKeys), key) == GetSlot(Slots(adds', maxKeys), key)
  {
    LessIsStrictTotalOrder();
    forall a
      ensures a in adds <==> a in adds'
    {
      assert a in adds <==> a in multiset(adds); assert a in adds' <==> a in multiset(adds');
    }
    forall i | 0 <= i < |adds'| ensures adds'[i].0 != [] { assert adds'[i] in adds; }
    SlotHoldsTheWinner(adds, key, maxKeys);
    SlotHoldsTheWinner(adds', key, maxKeys);
    var r, r' := GetSlot(Slots(adds, maxKeys), key), GetSlot(Slots(adds', maxKeys), key);
    if r.Some? {
      assert (key, r.value) in adds';
      var j :| 0 <= j < |adds'| && adds'[j] == (key, r.value);
    }
    if r'.Some? {
      assert (key, r'.value) in adds;
      var j :| 0 <= j < |adds| && adds[j] == (key, r'.value);
    }
  }

  // ---------------------------------------------------------------- the slots after any adds

  predicate IsReplaceableKind(kind: nat) {
    kind == 0 || kind == 3 || 10_000 <= kind < 20_000
  }

  predicate IsParameterizedReplaceableKind(kind: nat) {
    30_000 <= kind < 40_000
  }

  /** The slot that add() offers an event to, in either index; an event without a d tag has none
      among the parameterized ones. */
  function SlotOf(parameterized: bool, e: Event): Option<Str> {
    if parameterized then
      if IsParameterizedReplaceableKind(e.kind) && DTag(e.tags) != [] then
        Some(ParameterizedKey(e.pubkey, e.kind, DTag(e.tags)))
      else None
    else
      if IsReplaceableKind(e.kind) then Some(ReplaceableKey(e.pubkey, e.kind)) else None
  }

  function SlotAdds(parameterized: bool, events: seq<Event>): (r: seq<(Str, Event)>)
    ensures forall i :: 0 <= i < |r| ==> r[i].0 != []
  {
    if events == [] then []
    else
      var last := events[|events| - 1];
      var before := SlotAdds(parameterized, events[..|events| - 1]);
      if SlotOf(parameterized, last).Some? then before + [(SlotOf(parameterized, last).value, last)] else before
  }

  lemma {:induction false} OfferedExactly(parameterized: bool, events: seq<Event>, key: Str, e: Event)
    ensures (key, e) in SlotAdds(parameterized, events) <==> e in events && SlotOf(parameterized, e) == Some(key)
  {
    if events != [] {
      var init, last := events[..|events| - 1], events[|events| - 1];
      OfferedExactly(parameterized, init, key, e);
      assert events == init + [last];
    }
  }

  /** It is the newest event offered to a slot, with the largest id of that time. */
  ghost predicate Best(r: Option<Event>, parameterized: bool, events: seq<Event>, key: Str) {
    if r.Some? then
      && r.value in events
      && SlotOf(parameterized, r.value) == Some(key)
      && forall e :: e in events && SlotOf(parameterized, e) == Some(key) ==> Older(e, r.value)
    else
      forall e :: e in events ==> SlotOf(parameterized, e) != Some(key)
  }

  lemma SlotIsBest(parameterized: bool, events: seq<Event>, key: Str, maxKeys: nat)
    requires maxKeys >= 2
    ensures Best(GetSlot(Slots(SlotAdds(parameterized, events), maxKeys), key), parameterized, events, key)
  {
    var adds := SlotAdds(parameterized, events);
    var r := GetSlot(Slots(adds, maxKeys), key);
    SlotHoldsTheWinner(adds, key, maxKeys);
    if r.Some? { OfferedExactly(parameterized, events, key, r.value); }
    forall e | e in events && SlotOf(parameterized, e) == Some(key) ensures r.Some? && Older(e, r.value) {
      OfferedExactly(parameterized, events, key, e);
      var i :| 0 <= i < |adds| && adds[i] == (key, e);
    }
  }

  ghost predicate Authored(events: seq<Event>) {
    forall i :: 0 <= i < |events| ==> ValidEvent(events[i])
  }

  /** getReplaceable after any adds in any order: of the author's events of the kind the newest, and
      of those of one time the one with the largest id; null unless there is one, of the kinds that
      NIP-01 calls replaceable. */
  lemma ReplaceableIsBest(events: seq<Event>, pubkey: Str, kind: nat, maxKeys: nat)
    requires maxKeys >= 2 && Authored(events) && Hex64(pubkey)
    ensures (var r := GetSlot(Slots(SlotAdds(false, events), maxKeys), ReplaceableKey(pubkey, kind));
             if r.Some? then
               && r.value in events && r.value.pubkey == pubkey && r.value.kind == kind
               && (kind == 0 || kind == 3 || 10_000 <= kind <= 19_999)
               && forall e :: e in events && e.pubkey == pubkey && e.kind == kind ==>
                     e.createdAt < r.value.createdAt || (e.createdAt == r.value.createdAt && !Less(r.value.id, e.id))
             else
               || !(kind == 0 || kind == 3 || 10_000 <= kind <= 19_999)
               || forall e :: e in events ==> e.pubkey != pubkey || e.kind != kind)
  {
    SlotIsBest(false, events, ReplaceableKey(pubkey, kind), maxKeys);
    forall e | e in events
      ensures SlotOf(false, e) == Some(ReplaceableKey(pubkey, kind)) <==>
              e.pubkey == pubkey && e.kind == kind && IsReplaceableKind(kind)
    {
      KeysIdentifySlots(e.pubkey, e.kind, [], pubkey, kind, []);
    }
  }

  /** getParameterizedReplaceable: the same with the d tag, for the kinds that NIP-01 calls addressable. */
  lemma ParameterizedIsBest(events: seq<Event>, pubkey: Str, kind: nat, dTag: Str, maxKeys: nat)
    requires maxKeys >= 2 && Authored(events) && Hex64(pubkey) && dTag != []
    ensures (var r := GetSlot(Slots(SlotAdds(true, events), maxKeys), ParameterizedKey(pubkey, kind, dTag));
             if r.Some? then
               && r.value in events && r.value.pubkey == pubkey && r.value.kind == kind
               && HasDTag(r.value.tags, dTag) && 30_000 <= kind <= 39_999
               && forall e :: e in events && e.pubkey == pubkey && e.kind == kind && HasDTag(e.tags, dTag) ==>
                     e.createdAt < r.value.createdAt || (e.createdAt == r.value.createdAt && !Less(r.value.id, e.id))
             else
               || !(30_000 <= kind <= 39_999)
               || forall e :: e in events ==> e.pubkey != pubkey || e.kind != kind || !HasDTag(e.tags, dTag))
  {
    SlotIsBest(true, events, ParameterizedKey(pubkey, kind, dTag), maxKeys);
    forall e | e in events
      ensures SlotOf(true, e) == Some(ParameterizedKey(pubkey, kind, dTag)) <==>
              e.pubkey == pubkey && e.kind == kind && HasDTag(e.tags, dTag) && IsParameterizedReplaceableKind(kind)
    {
      KeysIdentifySlots(e.pubkey, e.kind, DTag(e.tags), pubkey, kind, dTag);
      DTagExactly(e.tags, dTag);
    }
  }
}
