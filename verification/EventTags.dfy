/** The by-tag index and its lists. */
module EventTags {
  import opened Keys
  import opened Directory
  import opened Bytes
  import opened BTree
  import opened BTreeBuild
  import opened EventKeys
  import opened EventStore

  /** toLowerCase, whatever it does to letters. */
  type Lower = Str -> Str

  function NormalizedValue(lower: Lower, name: Str, value: Str): Str {
    if name == T then lower(value) else value
  }

  /** tagPrefix, with the name lower-cased and, for t tags, the value too. */
  function TagPrefix(lower: Lower, name: Str, value: Str): Str {
    var n := lower(name);
    n + ([COLON] + (NormalizedValue(lower, n, value) + [COLON]))
  }

  /** A tag without a name or a value has no key. */
  predicate HasKey(tag: Tag) {
    Part(tag, 0) != [] && Part(tag, 1) != []
  }

  function PrefixOf(lower: Lower, tag: Tag): Str {
    TagPrefix(lower, Part(tag, 0), Part(tag, 1))
  }

  /** tagKeys, each before its time key. */
  function TagPlacements(lower: Lower, e: Event, tags: seq<Tag>): (r: seq<Placed>)
    ensures forall i :: 0 <= i < |r| ==> r[i].1 == e && KeyPrefix(r[i].0)
  {
    if tags == [] then []
    else
      var before, last := TagPlacements(lower, e, tags[..|tags| - 1]), tags[|tags| - 1];
      if HasKey(last) then before + [(PrefixOf(lower, last), e)] else before
  }

  /** What a run of adds places in the by-tag index. */
  function AllPlacements(lower: Lower, events: seq<Event>): (r: seq<Placed>)
    ensures forall i :: 0 <= i < |r| ==> r[i].1 in events && KeyPrefix(r[i].0)
  {
    if events == [] then []
    else
      var last := events[|events| - 1];
      AllPlacements(lower, events[..|events| - 1]) + TagPlacements(lower, last, last.tags)
  }

  /** p is this tag's key: it has a name and a value, and p is the name in lower case, a colon, the
      value (in lower case for a t tag), and a colon. */
  ghost predicate IsKeyOf(lower: Lower, tag: Tag, p: Str) {
    && |tag| >= 2 && tag[0] != [] && tag[1] != []
    && p == lower(tag[0]) + [0x3A] + (if lower(tag[0]) == [0x74] then lower(tag[1]) else tag[1]) + [0x3A]
  }

  lemma KeyExactly(lower: Lower, tag: Tag, p: Str)
    ensures HasKey(tag) && PrefixOf(lower, tag) == p <==> IsKeyOf(lower, tag, p)
  {
    if HasKey(tag) {
      var n := lower(tag[0]);
      var v := NormalizedValue(lower, n, tag[1]);
      assert n + [COLON] + v + [COLON] == n + ([COLON] + (v + [COLON]));
    }
  }

  ghost predicate Tagged(lower: Lower, tags: seq<Tag>, p: Str) {
    exists i :: 0 <= i < |tags| && IsKeyOf(lower, tags[i], p)
  }

  lemma {:induction false} TagPlaced(lower: Lower, e: Event, tags: seq<Tag>, p: Str)
    ensures (p, e) in TagPlacements(lower, e, tags) <==> Tagged(lower, tags, p)
  {
    if tags != [] {
      var init, last := tags[..|tags| - 1], tags[|tags| - 1];
      TagPlaced(lower, e, init, p);
      TaggedOneMore(lower, tags, p);
    }
  }

  lemma TaggedOneMore(lower: Lower, tags: seq<Tag>, p: Str)
    requires tags != []
    ensures (var last := tags[|tags| - 1];
             Tagged(lower, tags, p) <==>
                 Tagged(lower, tags[..|tags| - 1], p) || (HasKey(last) && PrefixOf(lower, last) == p))
  {
    var init := tags[..|tags| - 1];
    KeyExactly(lower, tags[|tags| - 1], p);
    if Tagged(lower, init, p) {
      var i :| 0 <= i < |init| && IsKeyOf(lower, init[i], p);
      assert tags[i] == init[i];
    }
    if Tagged(lower, tags, p) {
      var i :| 0 <= i < |tags| && IsKeyOf(lower, tags[i], p);
      assert i < |init| ==> init[i] == tags[i];
    }
  }

  /** The index places an event under a tag's prefix exactly when it was added and has the tag. */
  lemma {:induction false} PlacedExactly(lower: Lower, events: seq<Event>, p: Str, e: Event)
    ensures (p, e) in AllPlacements(lower, events) <==> e in events && Tagged(lower, e.tags, p)
  {
    if events != [] {
      var init, last := events[..|events| - 1], events[|events| - 1];
      PlacedExactly(lower, init, p, e);
      TagPlaced(lower, last, last.tags, p);
      assert events == init + [last];
      var here := TagPlacements(lower, last, last.tags);
      assert (p, e) in here ==> e == last;
    }
  }

  lemma TagsIndexable(lower: Lower, events: seq<Event>)
    requires Addable(events)
    ensures Indexable(AllPlacements(lower, events))
  {
    var placed := AllPlacements(lower, events);
    forall i | 0 <= i < |placed| ensures ValidEvent(placed[i].1) && placed[i].1.createdAt <= MAX_SAFE {
      var k :| 0 <= k < |events| && events[k] == placed[i].1;
    }
    forall i, j | 0 <= i < |placed| && 0 <= j < |placed| && placed[i].1.id == placed[j].1.id
      ensures placed[i].1 == placed[j].1
    {
      var k :| 0 <= k < |events| && events[k] == placed[i].1;
      var l :| 0 <= l < |events| && events[l] == placed[j].1;
    }
  }

  // ---------------------------------------------------------------- tags without colons

  ghost predicate Plain(lower: Lower, name: Str, value: Str) {
    NoColon(lower(name)) && NoColon(NormalizedValue(lower, lower(name), value))
  }

  /** No tag that has a key has a colon in its name or value, as they are in keys. */
  ghost predicate AllPlain(lower: Lower, events: seq<Event>) {
    forall e, i :: e in events && 0 <= i < |e.tags| && HasKey(e.tags[i]) ==>
          Plain(lower, Part(e.tags[i], 0), Part(e.tags[i], 1))
  }

  /** Then a key starts with a tag's prefix only if it is a key of that tag. */
  lemma PlainPrefixes(lower: Lower, name: Str, value: Str, name': Str, value': Str, rest: Str)
    requires Plain(lower, name, value) && Plain(lower, name', value')
    ensures StartsWith(TagPrefix(lower, name', value') + rest, TagPrefix(lower, name, value)) ==>
              TagPrefix(lower, name', value') == TagPrefix(lower, name, value)
  {
    var n, n' := lower(name), lower(name');
    var v, v' := NormalizedValue(lower, n, value), NormalizedValue(lower, n', value');
    var p, key := TagPrefix(lower, name, value), TagPrefix(lower, name', value') + rest;
    var s' := v' + ([COLON] + rest);
    assert key == n' + ([COLON] + s');
    if StartsWith(key, p) {
      assert p == (n + [COLON]) + (v + [COLON]);
      StartsWithPart(key, n + [COLON], v + [COLON]);
      FirstPart(n, [], n', s');
      StartsAfter(n, [COLON] + s', n, [COLON] + (v + [COLON]));
      StartsAfter([COLON], s', [COLON], v + [COLON]);
      FirstPart(v, [], v', rest);
    }
  }

  lemma StartsWithPart(s: Str, a: Str, b: Str)
    requires StartsWith(s, a + b)
    ensures StartsWith(s, a)
  {
    assert s[..|a + b|][..|a|] == a;
  }

  lemma TagsAreSeparate(lower: Lower, events: seq<Event>, name: Str, value: Str)
    requires Addable(events) && AllPlain(lower, events) && Plain(lower, name, value)
    ensures Separate(AllPlacements(lower, events), TagPrefix(lower, name, value))
  {
    TagsIndexable(lower, events);
    var placed, p := AllPlacements(lower, events), TagPrefix(lower, name, value);
    forall i | 0 <= i < |placed| && StartsWith(Key(placed[i]), p) ensures placed[i].0 == p {
      var (q, e) := placed[i];
      PlacedExactly(lower, events, q, e);
      var k :| 0 <= k < |e.tags| && IsKeyOf(lower, e.tags[k], q);
      KeyExactly(lower, e.tags[k], q);
      PlainPrefixes(lower, name, value, Part(e.tags[k], 0), Part(e.tags[k], 1), TimeKey(e));
    }
  }

  /** A tag of this name, in any case, and this value; the value too in any case for a t tag. */
  ghost predicate IsTag(lower: Lower, tag: Tag, name: Str, value: Str) {
    && |tag| >= 2 && tag[0] != [] && tag[1] != []
    && lower(tag[0]) == lower(name)
    && (if lower(name) == [0x74] then lower(tag[1]) == lower(value) else tag[1] == value)
  }

  ghost predicate HasTag(lower: Lower, tags: seq<Tag>, name: Str, value: Str) {
    exists i :: 0 <= i < |tags| && IsTag(lower, tags[i], name, value)
  }

  /** Without colons, the key says which tag it is. */
  lemma KeyOfTag(lower: Lower, tag: Tag, name: Str, value: Str)
    requires Plain(lower, name, value) && (HasKey(tag) ==> Plain(lower, tag[0], tag[1]))
    ensures IsKeyOf(lower, tag, TagPrefix(lower, name, value)) <==> IsTag(lower, tag, name, value)
  {
    KeyExactly(lower, tag, TagPrefix(lower, name, value));
    if HasKey(tag) {
      var n, n' := lower(name), lower(tag[0]);
      var v, v' := NormalizedValue(lower, n, value), NormalizedValue(lower, n', tag[1]);
      FirstPart(n, v + [COLON], n', v' + [COLON]);
      FirstPart(v, [], v', []);
      assert v + [COLON] == v + ([COLON] + []) && v' + [COLON] == v' + ([COLON] + []);
    }
  }

  lemma TaggedIsHasTag(lower: Lower, events: seq<Event>, e: Event, name: Str, value: Str)
    requires AllPlain(lower, events) && Plain(lower, name, value) && e in events
    ensures Tagged(lower, e.tags, TagPrefix(lower, name, value)) <==> HasTag(lower, e.tags, name, value)
  {
    var p := TagPrefix(lower, name, value);
    forall i | 0 <= i < |e.tags| ensures IsKeyOf(lower, e.tags[i], p) <==> IsTag(lower, e.tags[i], name, value) {
      KeyOfTag(lower, e.tags[i], name, value);
    }
  }

  /** The added events with the tag, of those in the window, newest first. */
  ghost predicate TagList(all: seq<Event>, lower: Lower, events: seq<Event>, name: Str, value: Str, o: ListOptions) {
    NewestFirst(all) && forall e :: e in all <==> e in events && HasTag(lower, e.tags, name, value) && InWindow(e, o)
  }

  ghost predicate ExactTag(listed: seq<Event>, lower: Lower, events: seq<Event>, name: Str, value: Str,
                           o: ListOptions) {
    exists all :: TagList(all, lower, events, name, value, o) && listed == Capped(all, o)
  }

  lemma SameTagList(listed: seq<Event>, lower: Lower, events: seq<Event>, name: Str, value: Str, o: ListOptions)
    requires AllPlain(lower, events) && Plain(lower, name, value)
    ensures (Exact(listed, AllPlacements(lower, events), TagPrefix(lower, name, value), o) <==>
             ExactTag(listed, lower, events, name, value, o))
  {
    var placed, p := AllPlacements(lower, events), TagPrefix(lower, name, value);
    forall all ensures ListOf(all, placed, p, o) <==> TagList(all, lower, events, name, value, o) {
      forall e
        ensures (p, e) in placed <==> e in events && HasTag(lower, e.tags, name, value)
      {
        PlacedExactly(lower, events, p, e);
        if e in events { TaggedIsHasTag(lower, events, e, name, value); }
      }
    }
  }

  /** After any run of adds whose tags have no colons, a tag's list is exact for all options if and
      only if its scan sees the whole list. */
  lemma TagListIsExactly(lower: Lower, events: seq<Event>, maxKeys: nat, name: Str, value: Str)
    requires maxKeys >= 2 && Addable(events) && AllPlain(lower, events) && Plain(lower, name, value)
    requires AllPlacements(lower, events) != []
    ensures (var t, p := Build(Inserts(AllPlacements(lower, events)), maxKeys).value, TagPrefix(lower, name, value);
             (forall o :: ExactTag(Listed(t, p, o), lower, events, name, value, o)) <==> SeesList(t, p))
  {
    var placed, p := AllPlacements(lower, events), TagPrefix(lower, name, value);
    TagsIndexable(lower, events);
    TagsAreSeparate(lower, events, name, value);
    var t := Build(Inserts(placed), maxKeys).value;
    ListIsExactly(placed, maxKeys, p);
    forall o
      ensures Exact(Listed(t, p, o), placed, p, o) <==> ExactTag(Listed(t, p, o), lower, events, name, value, o)
    {
      SameTagList(Listed(t, p, o), lower, events, name, value, o);
    }
  }

  /** listByTag. With no index yet there are no events, whatever the name. */
  method ListByTag(lower: Lower, byTag: Option<Node<Event>>, tagName: Str, tagValue: Str, o: ListOptions,
                   ghost events: seq<Event>, ghost maxKeys: nat)
    returns (r: Result<seq<Event>>)
    requires maxKeys >= 2 && Addable(events) && AllPlain(lower, events) && Plain(lower, tagName, tagValue)
    requires byTag == Build(Inserts(AllPlacements(lower, events)), maxKeys)
    ensures r.Err? <==> byTag.Some? && tagName == []
    ensures r.Ok? && byTag.Some? ==> r.value == Listed(byTag.value, TagPrefix(lower, tagName, tagValue), o)
    ensures r.Ok? && (byTag.Some? ==> SeesList(byTag.value, TagPrefix(lower, tagName, tagValue))) ==>
              ExactTag(r.value, lower, events, tagName, tagValue, o)
  {
    ghost var p := TagPrefix(lower, tagName, tagValue);
    if byTag.None? {
      NoneTagged(lower, events, tagName, tagValue, maxKeys);
      assert TagList([], lower, events, tagName, tagValue, o);
      return Ok([]);
    }
    if tagName == [] { return Err; }
    TagsIndexable(lower, events);
    TagsAreSeparate(lower, events, tagName, tagValue);
    r := ListUnder(byTag.value, TagPrefix(lower, tagName, tagValue), o, AllPlacements(lower, events), maxKeys);
    SameTagList(r.value, lower, events, tagName, tagValue, o);
  }

  lemma NoneTagged(lower: Lower, events: seq<Event>, name: Str, value: Str, maxKeys: nat)
    requires maxKeys >= 2 && AllPlain(lower, events) && Plain(lower, name, value)
    requires AllPlacements(lower, events) == []
    ensures forall e :: !(e in events && HasTag(lower, e.tags, name, value))
  {
    forall e ensures !(e in events && HasTag(lower, e.tags, name, value)) {
      PlacedExactly(lower, events, TagPrefix(lower, name, value), e);
      if e in events { TaggedIsHasTag(lower, events, e, name, value); }
    }
  }

  // ---------------------------------------------------------------- a value with a colon

  /** With a colon in a value, a list can hold another tag's event: the key of the value `a:b`
      starts with the prefix of the value `a`. */
  lemma ColonMixesTags(lower: Lower, name: Str, a: Str, b: Str, rest: Str)
    requires lower(name) != T
    ensures StartsWith(TagPrefix(lower, name, a + ([COLON] + b)) + rest, TagPrefix(lower, name, a))
  {
    var n := lower(name);
    assert TagPrefix(lower, name, a + ([COLON] + b)) + rest == TagPrefix(lower, name, a) + (b + ([COLON] + rest));
  }
}
