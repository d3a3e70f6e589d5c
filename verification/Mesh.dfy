/** Flooding signaling frames over a mesh of peers. */
module Mesh {
  import opened Directory

  // ---------------------------------------------------------------- hops to live

  const MESH_MAX_HTL := 6

  /** maxHtl of the mesh policy. */
  const POLICY_MAX_HTL := 4

  /** A peer's fixed samples: whether they fall below the policy's probabilities. */
  datatype HtlConfig = HtlConfig(decrementAtMax: bool, decrementAtMin: bool)

  /** decrementHTLWithPolicy, in its only mode. */
  function Decrement(htl: int, maxHtl: nat, config: HtlConfig): (r: int)
    requires maxHtl > 0
    ensures 0 <= r && (htl >= 0 ==> r <= htl) && r <= maxHtl
  {
    if htl <= 0 then 0
    else
      var bounded := if htl <= maxHtl then htl else maxHtl;
      if bounded == maxHtl then (if config.decrementAtMax then bounded - 1 else bounded)
      else if bounded == 1 then (if config.decrementAtMin then 0 else 1)
      else bounded - 1
  }

  /** A hop costs one of the hops left within the maximum, or none; none exactly at the maximum and
      at 1, by the peer's samples. */
  lemma SticksExactly(htl: int, maxHtl: nat, config: HtlConfig)
    requires htl > 0 && maxHtl > 0
    ensures (var within, left := if htl < maxHtl then htl else maxHtl, Decrement(htl, maxHtl, config);
             && (left == within || left == within - 1)
             && (left == within <==> if htl >= maxHtl then !config.decrementAtMax
                                     else htl == 1 && !config.decrementAtMin))
  {
  }

  function Relay(htl: int, config: HtlConfig, hops: nat): int {
    if hops == 0 then htl else Decrement(Relay(htl, config, hops - 1), POLICY_MAX_HTL, config)
  }

  /** The hops left after any number of relays over peers that decrement alike: they stay at 4, or
      go down one by one to 0 or to 1. So a peer that spares either end passes a frame on for ever,
      and the hop count alone does not end a flood. */
  lemma {:induction false} HopsExactly(config: HtlConfig, hops: nat)
    ensures (var left := Relay(POLICY_MAX_HTL, config, hops);
             left == if !config.decrementAtMax then 4
                     else if hops < 4 then 4 - hops
                     else if config.decrementAtMin then 0 else 1)
  {
    if hops > 0 { HopsExactly(config, hops - 1); }
  }

  // ---------------------------------------------------------------- one node

  const SEEN_FRAME_CAP := 4096
  const SEEN_FRAME_TTL_MS := 120000
  const SEEN_EVENT_CAP := 8192
  const SEEN_EVENT_TTL_MS := 600000

  datatype Mark = Mark(id: string, at: int)

  /** A seen set: marks in the order they were made, one per id. */
  type Seen = seq<Mark>

  predicate Has(seen: Seen, id: string) {
    exists i :: 0 <= i < |seen| && seen[i].id == id
  }

  /** The marks that are not too old. */
  function Young(seen: Seen, now: int, ttl: int): Seen {
    if seen == [] then []
    else if now - seen[0].at >= ttl then Young(seen[1..], now, ttl)
    else [seen[0]] + Young(seen[1..], now, ttl)
  }

  /** The last `cap` marks. */
  function Newest(seen: Seen, cap: nat): (r: Seen)
    ensures |r| == (if |seen| <= cap then |seen| else cap) && r == seen[|seen| - |r|..]
  {
    if |seen| <= cap then seen else seen[|seen| - cap..]
  }

  function Pruned(seen: Seen, now: int, ttl: int, cap: nat): Seen {
    Newest(Young(seen, now, ttl), cap)
  }

  lemma {:induction false} YoungAppend(a: Seen, m: Mark, now: int, ttl: int)
    ensures Young(a + [m], now, ttl) == Young(a, now, ttl) + if now - m.at >= ttl then [] else [m]
  {
    if a == [] {
      assert a + [m] == [m] && [m][1..] == [];
    } else {
      assert (a + [m])[0] == a[0] && (a + [m])[1..] == a[1..] + [m];
      YoungAppend(a[1..], m, now, ttl);
    }
  }

  /** The marks that are not too old are exactly those made within the time, in their order. */
  lemma {:induction false} YoungExactly(seen: Seen, now: int, ttl: int)
    ensures forall m :: m in Young(seen, now, ttl) <==> m in seen && now - m.at < ttl
  {
    if seen != [] { YoungExactly(seen[1..], now, ttl); }
  }

  /** The seen set of frames after an id was marked. */
  ghost function Marked(seen: Seen, id: string, now: int): Seen {
    AddedTo(Pruned(seen, now, SEEN_FRAME_TTL_MS, SEEN_FRAME_CAP), id, now)
  }

  /** The seen set of events after an id was marked. */
  ghost function EventMarked(seen: Seen, id: string, now: int): Seen {
    AddedTo(Pruned(seen, now, SEEN_EVENT_TTL_MS, SEEN_EVENT_CAP), id, now)
  }

  ghost function AddedTo(pruned: Seen, id: string, now: int): Seen {
    if Has(pruned, id) then pruned else pruned + [Mark(id, now)]
  }

  lemma {:induction false} YoungHas(seen: Seen, now: int, ttl: int, id: string)
    ensures Has(Young(seen, now, ttl), id) ==> Has(seen, id)
  {
    if seen != [] {
      var rest := Young(seen[1..], now, ttl);
      YoungHas(seen[1..], now, ttl, id);
      if Has(seen[1..], id) {
        var i :| 0 <= i < |seen[1..]| && seen[1..][i].id == id;
        assert seen[i + 1].id == id;
      }
      if Has(Young(seen, now, ttl), id) && now - seen[0].at < ttl {
        var i :| 0 <= i < |rest| + 1 && ([seen[0]] + rest)[i].id == id;
        assert i > 0 ==> rest[i - 1].id == id;
      }
    }
  }

  /** The last mark is this id's, made at `since` or later. */
  ghost predicate LastMark(seen: Seen, id: string, since: int) {
    seen != [] && seen[|seen| - 1].id == id && seen[|seen| - 1].at >= since
  }

  /** A young last mark is not pruned. */
  lemma LastSurvives(seen: Seen, id: string, now: int)
    requires LastMark(seen, id, now - SEEN_FRAME_TTL_MS + 1)
    ensures (var pruned := Pruned(seen, now, SEEN_FRAME_TTL_MS, SEEN_FRAME_CAP);
             pruned != [] && pruned[|pruned| - 1] == seen[|seen| - 1] && Has(pruned, id))
  {
    var init, last := seen[..|seen| - 1], seen[|seen| - 1];
    assert seen == init + [last];
    YoungAppend(init, last, now, SEEN_FRAME_TTL_MS);
    var young, pruned := Young(seen, now, SEEN_FRAME_TTL_MS), Pruned(seen, now, SEEN_FRAME_TTL_MS, SEEN_FRAME_CAP);
    assert young[|young| - 1] == last && pruned[|pruned| - 1] == last;
  }

  /** Marking keeps the last mark while it is young, and makes no other id remembered. */
  lemma MarkedLast(seen: Seen, id: string, now: int)
    ensures (var seen' := Marked(seen, id, now);
             && seen' != [] && (!Has(seen, id) ==> seen'[|seen'| - 1] == Mark(id, now))
             && (LastMark(seen, id, now - SEEN_FRAME_TTL_MS + 1) ==> seen'[|seen'| - 1] == seen[|seen| - 1]))
  {
    var pruned, seen' := Pruned(seen, now, SEEN_FRAME_TTL_MS, SEEN_FRAME_CAP), Marked(seen, id, now);
    if LastMark(seen, id, now - SEEN_FRAME_TTL_MS + 1) { LastSurvives(seen, id, now); }
    PrunedHas(seen, now, id);
    if !Has(pruned, id) { assert seen'[|seen'| - 1] == Mark(id, now); }
  }

  lemma PrunedHas(seen: Seen, now: int, id: string)
    ensures Has(Pruned(seen, now, SEEN_FRAME_TTL_MS, SEEN_FRAME_CAP), id) ==> Has(seen, id)
  {
    var young, pruned := Young(seen, now, SEEN_FRAME_TTL_MS), Pruned(seen, now, SEEN_FRAME_TTL_MS, SEEN_FRAME_CAP);
    YoungHas(seen, now, SEEN_FRAME_TTL_MS, id);
    if Has(pruned, id) {
      var i :| 0 <= i < |pruned| && pruned[i].id == id;
      assert pruned[i] in young;
      var j :| 0 <= j < |young| && young[j] == pruned[i];
    }
  }

  /** Nothing is forgotten while there is room and time. */
  lemma {:induction false} KeptWhileYoung(seen: Seen, now: int, ttl: int, cap: nat)
    requires |seen| <= cap && forall i :: 0 <= i < |seen| ==> now - seen[i].at < ttl
    ensures Pruned(seen, now, ttl, cap) == seen
  {
    if seen != [] { KeptWhileYoung(seen[1..], now, ttl, cap); }
  }

  method Prune(seen: Seen, now: int, ttl: int, cap: nat) returns (pruned: Seen)
    ensures pruned == Pruned(seen, now, ttl, cap)
  {
    pruned := [];
    for i := 0 to |seen|
      invariant pruned == Young(seen[..i], now, ttl)
    {
      assert seen[..i + 1] == seen[..i] + [seen[i]];
      YoungAppend(seen[..i], seen[i], now, ttl);
      if now - seen[i].at < ttl { pruned := pruned + [seen[i]]; }
    }
    assert seen[..|seen|] == seen;
    ghost var young := pruned;
    while |pruned| > cap
      invariant |pruned| <= |young| && pruned == young[|young| - |pruned|..]
      invariant |young| >= cap ==> |pruned| >= cap
      invariant |young| < cap ==> pruned == young
    {
      pruned := pruned[1..];
    }
  }

  datatype Peer = Peer(id: string, connected: bool, config: HtlConfig, sends: bool)

  datatype Frame = Frame(frameId: string, eventId: string, htl: int, valid: bool, verified: bool)

  datatype Outbound = Outbound(to: string, htl: int)

  /** The peers that get the frame, in order, with the hops left for each. */
  function Forwards(peers: seq<Peer>, htl: int, exclude: Option<string>): seq<Outbound> {
    if peers == [] then []
    else
      var p, rest := peers[|peers| - 1], Forwards(peers[..|peers| - 1], htl, exclude);
      var next := Decrement(htl, POLICY_MAX_HTL, p.config);
      if p.connected && exclude != Some(p.id) && next > 0 && p.sends then rest + [Outbound(p.id, next)] else rest
  }

  lemma {:induction false} ForwardsExactly(peers: seq<Peer>, htl: int, exclude: Option<string>)
    ensures forall o :: o in Forwards(peers, htl, exclude) <==> SomeGets(peers, htl, exclude, o)
    ensures |Forwards(peers, htl, exclude)| <= |peers|
  {
    if peers != [] {
      var init := peers[..|peers| - 1];
      ForwardsExactly(init, htl, exclude);
      forall o ensures o in Forwards(peers, htl, exclude) <==> SomeGets(peers, htl, exclude, o) {
        if SomeGets(init, htl, exclude, o) {
          var i :| 0 <= i < |init| && GetsFrame(init[i], htl, exclude, o);
          assert GetsFrame(peers[i], htl, exclude, o);
        }
        if SomeGets(peers, htl, exclude, o) {
          var i :| 0 <= i < |peers| && GetsFrame(peers[i], htl, exclude, o);
          assert i < |init| ==> GetsFrame(init[i], htl, exclude, o);
        }
      }
    }
  }

  ghost predicate SomeGets(peers: seq<Peer>, htl: int, exclude: Option<string>, o: Outbound) {
    exists i :: 0 <= i < |peers| && GetsFrame(peers[i], htl, exclude, o)
  }

  predicate GetsFrame(p: Peer, htl: int, exclude: Option<string>, o: Outbound) {
    && p.connected && exclude != Some(p.id) && p.sends && o.to == p.id
    && o.htl == Decrement(htl, POLICY_MAX_HTL, p.config) && o.htl > 0
  }

  class Node {
    var seenFrameIds: Seen
    var seenEventIds: Seen
    var peers: seq<Peer>

    constructor (peers: seq<Peer>)
      ensures seenFrameIds == seenEventIds == [] && this.peers == peers
    {
      seenFrameIds, seenEventIds, this.peers := [], [], peers;
    }

    /** True the first time, as long as the id is remembered. */
    method MarkSeenFrameId(id: string, now: int) returns (first: bool)
      modifies this`seenFrameIds
      ensures (var pruned := Pruned(old(seenFrameIds), now, 120_000, 4_096);
               && (first <==> !Has(pruned, id))
               && seenFrameIds == (if first then pruned + [Mark(id, now)] else pruned))
      ensures Has(seenFrameIds, id)
    {
      seenFrameIds := Prune(seenFrameIds, now, SEEN_FRAME_TTL_MS, SEEN_FRAME_CAP);
      if Has(seenFrameIds, id) { return false; }
      seenFrameIds := seenFrameIds + [Mark(id, now)];
      assert seenFrameIds[|seenFrameIds| - 1].id == id;
      first := true;
    }

    method MarkSeenEventId(id: string, now: int) returns (first: bool)
      modifies this`seenEventIds
      ensures (var pruned := Pruned(old(seenEventIds), now, 600_000, 8_192);
               && (first <==> !Has(pruned, id))
               && seenEventIds == (if first then pruned + [Mark(id, now)] else pruned))
      ensures Has(seenEventIds, id)
    {
      seenEventIds := Prune(seenEventIds, now, SEEN_EVENT_TTL_MS, SEEN_EVENT_CAP);
      if Has(seenEventIds, id) { return false; }
      seenEventIds := seenEventIds + [Mark(id, now)];
      assert seenEventIds[|seenEventIds| - 1].id == id;
      first := true;
    }

    method ForwardMeshFrame(htl: int, exclude: Option<string>) returns (out: seq<Outbound>)
      ensures out == Forwards(peers, htl, exclude)
    {
      out := [];
      for i := 0 to |peers|
        invariant out == Forwards(peers[..i], htl, exclude)
      {
        assert peers[..i + 1][..i] == peers[..i];
        var peer := peers[i];
        if !peer.connected || exclude == Some(peer.id) { continue; }
        var nextHtl := Decrement(htl, POLICY_MAX_HTL, peer.config);
        if nextHtl <= 0 { continue; }
        if peer.sends { out := out + [Outbound(peer.id, nextHtl)]; }
      }
      assert peers[..|peers|] == peers;
    }

    /** handleMeshFrame: a frame is passed on only when it is valid and neither its id nor its
        event's is remembered, never back to where it came from; and then both are remembered. */
    method HandleMeshFrame(fromPeerId: string, frame: Frame, now: int) returns (out: seq<Outbound>)
      modifies this`seenFrameIds, this`seenEventIds
      ensures (var isNew := (!Has(Pruned(old(seenFrameIds), now, SEEN_FRAME_TTL_MS, SEEN_FRAME_CAP), frame.frameId) &&
                              !Has(Pruned(old(seenEventIds), now, SEEN_EVENT_TTL_MS, SEEN_EVENT_CAP), frame.eventId));
               out == (if frame.valid && isNew && frame.verified then Forwards(peers, frame.htl, Some(fromPeerId))
                       else []))
      ensures frame.valid ==> seenFrameIds == Marked(old(seenFrameIds), frame.frameId, now)
      ensures !frame.valid ==> unchanged(this)
      ensures seenEventIds == (
          if frame.valid && !Has(Pruned(old(seenFrameIds), now, SEEN_FRAME_TTL_MS, SEEN_FRAME_CAP), frame.frameId) then
            EventMarked(old(seenEventIds), frame.eventId, now)
          else old(seenEventIds))
    {
      if !frame.valid { return []; }
      var first := MarkSeenFrameId(frame.frameId, now);
      if !first { return []; }
      first := MarkSeenEventId(frame.eventId, now);
      if !first { return []; }
      if !frame.verified { return []; }
      out := ForwardMeshFrame(frame.htl, Some(fromPeerId));
    }

    /** The rest of dispatchSignaling, once the event is signed: a frame of its own, with all its
        hops, unless its id or its event's is remembered. */
    method DispatchSignaling(frameId: string, eventId: string, now: int) returns (out: seq<Outbound>)
      modifies this`seenFrameIds, this`seenEventIds
      ensures (var isNew := (!Has(Pruned(old(seenFrameIds), now, SEEN_FRAME_TTL_MS, SEEN_FRAME_CAP), frameId) &&
                              !Has(Pruned(old(seenEventIds), now, SEEN_EVENT_TTL_MS, SEEN_EVENT_CAP), eventId));
               out == if isNew then Forwards(peers, POLICY_MAX_HTL, None) else [])
      ensures seenFrameIds == Marked(old(seenFrameIds), frameId, now)
      ensures seenEventIds == (
          if Has(Pruned(old(seenFrameIds), now, SEEN_FRAME_TTL_MS, SEEN_FRAME_CAP), frameId) then old(seenEventIds)
          else EventMarked(old(seenEventIds), eventId, now))
    {
      var first := MarkSeenFrameId(frameId, now);
      if !first { return []; }
      first := MarkSeenEventId(eventId, now);
      if !first { return []; }
      out := ForwardMeshFrame(POLICY_MAX_HTL, None);
    }

    /** The frame is remembered here exactly when the flood has marked this node. */
    ghost predicate Remembers(s: State, me: Name, frameId: string, now: int)
      reads this
    {
      Has(Pruned(seenFrameIds, now, SEEN_FRAME_TTL_MS, SEEN_FRAME_CAP), frameId) <==> me in s.seen
    }

    /** A node's own handler makes a step of the flood. */
    method ReceiveFrame(fromPeerId: string, frame: Frame, now: int, ghost net: Net, ghost s: State, ghost m: Message)
      returns (out: seq<Outbound>, ghost e: Event, ghost s': State)
      requires m in s.flying && m.to in net.nodes && m.from == fromPeerId && PeersOf(net, m.to, peers)
      requires frame.htl == m.htl && (frame.valid <==> Valid(m.htl)) && Remembers(s, m.to, frame.frameId, now)
      modifies this`seenFrameIds, this`seenEventIds
      ensures Step(net, s, e, s') && e.Deliver? && e.m == m && e.out == Messages(m.to, m.trail, out)
      ensures seenFrameIds == if frame.valid then Marked(old(seenFrameIds), frame.frameId, now) else old(seenFrameIds)
    {
      ghost var accepted :=
        !Has(Pruned(seenEventIds, now, SEEN_EVENT_TTL_MS, SEEN_EVENT_CAP), frame.eventId) && frame.verified;
      out := HandleMeshFrame(fromPeerId, frame, now);
      ForwardsAreCopies(net, m.to, peers, m.htl, m.trail, Some(m.from));
      e := Event.Deliver(m, accepted, Messages(m.to, m.trail, out));
      s' := After(s, m, accepted, e.out);
    }

    /** And so does its own dispatch, when the event is new to it. */
    method StartFlood(frameId: string, eventId: string, now: int, ghost net: Net, ghost s: State, ghost me: Name)
      returns (out: seq<Outbound>, ghost e: Event, ghost s': State)
      requires me in net.nodes && me !in s.seen && PeersOf(net, me, peers) && Remembers(s, me, frameId, now)
      modifies this`seenFrameIds, this`seenEventIds
      ensures Step(net, s, e, s') && e.Start? && e.node == me && e.out == Messages(me, [POLICY_MAX_HTL], out)
      ensures seenFrameIds == Marked(old(seenFrameIds), frameId, now)
    {
      out := DispatchSignaling(frameId, eventId, now);
      ForwardsAreCopies(net, me, peers, POLICY_MAX_HTL, [POLICY_MAX_HTL], None);
      ghost var sends := Messages(me, [POLICY_MAX_HTL], out);
      e := Event.Start(me, sends);
      s' := State(s.seen + {me}, s.flying + multiset(sends), s.sent + sends);
    }
  }

  // ---------------------------------------------------------------- the flood

  type Name = string

  /** The mesh while one frame floods it. */
  datatype Net = Net(nodes: set<Name>, links: set<(Name, Name)>, config: (Name, Name) -> HtlConfig)

  /** `trail` is the history of the frame's hops to live, the last being its own. */
  datatype Message = Message(from: Name, to: Name, htl: int, trail: seq<int>)

  /** Which nodes have seen the frame, the copies under way, and all copies ever sent. */
  datatype State = State(seen: set<Name>, flying: multiset<Message>, sent: seq<Message>)

  /** Start: a node sends a frame of its own. Deliver: one copy arrives, in any order; `accepted`
      is false when its event was seen before or does not verify. */
  datatype Event = Start(node: Name, out: seq<Message>) | Deliver(m: Message, accepted: bool, out: seq<Message>)

  predicate Valid(htl: int) {
    0 < htl <= MESH_MAX_HTL
  }

  /** Copies from n: at most one per link, not back, each with hops left. A peer may be missing:
      it is not connected, or the send failed. */
  ghost predicate Copies(net: Net, n: Name, htl: int, trail: seq<int>, exclude: Option<Name>, out: seq<Message>) {
    && (forall i :: 0 <= i < |out| ==> IsCopy(net, n, htl, trail, exclude, out[i]))
    && (forall i, j :: 0 <= i < j < |out| ==> out[i].to != out[j].to)
  }

  ghost predicate IsCopy(net: Net, n: Name, htl: int, trail: seq<int>, exclude: Option<Name>, m: Message) {
    && m.from == n && (n, m.to) in net.links && exclude != Some(m.to)
    && m.htl == Decrement(htl, POLICY_MAX_HTL, net.config(n, m.to)) && m.htl > 0
    && m.trail == trail + [m.htl]
  }

  ghost predicate Step(net: Net, s: State, e: Event, s': State) {
    match e
    case Start(n, out) =>
      && n in net.nodes && n !in s.seen
      && Copies(net, n, POLICY_MAX_HTL, [POLICY_MAX_HTL], None, out)
      && s' == State(s.seen + {n}, s.flying + multiset(out), s.sent + out)
    case Deliver(m, accepted, out) =>
      && m in s.flying && m.to in net.nodes
      && var left := s.flying - multiset{m};
         if !Valid(m.htl) then s' == State(s.seen, left, s.sent) && out == []
         else if m.to in s.seen || !accepted then s' == State(s.seen + {m.to}, left, s.sent) && out == []
         else
           && Copies(net, m.to, m.htl, m.trail, Some(m.from), out)
           && s' == State(s.seen + {m.to}, left + multiset(out), s.sent + out)
  }

  // ---------------------------------------------------------------- what a node does is a step

  /** A node's peers are the ends of its links, each once. */
  ghost predicate PeersOf(net: Net, n: Name, peers: seq<Peer>) {
    && (forall i :: 0 <= i < |peers| ==> (n, peers[i].id) in net.links && net.config(n, peers[i].id) == peers[i].config)
    && forall i, j :: 0 <= i < j < |peers| ==> peers[i].id != peers[j].id
  }

  /** What a node sends, as copies of the frame under way. */
  function Messages(n: Name, trail: seq<int>, out: seq<Outbound>): (r: seq<Message>)
    ensures |r| == |out| && forall i :: 0 <= i < |r| ==> r[i] == Message(n, out[i].to, out[i].htl, trail + [out[i].htl])
  {
    if out == [] then []
    else
      var last := out[|out| - 1];
      Messages(n, trail, out[..|out| - 1]) + [Message(n, last.to, last.htl, trail + [last.htl])]
  }

  /** Each peer gets at most one. */
  lemma {:induction false} ForwardsOnce(peers: seq<Peer>, htl: int, exclude: Option<string>)
    requires forall i, j :: 0 <= i < j < |peers| ==> peers[i].id != peers[j].id
    ensures (var out := Forwards(peers, htl, exclude); forall i, j :: 0 <= i < j < |out| ==> out[i].to != out[j].to)
  {
    if peers != [] {
      var init, p := peers[..|peers| - 1], peers[|peers| - 1];
      ForwardsOnce(init, htl, exclude);
      ForwardsExactly(init, htl, exclude);
      var before := Forwards(init, htl, exclude);
      forall i | 0 <= i < |before| ensures before[i].to != p.id {
        assert before[i] in before && SomeGets(init, htl, exclude, before[i]);
        var k :| 0 <= k < |init| && GetsFrame(init[k], htl, exclude, before[i]);
        assert peers[k] == init[k];
      }
    }
  }

  lemma ForwardsAreCopies(net: Net, n: Name, peers: seq<Peer>, htl: int, trail: seq<int>, exclude: Option<Name>)
    requires PeersOf(net, n, peers)
    ensures Copies(net, n, htl, trail, exclude, Messages(n, trail, Forwards(peers, htl, exclude)))
    ensures Copies(net, n, htl, trail, exclude, Messages(n, trail, []))
  {
    var out := Forwards(peers, htl, exclude);
    var sends := Messages(n, trail, out);
    ForwardsOnce(peers, htl, exclude);
    ForwardsExactly(peers, htl, exclude);
    forall i | 0 <= i < |sends| ensures IsCopy(net, n, htl, trail, exclude, sends[i]) {
      assert out[i] in out && SomeGets(peers, htl, exclude, out[i]);
      var k :| 0 <= k < |peers| && GetsFrame(peers[k], htl, exclude, out[i]);
    }
  }

  /** The flood after one delivery. */
  ghost function After(s: State, m: Message, accepted: bool, out: seq<Message>): State
    requires m in s.flying
  {
    var left := s.flying - multiset{m};
    if !Valid(m.htl) then State(s.seen, left, s.sent)
    else if m.to in s.seen || !accepted then State(s.seen + {m.to}, left, s.sent)
    else State(s.seen + {m.to}, left + multiset(out), s.sent + out)
  }

  /** states[0] is the quiet mesh, and each event leads from one state to the next. */
  ghost predicate Run(net: Net, states: seq<State>, events: seq<Event>)
    decreases |events|
  {
    var n := |events|;
    && |states| == n + 1
    && if n == 0 then states[0] == State({}, multiset{}, [])
       else Run(net, states[..n], events[..n - 1]) && Step(net, states[n - 1], events[n - 1], states[n])
  }

  ghost predicate NeverRises(trail: seq<int>) {
    forall i, j :: 0 <= i < j < |trail| ==> trail[j] <= trail[i]
  }

  ghost predicate GoodMessage(net: Net, s: State, m: Message) {
    && m.from in s.seen && (m.from, m.to) in net.links && 0 < m.htl <= POLICY_MAX_HTL
    && Falls(m)
  }

  /** The hops to live of the copies along the way never rise. */
  ghost predicate Falls(m: Message) {
    m.trail != [] && m.trail[|m.trail| - 1] == m.htl && NeverRises(m.trail) && m.trail[0] == POLICY_MAX_HTL
  }

  ghost predicate OncePerLink(sent: seq<Message>) {
    forall i, j :: 0 <= i < j < |sent| ==> !(sent[i].from == sent[j].from && sent[i].to == sent[j].to)
  }

  ghost predicate Inv(net: Net, s: State) {
    && s.seen <= net.nodes
    && OncePerLink(s.sent)
    && (forall i :: 0 <= i < |s.sent| ==> GoodMessage(net, s, s.sent[i]))
    && (forall m :: m in s.flying ==> m in s.sent)
  }

  lemma CopyIsGood(net: Net, s: State, n: Name, htl: int, trail: seq<int>, exclude: Option<Name>, m: Message)
    requires IsCopy(net, n, htl, trail, exclude, m) && n in s.seen && htl > 0
    requires trail != [] && trail[|trail| - 1] == htl && NeverRises(trail) && trail[0] == POLICY_MAX_HTL
    ensures GoodMessage(net, s, m)
  {
    forall i, j | 0 <= i < j < |m.trail| ensures m.trail[j] <= m.trail[i] {
      if j == |trail| { assert m.trail[i] == trail[i] >= trail[|trail| - 1]; }
    }
  }

  lemma SendsKeepInv(net: Net, s: State, n: Name, htl: int, trail: seq<int>, exclude: Option<Name>, out: seq<Message>,
                     s': State)
    requires Inv(net, s) && n !in s.seen && n in net.nodes && Copies(net, n, htl, trail, exclude, out) && htl > 0
    requires trail != [] && trail[|trail| - 1] == htl && NeverRises(trail) && trail[0] == POLICY_MAX_HTL
    requires s'.seen == s.seen + {n} && s'.sent == s.sent + out && s'.flying <= s.flying + multiset(out)
    ensures Inv(net, s')
  {
    forall i | 0 <= i < |s'.sent| ensures GoodMessage(net, s', s'.sent[i]) {
      if i < |s.sent| {
        assert GoodMessage(net, s, s.sent[i]);
      } else {
        assert IsCopy(net, n, htl, trail, exclude, out[i - |s.sent|]);
        CopyIsGood(net, s', n, htl, trail, exclude, out[i - |s.sent|]);
      }
    }
    forall i, j | 0 <= i < j < |s'.sent|
      ensures !(s'.sent[i].from == s'.sent[j].from && s'.sent[i].to == s'.sent[j].to)
    {
      if j >= |s.sent| {
        assert IsCopy(net, n, htl, trail, exclude, out[j - |s.sent|]);
        if i < |s.sent| { assert GoodMessage(net, s, s.sent[i]); }
      }
    }
    forall m | m in s'.flying ensures m in s'.sent {
      assert m in s.flying + multiset(out);
      if m in out {} else { assert m in s.sent; }
    }
  }

  lemma StepKeepsInv(net: Net, s: State, e: Event, s': State)
    requires Inv(net, s) && Step(net, s, e, s')
    ensures Inv(net, s')
  {
    match e
    case Start(n, out) =>
      SendsKeepInv(net, s, n, POLICY_MAX_HTL, [POLICY_MAX_HTL], None, out, s');
    case Deliver(m, accepted, out) =>
      var i :| 0 <= i < |s.sent| && s.sent[i] == m;
      assert GoodMessage(net, s, m);
      if m.to !in s.seen && accepted && Valid(m.htl) {
        SendsKeepInv(net, s, m.to, m.htl, m.trail, Some(m.from), out, s');
      } else {
        forall k | 0 <= k < |s'.sent|
          ensures GoodMessage(net, s', s'.sent[k])
        {
          assert GoodMessage(net, s, s.sent[k]);
        }
      }
  }

  lemma {:induction false} RunKeepsInv(net: Net, states: seq<State>, events: seq<Event>)
    requires Run(net, states, events)
    ensures Inv(net, states[|events|])
    decreases |events|
  {
    var n := |events|;
    if n > 0 {
      RunKeepsInv(net, states[..n], events[..n - 1]);
      StepKeepsInv(net, states[n - 1], events[n - 1], states[n]);
    }
  }

  /** Every copy uses a link of its own, so there are no more than links. */
  lemma {:induction false} LinksBound(sent: seq<Message>, links: set<(Name, Name)>)
    requires OncePerLink(sent) && forall i :: 0 <= i < |sent| ==> (sent[i].from, sent[i].to) in links
    ensures |sent| <= |links|
  {
    if sent != [] {
      var init, m := sent[..|sent| - 1], sent[|sent| - 1];
      LinksBound(init, links - {(m.from, m.to)});
    }
  }

  /** Over any topology and in any order of delivery: each link carries the frame at most once,
      and the hops to live never rise along a path. */
  lemma FloodIsBounded(net: Net, states: seq<State>, events: seq<Event>)
    requires Run(net, states, events)
    ensures (var s := states[|events|];
             && OncePerLink(s.sent) && |s.sent| <= |net.links|
             && forall m :: m in s.sent ==> Falls(m))
  {
    RunKeepsInv(net, states, events);
    SentIsBounded(net, states[|events|]);
  }

  lemma SentIsBounded(net: Net, s: State)
    requires Inv(net, s)
    ensures OncePerLink(s.sent) && |s.sent| <= |net.links| && forall m :: m in s.sent ==> Falls(m)
  {
    forall i | 0 <= i < |s.sent|
      ensures (s.sent[i].from, s.sent[i].to) in net.links
    {
      assert GoodMessage(net, s, s.sent[i]);
    }
    LinksBound(s.sent, net.links);
    forall m | m in s.sent ensures Falls(m) {
      var i :| 0 <= i < |s.sent| && s.sent[i] == m;
      assert GoodMessage(net, s, s.sent[i]);
    }
  }

  function Starts(events: seq<Event>): nat {
    if events == [] then 0 else Starts(events[..|events| - 1]) + if events[|events| - 1].Start? then 1 else 0
  }

  /** A delivery takes one copy away, a start marks one new node. */
  lemma StepIsCounted(net: Net, s: State, e: Event, s': State)
    requires Step(net, s, e, s')
    ensures |s'.flying| - |s.flying| == |s'.sent| - |s.sent| - if e.Start? then 0 else 1
    ensures |s'.seen| >= |s.seen| + if e.Start? then 1 else 0
  {
    Subset(s.seen, s'.seen);
  }

  /** Deliveries so far and copies under way are all the copies sent; starts mark new nodes. */
  lemma {:induction false} StepsAreCounted(net: Net, states: seq<State>, events: seq<Event>)
    requires Run(net, states, events)
    ensures |events| - Starts(events) + |states[|events|].flying| == |states[|events|].sent|
    ensures Starts(events) <= |states[|events|].seen|
    decreases |events|
  {
    var n := |events|;
    if n > 0 {
      StepsAreCounted(net, states[..n], events[..n - 1]);
      StepIsCounted(net, states[n - 1], events[n - 1], states[n]);
    }
  }

  /** Every run ends: after one step per link and per node nothing more can happen. */
  lemma FloodTerminates(net: Net, states: seq<State>, events: seq<Event>)
    requires Run(net, states, events)
    ensures |events| <= |net.links| + |net.nodes|
  {
    FloodIsBounded(net, states, events);
    RunKeepsInv(net, states, events);
    StepsAreCounted(net, states, events);
    Subset(states[|events|].seen, net.nodes);
  }

  lemma Subset(a: set<Name>, b: set<Name>)
    requires a <= b
    ensures |a| <= |b|
  {
    assert b == a + (b - a);
  }

  // ---------------------------------------------------------------- a flood over real nodes

  ghost predicate SentTo(sent: seq<Message>, n: Name) {
    exists i :: 0 <= i < |sent| && sent[i].to == n
  }

  /** A node has the frame's mark, and no younger one, exactly when the flood has reached it. */
  ghost predicate MarkedAsSeen(seen: Seen, reached: bool, frameId: string, since: int) {
    if reached then LastMark(seen, frameId, since) else !Has(seen, frameId)
  }

  /** Each name is its own node, with its own links. */
  ghost predicate IsMesh(nodes: map<Name, Node>, net: Net)
    reads nodes.Values
  {
    && nodes.Keys == net.nodes
    && (forall n :: n in nodes ==> PeersOf(net, n, nodes[n].peers))
    && (forall a, b :: a in nodes && b in nodes && a != b ==> nodes[a] != nodes[b])
    && (forall l :: l in net.links ==> l.1 in nodes)
  }

  ghost function MarksOf(nodes: map<Name, Node>): map<Name, Seen>
    reads nodes.Values
  {
    map n | n in nodes :: nodes[n].seenFrameIds
  }

  ghost predicate MarksInStep(marks: map<Name, Seen>, s: State, frameId: string, since: int) {
    forall n :: n in marks ==> MarkedAsSeen(marks[n], n in s.seen, frameId, since)
  }

  ghost predicate InStep(nodes: map<Name, Node>, s: State, frameId: string, since: int)
    reads nodes.Values
  {
    MarksInStep(MarksOf(nodes), s, frameId, since)
  }

  /** Every copy is under way or has arrived, and only they and the origin mark nodes. */
  ghost predicate Accounted(s: State, origin: Name) {
    && (forall i :: 0 <= i < |s.sent| ==> s.sent[i] in s.flying || s.sent[i].to in s.seen)
    && (forall n :: n in s.seen ==> n == origin || SentTo(s.sent, n))
    && origin in s.seen
  }

  /** What a delivery does to the copies. */
  lemma DeliveryCounts(net: Net, s: State, e: Event, s': State, origin: Name)
    requires Inv(net, s) && Step(net, s, e, s') && e.Deliver? && Accounted(s, origin)
    ensures Inv(net, s') && Accounted(s', origin)
    ensures s'.sent == s.sent + e.out && s'.flying == s.flying - multiset{e.m} + multiset(e.out)
    ensures s'.seen == s.seen + {e.m.to} && Valid(e.m.htl)
    ensures e.m.to in s.seen ==> e.out == []
  {
    StepKeepsInv(net, s, e, s');
    ArrivesAtNode(net, s, e.m);
    AllAccounted(s, e.m, e.out, s', origin);
  }

  lemma AllAccounted(s: State, m: Message, out: seq<Message>, s': State, origin: Name)
    requires Accounted(s, origin) && m in s.flying && m in s.sent
    requires s'.sent == s.sent + out && s'.flying == s.flying - multiset{m} + multiset(out)
    requires s'.seen == s.seen + {m.to}
    ensures Accounted(s', origin)
  {
    forall i | 0 <= i < |s'.sent| ensures s'.sent[i] in s'.flying || s'.sent[i].to in s'.seen {
      if i < |s.sent| { assert s'.sent[i] == s.sent[i]; } else { assert s'.sent[i] == out[i - |s.sent|]; }
    }
    forall n | n in s'.seen ensures n == origin || SentTo(s'.sent, n) {
      if n != origin { SentToMore(s, m, out, n); }
    }
  }

  lemma SentToMore(s: State, m: Message, out: seq<Message>, n: Name)
    requires m in s.sent && (n == m.to || SentTo(s.sent, n))
    ensures SentTo(s.sent + out, n)
  {
    var i :| 0 <= i < |s.sent| && s.sent[i].to == n;
    assert (s.sent + out)[i] == s.sent[i];
  }

  /** One copy arrives at its node. */
  method DeliverOne(nodes: map<Name, Node>, frameId: string, eventId: string, verified: bool, now: int, m: Message,
                    ghost net: Net, ghost s: State, ghost origin: Name, ghost since: int)
    returns (sends: seq<Message>, ghost s': State)
    requires IsMesh(nodes, net) && InStep(nodes, s, frameId, since) && Inv(net, s) && Accounted(s, origin)
    requires m in s.flying && since <= now < since + SEEN_FRAME_TTL_MS
    modifies nodes.Values
    ensures IsMesh(nodes, net) && InStep(nodes, s', frameId, since) && Inv(net, s') && Accounted(s', origin)
    ensures s'.sent == s.sent + sends && s'.flying == s.flying - multiset{m} + multiset(sends)
    ensures s'.seen == s.seen + {m.to} && (m.to in s.seen ==> sends == [])
  {
    ArrivesAtNode(net, s, m);
    var node := nodes[m.to];
    MarkRemembered(node.seenFrameIds, m.to in s.seen, frameId, since, now);
    var out;
    ghost var e;
    ghost var marks := MarksOf(nodes);
    out, e, s' := node.ReceiveFrame(m.from, Frame(frameId, eventId, m.htl, Valid(m.htl), verified), now, net, s, m);
    sends := Messages(m.to, m.trail, out);
    DeliveryCounts(net, s, e, s', origin);
    StaysInStep(marks, MarksOf(nodes), s, s', m.to, frameId, since, now);
  }

  lemma ArrivesAtNode(net: Net, s: State, m: Message)
    requires Inv(net, s) && m in s.flying
    ensures (m.from, m.to) in net.links && Valid(m.htl)
  {
    var i :| 0 <= i < |s.sent| && s.sent[i] == m;
    assert GoodMessage(net, s, s.sent[i]);
  }

  lemma MarkRemembered(seen: Seen, reached: bool, frameId: string, since: int, now: int)
    requires MarkedAsSeen(seen, reached, frameId, since) && since <= now < since + SEEN_FRAME_TTL_MS
    ensures Has(Pruned(seen, now, SEEN_FRAME_TTL_MS, SEEN_FRAME_CAP), frameId) <==> reached
    ensures MarkedAsSeen(Marked(seen, frameId, now), true, frameId, since)
  {
    MarkedLast(seen, frameId, now);
    if reached { LastSurvives(seen, frameId, now); } else { PrunedHas(seen, now, frameId); }
  }

  /** One node more is marked. */
  lemma StaysInStep(marks: map<Name, Seen>, marks': map<Name, Seen>, s: State, s': State, n: Name, frameId: string,
                    since: int, now: int)
    requires MarksInStep(marks, s, frameId, since) && n in marks && s'.seen == s.seen + {n}
    requires since <= now < since + SEEN_FRAME_TTL_MS
    requires marks'.Keys == marks.Keys && forall x :: x in marks ==>
               marks'[x] == if x == n then Marked(marks[x], frameId, now) else marks[x]
    ensures MarksInStep(marks', s', frameId, since)
  {
    forall x | x in marks' ensures MarkedAsSeen(marks'[x], x in s'.seen, frameId, since) {
      assert MarkedAsSeen(marks[x], x in s.seen, frameId, since);
      if x == n { MarkRemembered(marks[x], x in s.seen, frameId, since, now); }
    }
  }

  /** Any of the copies under way arrives; either it reaches a new node, or there is one less. */
  method NextArrival(nodes: map<Name, Node>, frameId: string, eventId: string, verified: bool, now: int,
                     flying: seq<Message>, k: nat,
                     ghost net: Net, ghost s: State, ghost origin: Name, ghost since: int)
    returns (flying': seq<Message>, sends: seq<Message>, ghost s': State)
    requires IsMesh(nodes, net) && InStep(nodes, s, frameId, since) && Inv(net, s) && Accounted(s, origin)
    requires k < |flying| && s.flying == multiset(flying) && since <= now < since + SEEN_FRAME_TTL_MS
    modifies nodes.Values
    ensures IsMesh(nodes, net) && InStep(nodes, s', frameId, since) && Inv(net, s') && Accounted(s', origin)
    ensures s'.sent == s.sent + sends && s'.flying == multiset(flying')
    ensures net.nodes - s'.seen < net.nodes - s.seen || (s'.seen == s.seen && |flying'| < |flying|)
  {
    var m := flying[k];
    OneTaken(flying, k);
    sends, s' := DeliverOne(nodes, frameId, eventId, verified, now, m, net, s, origin, since);
    flying' := flying[..k] + flying[k + 1..] + sends;
    if m.to !in s.seen { assert m.to in s'.seen && m.to in net.nodes; }
  }

  /** One frame floods the mesh from its origin, whatever the order of arrival, before its id is
      too old to be remembered: it comes to an end, each link has carried it at most once, hops
      never rose, and exactly the origin and the nodes it was sent to remember it. */
  method Flood(nodes: map<Name, Node>, origin: Name, frameId: string, eventId: string, verified: bool, since: int,
               ghost net: Net)
    returns (sent: seq<Message>)
    requires IsMesh(nodes, net) && origin in nodes
    requires forall n :: n in nodes ==> !Has(nodes[n].seenFrameIds, frameId)
    modifies nodes.Values
    ensures OncePerLink(sent) && |sent| <= |net.links| && forall m :: m in sent ==> Falls(m)
    ensures forall n :: n in nodes ==> (Has(nodes[n].seenFrameIds, frameId) <==> n == origin || SentTo(sent, n))
  {
    var flying: seq<Message>;
    ghost var s;
    flying, s := Launch(nodes, origin, frameId, eventId, since, net);
    sent := flying;
    while flying != []
      invariant IsMesh(nodes, net) && InStep(nodes, s, frameId, since) && Inv(net, s) && Accounted(s, origin)
      invariant s.sent == sent && s.flying == multiset(flying) && s.seen <= net.nodes
      decreases net.nodes - s.seen, |flying|
    {
      var k: nat :| k < |flying|;
      var now: int :| since <= now < since + SEEN_FRAME_TTL_MS;
      var sends;
      flying, sends, s := NextArrival(nodes, frameId, eventId, verified, now, flying, k, net, s, origin, since);
      sent := sent + sends;
    }
    FloodEnds(nodes, net, s, origin, frameId, since);
  }

  lemma OneTaken(flying: seq<Message>, k: nat)
    requires k < |flying|
    ensures multiset(flying[..k] + flying[k + 1..]) == multiset(flying) - multiset{flying[k]}
    ensures flying[k] in multiset(flying)
  {
    assert flying == flying[..k] + [flying[k]] + flying[k + 1..];
  }

  /** The origin's own dispatch. */
  method Launch(nodes: map<Name, Node>, origin: Name, frameId: string, eventId: string, since: int, ghost net: Net)
    returns (sends: seq<Message>, ghost s: State)
    requires IsMesh(nodes, net) && origin in nodes
    requires forall n :: n in nodes ==> !Has(nodes[n].seenFrameIds, frameId)
    modifies nodes.Values
    ensures IsMesh(nodes, net) && InStep(nodes, s, frameId, since) && Inv(net, s) && Accounted(s, origin)
    ensures s.sent == sends && s.flying == multiset(sends)
  {
    ghost var marks := MarksOf(nodes);
    ghost var e;
    QuietMarks(marks, frameId, since);
    sends, e, s := Dispatch(nodes, origin, frameId, eventId, since, net);
    LaunchCounts(net, e, s);
    StaysInStep(marks, MarksOf(nodes), QUIET, s, origin, frameId, since, since);
  }

  /** It makes the flood's first step, and changes no other node. */
  method Dispatch(nodes: map<Name, Node>, origin: Name, frameId: string, eventId: string, now: int, ghost net: Net)
    returns (sends: seq<Message>, ghost e: Event, ghost s: State)
    requires IsMesh(nodes, net) && origin in nodes && !Has(nodes[origin].seenFrameIds, frameId)
    modifies nodes[origin]
    ensures IsMesh(nodes, net) && Step(net, QUIET, e, s) && e.Start? && e.node == origin && e.out == sends
    ensures MarksOf(nodes) == old(MarksOf(nodes))[origin := Marked(old(nodes[origin].seenFrameIds), frameId, now)]
  {
    var node := nodes[origin];
    PrunedHas(node.seenFrameIds, now, frameId);
    var out;
    out, e, s := node.StartFlood(frameId, eventId, now, net, QUIET, origin);
    sends := Messages(origin, [POLICY_MAX_HTL], out);
  }

  /** The mesh before the frame. */
  const QUIET := State({}, multiset{}, [])

  lemma QuietMarks(marks: map<Name, Seen>, frameId: string, since: int)
    requires forall n :: n in marks ==> !Has(marks[n], frameId)
    ensures MarksInStep(marks, QUIET, frameId, since)
  {
  }

  lemma LaunchCounts(net: Net, e: Event, s: State)
    requires Step(net, QUIET, e, s) && e.Start?
    ensures Inv(net, s) && Accounted(s, e.node)
    ensures s.seen == {e.node} && s.sent == e.out && s.flying == multiset(e.out)
  {
    StepKeepsInv(net, QUIET, e, s);
    NothingBefore(e.node, e.out);
    FirstAccounted(e.node, e.out);
  }

  lemma NothingBefore(n: Name, out: seq<Message>)
    ensures State(QUIET.seen + {n}, QUIET.flying + multiset(out), QUIET.sent + out) == State({n}, multiset(out), out)
  {
    assert QUIET.sent + out == out;
  }

  lemma FirstAccounted(n: Name, out: seq<Message>)
    ensures Accounted(State({n}, multiset(out), out), n)
  {
    forall i | 0 <= i < |out| ensures out[i] in multiset(out) { assert out[i] in out; }
  }

  lemma FloodEnds(nodes: map<Name, Node>, net: Net, s: State, origin: Name, frameId: string, since: int)
    requires IsMesh(nodes, net) && InStep(nodes, s, frameId, since) && Inv(net, s) && Accounted(s, origin)
    requires s.flying == multiset{}
    ensures OncePerLink(s.sent) && |s.sent| <= |net.links| && forall m :: m in s.sent ==> Falls(m)
    ensures forall n :: n in nodes ==> (Has(nodes[n].seenFrameIds, frameId) <==> n == origin || SentTo(s.sent, n))
  {
    SentIsBounded(net, s);
    forall n | n in nodes ensures Has(nodes[n].seenFrameIds, frameId) <==> n == origin || SentTo(s.sent, n) {
      var seen := MarksOf(nodes)[n];
      assert MarkedAsSeen(seen, n in s.seen, frameId, since);
      if n in s.seen { assert seen[|seen| - 1].id == frameId; }
      if SentTo(s.sent, n) { var i :| 0 <= i < |s.sent| && s.sent[i].to == n; }
    }
  }
}
