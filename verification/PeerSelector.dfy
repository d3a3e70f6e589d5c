/** Ordering peers fairly, and asking them in waves. */
module PeerSelector {
  import opened Directory
  import opened Bytes

  type Name = nat

  datatype Stats = Stats(peer: Name, requestsSent: nat)

  function TotalRequests(peers: seq<Stats>): nat {
    if peers == [] then 0 else peers[0].requestsSent + TotalRequests(peers[1..])
  }

  /** At most 30% of all requests went to this peer. */
  predicate Fair(s: Stats, total: nat) {
    10 * s.requestsSent <= 3 * total
  }

  /** The first k peers moved to the end. */
  function Rotated(peers: seq<Stats>, k: nat): (r: seq<Stats>)
    requires k <= |peers|
    ensures |r| == |peers|
  {
    peers[k..] + peers[..k]
  }

  /** Four unfair peers would hold more than everything. */
  lemma SomeoneIsFair(peers: seq<Stats>, total: nat)
    requires |peers| >= 4 && total == TotalRequests(peers) > 0
    ensures exists k :: 0 <= k < 4 && Fair(peers[k], total)
  {
    assert TotalRequests(peers) == peers[0].requestsSent + TotalRequests(peers[1..]);
    assert TotalRequests(peers[1..]) == peers[1].requestsSent + TotalRequests(peers[1..][1..]);
    assert TotalRequests(peers[1..][1..]) == peers[2].requestsSent + TotalRequests(peers[1..][1..][1..]);
    assert TotalRequests(peers[1..][1..][1..]) == peers[3].requestsSent + TotalRequests(peers[1..][1..][1..][1..]);
    assert Fair(peers[0], total) || Fair(peers[1], total) || Fair(peers[2], total) || Fair(peers[3], total);
  }

  /** applyFairness: the order is rotated to the first peer with a fair share. With at least four
      peers (the caller asks for five) there is one among the first four. */
  method ApplyFairness(peers: seq<Stats>) returns (ordered: seq<Stats>, ghost k: nat)
    ensures k <= |peers| && ordered == Rotated(peers, k)
    ensures forall j :: 0 <= j < k ==> 10 * peers[j].requestsSent > 3 * TotalRequests(peers)
    ensures k == |peers| || 10 * ordered[0].requestsSent <= 3 * TotalRequests(peers)
    ensures |peers| >= 4 ==> k < 4
  {
    ordered, k := peers, 0;
    var total := TotalRequests(peers);
    assert peers[0..] + peers[..0] == peers;
    if total == 0 {
      if peers != [] { NoRequests(peers); }
      return;
    }
    if |peers| >= 4 { SomeoneIsFair(peers, total); }
    for i := 0 to |peers|
      invariant k == i && ordered == Rotated(peers, k)
      invariant forall j :: 0 <= j < k ==> !Fair(peers[j], total)
    {
      var top := ordered[0];
      if Fair(top, total) { break; }
      ordered := ordered[1..] + [top];
      k := k + 1;
      assert peers[..k] == peers[..k - 1] + [top];
    }
  }

  lemma NoRequests(peers: seq<Stats>)
    requires peers != [] && TotalRequests(peers) == 0
    ensures peers[0].requestsSent == 0
  {
  }

  // ---------------------------------------------------------------- waves

  datatype Dispatch = Dispatch(initialFanout: int, hedgeFanout: int, maxFanout: int)

  /** normalizeDispatchConfig: a maximum of 0 means everyone, a fanout of 0 means 1; what is above
      what there is comes down to it, and what is within is kept. */
  function Normalize(d: Dispatch, availablePeers: nat): (r: Dispatch)
    ensures 0 <= r.maxFanout <= availablePeers
    ensures d.maxFanout == 0 || d.maxFanout > availablePeers ==> r.maxFanout == availablePeers
    ensures 0 < d.maxFanout <= availablePeers ==> r.maxFanout == d.maxFanout
    ensures d.maxFanout < 0 ==> r.maxFanout == 0
    ensures FanoutFrom(d.initialFanout, r.initialFanout, r.maxFanout)
    ensures FanoutFrom(d.hedgeFanout, r.hedgeFanout, r.maxFanout)
  {
    var cap := Max(0, if d.maxFanout == 0 then availablePeers else Min(d.maxFanout, availablePeers));
    Dispatch(Min(if d.initialFanout == 0 then 1 else d.initialFanout, Max(1, cap)),
             Min(if d.hedgeFanout == 0 then 1 else d.hedgeFanout, Max(1, cap)),
             cap)
  }

  /** A fanout as it was set, and as it is used when at most `most` peers are asked. */
  ghost predicate FanoutFrom(was: int, used: int, most: nat) {
    && (was == 0 ==> used == 1)
    && (was != 0 && was <= most ==> used == was)
    && (was > most > 0 ==> used == most)
    && (was > most == 0 ==> used == 1)
  }

  function Sum(plan: seq<nat>): nat {
    if plan == [] then 0 else Sum(plan[..|plan| - 1]) + plan[|plan| - 1]
  }

  /** buildHedgedWavePlan: positive waves that reach exactly the cap, each as large as asked for
      unless the cap is reached. */
  method BuildHedgedWavePlan(peerCount: int, d: Dispatch) returns (plan: seq<nat>)
    ensures Sum(plan) == Max(0, Min(d.maxFanout, peerCount))
    ensures forall i :: 0 <= i < |plan| ==> plan[i] >= 1
    ensures forall i :: 0 < i < |plan| - 1 ==> plan[i] == Max(1, d.hedgeFanout)
    ensures plan != [] ==> plan[0] == Max(1, Min(d.initialFanout, Min(d.maxFanout, peerCount)))
  {
    if peerCount <= 0 { return []; }
    var cap := Min(d.maxFanout, peerCount);
    if cap <= 0 { return []; }
    var first := Max(1, Min(d.initialFanout, cap));
    plan := [first];
    var sent := first;
    assert plan[..0] == [];
    while sent < cap
      invariant sent == Sum(plan) <= cap && plan != [] && plan[0] == first
      invariant forall i :: 0 <= i < |plan| ==> plan[i] >= 1
      invariant forall i :: 0 < i < |plan| ==> plan[i] == Max(1, d.hedgeFanout) || (i == |plan| - 1 && sent == cap)
      decreases cap - sent
    {
      var next := Max(1, Min(d.hedgeFanout, cap - sent));
      assert (plan + [next])[..|plan|] == plan;
      plan := plan + [next];
      sent := sent + next;
    }
  }

  // ---------------------------------------------------------------- one query

  /** What a peer's answer turns out to be. */
  datatype Answer = Nothing | WrongHash | Found

  /** The peers that gave this answer, in order. */
  function Peers(answered: seq<(Name, Answer)>, answer: Answer): seq<Name> {
    if answered == [] then []
    else
      var last := answered[|answered| - 1];
      Peers(answered[..|answered| - 1], answer) + if last.1 == answer then [last.0] else []
  }

  lemma PeersOneMore(answered: seq<(Name, Answer)>, peer: Name, answer: Answer, a: Answer)
    ensures Peers(answered + [(peer, answer)], a) ==
            if answer == a then Peers(answered, a) + [peer] else Peers(answered, a)
  {
    assert (answered + [(peer, answer)])[..|answered|] == answered;
  }

  ghost predicate Adds(asked: seq<Name>, unsettled: seq<Name>, timeouts: seq<Name>, failures: seq<Name>) {
    multiset(asked) == multiset(unsettled) + multiset(timeouts) + multiset(failures)
  }

  /** A peer that is charged moves from one account to another; the winner leaves them. */
  lemma OneSettles(asked: seq<Name>, unsettled: seq<Name>, timeouts: seq<Name>, failures: seq<Name>, i: nat)
    requires Adds(asked, unsettled, timeouts, failures) && i < |unsettled|
    ensures (var peer, left := unsettled[i], unsettled[..i] + unsettled[i + 1..];
             && Adds(asked, left, timeouts + [peer], failures)
             && Adds(asked, left, timeouts, failures + [peer])
             && multiset(asked) == multiset(left) + multiset(timeouts) + multiset(failures) + multiset{peer})
  {
    OneTaken(unsettled, i);
  }

  lemma OneTaken(peers: seq<Name>, i: nat)
    requires i < |peers|
    ensures multiset(peers) == multiset(peers[..i] + peers[i + 1..]) + multiset{peers[i]}
  {
    assert peers == peers[..i] + [peers[i]] + peers[i + 1..];
  }

  /** Who answered with the data, first. */
  function Winner(answered: seq<(Name, Answer)>): Option<Name> {
    if answered == [] then None
    else
      var last, before := answered[|answered| - 1], Winner(answered[..|answered| - 1]);
      if before.Some? then before else if last.1 == Found then Some(last.0) else None
  }

  /** The bookkeeping of one query: whom it asked, who is still to settle, and who was charged. */
  class Query {
    var asked: seq<Name>
    var unsettled: seq<Name>
    var timeouts: seq<Name>
    var failures: seq<Name>

    constructor ()
      ensures asked == unsettled == timeouts == failures == []
    {
      asked, unsettled, timeouts, failures := [], [], [], [];
    }

    /** Every peer asked is either charged once or not settled yet. */
    ghost predicate Balanced()
      reads this
    {
      Adds(asked, unsettled, timeouts, failures)
    }

    /** One wave of requests. */
    method Ask(wave: seq<Name>)
      requires Balanced()
      modifies this`asked, this`unsettled
      ensures Balanced() && asked == old(asked) + wave && unsettled == old(unsettled) + wave
    {
      asked, unsettled := asked + wave, unsettled + wave;
    }

    /** Everyone who answered was charged by the answer. */
    ghost predicate Charged(answered: seq<(Name, Answer)>)
      reads this
    {
      timeouts == Peers(answered, Nothing) && failures == Peers(answered, WrongHash)
    }

    /** The next of the active peers to answer, if one does in time; `i` and `answer` are up to
        the network. The winner of the query is settled but not charged. */
    method Settle(i: nat, answer: Answer, ghost answered: seq<(Name, Answer)>) returns (peer: Name)
      requires Balanced() && i < |unsettled| && Charged(answered)
      modifies this`unsettled, this`timeouts, this`failures
      ensures peer == old(unsettled)[i] && unsettled == old(unsettled[..i] + unsettled[i + 1..])
      ensures answer != Found ==> Balanced()
      ensures answer == Found ==>
                multiset(asked) == multiset(unsettled) + multiset(timeouts) + multiset(failures) + multiset{peer}
      ensures Charged(answered + [(peer, answer)])
    {
      peer := unsettled[i];
      OneSettles(asked, unsettled, timeouts, failures, i);
      unsettled := unsettled[..i] + unsettled[i + 1..];
      if answer == Nothing { timeouts := timeouts + [peer]; }
      if answer == WrongHash { failures := failures + [peer]; }
      PeersOneMore(answered, peer, answer, Nothing);
      PeersOneMore(answered, peer, answer, WrongHash);
    }

    /** The window after a wave: answers come until one is right, no one is left, or time is up. */
    method Await(ghost before: seq<(Name, Answer)>)
      returns (winner: Option<Name>, ghost answered: seq<(Name, Answer)>)
      requires Balanced() && Charged(before) && Winner(before).None?
      modifies this`unsettled, this`timeouts, this`failures
      ensures Charged(answered) && winner == Winner(answered)
      ensures winner.None? ==> Balanced()
      ensures winner.Some? ==>
                multiset(asked) ==
                multiset(unsettled) + multiset(timeouts) + multiset(failures) + multiset{winner.value}
    {
      winner, answered := None, before;
      while |unsettled| > 0
        invariant Balanced() && Charged(answered) && Winner(answered).None?
        decreases |unsettled|
      {
        if * { break; }
        var i: nat :| i < |unsettled|;
        var answer: Answer := *;
        var peer := Settle(i, answer, answered);
        assert (answered + [(peer, answer)])[..|answered|] == answered;
        answered := answered + [(peer, answer)];
        if answer == Found { return Some(peer), answered; }
      }
    }

    /** One wave: the requests and the window after them. */
    method Wave(wave: seq<Name>, ghost before: seq<(Name, Answer)>)
      returns (winner: Option<Name>, ghost answered: seq<(Name, Answer)>)
      requires Balanced() && Charged(before) && Winner(before).None?
      modifies this
      ensures asked == old(asked) + wave
      ensures Charged(answered) && winner == Winner(answered)
      ensures winner.None? ==> Balanced()
      ensures winner.Some? ==>
                && winner.value in asked
                && multiset(timeouts) + multiset(failures) + multiset{winner.value} <= multiset(asked)
    {
      Ask(wave);
      winner, answered := Await(before);
      if winner.Some? { assert winner.value in multiset(asked); }
    }

    /** Whoever has not answered when the query gives up is charged a timeout. */
    method GiveUp()
      requires Balanced()
      modifies this`unsettled, this`timeouts
      ensures Balanced() && unsettled == [] && timeouts == old(timeouts + unsettled)
    {
      timeouts, unsettled := timeouts + unsettled, [];
    }
  }

  /** queryPeersWithDispatch. The peers asked are the first of the order, at most the cap, and
      exactly as many unless the data comes or the deadline passes before. The first to answer with
      the data wins. When no one does, each peer asked was charged exactly once, and no one else:
      a failure for wrong data, a timeout for no data and for no answer. */
  method QueryPeers(orderedPeers: seq<Name>, d: Dispatch)
    returns (winner: Option<Name>, q: Query, ghost answered: seq<(Name, Answer)>, ghost expired: bool)
    ensures q.asked <= orderedPeers && |q.asked| <= Normalize(d, |orderedPeers|).maxFanout
    ensures winner.None? && !expired ==> |q.asked| == Normalize(d, |orderedPeers|).maxFanout
    ensures winner == Winner(answered) && q.failures == Peers(answered, WrongHash)
    ensures winner.None? ==> multiset(q.timeouts) + multiset(q.failures) == multiset(q.asked)
    ensures winner.None? ==> Peers(answered, Nothing) <= q.timeouts
    ensures winner.Some? ==>
              && winner.value in q.asked && q.timeouts == Peers(answered, Nothing)
              && multiset(q.timeouts) + multiset(q.failures) + multiset{winner.value} <= multiset(q.asked)
  {
    q := new Query();
    var dispatch := Normalize(d, |orderedPeers|);
    var wavePlan := BuildHedgedWavePlan(|orderedPeers|, dispatch);
    winner, answered, expired := AskWaves(q, orderedPeers, wavePlan);
    if winner.None? { q.GiveUp(); }
  }

  /** The waves, until one succeeds or the deadline passes. */
  method AskWaves(q: Query, orderedPeers: seq<Name>, wavePlan: seq<nat>)
    returns (winner: Option<Name>, ghost answered: seq<(Name, Answer)>, ghost expired: bool)
    requires Sum(wavePlan) <= |orderedPeers| && q.asked == q.unsettled == q.timeouts == q.failures == []
    modifies q
    ensures q.asked <= orderedPeers && |q.asked| <= Sum(wavePlan)
    ensures winner.None? && !expired ==> |q.asked| == Sum(wavePlan)
    ensures q.Charged(answered) && winner == Winner(answered)
    ensures winner.None? ==> q.Balanced()
    ensures winner.Some? ==>
              && winner.value in q.asked
              && multiset(q.timeouts) + multiset(q.failures) + multiset{winner.value} <= multiset(q.asked)
  {
    winner, answered, expired := None, [], false;
    var nextPeerIdx := 0;
    for waveIdx := 0 to |wavePlan|
      invariant q.Balanced() && winner.None? && q.Charged(answered) && Winner(answered).None? && !expired
      invariant nextPeerIdx == Sum(wavePlan[..waveIdx]) <= Sum(wavePlan) && q.asked == orderedPeers[..nextPeerIdx]
    {
      NextWave(wavePlan, waveIdx);
      var to := Min(nextPeerIdx + wavePlan[waveIdx], |orderedPeers|);
      Longer(orderedPeers, nextPeerIdx, to);
      winner, answered := q.Wave(orderedPeers[nextPeerIdx..to], answered);
      nextPeerIdx := to;
      if winner.Some? { return; }
      if * {
        expired := true;
        return;
      }
    }
    assert wavePlan[..|wavePlan|] == wavePlan;
  }

  lemma NextWave(plan: seq<nat>, i: nat)
    requires i < |plan|
    ensures Sum(plan[..i + 1]) == Sum(plan[..i]) + plan[i] <= Sum(plan)
  {
    assert plan[..i + 1][..i] == plan[..i];
    SumGrows(plan, i + 1);
  }

  lemma Longer(peers: seq<Name>, from: nat, to: nat)
    requires from <= to <= |peers|
    ensures peers[..to] == peers[..from] + peers[from..to]
  {
  }

  lemma {:induction false} SumGrows(plan: seq<nat>, n: nat)
    requires n <= |plan|
    ensures Sum(plan[..n]) <= Sum(plan)
    decreases |plan| - n
  {
    if n == |plan| {
      assert plan[..n] == plan;
    } else {
      assert plan[..n + 1][..n] == plan[..n];
      SumGrows(plan, n + 1);
    }
  }
}
