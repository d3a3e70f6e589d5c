/** Large responses travel as fragments over an unordered channel and are put together again. */
module Fragments {
  import opened Directory
  import opened Bytes

  const FRAGMENT_SIZE := 32768
  const FRAGMENT_STALL_TIMEOUT := 5000
  const FRAGMENT_TOTAL_TIMEOUT := 120000
  const MAX_PENDING_REASSEMBLIES := 20

  type Hash = Bytes

  datatype Response = Whole(h: Hash, d: Bytes) | Fragment(h: Hash, d: Bytes, i: int, n: int)

  // ---------------------------------------------------------------- sending

  /** Math.ceil(length / FRAGMENT_SIZE) */
  function CeilFragments(length: nat): (n: nat)
    ensures (n - 1) * FRAGMENT_SIZE < length <= n * FRAGMENT_SIZE || (length == 0 && n == 0)
  {
    if length == 0 then 0 else if length <= FRAGMENT_SIZE then 1 else 1 + CeilFragments(length - FRAGMENT_SIZE)
  }

  /** The number of fragments of a large response. */
  function Count(data: Bytes): nat {
    CeilFragments(|data|)
  }

  function Piece(data: Bytes, i: nat): Bytes {
    data[Min(i * FRAGMENT_SIZE, |data|)..Min((i + 1) * FRAGMENT_SIZE, |data|)]
  }

  /** The first k pieces. */
  function Pieces(data: Bytes, k: nat): (r: seq<Bytes>)
    ensures |r| == k && forall i :: 0 <= i < k ==> r[i] == Piece(data, i)
  {
    if k == 0 then [] else Pieces(data, k - 1) + [Piece(data, k - 1)]
  }

  lemma NextPiece(data: Bytes, i: nat)
    ensures data[..Min(i * FRAGMENT_SIZE, |data|)] + Piece(data, i) == data[..Min((i + 1) * FRAGMENT_SIZE, |data|)]
  {
  }

  lemma {:induction false} PiecesJoin(data: Bytes, k: nat)
    ensures Flatten(Pieces(data, k)) == data[..Min(k * FRAGMENT_SIZE, |data|)]
  {
    if k > 0 {
      PiecesJoin(data, k - 1);
      FlattenSnoc(Pieces(data, k - 1), Piece(data, k - 1));
      NextPiece(data, k - 1);
    }
  }

  lemma AllPiecesJoin(data: Bytes)
    ensures Flatten(Pieces(data, Count(data))) == data
  {
    PiecesJoin(data, Count(data));
  }

  /** Every fragment but the last carries 32 KiB, the last one what is left, and together they are
      the data. */
  lemma FragmentSizes(data: Bytes)
    requires |data| > 32_768
    ensures forall i :: 0 <= i < Count(data) - 1 ==> |Piece(data, i)| == 32_768
    ensures 0 < |Piece(data, Count(data) - 1)| <= 32_768
    ensures Flatten(Pieces(data, Count(data))) == data
  {
    AllPiecesJoin(data);
    var n := Count(data);
    forall i | 0 <= i < n - 1 ensures |Piece(data, i)| == 32_768 {
      assert (i + 1) * 32_768 <= (n - 1) * 32_768 < |data|;
    }
  }

  /** A fragment as sendResponse makes them of this data. */
  ghost predicate FragmentOf(res: Response, hash: Hash, data: Bytes) {
    && res.Fragment? && res.h == hash && |data| > FRAGMENT_SIZE
    && res.n == Count(data) && 0 <= res.i < res.n && res.d == Piece(data, res.i)
  }

  /** sendResponse, on an open channel: one message, or all fragments in order. */
  method SendResponse(hash: Hash, data: Bytes) returns (sent: seq<Response>)
    ensures |data| <= 32_768 ==> sent == [Whole(hash, data)]
    ensures |data| > 32_768 ==> |sent| == Count(data)
    ensures |data| > 32_768 ==> forall i :: 0 <= i < |sent| ==> FragmentOf(sent[i], hash, data) && sent[i].i == i
  {
    if |data| <= FRAGMENT_SIZE { return [Whole(hash, data)]; }
    sent := [];
    var totalFragments := Count(data);
    for i := 0 to totalFragments
      invariant |sent| == i && forall j :: 0 <= j < i ==> FragmentOf(sent[j], hash, data) && sent[j].i == j
    {
      var start := i * FRAGMENT_SIZE;
      var end := Min(start + FRAGMENT_SIZE, |data|);
      sent := sent + [Fragment(hash, data[start..end], i, totalFragments)];
    }
  }

  // ---------------------------------------------------------------- reassembly

  /** The indexes of a complete set. */
  function Indexes(n: nat): (r: set<int>)
    ensures forall i :: i in r <==> 0 <= i < n
    ensures |r| == n
  {
    if n == 0 then {} else Indexes(n - 1) + {n - 1}
  }

  lemma FullSet(s: set<int>, n: nat)
    requires s <= Indexes(n)
    ensures |s| == n <==> s == Indexes(n)
  {
    var rest := Indexes(n) - s;
    assert Indexes(n) == s + rest;
    assert rest == {} ==> s == Indexes(n);
  }

  datatype Pending = Pending(fragments: map<int, Bytes>, totalExpected: int, receivedBytes: nat,
                             firstFragmentAt: int, lastFragmentAt: int)

  /** The sum of the sizes of the fragments below n. */
  ghost function Received(fragments: map<int, Bytes>, n: nat): nat {
    if n == 0 then 0 else Received(fragments, n - 1) + if n - 1 in fragments then |fragments[n - 1]| else 0
  }

  lemma {:induction false} ReceivedMore(fragments: map<int, Bytes>, i: int, d: Bytes, n: nat)
    requires i !in fragments && 0 <= i
    ensures Received(fragments[i := d], n) == Received(fragments, n) + if i < n then |d| else 0
  {
    if n > 0 { ReceivedMore(fragments, i, d, n - 1); }
  }

  /** The fragments held are the pieces of this data with the indexes in `got`. */
  ghost predicate Holding(p: Pending, data: Bytes, got: set<int>) {
    && p.totalExpected == Count(data) && p.fragments.Keys == got <= Indexes(Count(data))
    && HoldsPieces(p.fragments, data) && p.receivedBytes == Received(p.fragments, Count(data))
  }

  /** Some pieces of this data, but not all. */
  ghost predicate PartOf(p: Pending, data: Bytes) {
    && |data| > FRAGMENT_SIZE && Holding(p, data, p.fragments.Keys)
    && p.fragments.Keys != {} && p.fragments.Keys != Indexes(Count(data))
  }

  ghost predicate HoldsPieces(fragments: map<int, Bytes>, data: Bytes) {
    forall i :: i in fragments ==> 0 <= i && fragments[i] == Piece(data, i)
  }

  lemma {:induction false} ReceivedAll(fragments: map<int, Bytes>, data: Bytes, n: nat)
    requires HoldsPieces(fragments, data) && forall i :: 0 <= i < n ==> i in fragments
    ensures Received(fragments, n) == |Flatten(Pieces(data, n))|
  {
    if n > 0 {
      ReceivedAll(fragments, data, n - 1);
      var last := Piece(data, n - 1);
      assert n - 1 in fragments && fragments[n - 1] == last;
      FlattenSnoc(Pieces(data, n - 1), last);
    }
  }

  lemma ReceivedWhole(p: Pending, data: Bytes)
    requires Holding(p, data, Indexes(Count(data)))
    ensures p.receivedBytes == |data|
  {
    forall i | 0 <= i < Count(data) ensures i in p.fragments { assert i in p.fragments.Keys; }
    ReceivedAll(p.fragments, data, Count(data));
    AllPiecesJoin(data);
  }

  ghost predicate AssembledTo(prefix: Bytes, data: Bytes, i: nat) {
    i <= Count(data) && prefix == data[..Min(i * FRAGMENT_SIZE, |data|)]
  }

  lemma AssembleNext(p: Pending, prefix: Bytes, data: Bytes, i: nat)
    requires Holding(p, data, Indexes(Count(data))) && AssembledTo(prefix, data, i) && i < Count(data)
    ensures i in p.fragments && AssembledTo(prefix + p.fragments[i], data, i + 1)
    ensures |prefix| + |p.fragments[i]| <= |data|
  {
    assert i in p.fragments.Keys;
    NextPiece(data, i);
  }

  /** assembleFragments. Err: a missing fragment, or one that does not fit, throws. */
  method AssembleFragments(p: Pending, ghost data: Bytes) returns (r: Result<Bytes>)
    ensures Holding(p, data, Indexes(Count(data))) ==> r == Ok(data)
  {
    var result := new Byte[p.receivedBytes](_ => 0);
    var offset: nat := 0;
    ghost var good := Holding(p, data, Indexes(Count(data)));
    if good { ReceivedWhole(p, data); }
    var i := 0;
    while i < p.totalExpected
      invariant 0 <= i && offset <= result.Length
      invariant good ==> AssembledTo(result[..offset], data, i)
    {
      if good { AssembleNext(p, result[..offset], data, i); }
      if i !in p.fragments { return Err; }
      var fragment := p.fragments[i];
      if offset + |fragment| > result.Length { return Err; }
      ghost var prefix := result[..offset];
      Set(result, fragment, offset);
      offset := offset + |fragment|;
      assert result[..offset] == prefix + fragment;
      i := i + 1;
    }
    if good { Complete(result[..], data, offset, i); }
    r := Ok(result[..]);
  }

  lemma Complete(result: Bytes, data: Bytes, offset: nat, i: nat)
    requires i == Count(data) && offset <= |result| == |data| && AssembledTo(result[..offset], data, i)
    ensures result == data
  {
    assert data[..|data|] == data && offset == |data|;
  }

  /** Stores a fragment, unless it is a duplicate; only a new one counts as a sign of life. */
  method AddFragment(p: Pending, res: Response, now: int, ghost data: Bytes, ghost got: set<int>) returns (p': Pending)
    requires res.Fragment?
    ensures p'.fragments == if res.i in p.fragments then p.fragments else p.fragments[res.i := res.d]
    ensures p'.firstFragmentAt == p.firstFragmentAt
    ensures p'.lastFragmentAt == if res.i in p.fragments then p.lastFragmentAt else now
    ensures FragmentOf(res, res.h, data) && Holding(p, data, got) ==> Holding(p', data, got + {res.i})
  {
    p' := p;
    if res.i !in p.fragments {
      p' := Pending(p.fragments[res.i := res.d], p.totalExpected, p.receivedBytes + |res.d|, p.firstFragmentAt, now);
    }
    if FragmentOf(res, res.h, data) && Holding(p, data, got) { HoldsOneMore(p, p', res, data, got); }
  }

  lemma HoldsOneMore(p: Pending, p': Pending, res: Response, data: Bytes, got: set<int>)
    requires FragmentOf(res, res.h, data) && Holding(p, data, got)
    requires if res.i in p.fragments then p' == p else
      && p'.fragments == p.fragments[res.i := res.d]
      && p'.totalExpected == p.totalExpected
      && p'.receivedBytes == p.receivedBytes + |res.d|
    ensures Holding(p', data, got + {res.i})
  {
    if res.i !in p.fragments { ReceivedMore(p.fragments, res.i, res.d, Count(data)); }
    assert p'.fragments.Keys == got + {res.i};
  }

  lemma FullWhenAllHeld(p: Pending, data: Bytes, got: set<int>)
    requires Holding(p, data, got)
    ensures |p.fragments| == p.totalExpected <==> got == Indexes(Count(data))
  {
    assert |p.fragments| == |p.fragments.Keys|;
    FullSet(got, Count(data));
  }

  /** The new state of one hash, None when its entry is removed, and the data if complete. */
  method Receive(had: Option<Pending>, res: Response, now: int, ghost data: Bytes)
    returns (has: Option<Pending>, r: Result<Option<Bytes>>)
    requires res.Fragment?
    ensures (FragmentOf(res, res.h, data) && (had.Some? ==> PartOf(had.value, data)) ==>
               && (has.Some? ==> PartOf(has.value, data))
               && Fed(Look(had), res.i, now, data, r, Look(has)))
  {
    var pending := if had.Some? then had.value else Pending(map[], res.n, 0, now, now);
    if had.None? { NothingReceived(Count(data)); }
    ghost var good := FragmentOf(res, res.h, data) && (had.Some? ==> PartOf(had.value, data));
    pending := AddFragment(pending, res, now, data, Indices(had));
    if good { FullWhenAllHeld(pending, data, Indices(had) + {res.i}); }
    if |pending.fragments| == pending.totalExpected {
      var whole := AssembleFragments(pending, data);
      return None, if whole.Ok? then Ok(Some(whole.value)) else Err;
    }
    return Some(pending), Ok(None);
  }

  /** What is kept for a hash: the indexes held, and the times of the first fragment and of the last
      new one. */
  datatype Seen = Seen(got: set<int>, first: int, last: int)

  const NOTHING := Seen({}, 0, 0)

  ghost function Look(had: Option<Pending>): Seen {
    if had.None? then NOTHING
    else Seen(had.value.fragments.Keys, had.value.firstFragmentAt, had.value.lastFragmentAt)
  }

  /** The indexes held for a hash. */
  ghost function Indices(had: Option<Pending>): set<int> {
    Look(had).got
  }

  /** What a genuine fragment that arrives now does, and what comes out. */
  ghost predicate Fed(s: Seen, i: int, now: int, data: Bytes, r: Result<Option<Bytes>>, s': Seen) {
    && Delivered(s.got, i, data, r, s'.got)
    && (s'.got == {} ==> s' == NOTHING)
    && (s'.got != {} ==> s' == Seen(s'.got, if s.got == {} then now else s.first, if i in s.got then s.last else now))
  }

  predicate StalePending(p: Pending, now: int) {
    now - p.lastFragmentAt > FRAGMENT_STALL_TIMEOUT || now - p.firstFragmentAt > FRAGMENT_TOTAL_TIMEOUT
  }

  ghost predicate IsOldest(pending: map<Hash, Pending>, h: Hash) {
    h in pending && forall k :: k in pending ==> pending[h].firstFragmentAt <= pending[k].firstFragmentAt
  }

  /** What is stale is gone; of more than 20 that remain, one oldest is gone too. */
  ghost predicate CleanedOf(was: map<Hash, Pending>, left: map<Hash, Pending>, now: int, evicted: Option<Hash>) {
    var kept := map h | h in was && !StalePending(was[h], now) :: was[h];
    && left == (if evicted.Some? then kept - {evicted.value} else kept)
    && (evicted.Some? <==> |kept| > MAX_PENDING_REASSEMBLIES)
    && (evicted.Some? ==> IsOldest(kept, evicted.value))
  }

  ghost predicate AllParts(pending: map<Hash, Pending>, content: map<Hash, Bytes>) {
    forall h :: h in pending && h in content ==> PartOf(pending[h], content[h])
  }

  function EntryOf(pending: map<Hash, Pending>, h: Hash): Option<Pending> {
    if h in pending then Some(pending[h]) else None
  }

  class Receiver {
    var pendingReassemblies: map<Hash, Pending>

    constructor ()
      ensures pendingReassemblies == map[]
    {
      pendingReassemblies := map[];
    }

    /** Everything pending is part of what the other side sends for that hash. */
    ghost predicate Valid(content: map<Hash, Bytes>)
      reads this
    {
      AllParts(pendingReassemblies, content)
    }

    function Entry(h: Hash): Option<Pending>
      reads this
    {
      EntryOf(pendingReassemblies, h)
    }

    /** handleFragmentResponse. What comes out is what was sent, and it comes out exactly when
        the last missing index arrives. */
    method HandleFragmentResponse(res: Response, now: int, ghost content: map<Hash, Bytes>)
      returns (r: Result<Option<Bytes>>)
      requires res.Fragment? && Valid(content)
      modifies this
      ensures pendingReassemblies - {res.h} == old(pendingReassemblies) - {res.h}
      ensures (res.h in content && FragmentOf(res, res.h, content[res.h]) ==>
                 Valid(content) && Fed(Look(old(Entry(res.h))), res.i, now, content[res.h], r, Look(Entry(res.h))))
    {
      ghost var data := if res.h in content then content[res.h] else [];
      var pending;
      pending, r := Receive(Entry(res.h), res, now, data);
      pendingReassemblies :=
        if pending.Some? then pendingReassemblies[res.h := pending.value] else pendingReassemblies - {res.h};
    }

    /** cleanupStaleReassemblies: what is stale goes; if more than 20 remain, one oldest goes too.
        Nothing else changes. */
    method Cleanup(now: int, ghost content: map<Hash, Bytes>) returns (ghost evicted: Option<Hash>)
      requires Valid(content)
      modifies this
      ensures Valid(content)
      ensures CleanedOf(old(pendingReassemblies), pendingReassemblies, now, evicted)
    {
      evicted := None;
      pendingReassemblies :=
        map h | h in pendingReassemblies && !StalePending(pendingReassemblies[h], now) :: pendingReassemblies[h];
      if |pendingReassemblies| > MAX_PENDING_REASSEMBLIES {
        var todo := pendingReassemblies.Keys;
        var oldest :| oldest in todo;
        while todo != {}
          invariant todo <= pendingReassemblies.Keys && oldest in pendingReassemblies
          invariant forall k :: k in pendingReassemblies && k !in todo ==>
                      pendingReassemblies[oldest].firstFragmentAt <= pendingReassemblies[k].firstFragmentAt
          decreases todo
        {
          var k :| k in todo;
          todo := todo - {k};
          if pendingReassemblies[k].firstFragmentAt < pendingReassemblies[oldest].firstFragmentAt { oldest := k; }
        }
        evicted := Some(oldest);
        pendingReassemblies := pendingReassemblies - {oldest};
      }
    }

    /** The stall timer of one of our requests. */
    method Forget(h: Hash, ghost content: map<Hash, Bytes>)
      requires Valid(content)
      modifies this
      ensures Valid(content) && pendingReassemblies == old(pendingReassemblies) - {h}
    {
      pendingReassemblies := pendingReassemblies - {h};
    }
  }

  lemma {:induction false} NothingReceived(n: nat)
    ensures Received(map[], n) == 0
  {
    if n > 0 { NothingReceived(n - 1); }
  }

  /** What a genuine fragment does to the set of indexes held, and what comes out. */
  ghost predicate Delivered(got: set<int>, i: int, data: Bytes, r: Result<Option<Bytes>>, got': set<int>) {
    if got + {i} == Indexes(Count(data)) then r == Ok(Some(data)) && got' == {} else r == Ok(None) && got' == got + {i}
  }

  // ---------------------------------------------------------------- runs

  /** What can happen to one hash: a genuine fragment arrives at some time, or the reassembly is
      dropped (by cleanup, eviction or a timer). */
  datatype Event = Arrive(i: int, at: int) | Drop

  /** The indexes held after a run; that a receiver holds them is in Replay. */
  function Held(run: seq<Event>, n: nat): set<int> {
    if run == [] then {}
    else
      var before := Held(run[..|run| - 1], n);
      match run[|run| - 1]
      case Arrive(i, _) => if before + {i} == Indexes(n) then {} else before + {i}
      case Drop => {}
  }

  /** The data comes out at the last event of the run. */
  predicate Completes(run: seq<Event>, n: nat) {
    run != [] && run[|run| - 1].Arrive? && Held(run[..|run| - 1], n) + {run[|run| - 1].i} == Indexes(n)
  }

  function Arrived(run: seq<Event>): set<int> {
    if run == [] then {}
    else Arrived(run[..|run| - 1]) + if run[|run| - 1].Arrive? then {run[|run| - 1].i} else {}
  }

  ghost predicate NoDrop(run: seq<Event>) {
    forall k :: 0 <= k < |run| ==> run[k].Arrive?
  }

  /** Without drops, in any order and with any duplicates, the data comes out for the first time
      exactly when the last missing index arrives. */
  lemma {:induction false} FirstCompletion(run: seq<Event>, n: nat)
    requires NoDrop(run) && run != [] && n > 0
    requires Arrived(run[..|run| - 1]) != Indexes(n) && Arrived(run) <= Indexes(n)
    ensures Completes(run, n) <==> Arrived(run) == Indexes(n)
    ensures !Completes(run, n) ==> Held(run, n) == Arrived(run)
  {
    var init := run[..|run| - 1];
    if init != [] {
      var before := init[..|init| - 1];
      assert Arrived(before) <= Arrived(init) <= Arrived(run) && Arrived(before) != Indexes(n);
      FirstCompletion(init, n);
    }
  }

  /** Whatever is dropped on the way, what is held arrived after the last drop; so when the data
      comes out, every index has arrived since. */
  lemma {:induction false} CompletionNeedsAll(run: seq<Event>, n: nat) returns (k: nat)
    ensures k <= |run| && NoDrop(run[k..]) && Held(run, n) <= Arrived(run[k..])
    ensures Completes(run, n) ==> Indexes(n) <= Arrived(run[k..])
  {
    if run == [] { return 0; }
    var init, last := run[..|run| - 1], run[|run| - 1];
    k := CompletionNeedsAll(init, n);
    if last.Arrive? {
      var recent := run[k..];
      assert recent[..|recent| - 1] == init[k..] && recent[|recent| - 1] == last;
      assert Arrived(recent) == Arrived(init[k..]) + {last.i};
      assert NoDrop(recent) by {
        forall j | 0 <= j < |recent|
          ensures recent[j].Arrive?
        {
          assert j < |recent| - 1 ==> recent[j] == init[k..][j];
        }
      }
    } else {
      k := |run|;
    }
  }

  // ---------------------------------------------------------------- times

  /** The first fragment of what is held: nothing was held before it, and something ever since. */
  ghost predicate IsFirst(run: seq<Event>, n: nat, k: nat) {
    && k < |run| && run[k].Arrive? && Held(run[..k], n) == {}
    && forall j :: k < j <= |run| ==> Held(run[..j], n) != {}
  }

  /** The last new index: all that came after it are duplicates. */
  ghost predicate IsLastNew(run: seq<Event>, n: nat, k: nat) {
    && k < |run| && run[k].Arrive? && run[k].i !in Held(run[..k], n)
    && forall j :: k < j < |run| ==> run[j].Arrive? && run[j].i in Held(run[..j], n)
  }

  lemma OnlyFirst(run: seq<Event>, n: nat, j: nat, k: nat)
    requires IsFirst(run, n, j) && IsFirst(run, n, k)
    ensures j == k
  {
  }

  lemma OnlyLast(run: seq<Event>, n: nat, j: nat, k: nat)
    requires IsLastNew(run, n, j) && IsLastNew(run, n, k)
    ensures j == k
  {
  }

  /** The indexes and the times are those of the hash's events. */
  ghost predicate Tracks(s: Seen, run: seq<Event>, n: nat) {
    && s.got == Held(run, n)
    && (s.got == {} ==> s == NOTHING)
    && (s.got != {} ==> FirstAt(run, n, s.first) && LastNewAt(run, n, s.last))
  }

  ghost predicate FirstAt(run: seq<Event>, n: nat, t: int) {
    exists k: nat :: IsFirst(run, n, k) && run[k].at == t
  }

  ghost predicate LastNewAt(run: seq<Event>, n: nat, t: int) {
    exists k: nat :: IsLastNew(run, n, k) && run[k].at == t
  }

  lemma Prefixes(run: seq<Event>, e: Event)
    ensures forall j :: 0 <= j <= |run| ==> (run + [e])[..j] == run[..j]
    ensures run[..|run|] == run
  {
  }

  lemma FirstStays(run: seq<Event>, e: Event, n: nat, t: int)
    requires FirstAt(run, n, t) && Held(run + [e], n) != {}
    ensures FirstAt(run + [e], n, t)
  {
    var k: nat :| IsFirst(run, n, k) && run[k].at == t;
    var all := run + [e];
    Prefixes(run, e);
    forall j | k < j <= |all| ensures Held(all[..j], n) != {} {
      if j == |all| { assert all[..j] == all; } else { assert all[..j] == run[..j]; }
    }
    assert all[..k] == run[..k];
    assert IsFirst(all, n, k);
  }

  lemma LastStays(run: seq<Event>, e: Event, n: nat, t: int)
    requires LastNewAt(run, n, t) && e.Arrive? && e.i in Held(run, n)
    ensures LastNewAt(run + [e], n, t)
  {
    var k: nat :| IsLastNew(run, n, k) && run[k].at == t;
    var all := run + [e];
    Prefixes(run, e);
    forall j | k < j < |all| ensures all[j].Arrive? && all[j].i in Held(all[..j], n) {
      assert all[..j] == run[..j];
    }
    assert all[..k] == run[..k];
    assert IsLastNew(all, n, k);
  }

  lemma FirstNow(run: seq<Event>, e: Event, n: nat)
    requires e.Arrive? && Held(run, n) == {} && Held(run + [e], n) != {}
    ensures FirstAt(run + [e], n, e.at)
  {
    var all := run + [e];
    Prefixes(run, e);
    assert all[..|all|] == all && all[..|run|] == run;
    assert IsFirst(all, n, |run|);
  }

  lemma LastNow(run: seq<Event>, e: Event, n: nat)
    requires e.Arrive? && e.i !in Held(run, n)
    ensures LastNewAt(run + [e], n, e.at)
  {
    var all := run + [e];
    Prefixes(run, e);
    assert all[..|run|] == run;
    assert IsLastNew(all, n, |run|);
  }

  lemma FedTracks(s: Seen, run: seq<Event>, data: Bytes, i: int, now: int, out: Result<Option<Bytes>>, s': Seen)
    requires Tracks(s, run, Count(data)) && Fed(s, i, now, data, out, s')
    ensures Tracks(s', run + [Arrive(i, now)], Count(data))
  {
    var n, e := Count(data), Arrive(i, now);
    HeldOneMore(run, e, n);
    if s'.got != {} {
      if s.got == {} { FirstNow(run, e, n); } else { FirstStays(run, e, n, s.first); }
      if i in s.got { LastStays(run, e, n, s.last); } else { LastNow(run, e, n); }
    }
  }

  lemma HeldOneMore(run: seq<Event>, e: Event, n: nat)
    ensures e.Drop? || Held(run, n) + {e.i} == Indexes(n) ==> Held(run + [e], n) == {}
    ensures e.Arrive? && Held(run, n) + {e.i} != Indexes(n) ==> Held(run + [e], n) == Held(run, n) + {e.i}
    ensures Completes(run + [e], n) <==> e.Arrive? && Held(run, n) + {e.i} == Indexes(n)
  {
    assert (run + [e])[..|run|] == run;
  }

  /** No new index has arrived for 5 seconds, or what is held is more than 2 minutes old. */
  ghost predicate Stalled(run: seq<Event>, n: nat, now: int) {
    || (exists k: nat :: IsLastNew(run, n, k) && now - run[k].at > 5_000)
    || (exists k: nat :: IsFirst(run, n, k) && now - run[k].at > 120_000)
  }

  predicate StaleSeen(s: Seen, now: int) {
    now - s.last > FRAGMENT_STALL_TIMEOUT || now - s.first > FRAGMENT_TOTAL_TIMEOUT
  }

  lemma StaleExactly(s: Seen, run: seq<Event>, n: nat, now: int)
    requires Tracks(s, run, n) && s.got != {}
    ensures StaleSeen(s, now) <==> Stalled(run, n, now)
  {
    var f: nat :| IsFirst(run, n, f) && run[f].at == s.first;
    var l: nat :| IsLastNew(run, n, l) && run[l].at == s.last;
    forall k: nat | IsFirst(run, n, k) ensures k == f { OnlyFirst(run, n, f, k); }
    forall k: nat | IsLastNew(run, n, k) ensures k == l { OnlyLast(run, n, l, k); }
  }

  // ---------------------------------------------------------------- many hashes at once

  /** A genuine fragment comes, the timer of one of our requests runs out, or the cleanup runs. */
  datatype What = Came(h: Hash, i: int) | TimedOut(h: Hash) | CleanedUp

  /** What happened at one time, and the hashes whose reassembly was dropped then. */
  datatype Moment = Moment(now: int, what: What, gone: set<Hash>)

  /** The events of one hash, in a history that mixes many. */
  function Of(history: seq<Moment>, h: Hash): seq<Event> {
    if history == [] then [] else Of(history[..|history| - 1], h) + EventOf(history[|history| - 1], h)
  }

  function EventOf(m: Moment, h: Hash): seq<Event> {
    if m.what.Came? && m.what.h == h then [Arrive(m.what.i, m.now)] else if h in m.gone then [Drop] else []
  }

  lemma OneMore(history: seq<Moment>, m: Moment, h: Hash)
    ensures Of(history + [m], h) == Of(history, h) + EventOf(m, h)
  {
    assert (history + [m])[..|history|] == history;
  }

  /** Genuine fragments of known contents. */
  ghost predicate Genuine(what: What, content: map<Hash, Bytes>) {
    && (!what.CleanedUp? ==> what.h in content)
    && (what.Came? ==> |content[what.h]| > FRAGMENT_SIZE && 0 <= what.i < Count(content[what.h]))
  }

  /** What comes out at a moment: the data, exactly when it completes its own hash's run. */
  ghost predicate IsExpected(history: seq<Moment>, m: Moment, content: map<Hash, Bytes>, out: Result<Option<Bytes>>) {
    Genuine(m.what, content) &&
    if m.what.Came? && Completes(Of(history + [m], m.what.h), Count(content[m.what.h])) then
      out == Ok(Some(content[m.what.h]))
    else
      out == Ok(None)
  }

  ghost function HeldFor(history: seq<Moment>, content: map<Hash, Bytes>, h: Hash): set<int>
    requires h in content
  {
    Held(Of(history, h), Count(content[h]))
  }

  /** The hashes of which something is held that has not stalled. */
  ghost function Lively(history: seq<Moment>, now: int, content: map<Hash, Bytes>): set<Hash> {
    set h | h in content && HeldFor(history, content, h) != {} && !Stalled(Of(history, h), Count(content[h]), now)
  }

  /** The first fragment of h came no later than that of x. */
  ghost predicate NoLater(history: seq<Moment>, content: map<Hash, Bytes>, h: Hash, x: Hash)
    requires h in content && x in content
  {
    forall j: nat, k: nat ::
      IsFirst(Of(history, h), Count(content[h]), j) && IsFirst(Of(history, x), Count(content[x]), k) ==>
        Of(history, h)[j].at <= Of(history, x)[k].at
  }

  /** Only a cleanup and a timer drop anything. A cleanup drops what has stalled; and, if more than
      20 remain, one of those whose first fragment is the oldest. */
  ghost predicate DropsRight(history: seq<Moment>, m: Moment, content: map<Hash, Bytes>) {
    && (m.what.Came? ==> m.gone == {})
    && (m.what.TimedOut? ==> m.gone == {m.what.h})
    && (m.what.CleanedUp? ==> exists evicted :: CleansRight(history, m, content, evicted))
  }

  ghost predicate CleansRight(history: seq<Moment>, m: Moment, content: map<Hash, Bytes>, evicted: Option<Hash>) {
    var lively := Lively(history, m.now, content);
    && (forall h :: h in m.gone <==>
          h in content && HeldFor(history, content, h) != {} && (h !in lively || evicted == Some(h)))
    && (evicted.Some? <==> |lively| > 20)
    && (evicted.Some? ==> evicted.value in lively)
    && (evicted.Some? ==> forall x :: x in lively ==> NoLater(history, content, evicted.value, x))
  }

  // ---------------------------------------------------------------- a real receiver

  ghost function SeenOf(pending: map<Hash, Pending>, content: map<Hash, Bytes>): map<Hash, Seen> {
    map h | h in content :: Look(EntryOf(pending, h))
  }

  ghost function SeenBy(r: Receiver, content: map<Hash, Bytes>): map<Hash, Seen>
    reads r
  {
    SeenOf(r.pendingReassemblies, content)
  }

  /** What is kept for each hash is what that hash's own events left. */
  ghost predicate InStep(seen: map<Hash, Seen>, history: seq<Moment>, content: map<Hash, Bytes>) {
    seen.Keys == content.Keys && forall h :: h in content ==> Tracks(seen[h], Of(history, h), Count(content[h]))
  }

  /** What one moment does to all that is kept. */
  ghost predicate Does(seen: map<Hash, Seen>, m: Moment, content: map<Hash, Bytes>, out: Result<Option<Bytes>>,
                       seen': map<Hash, Seen>)
    requires seen.Keys == seen'.Keys == content.Keys && Genuine(m.what, content)
  {
    && (m.what.Came? ==> m.gone == {} && Fed(seen[m.what.h], m.what.i, m.now, content[m.what.h], out, seen'[m.what.h]))
    && (m.what.TimedOut? ==> m.gone == {m.what.h})
    && (!m.what.Came? ==> out == Ok(None))
    && (forall h :: h in content && !(m.what.Came? && m.what.h == h) ==>
          seen'[h] == if h in m.gone then NOTHING else seen[h])
  }

  lemma StaysInStep(history: seq<Moment>, m: Moment, content: map<Hash, Bytes>, seen: map<Hash, Seen>,
                    out: Result<Option<Bytes>>, seen': map<Hash, Seen>)
    requires Genuine(m.what, content) && InStep(seen, history, content) && seen'.Keys == content.Keys
    requires Does(seen, m, content, out, seen')
    ensures InStep(seen', history + [m], content) && IsExpected(history, m, content, out)
  {
    forall h | h in content ensures Tracks(seen'[h], Of(history + [m], h), Count(content[h])) {
      OneStays(history, m, content, seen, out, seen', h);
    }
    if m.what.Came? {
      var h := m.what.h;
      OneMore(history, m, h);
      HeldOneMore(Of(history, h), Arrive(m.what.i, m.now), Count(content[h]));
    }
  }

  lemma OneStays(history: seq<Moment>, m: Moment, content: map<Hash, Bytes>, seen: map<Hash, Seen>,
                 out: Result<Option<Bytes>>, seen': map<Hash, Seen>, h: Hash)
    requires Genuine(m.what, content) && InStep(seen, history, content) && seen'.Keys == content.Keys
    requires Does(seen, m, content, out, seen') && h in content
    ensures Tracks(seen'[h], Of(history + [m], h), Count(content[h]))
  {
    OneMore(history, m, h);
    if m.what.Came? && m.what.h == h {
      FedTracks(seen[h], Of(history, h), content[h], m.what.i, m.now, out, seen'[h]);
    } else if h in m.gone {
      HeldOneMore(Of(history, h), Drop, Count(content[h]));
    } else {
      assert Of(history, h) + [] == Of(history, h);
    }
  }

  /** What a cleanup takes away, by what is kept. */
  ghost predicate Sweeps(seen: map<Hash, Seen>, now: int, gone: set<Hash>, evicted: Option<Hash>) {
    var kept := set h | h in seen && seen[h].got != {} && !StaleSeen(seen[h], now);
    && (forall h :: h in gone <==> h in seen && seen[h].got != {} && (h !in kept || evicted == Some(h)))
    && (evicted.Some? <==> |kept| > MAX_PENDING_REASSEMBLIES)
    && (evicted.Some? ==> evicted.value in kept)
    && (evicted.Some? ==> forall x :: x in kept ==> seen[evicted.value].first <= seen[x].first)
  }

  lemma SweepsRight(history: seq<Moment>, m: Moment, content: map<Hash, Bytes>, seen: map<Hash, Seen>,
                    evicted: Option<Hash>)
    requires InStep(seen, history, content) && m.what.CleanedUp? && Sweeps(seen, m.now, m.gone, evicted)
    ensures DropsRight(history, m, content)
  {
    var kept := set h | h in seen && seen[h].got != {} && !StaleSeen(seen[h], m.now);
    forall h ensures h in kept <==> h in Lively(history, m.now, content) {
      if h in content && seen[h].got != {} { StaleExactly(seen[h], Of(history, h), Count(content[h]), m.now); }
    }
    assert kept == Lively(history, m.now, content);
    if evicted.Some? {
      forall x | x in kept ensures NoLater(history, content, evicted.value, x) {
        EarlierFirst(history, content, seen, evicted.value, x);
      }
    }
    assert CleansRight(history, m, content, evicted);
  }

  lemma EarlierFirst(history: seq<Moment>, content: map<Hash, Bytes>, seen: map<Hash, Seen>, h: Hash, x: Hash)
    requires InStep(seen, history, content) && h in content && x in content
    requires seen[h].got != {} && seen[x].got != {} && seen[h].first <= seen[x].first
    ensures NoLater(history, content, h, x)
  {
    var rh, rx, n, n' := Of(history, h), Of(history, x), Count(content[h]), Count(content[x]);
    var f: nat :| IsFirst(rh, n, f) && rh[f].at == seen[h].first;
    var g: nat :| IsFirst(rx, n', g) && rx[g].at == seen[x].first;
    forall j: nat, k: nat | IsFirst(rh, n, j) && IsFirst(rx, n', k) ensures rh[j].at <= rx[k].at {
      OnlyFirst(rh, n, f, j);
      OnlyFirst(rx, n', g, k);
    }
  }

  /** Only hashes of known contents are pending. */
  ghost predicate Known(r: Receiver, content: map<Hash, Bytes>)
    reads r
  {
    r.Valid(content) && r.pendingReassemblies.Keys <= content.Keys
  }

  lemma CameDoes(was: map<Hash, Pending>, left: map<Hash, Pending>, h: Hash, i: int, now: int,
                 content: map<Hash, Bytes>, out: Result<Option<Bytes>>)
    requires left - {h} == was - {h}
    requires was.Keys <= content.Keys && Genuine(Came(h, i), content)
    requires Fed(Look(EntryOf(was, h)), i, now, content[h], out, Look(EntryOf(left, h)))
    ensures left.Keys <= content.Keys
    ensures Does(SeenOf(was, content), Moment(now, Came(h, i), {}), content, out, SeenOf(left, content))
  {
    forall x | x in content && x != h ensures EntryOf(left, x) == EntryOf(was, x) {
      assert x in left <==> x in left - {h};
      assert x in was <==> x in was - {h};
    }
    assert left.Keys <= (left - {h}).Keys + {h};
  }

  lemma OthersStay(was: map<Hash, Pending>, left: map<Hash, Pending>, gone: set<Hash>, content: map<Hash, Bytes>)
    requires left == was - gone
    ensures forall h :: h in content ==>
              SeenOf(left, content)[h] == if h in gone then NOTHING else SeenOf(was, content)[h]
  {
  }

  function GenuineFragment(h: Hash, i: int, data: Bytes): (r: Response)
    requires |data| > FRAGMENT_SIZE && 0 <= i < Count(data)
    ensures r.Fragment? && r.h == h && r.i == i && FragmentOf(r, h, data)
  {
    Fragment(h, Piece(data, i), i, Count(data))
  }

  /** A genuine fragment comes to a real receiver. */
  method Come(r: Receiver, h: Hash, i: int, now: int, content: map<Hash, Bytes>) returns (out: Result<Option<Bytes>>)
    requires Genuine(Came(h, i), content) && Known(r, content)
    modifies r
    ensures Known(r, content)
    ensures Does(old(SeenBy(r, content)), Moment(now, Came(h, i), {}), content, out, SeenBy(r, content))
  {
    ghost var was := r.pendingReassemblies;
    out := r.HandleFragmentResponse(GenuineFragment(h, i, content[h]), now, content);
    CameDoes(was, r.pendingReassemblies, h, i, now, content, out);
  }

  /** The timer of one of our requests runs out. */
  method TimeOut(r: Receiver, h: Hash, now: int, content: map<Hash, Bytes>)
    requires h in content && Known(r, content)
    modifies r
    ensures Known(r, content)
    ensures Does(old(SeenBy(r, content)), Moment(now, TimedOut(h), {h}), content, Ok(None), SeenBy(r, content))
  {
    ghost var was := r.pendingReassemblies;
    r.Forget(h, content);
    OthersStay(was, r.pendingReassemblies, {h}, content);
  }

  /** The cleanup runs. */
  method CleanUp(r: Receiver, now: int, content: map<Hash, Bytes>)
    returns (ghost gone: set<Hash>, ghost evicted: Option<Hash>)
    requires Known(r, content)
    modifies r
    ensures Known(r, content)
    ensures Does(old(SeenBy(r, content)), Moment(now, CleanedUp, gone), content, Ok(None), SeenBy(r, content))
    ensures Sweeps(old(SeenBy(r, content)), now, gone, evicted)
  {
    ghost var was := r.pendingReassemblies;
    evicted := r.Cleanup(now, content);
    ghost var left := r.pendingReassemblies;
    gone := was.Keys - left.Keys;
    CleanedAway(was, left, now, evicted, gone);
    OthersStay(was, left, gone, content);
    NothingEmpty(was, content);
    SweptAway(was, left, now, evicted, gone, content, SeenOf(was, content));
  }

  lemma CleanedAway(was: map<Hash, Pending>, left: map<Hash, Pending>, now: int, evicted: Option<Hash>, gone: set<Hash>)
    requires CleanedOf(was, left, now, evicted) && gone == was.Keys - left.Keys
    ensures left == was - gone
  {
  }

  lemma NothingEmpty(pending: map<Hash, Pending>, content: map<Hash, Bytes>)
    requires AllParts(pending, content) && pending.Keys <= content.Keys
    ensures forall h :: h in pending ==> pending[h].fragments.Keys != {}
  {
    forall h | h in pending ensures pending[h].fragments.Keys != {} {
      assert PartOf(pending[h], content[h]);
    }
  }

  lemma SweptAway(was: map<Hash, Pending>, left: map<Hash, Pending>, now: int, evicted: Option<Hash>, gone: set<Hash>,
                  content: map<Hash, Bytes>, seen: map<Hash, Seen>)
    requires CleanedOf(was, left, now, evicted) && gone == was.Keys - left.Keys && was.Keys <= content.Keys == seen.Keys
    requires forall h :: h in content ==> seen[h] == Look(EntryOf(was, h))
    requires forall h :: h in was ==> was[h].fragments.Keys != {}
    ensures Sweeps(seen, now, gone, evicted)
  {
    var kept := set h | h in seen && seen[h].got != {} && !StaleSeen(seen[h], now);
    var young := map h | h in was && !StalePending(was[h], now) :: was[h];
    assert young.Keys == kept;
    assert |young| == |young.Keys|;
  }

  /** One moment at a real receiver. */
  method OneMoment(r: Receiver, what: What, now: int, content: map<Hash, Bytes>)
    returns (out: Result<Option<Bytes>>, ghost gone: set<Hash>, ghost evicted: Option<Hash>)
    requires Genuine(what, content) && Known(r, content)
    modifies r
    ensures Known(r, content)
    ensures Does(old(SeenBy(r, content)), Moment(now, what, gone), content, out, SeenBy(r, content))
    ensures what.CleanedUp? ==> Sweeps(old(SeenBy(r, content)), now, gone, evicted)
  {
    gone, evicted, out := {}, None, Ok(None);
    match what {
      case Came(h, i) => out := Come(r, h, i, now, content);
      case TimedOut(h) =>
        TimeOut(r, h, now, content);
        gone := {h};
      case CleanedUp => gone, evicted := CleanUp(r, now, content);
    }
  }

  /** Every moment came out as expected, and dropped what it should. */
  ghost predicate AllRight(history: seq<Moment>, content: map<Hash, Bytes>, outs: seq<Result<Option<Bytes>>>) {
    && |history| == |outs|
    && forall k :: 0 <= k < |outs| ==> RightAt(history, content, outs, k)
  }

  ghost predicate RightAt(history: seq<Moment>, content: map<Hash, Bytes>, outs: seq<Result<Option<Bytes>>>, k: nat)
    requires k < |history| == |outs|
  {
    IsExpected(history[..k], history[k], content, outs[k]) && DropsRight(history[..k], history[k], content)
  }

  lemma AllRightOneMore(history: seq<Moment>, m: Moment, content: map<Hash, Bytes>, outs: seq<Result<Option<Bytes>>>,
                        out: Result<Option<Bytes>>)
    requires AllRight(history, content, outs)
    requires IsExpected(history, m, content, out) && DropsRight(history, m, content)
    ensures AllRight(history + [m], content, outs + [out])
  {
    var history', outs' := history + [m], outs + [out];
    forall k | 0 <= k < |outs'| ensures RightAt(history', content, outs', k) {
      assert history'[..k] == history[..k];
      if k < |outs| {
        assert RightAt(history, content, outs, k);
      } else {
        assert history[..k] == history && history'[k] == m;
      }
    }
  }

  /** The history is that of what happened so far, at the times it happened. */
  ghost predicate Follows(history: seq<Moment>, run: seq<(int, What)>) {
    |history| <= |run| && forall k :: 0 <= k < |history| ==> (history[k].now, history[k].what) == run[k]
  }

  lemma FollowsOneMore(history: seq<Moment>, m: Moment, run: seq<(int, What)>)
    requires Follows(history, run) && |history| < |run| && (m.now, m.what) == run[|history|]
    ensures Follows(history + [m], run)
  {
  }

  method NextMoment(r: Receiver, now: int, what: What, content: map<Hash, Bytes>, ghost history: seq<Moment>)
    returns (out: Result<Option<Bytes>>, ghost m: Moment)
    requires Genuine(what, content) && Known(r, content) && InStep(SeenBy(r, content), history, content)
    modifies r
    ensures Known(r, content) && InStep(SeenBy(r, content), history + [m], content)
    ensures m.now == now && m.what == what
    ensures IsExpected(history, m, content, out) && DropsRight(history, m, content)
  {
    ghost var before := SeenBy(r, content);
    ghost var gone, evicted;
    out, gone, evicted := OneMoment(r, what, now, content);
    m := Moment(now, what, gone);
    ghost var after := SeenBy(r, content);
    StaysInStep(history, m, content, before, out, after);
    if what.CleanedUp? { SweepsRight(history, m, content, before, evicted); }
  }

  /** Every interleaving of fragments of many hashes, with duplicates, timers and cleanups at any
      times, at a real receiver: the data comes out exactly when its hash's own run completes, and
      only what a timer or a cleanup should drop is dropped. */
  method Replay(run: seq<(int, What)>, content: map<Hash, Bytes>)
    returns (outs: seq<Result<Option<Bytes>>>, ghost history: seq<Moment>)
    requires forall k :: 0 <= k < |run| ==> Genuine(run[k].1, content)
    ensures |history| == |run| && Follows(history, run)
    ensures AllRight(history, content, outs)
  {
    var r := new Receiver();
    outs, history := [], [];
    for k := 0 to |run|
      invariant |history| == k && Follows(history, run)
      invariant Known(r, content) && InStep(SeenBy(r, content), history, content)
      invariant AllRight(history, content, outs)
    {
      var out;
      ghost var m;
      out, m := NextMoment(r, run[k].0, run[k].1, content, history);
      AllRightOneMore(history, m, content, outs, out);
      FollowsOneMore(history, m, run);
      outs, history := outs + [out], history + [m];
    }
  }
}
