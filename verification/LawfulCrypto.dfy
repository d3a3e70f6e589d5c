/** That the laws assumed in FileStore can be met: one set of functions that satisfies them. */
module LawfulCrypto {
  import opened Directory
  import opened Bytes
  import opened FileStore

  // ---------------------------------------------------------------- numbers in unary

  function Unary(n: nat): (r: Bytes)
    ensures |r| == n + 1 && r[n] == 0 && forall i :: 0 <= i < n ==> r[i] == 1
  {
    if n == 0 then [0] else [1] + Unary(n - 1)
  }

  function Code(ns: seq<nat>): (r: Bytes)
    ensures r == [] <==> ns == []
    ensures r != [] ==> r[0] <= 1
  {
    if ns == [] then [] else
      assert Unary(ns[0])[0] <= 1;
      Unary(ns[0]) + Code(ns[1..])
  }

  lemma SameParts<T>(a: seq<T>, x: seq<T>, b: seq<T>, y: seq<T>)
    requires |a| == |b| && a + x == b + y
    ensures a == b && x == y
  {
    assert (a + x)[..|a|] == a && (b + y)[..|b|] == b;
    assert (a + x)[|a|..] == x && (b + y)[|b|..] == y;
  }

  lemma Regroup<T>(a: seq<T>, b: seq<T>, c: seq<T>)
    ensures (a + b) + c == a + (b + c)
  {
  }

  lemma {:induction false} UnaryEnds(n: nat, x: Bytes, m: nat, y: Bytes)
    requires Unary(n) + x == Unary(m) + y
    ensures n == m && x == y
    decreases n
  {
    var a, b := Unary(n) + x, Unary(m) + y;
    assert a[0] == Unary(n)[0] && b[0] == Unary(m)[0];
    if n == 0 {
      SameParts([0], x, [0], y);
    } else {
      Regroup([1], Unary(n - 1), x);
      Regroup([1], Unary(m - 1), y);
      SameParts([1], Unary(n - 1) + x, [1], Unary(m - 1) + y);
      UnaryEnds(n - 1, x, m - 1, y);
    }
  }

  lemma {:induction false} CodeIdentifies(ns: seq<nat>, ms: seq<nat>)
    requires Code(ns) == Code(ms)
    ensures ns == ms
  {
    if ns != [] {
      UnaryEnds(ns[0], Code(ns[1..]), ms[0], Code(ms[1..]));
      CodeIdentifies(ns[1..], ms[1..]);
      assert ns == [ns[0]] + ns[1..] && ms == [ms[0]] + ms[1..];
    }
  }

  // ---------------------------------------------------------------- links as numbers

  function Numbers(b: Bytes): (r: seq<nat>)
    ensures |r| == |b| && forall i :: 0 <= i < |b| ==> r[i] == b[i]
  {
    if b == [] then [] else [b[0]] + Numbers(b[1..])
  }

  /** A string with its length before it. */
  function Text(b: Bytes): seq<nat> {
    [|b|] + Numbers(b)
  }

  lemma TextEnds(b: Bytes, x: seq<nat>, c: Bytes, y: seq<nat>)
    requires Text(b) + x == Text(c) + y
    ensures b == c && x == y
  {
    var s, t := Text(b) + x, Text(c) + y;
    assert s[0] == |b| && t[0] == |c|;
    forall i | 0 <= i < |b| ensures b[i] == c[i] { assert s[1 + i] == b[i] && t[1 + i] == c[i]; }
    assert s[1 + |b|..] == x && t[1 + |c|..] == y;
  }

  function Key(k: Option<Hash>): seq<nat> {
    if k.None? then [0] else [1] + Text(k.value)
  }

  lemma KeyEnds(k: Option<Hash>, x: seq<nat>, l: Option<Hash>, y: seq<nat>)
    requires Key(k) + x == Key(l) + y
    ensures k == l && x == y
  {
    assert (Key(k) + x)[0] == Key(k)[0] && (Key(l) + y)[0] == Key(l)[0];
    if k.Some? {
      Regroup([1], Text(k.value), x);
      Regroup([1], Text(l.value), y);
      SameParts([1], Text(k.value) + x, [1], Text(l.value) + y);
      TextEnds(k.value, x, l.value, y);
    } else {
      SameParts([0], x, [0], y);
    }
  }

  function Head(l: Link): seq<nat> {
    [l.size, if l.blob then 1 else 0]
  }

  function OfLink(l: Link): seq<nat> {
    Head(l) + (Text(l.hash) + Key(l.key))
  }

  lemma LinkEnds(l: Link, x: seq<nat>, m: Link, y: seq<nat>)
    requires OfLink(l) + x == OfLink(m) + y
    ensures l == m && x == y
  {
    LinkParts(l, x);
    LinkParts(m, y);
    SameParts(Head(l), Text(l.hash) + (Key(l.key) + x), Head(m), Text(m.hash) + (Key(m.key) + y));
    assert Head(l)[0] == l.size && Head(m)[0] == m.size && Head(l)[1] == Head(m)[1];
    TextEnds(l.hash, Key(l.key) + x, m.hash, Key(m.key) + y);
    KeyEnds(l.key, x, m.key, y);
  }

  lemma LinkParts(l: Link, x: seq<nat>)
    ensures OfLink(l) + x == Head(l) + (Text(l.hash) + (Key(l.key) + x))
  {
    Regroup(Head(l), Text(l.hash) + Key(l.key), x);
    Regroup(Text(l.hash), Key(l.key), x);
  }

  function OfLinks(ls: seq<Link>): (r: seq<nat>)
    ensures r == [] <==> ls == []
  {
    if ls == [] then [] else OfLink(ls[0]) + OfLinks(ls[1..])
  }

  lemma {:induction false} LinksIdentified(ls: seq<Link>, ms: seq<Link>)
    requires OfLinks(ls) == OfLinks(ms)
    ensures ls == ms
  {
    if ls != [] {
      LinkEnds(ls[0], OfLinks(ls[1..]), ms[0], OfLinks(ms[1..]));
      LinksIdentified(ls[1..], ms[1..]);
      assert ls == [ls[0]] + ls[1..] && ms == [ms[0]] + ms[1..];
    }
  }

  function Encode(ls: seq<Link>): Bytes {
    Code(OfLinks(ls))
  }

  ghost predicate Encodes(ls: seq<Link>, b: Bytes) {
    Encode(ls) == b
  }

  ghost function Decode(b: Bytes): Option<seq<Link>> {
    if exists ls :: Encodes(ls, b) then var ls :| Encodes(ls, b); Some(ls) else None
  }

  /** With the identity as hash and cipher, and this codec, all laws hold. */
  lemma LawsCanBeMet() returns (c: Crypto)
    ensures Lawful(c)
    ensures exists data :: c.decode(data).None?
  {
    c := Crypto(b => b, b => b, (b, k) => Some(b), Encode, Decode);
    forall ls: seq<Link> ensures c.decode(c.encode(ls)) == Some(ls) {
      var b := Encode(ls);
      assert Encodes(ls, b);
      var ms := Decode(b).value;
      assert Encodes(ms, b);
      CodeIdentifies(OfLinks(ls), OfLinks(ms));
      LinksIdentified(ls, ms);
    }
    NotACode();
    assert c.decode([7]).None?;
  }

  /** Some bytes are no node. */
  lemma NotACode()
    ensures forall ls :: !Encodes(ls, [7])
  {
    forall ls ensures !Encodes(ls, [7]) {
      assert Encode(ls) != [] ==> Encode(ls)[0] <= 1;
    }
  }
}
