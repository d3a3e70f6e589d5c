/** Strings as JavaScript sees them (sequences of UTF-16 code units), the `<` order on them,
    and the two key encodings of the B-tree: name escaping and prefix increment. */
module Keys {

  type Unit = u: int | 0 <= u < 0x10000

  type Str = seq<Unit>

  const PERCENT: Unit := 0x25
  const SLASH: Unit := 0x2F
  const NUL: Unit := 0
  const MAX_UNIT: Unit := 0xFFFF

  /** The `<` operator on strings: lexicographic by code unit. */
  predicate Less(a: Str, b: Str) {
    LessFrom(a, b, 0)
  }

  predicate LessFrom(a: Str, b: Str, i: nat)
    requires i <= |a| && i <= |b|
    decreases |a| - i
  {
    i < |b| && (i == |a| || a[i] < b[i] || (a[i] == b[i] && LessFrom(a, b, i + 1)))
  }

  /** LessFrom finds the first difference at or after i. */
  lemma {:induction false} LessFromFirstDifference(a: Str, b: Str, i: nat)
    requires i <= |a| && i <= |b|
    ensures LessFrom(a, b, i) <==> exists j: nat :: i <= j && FirstDifference(a, b, i, j)
    decreases |a| - i
  {
    if i < |a| && i < |b| && a[i] == b[i] {
      LessFromFirstDifference(a, b, i + 1);
      if LessFrom(a, b, i + 1) {
        var j: nat :| i + 1 <= j && FirstDifference(a, b, i + 1, j);
        assert FirstDifference(a, b, i, j);
      }
      forall j: nat | i <= j && FirstDifference(a, b, i, j)
        ensures LessFrom(a, b, i + 1)
      {
        assert FirstDifference(a, b, i + 1, j);
      }
    } else if LessFrom(a, b, i) {
      assert FirstDifference(a, b, i, i);
    }
  }

  ghost predicate FirstDifference(a: Str, b: Str, i: nat, j: nat) {
    j <= |a| && j < |b| && (forall t :: i <= t < j ==> a[t] == b[t]) && (j == |a| || a[j] < b[j])
  }

  lemma {:induction false} LessFromTransitive(a: Str, b: Str, c: Str, i: nat)
    requires i <= |a| && i <= |b| && i <= |c|
    requires LessFrom(a, b, i) && LessFrom(b, c, i)
    ensures LessFrom(a, c, i)
    decreases |a| - i
  {
    if i < |a| && a[i] == b[i] == c[i] {
      LessFromTransitive(a, b, c, i + 1);
    }
  }

  lemma {:induction false} LessFromAsymmetric(a: Str, b: Str, i: nat)
    requires i <= |a| && i <= |b|
    ensures !(LessFrom(a, b, i) && LessFrom(b, a, i))
    decreases |a| - i
  {
    if i < |a| && i < |b| && a[i] == b[i] {
      LessFromAsymmetric(a, b, i + 1);
    }
  }

  lemma {:induction false} LessFromTotal(a: Str, b: Str, i: nat)
    requires i <= |a| && i <= |b| && a[..i] == b[..i]
    ensures a == b || LessFrom(a, b, i) || LessFrom(b, a, i)
    decreases |a| - i
  {
    if i < |a| && i < |b| && a[i] == b[i] {
      assert a[..i + 1] == a[..i] + [a[i]] == b[..i + 1];
      LessFromTotal(a, b, i + 1);
    } else if i == |a| == |b| {
      assert a == a[..i] == b[..i] == b;
    }
  }

  /** `<` is a strict total order: what the sorted directories and the routing both rely on. */
  lemma LessIsIrreflexive()
    ensures forall a: Str :: !Less(a, a)
  {
    forall a: Str ensures !Less(a, a) { LessFromAsymmetric(a, a, 0); }
  }

  lemma LessIsTransitive(a: Str, b: Str, c: Str)
    requires Less(a, b) && Less(b, c)
    ensures Less(a, c)
  {
    LessFromTransitive(a, b, c, 0);
  }

  lemma LessIsStrictTotalOrder()
    ensures forall a: Str, b: Str :: !(Less(a, b) && Less(b, a))
    ensures forall a: Str, b: Str :: a == b || Less(a, b) || Less(b, a)
    ensures forall a: Str, b: Str, c: Str :: Less(a, b) && Less(b, c) ==> Less(a, c)
  {
    forall a: Str, b: Str
      ensures !(Less(a, b) && Less(b, a))
      ensures a == b || Less(a, b) || Less(b, a)
    {
      LessFromAsymmetric(a, b, 0);
      LessFromTotal(a, b, 0);
    }
    forall a: Str, b: Str, c: Str | Less(a, b) && Less(b, c)
      ensures Less(a, c)
    {
      LessFromTransitive(a, b, c, 0);
    }
  }

  // ---------------------------------------------------------------- key escaping

  /** s.replace(/u/g, by) for a single code unit. */
  function ReplaceUnit(s: Str, u: Unit, rep: Str): Str {
    if s == [] then [] else (if s[0] == u then rep else [s[0]]) + ReplaceUnit(s[1..], u, rep)
  }

  datatype Code = SlashCode | NulCode | PercentCode

  /** The three patterns of unescapeKey; the first two are case-insensitive. */
  predicate Hits(c: Code, s: Str) {
    |s| >= 3 && s[0] == PERCENT &&
    match c
    case SlashCode => s[1] == 0x32 && (s[2] == 0x46 || s[2] == 0x66)
    case NulCode => s[1] == 0x30 && s[2] == 0x30
    case PercentCode => s[1] == 0x32 && s[2] == 0x35
  }

  function Meaning(c: Code): Unit {
    match c
    case SlashCode => SLASH
    case NulCode => NUL
    case PercentCode => PERCENT
  }

  /** s.replace(pattern, unit): leftmost, non-overlapping. */
  function ReplaceCode(s: Str, c: Code): Str {
    if s == [] then []
    else if Hits(c, s) then [Meaning(c)] + ReplaceCode(s[3..], c)
    else [s[0]] + ReplaceCode(s[1..], c)
  }

  function EscapeKey(key: Str): Str {
    var percents := ReplaceUnit(key, PERCENT, [0x25, 0x32, 0x35]);
    var slashes := ReplaceUnit(percents, SLASH, [0x25, 0x32, 0x46]);
    ReplaceUnit(slashes, NUL, [0x25, 0x30, 0x30])
  }

  function UnescapeKey(name: Str): Str {
    ReplaceCode(ReplaceCode(ReplaceCode(name, SlashCode), NulCode), PercentCode)
  }

  /** The key with '%' escaped, and '/' and NUL escaped on demand: the intermediate
      forms that both replace chains go through. */
  ghost function Partly(key: Str, slash: bool, nul: bool): Str {
    if key == [] then [] else PartlyUnit(key[0], slash, nul) + Partly(key[1..], slash, nul)
  }

  ghost function PartlyUnit(u: Unit, slash: bool, nul: bool): Str {
    if u == PERCENT then [0x25, 0x32, 0x35]
    else if u == SLASH && slash then [0x25, 0x32, 0x46]
    else if u == NUL && nul then [0x25, 0x30, 0x30]
    else [u]
  }

  lemma {:induction false} ReplaceUnitAppend(s: Str, t: Str, u: Unit, rep: Str)
    ensures ReplaceUnit(s + t, u, rep) == ReplaceUnit(s, u, rep) + ReplaceUnit(t, u, rep)
  {
    if s == [] {
      assert s + t == t;
    } else {
      assert (s + t)[1..] == s[1..] + t;
      ReplaceUnitAppend(s[1..], t, u, rep);
    }
  }

  lemma ReplaceUnitSmall(s: Str, u: Unit, rep: Str)
    requires 1 <= |s| <= 3
    requires forall i :: 0 <= i < |s| && s[i] == u ==> |s| == 1
    ensures ReplaceUnit(s, u, rep) == if s == [u] then rep else s
  {
    if |s| >= 2 {
      assert ReplaceUnit(s, u, rep) == [s[0]] + ReplaceUnit(s[1..], u, rep);
      assert ReplaceUnit(s[1..], u, rep) == [s[1]] + ReplaceUnit(s[1..][1..], u, rep);
      if |s| == 3 {
        assert ReplaceUnit(s[1..][1..], u, rep) == [s[2]] + ReplaceUnit([], u, rep);
      }
    }
  }

  lemma {:induction false} EscapeIsPartly(key: Str)
    ensures ReplaceUnit(key, PERCENT, [0x25, 0x32, 0x35]) == Partly(key, false, false)
    ensures ReplaceUnit(Partly(key, false, false), SLASH, [0x25, 0x32, 0x46]) == Partly(key, true, false)
    ensures ReplaceUnit(Partly(key, true, false), NUL, [0x25, 0x30, 0x30]) == Partly(key, true, true)
  {
    if key != [] {
      EscapeIsPartly(key[1..]);
      var u := key[0];
      ReplaceUnitAppend(PartlyUnit(u, false, false), Partly(key[1..], false, false), SLASH, [0x25, 0x32, 0x46]);
      ReplaceUnitSmall(PartlyUnit(u, false, false), SLASH, [0x25, 0x32, 0x46]);
      ReplaceUnitAppend(PartlyUnit(u, true, false), Partly(key[1..], true, false), NUL, [0x25, 0x30, 0x30]);
      ReplaceUnitSmall(PartlyUnit(u, true, false), NUL, [0x25, 0x30, 0x30]);
    }
  }

  /** An escaped unit is passed over, or decoded, as one piece: '%' only ever starts a code. */
  lemma ReplaceCodeStep(u: Unit, slash: bool, nul: bool, rest: Str, c: Code)
    requires c.SlashCode? ==> slash
    requires c.NulCode? ==> nul && !slash
    requires c.PercentCode? ==> !slash && !nul
    ensures u == Meaning(c) ==> ReplaceCode(PartlyUnit(u, slash, nul) + rest, c) == [u] + ReplaceCode(rest, c)
    ensures u != Meaning(c) ==>
              ReplaceCode(PartlyUnit(u, slash, nul) + rest, c) == PartlyUnit(u, slash, nul) + ReplaceCode(rest, c)
  {
    var p := PartlyUnit(u, slash, nul);
    var s := p + rest;
    if u == Meaning(c) {
      assert s[3..] == rest;
    } else if |p| == 1 {
      assert s[1..] == rest;
    } else {
      assert s[1..][1..][1..] == rest;
      assert ReplaceCode(s, c) == [p[0]] + ReplaceCode(s[1..], c);
      assert ReplaceCode(s[1..], c) == [p[1]] + ReplaceCode(s[1..][1..], c);
      assert ReplaceCode(s[1..][1..], c) == [p[2]] + ReplaceCode(s[1..][1..][1..], c);
    }
  }

  lemma {:induction false} UnescapeIsPartly(key: Str)
    ensures ReplaceCode(Partly(key, true, true), SlashCode) == Partly(key, false, true)
    ensures ReplaceCode(Partly(key, false, true), NulCode) == Partly(key, false, false)
    ensures ReplaceCode(Partly(key, false, false), PercentCode) == key
  {
    if key != [] {
      UnescapeIsPartly(key[1..]);
      var u := key[0];
      ReplaceCodeStep(u, true, true, Partly(key[1..], true, true), SlashCode);
      ReplaceCodeStep(u, false, true, Partly(key[1..], false, true), NulCode);
      ReplaceCodeStep(u, false, false, Partly(key[1..], false, false), PercentCode);
    }
  }

  /** The sequential replaces undo each other, so a stored name determines its key. */
  lemma EscapeRoundTrip(key: Str)
    ensures UnescapeKey(EscapeKey(key)) == key
  {
    EscapeIsPartly(key);
    UnescapeIsPartly(key);
  }

  /** Comparing escaped names, as the leaf lookup does, is comparing keys. */
  lemma EscapedNamesIdentifyKeys(a: Str, b: Str)
    ensures EscapeKey(a) == EscapeKey(b) <==> a == b
    ensures EscapeKey(a) == [] <==> a == []
  {
    EscapeRoundTrip(a);
    EscapeRoundTrip(b);
    EscapeRoundTrip([]);
  }

  lemma {:induction false} EscapedNameIsPathSafe(key: Str)
    ensures SLASH !in EscapeKey(key) && NUL !in EscapeKey(key)
  {
    EscapeIsPartly(key);
    if key != [] {
      EscapeIsPartly(key[1..]);
      EscapedNameIsPathSafe(key[1..]);
    }
  }

  // ---------------------------------------------------------------- prefixes

  /** String.fromCharCode wraps at 16 bits. */
  function IncrementPrefix(str: Str): Str {
    if |str| == 0 then str
    else str[..|str| - 1] + [(str[|str| - 1] as int + 1) % 0x10000]
  }

  predicate StartsWith(s: Str, p: Str) {
    |p| <= |s| && s[..|p|] == p
  }

  lemma {:induction false} SkipCommon(a: Str, b: Str, i: nat, n: nat)
    requires i <= n <= |a| && n <= |b| && a[i..n] == b[i..n]
    ensures LessFrom(a, b, i) == LessFrom(a, b, n)
    decreases n - i
  {
    if i < n {
      assert a[i] == a[i..n][0] == b[i..n][0] == b[i];
      assert a[i + 1..n] == a[i..n][1..] == b[i..n][1..] == b[i + 1..n];
      SkipCommon(a, b, i + 1, n);
    }
  }

  lemma ExtensionIsNotLess(p: Str, k: Str)
    requires StartsWith(k, p)
    ensures !Less(k, p)
  {
    SkipCommon(k, p, 0, |p|);
  }

  /** The half-open interval [p, IncrementPrefix(p)) is exactly the keys that start with p,
      if and only if p is non-empty and its last code unit can be incremented. */
  lemma PrefixIntervalExact(p: Str)
    ensures (forall k: Str :: (!Less(k, p) && Less(k, IncrementPrefix(p))) <==> StartsWith(k, p))
       <==> (p != [] && p[|p| - 1] < MAX_UNIT)
  {
    if p != [] && p[|p| - 1] < MAX_UNIT {
      forall k: Str
        ensures (!Less(k, p) && Less(k, IncrementPrefix(p))) <==> StartsWith(k, p)
      {
        PrefixInterval(p, k);
      }
    } else {
      // p itself starts with p, and is not below the wrapped (or empty) upper bound
      assert StartsWith(p, p);
      var e := IncrementPrefix(p);
      if p != [] {
        var n := |p| - 1;
        assert p[0..n] == e[0..n];
        SkipCommon(p, e, 0, n);
      }
      assert !Less(p, e);
    }
  }

  lemma PrefixInterval(p: Str, k: Str)
    requires p != [] && p[|p| - 1] < MAX_UNIT
    ensures (!Less(k, p) && Less(k, IncrementPrefix(p))) <==> StartsWith(k, p)
  {
    var n := |p| - 1;
    var e := IncrementPrefix(p);
    assert e[..n] == p[..n] && e[n] == p[n] + 1 && |e| == n + 1;
    if StartsWith(k, p) {
      ExtensionIsNotLess(p, k);
      assert k[0..n] == k[..|p|][..n] == p[..n] == e[0..n];
      SkipCommon(k, e, 0, n);
      assert k[n] == k[..|p|][n] == p[n];
    }
    if Less(k, e) && !Less(k, p) {
      LessFromFirstDifference(k, e, 0);
      var j: nat :| 0 <= j && FirstDifference(k, e, 0, j);
      assert k[0..j] == e[0..j] == e[..n][0..j] == p[0..j];
      SkipCommon(k, p, 0, j);
      assert j == n;
      assert k[..n + 1] == k[0..n] + [k[n]] == p[..n] + [p[n]] == p;
    }
  }
}
