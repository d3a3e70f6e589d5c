/** Hexadecimal digits, and numbers padded to a fixed width. */
module Hex {
  import opened Bytes
  import opened Keys

  predicate LowerHexDigit(c: Unit) {
    0x30 <= c <= 0x39 || 0x61 <= c <= 0x66
  }

  predicate IsLowerHex(s: Str) {
    forall i :: 0 <= i < |s| ==> LowerHexDigit(s[i])
  }

  predicate HexDigit(c: Unit) {
    LowerHexDigit(c) || 0x41 <= c <= 0x46
  }

  function DigitValue(c: Unit): (r: nat)
    requires HexDigit(c)
    ensures r < 16
  {
    if c <= 0x39 then c - 0x30 else if c <= 0x46 then c - 0x41 + 10 else c - 0x61 + 10
  }

  function DigitOf(n: nat): (r: Unit)
    requires n < 16
    ensures LowerHexDigit(r)
  {
    if n < 10 then 0x30 + n else 0x61 + n - 10
  }

  /** n.toString(16).padStart(width, '0'), for n below 16^width. */
  function Padded(n: nat, width: nat): (r: Str)
    ensures |r| == width && IsLowerHex(r)
  {
    if width == 0 then [] else Padded(n / 16, width - 1) + [DigitOf(n % 16)]
  }

  function Pow16(width: nat): nat {
    if width == 0 then 1 else 16 * Pow16(width - 1)
  }

  /** The number that hexadecimal digits stand for. */
  function Value(s: Str): nat
    requires forall i :: 0 <= i < |s| ==> HexDigit(s[i])
  {
    if s == [] then 0 else 16 * Value(s[..|s| - 1]) + DigitValue(s[|s| - 1])
  }

  lemma {:induction false} PaddedValue(n: nat, width: nat)
    requires n < Pow16(width)
    ensures Value(Padded(n, width)) == n
  {
    if width > 0 {
      PaddedValue(n / 16, width - 1);
      var s := Padded(n, width);
      assert s[..|s| - 1] == Padded(n / 16, width - 1) && s[|s| - 1] == DigitOf(n % 16);
      assert DigitValue(DigitOf(n % 16)) == n % 16;
    }
  }

  /** n.toString(16).padStart(width, '0'), for any n: longer than the width where n needs it. */
  function PadStart(n: nat, width: nat): (r: Str)
    requires width > 0
    ensures |r| >= width && IsLowerHex(r)
    ensures Value(r) == n
    decreases n + width
  {
    if n < 16 && width == 1 then One(n)
    else
      var r := PadStart(n / 16, Max(1, width - 1)) + [DigitOf(n % 16)];
      assert r[..|r| - 1] == PadStart(n / 16, Max(1, width - 1));
      LowerDigit(n % 16);
      r
  }

  function One(n: nat): (r: Str)
    requires n < 16
    ensures |r| == 1 && IsLowerHex(r) && Value(r) == n
  {
    LowerDigit(n);
    assert [DigitOf(n)][..0] == [];
    [DigitOf(n)]
  }

  lemma LowerDigit(n: nat)
    requires n < 16
    ensures DigitValue(DigitOf(n)) == n
  {
  }

  /** Beyond the width there are no zeros in front. */
  lemma {:induction false} NoZerosBeyond(n: nat, width: nat)
    requires width > 0
    ensures |PadStart(n, width)| > width || (width == 1 && n > 0) ==> PadStart(n, width)[0] != 0x30
    decreases n + width
  {
    if !(n < 16 && width == 1) { NoZerosBeyond(n / 16, Max(1, width - 1)); }
  }

  /** No two numbers are written the same. */
  lemma PadStartIdentifies(a: nat, b: nat, width: nat)
    requires width > 0
    ensures PadStart(a, width) == PadStart(b, width) <==> a == b
  {
    assert Value(PadStart(a, width)) == a && Value(PadStart(b, width)) == b;
  }

  lemma {:induction false} LessFromShifts(x: Str, y: Str, s: Str, t: Str, j: nat)
    requires |x| == |y| && j <= |s| && j <= |t|
    ensures LessFrom(x + s, y + t, |x| + j) == LessFrom(s, t, j)
    decreases |s| - j
  {
    if j < |s| && j < |t| && s[j] == t[j] { LessFromShifts(x, y, s, t, j + 1); }
  }

  lemma {:induction false} LessFromSplits(x: Str, y: Str, s: Str, t: Str, i: nat)
    requires i <= |x| == |y|
    ensures LessFrom(x + s, y + t, i) <==> LessFrom(x, y, i) || (x[i..] == y[i..] && Less(s, t))
    decreases |x| - i
  {
    if i == |x| {
      LessFromShifts(x, y, s, t, 0);
    } else if x[i] == y[i] {
      LessFromSplits(x, y, s, t, i + 1);
      assert x[i..] == [x[i]] + x[i + 1..] && y[i..] == [y[i]] + y[i + 1..];
    } else {
      assert x[i..][0] != y[i..][0];
    }
  }

  /** Strings of one length decide before what follows them. */
  lemma LessSplits(x: Str, y: Str, s: Str, t: Str)
    requires |x| == |y|
    ensures Less(x + s, y + t) <==> Less(x, y) || (x == y && Less(s, t))
  {
    LessFromSplits(x, y, s, t, 0);
    assert x[0..] == x && y[0..] == y;
  }

  /** A common prefix does not matter. */
  lemma LessAfterPrefix(p: Str, s: Str, t: Str)
    ensures Less(p + s, p + t) <==> Less(s, t)
  {
    LessSplits(p, p, s, t);
    LessIsStrictTotalOrder();
  }

  lemma {:induction false} PaddedLess(a: nat, b: nat, width: nat)
    requires a < b < Pow16(width)
    ensures Less(Padded(a, width), Padded(b, width))
  {
    if width > 0 {
      var x, y := Padded(a / 16, width - 1), Padded(b / 16, width - 1);
      var c, d := [DigitOf(a % 16)], [DigitOf(b % 16)];
      LessSplits(x, y, c, d);
      if a / 16 < b / 16 {
        PaddedLess(a / 16, b / 16, width - 1);
      } else {
        assert a / 16 == b / 16 && a % 16 < b % 16;
        DigitsLess(a % 16, b % 16);
      }
    }
  }

  lemma DigitsLess(a: nat, b: nat)
    requires a < b < 16
    ensures Less([DigitOf(a)], [DigitOf(b)])
  {
  }

  /** Fixed width makes the order of strings the order of numbers. */
  lemma PaddedOrder(a: nat, b: nat, width: nat)
    requires a < Pow16(width) && b < Pow16(width)
    ensures Less(Padded(a, width), Padded(b, width)) <==> a < b
    ensures Padded(a, width) == Padded(b, width) <==> a == b
  {
    LessIsStrictTotalOrder();
    if a < b { PaddedLess(a, b, width); }
    if b < a { PaddedLess(b, a, width); }
  }
}
