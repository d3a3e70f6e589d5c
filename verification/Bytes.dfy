/** Byte strings and their ranges. */
module Bytes {
  import opened Directory

  type Byte = b: int | 0 <= b < 0x100

  type Bytes = seq<Byte>

  datatype Result<+T> = Ok(value: T) | Err

  function Min(a: int, b: int): int {
    if a <= b then a else b
  }

  function Max(a: int, b: int): int {
    if a >= b then a else b
  }

  function Flatten<T>(parts: seq<seq<T>>): seq<T> {
    if parts == [] then [] else parts[0] + Flatten(parts[1..])
  }

  lemma {:induction false} FlattenAppend<T>(a: seq<seq<T>>, b: seq<seq<T>>)
    ensures Flatten(a + b) == Flatten(a) + Flatten(b)
  {
    if a == [] {
      assert a + b == b;
    } else {
      assert (a + b)[1..] == a[1..] + b;
      FlattenAppend(a[1..], b);
    }
  }

  lemma FlattenSnoc<T>(a: seq<seq<T>>, x: seq<T>)
    ensures Flatten(a + [x]) == Flatten(a) + x
  {
    FlattenAppend(a, [x]);
    assert [x][1..] == [] && Flatten([x]) == x + [];
  }

  /** The bytes from start up to, but not including, end; an absent end is the end of the data. */
  function Cut<T>(d: seq<T>, start: nat, end: Option<int>): seq<T> {
    var e := if end.Some? then Min(end.value, |d|) else |d|;
    if start >= e then [] else d[start..e]
  }

  function Shift(end: Option<int>, offset: int): Option<int> {
    if end.Some? then Some(end.value - offset) else None
  }

  lemma CutAppend<T>(x: seq<T>, y: seq<T>, start: nat, end: Option<int>)
    ensures Cut(x + y, start, end) == Cut(x, start, end) + Cut(y, Max(0, start - |x|), Shift(end, |x|))
  {
    var z := x + y;
    var e := if end.Some? then Min(end.value, |z|) else |z|;
    if start < e {
      if e <= |x| {
        assert z[start..e] == x[start..e];
      } else if start >= |x| {
        assert z[start..e] == y[start - |x|..e - |x|];
      } else {
        assert z[start..e] == x[start..] + y[..e - |x|];
      }
    }
  }

  /** Once end - start bytes are collected, nothing more can be. */
  lemma CutFull<T>(x: seq<T>, y: seq<T>, start: nat, end: int)
    requires |Cut(x, start, Some(end))| >= end - start
    ensures Cut(x + y, start, Some(end)) == Cut(x, start, Some(end))
  {
  }

  lemma CutLength<T>(x: seq<T>, start: nat, end: int)
    ensures |Cut(x, start, Some(end))| <= Max(0, end - start)
  {
  }

  /** The final copy of parts into one buffer. */
  method Concat(parts: seq<Bytes>) returns (result: Bytes)
    ensures result == Flatten(parts)
  {
    var totalLength := 0;
    for i := 0 to |parts|
      invariant totalLength == |Flatten(parts[..i])|
    {
      assert parts[..i + 1] == parts[..i] + [parts[i]];
      FlattenSnoc(parts[..i], parts[i]);
      totalLength := totalLength + |parts[i]|;
    }
    assert parts[..|parts|] == parts;
    var a := new Byte[totalLength](_ => 0);
    var offset := 0;
    for i := 0 to |parts|
      invariant offset == |Flatten(parts[..i])| <= totalLength
      invariant a[..offset] == Flatten(parts[..i])
    {
      assert parts[..i + 1] == parts[..i] + [parts[i]];
      FlattenSnoc(parts[..i], parts[i]);
      assert parts == parts[..i + 1] + parts[i + 1..];
      FlattenAppend(parts[..i + 1], parts[i + 1..]);
      Set(a, parts[i], offset);
      offset := offset + |parts[i]|;
    }
    result := a[..];
  }

  /** Uint8Array.set */
  method Set(a: array<Byte>, src: Bytes, at: nat)
    requires at + |src| <= a.Length
    modifies a
    ensures a[..] == old(a[..at]) + src + old(a[at + |src|..])
  {
    forall i | 0 <= i < |src| {
      a[at + i] := src[i];
    }
  }
}
