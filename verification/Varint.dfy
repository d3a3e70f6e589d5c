/** The variable-length integers of the graph's binary format: written as unsigned 32-bit
    values, read back with signed 32-bit operators. */
module Varint {
  import opened Bytes

  const WORD := 0x1_0000_0000
  const SIGN := 0x8000_0000

  /** v >>> 0 */
  function Unsigned(v: int): (r: nat)
    ensures r < WORD && (0 <= v < WORD ==> r == v)
    decreases if v < 0 then WORD - v else v
  {
    if v < 0 then Unsigned(v + WORD) else if v >= WORD then Unsigned(v - WORD) else v
  }

  /** n & 0x7f */
  function Low(n: nat): (r: nat)
    ensures r < 0x80
  {
    if n < 0x80 then n else Low(n - 0x80)
  }

  /** n >>> 7 */
  function High(n: nat): (r: nat)
    ensures n == 0x80 * r + Low(n)
  {
    if n < 0x80 then 0 else 1 + High(n - 0x80)
  }

  /** A 32-bit pattern read as a signed integer. */
  function Signed(n: nat): int
    requires n < WORD
  {
    if n < SIGN then n else n - WORD
  }

  function EncodeUnsigned(n: nat): (r: Bytes)
    ensures r != []
  {
    if n >= 0x80 then [Low(n) + 0x80] + EncodeUnsigned(High(n)) else [n]
  }

  /** What writeVar writes. */
  function Encode(v: int): Bytes {
    EncodeUnsigned(Unsigned(v))
  }

  /** What groups of seven bits stand for, the lowest first. */
  function Groups(b: Bytes): nat {
    if b == [] then 0 else b[0] % 128 + 128 * Groups(b[1..])
  }

  /** The written bytes are the number's groups of seven bits, the lowest first; the eighth bit marks
      that more follow, and there are no more than needed. */
  lemma {:induction false} EncodedIsGroups(n: nat)
    ensures (var r := EncodeUnsigned(n);
             && Groups(r) == n && (|r| > 1 ==> r[|r| - 1] > 0)
             && forall i :: 0 <= i < |r| ==> (r[i] >= 128 <==> i < |r| - 1))
  {
    var r := EncodeUnsigned(n);
    if n >= 128 {
      EncodedIsGroups(High(n));
      var rest := EncodeUnsigned(High(n));
      assert r == [r[0]] + rest && r[1..] == rest;
      assert forall i :: 1 <= i < |r| ==> r[i] == rest[i - 1];
    } else {
      assert r[1..] == [];
    }
  }

  // ---------------------------------------------------------------- 32-bit operators

  /** n * 2^s */
  function Scale(n: nat, s: nat): nat {
    if s == 0 then n else 2 * Scale(n, s - 1)
  }

  /** The | operator on the low `bits` bits. */
  function Or(a: nat, b: nat, bits: nat): nat {
    if bits == 0 then 0
    else (if a % 2 == 1 || b % 2 == 1 then 1 else 0) + 2 * Or(a / 2, b / 2, bits - 1)
  }

  /** c << shift: JavaScript uses the shift count modulo 32. */
  function Shl(c: nat, shift: nat): nat {
    Scale(c, shift % 32) % WORD
  }

  lemma {:induction false} ScaleAdds(a: nat, b: nat, s: nat)
    ensures Scale(a + b, s) == Scale(a, s) + Scale(b, s)
  {
    if s > 0 { ScaleAdds(a, b, s - 1); }
  }

  lemma {:induction false} ScaleTwice(n: nat, s: nat)
    ensures Scale(2 * n, s) == Scale(n, s + 1)
  {
    if s > 0 { ScaleTwice(n, s - 1); }
  }

  /** One group of seven bits. */
  lemma ScaleGroup(n: nat, s: nat)
    ensures Scale(n, s) == Scale(Low(n), s) + Scale(High(n), s + 7)
  {
    var m := High(n);
    ScaleAdds(Low(n), 0x80 * m, s);
    ScaleTwice(64 * m, s); ScaleTwice(32 * m, s + 1); ScaleTwice(16 * m, s + 2); ScaleTwice(8 * m, s + 3);
    ScaleTwice(4 * m, s + 4); ScaleTwice(2 * m, s + 5); ScaleTwice(m, s + 6);
  }

  lemma {:induction false} ScaleMonotone(a: nat, b: nat, s: nat)
    requires a <= b
    ensures Scale(a, s) <= Scale(b, s) && Scale(b, s) >= b
  {
    if s > 0 { ScaleMonotone(a, b, s - 1); }
  }

  /** A positive value that fits in a word is shifted by less than a word. */
  lemma ShiftsWithin(n: nat, s: nat)
    requires n > 0 && Scale(n, s) < WORD
    ensures s < 32
  {
    ScaleMonotone(1, n, s);
    if s >= 32 { OnesGrow(s); }
  }

  lemma {:induction false} OnesGrow(s: nat)
    requires s >= 32
    ensures Scale(1, s) >= WORD
  {
    if s > 32 {
      OnesGrow(s - 1);
    } else {
      assert Scale(1, 8) == 0x100;
      Eight(1, 0); Eight(0x100, 8); Eight(0x1_0000, 16); Eight(0x100_0000, 24);
    }
  }

  lemma Eight(n: nat, s: nat)
    ensures Scale(n, 8) == 0x100 * n
    ensures Scale(1, s) == n ==> Scale(1, s + 8) == 0x100 * n
  {
    assert Scale(1, s + 8) == 2 * Scale(1, s + 7) == 4 * Scale(1, s + 6) == 8 * Scale(1, s + 5) == 16 * Scale(1, s + 4);
    assert Scale(1, s + 4) == 2 * Scale(1, s + 3) == 4 * Scale(1, s + 2) == 8 * Scale(1, s + 1) == 16 * Scale(1, s);
    assert Scale(n, 8) == 2 * Scale(n, 7) == 4 * Scale(n, 6) == 8 * Scale(n, 5) == 16 * Scale(n, 4);
    assert Scale(n, 4) == 2 * Scale(n, 3) == 4 * Scale(n, 2) == 8 * Scale(n, 1) == 16 * Scale(n, 0);
  }

  /** Bits that do not overlap add up. */
  lemma {:induction false} OrIsSum(a: nat, c: nat, s: nat, bits: nat)
    requires a < Scale(1, s) && a + Scale(c, s) < Scale(1, bits)
    ensures Or(a, Scale(c, s), bits) == a + Scale(c, s)
    decreases bits
  {
    if bits > 0 {
      if s == 0 {
        OrZero(c, bits);
      } else {
        assert Scale(c, s) == 2 * Scale(c, s - 1);
        OrIsSum(a / 2, c, s - 1, bits - 1);
      }
    }
  }

  lemma {:induction false} OrZero(c: nat, bits: nat)
    requires c < Scale(1, bits)
    ensures Or(0, c, bits) == c
  {
    if bits > 0 { OrZero(c / 2, bits - 1); }
  }

  // ---------------------------------------------------------------- decoding

  datatype Decoded = Decoded(value: int, bytesRead: nat)

  /** The loop of decodeVarint from byte i on, with the bits gathered so far. */
  function DecodeFrom(data: Bytes, i: nat, value: nat, shift: nat): (nat, nat)
    requires i <= |data|
    decreases |data| - i
  {
    if i == |data| then (value, i)
    else
      var value' := Or(value, Shl(Low(data[i]), shift), 32);
      if data[i] < 0x80 then (value', i + 1) else DecodeFrom(data, i + 1, value', shift + 7)
  }

  lemma {:induction false} OrWithin(a: nat, b: nat, bits: nat)
    ensures Or(a, b, bits) < Scale(1, bits)
  {
    if bits > 0 { OrWithin(a / 2, b / 2, bits - 1); }
  }

  lemma Word()
    ensures Scale(1, 32) == WORD
  {
    assert Scale(1, 8) == 0x100 by { Eight(1, 0); }
    Eight(0x100, 8); Eight(0x1_0000, 16); Eight(0x100_0000, 24);
  }

  method DecodeVarint(bytes: Bytes, offset: nat) returns (r: Decoded, ghost pattern: nat)
    ensures offset <= |bytes| ==> pattern < WORD && r.value == Signed(pattern)
    ensures offset <= |bytes| ==> DecodeFrom(bytes, offset, 0, 0) == (pattern, offset + r.bytesRead)
    ensures offset > |bytes| ==> r == Decoded(0, 0)
    ensures offset + r.bytesRead <= |bytes| || r.bytesRead == 0
    ensures -SIGN <= r.value < SIGN
  {
    var value: nat, shift, bytesRead := 0, 0, 0;
    var i := offset;
    Word();
    while i < |bytes|
      invariant offset <= |bytes| ==>
                  i <= |bytes| && DecodeFrom(bytes, offset, 0, 0) == DecodeFrom(bytes, i, value, shift)
      invariant value < WORD && bytesRead == i - offset && (offset > |bytes| ==> value == 0 && i == offset)
    {
      var byte := bytes[i];
      OrWithin(value, Shl(Low(byte), shift), 32);
      value := Or(value, Shl(Low(byte), shift), 32);
      bytesRead := bytesRead + 1;
      if byte < 0x80 {
        return Decoded(Signed(value), bytesRead), value;
      }
      shift := shift + 7;
      i := i + 1;
    }
    return Decoded(Signed(value), bytesRead), value;
  }

  /** `piece` stands in the data at `offset`. */
  predicate At(data: Bytes, offset: nat, piece: Bytes)
    decreases |piece|
  {
    if piece == [] then offset <= |data|
    else offset < |data| && data[offset] == piece[0] && At(data, offset + 1, piece[1..])
  }

  lemma {:induction false} AtIsSlice(data: Bytes, offset: nat, piece: Bytes)
    ensures At(data, offset, piece) <==> offset + |piece| <= |data| && data[offset..offset + |piece|] == piece
    decreases |piece|
  {
    if piece != [] {
      AtIsSlice(data, offset + 1, piece[1..]);
      assert piece == [piece[0]] + piece[1..];
      if offset + |piece| <= |data| {
        var slice := data[offset..offset + |piece|];
        assert slice == [data[offset]] + data[offset + 1..offset + |piece|];
        assert slice == piece ==> slice[1..] == piece[1..];
      }
    }
  }

  lemma {:induction false} AtParts(data: Bytes, offset: nat, a: Bytes, b: Bytes)
    ensures At(data, offset, a + b) <==> At(data, offset, a) && At(data, offset + |a|, b)
    decreases |a|
  {
    if a == [] {
      assert a + b == b;
      AtIsSlice(data, offset, b);
    } else {
      assert (a + b)[1..] == a[1..] + b;
      AtParts(data, offset + 1, a[1..], b);
    }
  }

  lemma ShlSmall(c: nat, shift: nat)
    requires shift < 32 && Scale(c, shift) < WORD
    ensures Shl(c, shift) == Scale(c, shift)
  {
  }

  lemma SumFits(a: nat, c: nat, shift: nat, bits: nat)
    requires shift < 32 && bits == 32 && a < Scale(1, shift) && a + Scale(c, shift) < WORD == Scale(1, bits)
    ensures Or(a, Shl(c, shift), bits) == a + Scale(c, shift)
  {
    OrIsSum(a, c, shift, bits);
    ShlSmall(c, shift);
  }

  lemma Split(data: Bytes, offset: nat, whole: Bytes, a: Bytes, b: Bytes)
    requires whole == a + b && At(data, offset, whole)
    ensures At(data, offset, a) && At(data, offset + |a|, b) && |whole| == |a| + |b|
  {
    AtParts(data, offset, a, b);
  }

  /** A group of seven bits lands beside the ones gathered, without overflow. */
  lemma GroupLands(n: nat, value: nat, shift: nat)
    requires n > 0 || shift == 0
    requires value < Scale(1, shift) && value + Scale(n, shift) < WORD
    ensures Or(value, Shl(Low(n), shift), 32) == value + Scale(Low(n), shift) < Scale(1, shift + 7)
    ensures Scale(n, shift) == Scale(Low(n), shift) + Scale(High(n), shift + 7)
  {
    Word();
    if n > 0 { ShiftsWithin(n, shift); }
    ScaleGroup(n, shift);
    GroupFits(value, Low(n), shift);
    SumFits(value, Low(n), shift, 32);
  }

  lemma FirstGroup(data: Bytes, i: nat, n: nat, value: nat, value': nat, shift: nat)
    requires At(data, i, EncodeUnsigned(n)) && value' == Or(value, Shl(Low(n), shift), 32)
    ensures i < |data|
    ensures DecodeFrom(data, i, value, shift) ==
            if n < 0x80 then (value', i + 1) else DecodeFrom(data, i + 1, value', shift + 7)
  {
    assert data[i] == EncodeUnsigned(n)[0];
    assert Low(data[i]) == Low(n) && (data[i] < 0x80 <==> n < 0x80);
  }

  lemma OneGroup(data: Bytes, i: nat, n: nat, value: nat, shift: nat)
    requires At(data, i, EncodeUnsigned(n)) && (n > 0 || shift == 0)
    requires value < Scale(1, shift) && value + Scale(n, shift) < WORD
    ensures i < |data|
    ensures (var value' := value + Scale(Low(n), shift);
             && value' < Scale(1, shift + 7)
             && if n < 0x80 then
                  Low(n) == n && |EncodeUnsigned(n)| == 1 && DecodeFrom(data, i, value, shift) == (value', i + 1)
                else
                  && Scale(n, shift) == Scale(Low(n), shift) + Scale(High(n), shift + 7)
                  && |EncodeUnsigned(n)| == 1 + |EncodeUnsigned(High(n))|
                  && At(data, i + 1, EncodeUnsigned(High(n)))
                  && DecodeFrom(data, i, value, shift) == DecodeFrom(data, i + 1, value', shift + 7))
  {
    var value' := value + Scale(Low(n), shift);
    GroupLands(n, value, shift);
    FirstGroup(data, i, n, value, value', shift);
    if n >= 0x80 {
      AtParts(data, i, [Low(n) + 0x80], EncodeUnsigned(High(n)));
    }
  }

  /** The loop puts back together what the encoder took apart. */
  lemma {:induction false} DecodeContinues(data: Bytes, i: nat, n: nat, value: nat, shift: nat)
    requires At(data, i, EncodeUnsigned(n)) && (n > 0 || shift == 0)
    requires value < Scale(1, shift) && value + Scale(n, shift) < WORD
    ensures DecodeFrom(data, i, value, shift) == (value + Scale(n, shift), i + |EncodeUnsigned(n)|)
    decreases n
  {
    OneGroup(data, i, n, value, shift);
    if n >= 0x80 {
      DecodeContinues(data, i + 1, High(n), value + Scale(Low(n), shift), shift + 7);
    }
  }

  lemma {:induction false} ScaleZero(s: nat)
    ensures Scale(0, s) == 0
  {
    if s > 0 { ScaleZero(s - 1); }
  }

  lemma GroupFits(value: nat, c: nat, shift: nat)
    requires value < Scale(1, shift) && c < 0x80
    ensures value + Scale(c, shift) < Scale(1, shift + 7)
  {
    ScaleMonotone(c, 0x7F, shift);
    ScaleAdds(0x7F, 1, shift);
    ScaleGroup(0x80, shift);
    ScaleZero(shift);
  }

  /** Exactly the values of a signed 32-bit integer survive: an id, count or timestamp of 2^31
      or more comes back negative. */
  lemma RoundTripExactly(data: Bytes, offset: nat, v: int)
    requires At(data, offset, Encode(v))
    ensures (var (pattern, end) := DecodeFrom(data, offset, 0, 0);
             && end == offset + |Encode(v)| && pattern < WORD
             && (Signed(pattern) == v <==> -SIGN <= v < SIGN))
  {
    DecodeContinues(data, offset, Unsigned(v), 0, 0);
  }
}
