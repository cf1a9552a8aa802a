/** The byte-level delta format of bzrlib/_groupcompress_py.py: variable-length integers, copy
    and insert instructions, and the decoder.

    Each encoder and decoder is a method proved against a function on byte sequences; the round
    trips are lemmas about those functions.  Shifts are multiplications and divisions by powers
    of two, and `or` of disjoint bits is addition. */
module GroupCompressCodec {
  import opened Basics

  type Byte = x: int | 0 <= x < 256
  type Bytes = seq<Byte>

  datatype Error =
    | IndexError            // the bytes end inside a number or an instruction
    | NotACopy              // a copy instruction without bit 0x80
    | BadCopyLength         // a copy of length 0, above 64KiB, or without a length
    | CopyPastEnd           // a copy from beyond the end of the source
    | ZeroCommand           // command byte 0
    | WrongLength           // the result is not as long as the delta claims
    | StartsAfterSource     // a delta inside a source that ends before it
    | EndsAfterSource
    | StartsAfterItEnds


  /** A decoded part and the bytes after it. */
  datatype Parsed<+R> = Parsed(value: R, rest: Bytes)

  // ---------------------------------------------------------------------------
  // Integers, seven bits at a time
  // ---------------------------------------------------------------------------

  function Base128(val: nat): Bytes {
    if val >= 0x80 then [val % 0x80 + 0x80] + Base128(val / 0x80) else [val]
  }

  function ParseBase128(bytes: Bytes): Result<Parsed<nat>, Error> {
    if bytes == [] then Err(IndexError)
    else if bytes[0] < 0x80 then Ok(Parsed(bytes[0], bytes[1..]))
    else
      match ParseBase128(bytes[1..])
      case Ok(p) => Ok(Parsed(bytes[0] % 0x80 + 0x80 * p.value, p.rest))
      case Err(e) => Err(e)
  }

  lemma {:induction false} Base128RoundTrip(val: nat, rest: Bytes)
    ensures ParseBase128(Base128(val) + rest) == Ok(Parsed(val, rest))
  {
    if val >= 0x80 {
      Base128RoundTrip(val / 0x80, rest);
      assert (Base128(val) + rest)[1..] == Base128(val / 0x80) + rest;
    } else {
      assert (Base128(val) + rest)[1..] == rest;
    }
  }

  method EncodeBase128Int(val: nat) returns (bytes: Bytes)
    ensures bytes == Base128(val)
  {
    bytes := [];
    var v := val;
    while v >= 0x80
      invariant Base128(val) == bytes + Base128(v)
    {
      bytes := bytes + [v % 0x80 + 0x80];
      v := v / 0x80;
    }
    bytes := bytes + [v];
  }

  function Pow2(n: nat): nat {
    if n == 0 then 1 else 2 * Pow2(n - 1)
  }

  lemma Shift7(n: nat)
    ensures Pow2(n + 7) == 0x80 * Pow2(n)
  {
    assert Pow2(n + 7) == 2 * Pow2(n + 6) == 4 * Pow2(n + 5);
    assert Pow2(n + 5) == 2 * Pow2(n + 4) == 4 * Pow2(n + 3);
    assert Pow2(n + 3) == 2 * Pow2(n + 2) == 4 * Pow2(n + 1);
  }

  /** What remains to be added to a partly decoded integer. */
  ghost function Continued(val: nat, shift: nat, r: Result<Parsed<nat>, Error>): Result<Parsed<nat>, Error> {
    match r
    case Ok(p) => Ok(Parsed(val + p.value * Pow2(shift), p.rest))
    case Err(e) => Err(e)
  }

  lemma ContinueOne(val: nat, shift: nat, bytes: Bytes)
    requires bytes != [] && bytes[0] >= 0x80
    ensures Continued(val, shift, ParseBase128(bytes))
         == Continued(val + bytes[0] % 0x80 * Pow2(shift), shift + 7, ParseBase128(bytes[1..]))
  {
    hide Pow2;
    Shift7(shift);
    var r := ParseBase128(bytes[1..]);
    if r.Ok? { Distribute(bytes[0] % 0x80, r.value.value, Pow2(shift)); }
  }

  lemma Distribute(d: nat, v: nat, s: nat)
    ensures (d + 0x80 * v) * s == d * s + v * (0x80 * s)
  {
  }

  /** decode_base128_int: the value and how many bytes it took. */
  method DecodeBase128Int(bytes: Bytes) returns (r: Result<(nat, nat), Error>)
    ensures match ParseBase128(bytes)
            case Ok(p) => r.Ok? && r.value.0 == p.value && r.value.1 <= |bytes| && bytes[r.value.1..] == p.rest
            case Err(e) => r == Err(e)
  {
    var offset, val, shift := 0, 0, 0;
    if |bytes| == 0 { return Err(IndexError); }
    assert bytes[0..] == bytes;
    while bytes[offset] >= 0x80
      invariant 0 <= offset < |bytes| && val >= 0 && shift >= 0
      invariant Continued(0, 0, ParseBase128(bytes)) == Continued(val, shift, ParseBase128(bytes[offset..]))
      decreases |bytes| - offset
    {
      ContinueOne(val, shift, bytes[offset..]);
      assert bytes[offset..][1..] == bytes[offset + 1..];
      val := val + bytes[offset] % 0x80 * Pow2(shift);
      shift := shift + 7;
      offset := offset + 1;
      if offset == |bytes| { return Err(IndexError); }
    }
    assert bytes[offset..][1..] == bytes[offset + 1..];
    val := val + bytes[offset] * Pow2(shift);
    offset := offset + 1;
    return Ok((val, offset));
  }

  // ---------------------------------------------------------------------------
  // Copy instructions: only the bytes that are not zero are written
  // ---------------------------------------------------------------------------

  /** Which of the n low bytes of x are not zero, lowest first. */
  function Mask(x: nat, n: nat): nat {
    if n == 0 then 0 else (if x % 0x100 != 0 then 1 else 0) + 2 * Mask(x / 0x100, n - 1)
  }

  /** Those bytes. */
  function MaskedBytes(x: nat, n: nat): Bytes {
    if n == 0 then [] else (if x % 0x100 != 0 then [x % 0x100] else []) + MaskedBytes(x / 0x100, n - 1)
  }

  function Pow256(n: nat): nat {
    if n == 0 then 1 else 0x100 * Pow256(n - 1)
  }

  function CopyInstruction(offset: nat, length: nat): Bytes {
    CopyFits(offset, length);
    [0x80 + Mask(offset, 4) + 16 * Mask(length, 2)] + MaskedBytes(offset, 4) + MaskedBytes(length, 2)
  }

  /** Reading up to n bytes, lowest first, where the n low bits of the mask say which are present. */
  function ParseMasked(bytes: Bytes, mask: nat, n: nat): (r: Result<Parsed<nat>, Error>)
    ensures r.Ok? ==> |r.value.rest| <= |bytes|
    decreases n
  {
    if n == 0 then Ok(Parsed(0, bytes))
    else if mask % 2 == 1 then
      if bytes == [] then Err(IndexError)
      else
        match ParseMasked(bytes[1..], mask / 2, n - 1)
        case Ok(p) => Ok(Parsed(bytes[0] + 0x100 * p.value, p.rest))
        case Err(e) => Err(e)
    else
      match ParseMasked(bytes, mask / 2, n - 1)
      case Ok(p) => Ok(Parsed(0x100 * p.value, p.rest))
      case Err(e) => Err(e)
  }

  /** The offset and length of a copy instruction, after its command byte. */
  function ParseCopy(cmd: Byte, bytes: Bytes): Result<Parsed<(nat, nat)>, Error> {
    match ParseMasked(bytes, cmd, 4)
    case Err(e) => Err(e)
    case Ok(offset) =>
      match ParseMasked(offset.rest, cmd / 16, 3)
      case Err(e) => Err(e)
      case Ok(length) =>
        Ok(Parsed((offset.value, if length.value == 0 then 0x10000 else length.value), length.rest))
  }

  /** The number that the n low bytes of x spell. */
  ghost function LowBytes(x: nat, n: nat): nat {
    if n == 0 then 0 else x % 0x100 + 0x100 * LowBytes(x / 0x100, n - 1)
  }

  lemma MaskStep(x: nat, n: nat)
    requires n > 0
    ensures Mask(x, n) % 2 == (if x % 0x100 != 0 then 1 else 0) && Mask(x, n) / 2 == Mask(x / 0x100, n - 1)
  {
    hide MaskedBytes;
  }

  lemma MaskedBytesStep(x: nat, n: nat, rest: Bytes)
    requires n > 0
    ensures var b := MaskedBytes(x, n) + rest;
            if x % 0x100 != 0 then b != [] && b[0] == x % 0x100 && b[1..] == MaskedBytes(x / 0x100, n - 1) + rest
            else b == MaskedBytes(x / 0x100, n - 1) + rest
  {
    hide Mask;
    var b, high := MaskedBytes(x, n) + rest, MaskedBytes(x / 0x100, n - 1);
    if x % 0x100 != 0 {
      assert MaskedBytes(x, n) == [x % 0x100] + high;
      assert b[1..] == high + rest;
    } else {
      assert MaskedBytes(x, n) == high;
    }
  }

  lemma {:induction false} MaskedRoundTrip(x: nat, n: nat, rest: Bytes)
    ensures ParseMasked(MaskedBytes(x, n) + rest, Mask(x, n), n) == Ok(Parsed(LowBytes(x, n), rest))
  {
    hide Mask, MaskedBytes;
    if n == 0 {
      NoBytes(x, rest);
    } else {
      MaskStep(x, n);
      MaskedBytesStep(x, n, rest);
      MaskedRoundTrip(x / 0x100, n - 1, rest);
    }
  }

  lemma NoBytes(x: nat, rest: Bytes)
    ensures MaskedBytes(x, 0) + rest == rest
  {
  }

  lemma {:induction false} LowBytesIsRemainder(x: nat, n: nat)
    ensures Pow256(n) > 0 && LowBytes(x, n) == x % Pow256(n)
  {
    if n > 0 {
      LowBytesIsRemainder(x / 0x100, n - 1);
      Digit(x, Pow256(n - 1));
    }
  }

  lemma Digit(x: nat, m: nat)
    requires m > 0
    ensures x % (0x100 * m) == x % 0x100 + 0x100 * (x / 0x100 % m)
  {
    var q, r := x / 0x100, x % 0x100;
    var k, s := q / m, q % m;
    assert q == m * k + s;
    assert x == (0x100 * m) * k + (r + 0x100 * s) by { assert 0x100 * (m * k) == (0x100 * m) * k; }
    DivisionIsUnique(x, 0x100 * m, k, r + 0x100 * s);
  }

  lemma {:induction false} MaskBound(x: nat, n: nat)
    ensures Mask(x, n) < Pow2(n)
  {
    if n > 0 { MaskBound(x / 0x100, n - 1); }
  }

  lemma CopyFits(offset: nat, length: nat)
    ensures Mask(offset, 4) < 16 && Mask(length, 2) < 4
  {
    MaskBound(offset, 4);
    MaskBound(length, 2);
    assert Pow2(2) == 4 && Pow2(4) == 16;
  }

  /** A third length byte that is not marked as present adds nothing. */
  lemma {:induction false} UnmarkedBytes(bytes: Bytes, mask: nat, n: nat)
    requires mask < Pow2(n)
    ensures ParseMasked(bytes, mask, n + 1) == ParseMasked(bytes, mask, n)
  {
    if n == 0 {
      assert mask == 0;
    } else {
      if mask % 2 == 1 {
        if bytes != [] { UnmarkedBytes(bytes[1..], mask / 2, n - 1); }
      } else {
        UnmarkedBytes(bytes, mask / 2, n - 1);
      }
    }
  }

  /** Bits of the mask above the n low ones do not matter. */
  lemma {:induction false} HigherBits(bytes: Bytes, mask: nat, k: nat, n: nat)
    ensures ParseMasked(bytes, mask + Pow2(n) * k, n) == ParseMasked(bytes, mask, n)
  {
    hide Pow2, ParseMasked;
    if n > 0 {
      HalfOfHigher(mask, k, n);
      HigherBits(bytes, mask / 2, k, n - 1);
      if bytes != [] { HigherBits(bytes[1..], mask / 2, k, n - 1); }
      SameBit(bytes, mask + Pow2(n) * k, mask, n);
    } else {
      NoBitsRead(bytes, mask + Pow2(n) * k, mask);
    }
  }

  lemma SameBit(bytes: Bytes, m: nat, m': nat, n: nat)
    requires n > 0 && m % 2 == m' % 2 && ParseMasked(bytes, m / 2, n - 1) == ParseMasked(bytes, m' / 2, n - 1)
    requires bytes != [] ==> ParseMasked(bytes[1..], m / 2, n - 1) == ParseMasked(bytes[1..], m' / 2, n - 1)
    ensures ParseMasked(bytes, m, n) == ParseMasked(bytes, m', n)
  {
  }

  lemma NoBitsRead(bytes: Bytes, m: nat, m': nat)
    ensures ParseMasked(bytes, m, 0) == ParseMasked(bytes, m', 0)
  {
  }

  lemma HalfOfHigher(mask: nat, k: nat, n: nat)
    requires n > 0
    ensures (mask + Pow2(n) * k) % 2 == mask % 2 && (mask + Pow2(n) * k) / 2 == mask / 2 + Pow2(n - 1) * k
  {
    assert Pow2(n) * k == 2 * (Pow2(n - 1) * k);
  }

  /** Decoding an encoded copy gives the length back and the offset modulo 2^32, so exactly the
      offsets below 2^32 survive. */
  lemma CopyRoundTrip(offset: nat, length: nat, rest: Bytes)
    requires 0 < length <= 0x10000
    ensures var code := CopyInstruction(offset, length);
            && code[0] >= 0x80
            && ParseCopy(code[0], code[1..] + rest) == Ok(Parsed((offset % 0x1_0000_0000, length), rest))
    ensures offset % 0x1_0000_0000 == offset <==> offset < 0x1_0000_0000
  {
    hide Mask, MaskedBytes, ParseMasked, Pow2, Pow256, LowBytes;
    CopyFits(offset, length);
    var code := CopyInstruction(offset, length);
    var tail := MaskedBytes(length, 2) + rest;
    assert code[1..] + rest == MaskedBytes(offset, 4) + tail;
    assert code[0] == Mask(offset, 4) + 16 * (8 + Mask(length, 2)) && code[0] / 16 == Mask(length, 2) + 8;
    MaskedRoundTrip(offset, 4, tail);
    MaskedRoundTrip(length, 2, rest);
    SmallPowers();
    HigherBits(code[1..] + rest, Mask(offset, 4), 8 + Mask(length, 2), 4);
    HigherBits(tail, Mask(length, 2), 1, 3);
    UnmarkedBytes(tail, Mask(length, 2), 2);
    LowBytesIsRemainder(offset, 4);
    LowBytesIsRemainder(length, 2);
  }

  lemma SmallPowers()
    ensures Pow2(2) == 4 && Pow2(3) == 8 && Pow2(4) == 16 && Pow256(2) == 0x10000 && Pow256(4) == 0x1_0000_0000
  {
    assert Pow256(2) == 0x100 * Pow256(1) == 0x10000;
    assert Pow256(4) == 0x100 * Pow256(3) == 0x10000 * Pow256(2);
  }

  // ---------------------------------------------------------------------------
  // encode_copy_instruction and decode_copy_instruction
  // ---------------------------------------------------------------------------

  /** One of the two loops of the encoder: the bytes of value that are not zero, each with its bit. */
  method EncodeBytes(value: nat, firstBit: nat, n: nat) returns (bits: nat, bytes: Bytes)
    ensures bits == firstBit * Mask(value, n) && bytes == MaskedBytes(value, n)
  {
    hide Mask, MaskedBytes;
    bits, bytes := 0, [];
    var v: nat, bit: nat := value, firstBit;
    for k := 0 to n
      invariant firstBit * Mask(value, n) == bits + bit * Mask(v, n - k)
      invariant MaskedBytes(value, n) == bytes + MaskedBytes(v, n - k)
    {
      MaskStep(v, n - k);
      MaskedBytesStep(v, n - k, []);
      WeightedMask(v, n - k, bit);
      NothingAfter(MaskedBytes(v, n - k), MaskedBytes(v / 0x100, n - k - 1));
      var baseByte := v % 0x100;
      if baseByte != 0 {
        bits := bits + bit;
        bytes := bytes + [baseByte];
      }
      v := v / 0x100;
      bit := 2 * bit;
    }
    MaskEnds(v, bit);
  }

  lemma WeightedMask(v: nat, n: nat, bit: nat)
    requires n > 0
    ensures bit * Mask(v, n) == (if v % 0x100 != 0 then bit else 0) + 2 * bit * Mask(v / 0x100, n - 1)
  {
    var m := Mask(v / 0x100, n - 1);
    assert bit * (2 * m) == 2 * bit * m;
    assert bit * (1 + 2 * m) == bit + bit * (2 * m);
  }

  lemma NothingAfter(p: Bytes, q: Bytes)
    ensures p + [] == p && q + [] == q
  {
  }

  lemma MaskEnds(v: nat, bit: nat)
    ensures bit * Mask(v, 0) == 0 && MaskedBytes(v, 0) == []
  {
  }

  method EncodeCopyInstruction(offset: nat, length: Option<nat>) returns (r: Result<Bytes, Error>)
    ensures r == if length.Some? && 0 < length.value <= 0x10000 then Ok(CopyInstruction(offset, length.value))
                 else Err(BadCopyLength)
  {
    hide Mask, MaskedBytes;
    CopyFits(offset, if length.Some? then length.value else 0);
    var offsetBits, offsetBytes := EncodeBytes(offset, 1, 4);
    if length.None? || length.value > 0x10000 || length.value == 0 {
      return Err(BadCopyLength);
    }
    var lengthBits, lengthBytes := 0, [];
    if length.value != 0x10000 {
      // length bytes that are all zero mean 64KiB
      lengthBits, lengthBytes := EncodeBytes(length.value, 0x10, 2);
    } else {
      WholeLength();
    }
    return Ok([0x80 + offsetBits + lengthBits] + offsetBytes + lengthBytes);
  }

  lemma WholeLength()
    ensures Mask(0x10000, 2) == 0 && MaskedBytes(0x10000, 2) == []
  {
    assert Mask(0x100, 1) == 0 && MaskedBytes(0x100, 1) == [];
  }

  /** The byte that a bit of the command announces; 0 if the bit is not set. */
  method OptionalByte(bytes: Bytes, present: bool, pos: nat) returns (r: Result<(nat, nat), Error>)
    ensures r == if !present then Ok((0, pos)) else if pos < |bytes| then Ok((bytes[pos], pos + 1)) else Err(IndexError)
  {
    if present {
      if pos >= |bytes| { return Err(IndexError); }
      return Ok((bytes[pos], pos + 1));
    }
    return Ok((0, pos));
  }

  lemma BitsOf(cmd: Byte)
    ensures cmd / 2 / 2 == cmd / 4 && cmd / 4 / 2 == cmd / 8 && cmd / 16 / 2 == cmd / 32 && cmd / 32 / 2 == cmd / 64
  {
  }

  ghost function Plus(byte: nat, r: Result<Parsed<nat>, Error>): Result<Parsed<nat>, Error> {
    match r
    case Ok(p) => Ok(Parsed(byte + 0x100 * p.value, p.rest))
    case Err(e) => Err(e)
  }

  /** What OptionalByte reads is the next digit of ParseMasked. */
  lemma NextDigit(bytes: Bytes, mask: nat, n: nat, pos: nat)
    requires n > 0 && pos <= |bytes|
    ensures ParseMasked(bytes[pos..], mask, n) ==
      if mask % 2 == 0 then Plus(0, ParseMasked(bytes[pos..], mask / 2, n - 1))
      else if pos < |bytes| then Plus(bytes[pos], ParseMasked(bytes[pos + 1..], mask / 2, n - 1))
      else Err(IndexError)
  {
    if pos < |bytes| { assert bytes[pos..][1..] == bytes[pos + 1..]; }
  }

  lemma LastDigit(bytes: Bytes, mask: nat)
    ensures ParseMasked(bytes, mask, 0) == Ok(Parsed(0, bytes))
  {
  }

  method DecodeCopyInstruction(bytes: Bytes, cmd: Byte, pos: nat) returns (r: Result<(nat, nat, nat), Error>)
    requires pos <= |bytes|
    ensures cmd < 0x80 ==> r == Err(NotACopy)
    ensures cmd >= 0x80 ==>
      match ParseCopy(cmd, bytes[pos..])
      case Ok(p) => r.Ok? && (r.value.0, r.value.1) == p.value && pos <= r.value.2 <= |bytes| && bytes[r.value.2..] == p.rest
      case Err(e) => r == Err(e)
  {
    hide ParseMasked;
    if cmd / 0x80 % 2 != 1 {
      return Err(NotACopy);
    }
    var offset := DecodeOffset(bytes, cmd, pos);
    if offset.Err? { return Err(offset.error); }
    var length := DecodeLength(bytes, cmd, offset.value.1);
    if length.Err? { return Err(length.error); }
    return Ok((offset.value.0, if length.value.0 == 0 then 0x10000 else length.value.0, length.value.1));
  }

  /** Two optional bytes, lowest first. */
  method OptionalPair(bytes: Bytes, ghost mask: nat, ghost n: nat, present0: bool, present1: bool, pos: nat)
    returns (r: Result<(nat, nat), Error>)
    requires pos <= |bytes| && n >= 2 && present0 == (mask % 2 == 1) && present1 == (mask / 2 % 2 == 1)
    ensures r.Ok? ==> pos <= r.value.1 <= |bytes|
    ensures r.Err? ==> r == Err(IndexError)
    ensures ParseMasked(bytes[pos..], mask, n) ==
      match r
      case Ok(v) => PlusPair(v.0, ParseMasked(bytes[v.1..], mask / 2 / 2, n - 2))
      case Err(e) => Err(e)
  {
    hide ParseMasked;
    NextDigit(bytes, mask, n, pos);
    var b0 := OptionalByte(bytes, present0, pos);
    if b0.Err? { return Err(b0.error); }
    NextDigit(bytes, mask / 2, n - 1, b0.value.1);
    var b1 := OptionalByte(bytes, present1, b0.value.1);
    if b1.Err? { return Err(b1.error); }
    return Ok((b0.value.0 + 0x100 * b1.value.0, b1.value.1));
  }

  ghost function PlusPair(low: nat, r: Result<Parsed<nat>, Error>): Result<Parsed<nat>, Error> {
    match r
    case Ok(p) => Ok(Parsed(low + 0x10000 * p.value, p.rest))
    case Err(e) => Err(e)
  }

  method DecodeOffset(bytes: Bytes, cmd: Byte, pos: nat) returns (r: Result<(nat, nat), Error>)
    requires pos <= |bytes|
    ensures match ParseMasked(bytes[pos..], cmd, 4)
            case Ok(p) => r.Ok? && r.value.0 == p.value && pos <= r.value.1 <= |bytes| && bytes[r.value.1..] == p.rest
            case Err(e) => r == Err(e)
  {
    hide ParseMasked;
    BitsOf(cmd);
    var low := OptionalPair(bytes, cmd, 4, cmd % 2 == 1, cmd / 2 % 2 == 1, pos);
    if low.Err? { return low; }
    var high := OptionalPair(bytes, cmd / 4, 2, cmd / 4 % 2 == 1, cmd / 8 % 2 == 1, low.value.1);
    if high.Err? { return high; }
    LastDigit(bytes[high.value.1..], cmd / 4 / 2 / 2);
    return Ok((low.value.0 + 0x10000 * high.value.0, high.value.1));
  }

  method DecodeLength(bytes: Bytes, cmd: Byte, pos: nat) returns (r: Result<(nat, nat), Error>)
    requires pos <= |bytes|
    ensures match ParseMasked(bytes[pos..], cmd / 16, 3)
            case Ok(p) => r.Ok? && r.value.0 == p.value && pos <= r.value.1 <= |bytes| && bytes[r.value.1..] == p.rest
            case Err(e) => r == Err(e)
  {
    hide ParseMasked;
    BitsOf(cmd);
    var low := OptionalPair(bytes, cmd / 16, 3, cmd / 16 % 2 == 1, cmd / 32 % 2 == 1, pos);
    if low.Err? { return low; }
    NextDigit(bytes, cmd / 64, 1, low.value.1);
    var b2 := OptionalByte(bytes, cmd / 64 % 2 == 1, low.value.1);
    if b2.Err? { return b2; }
    LastDigit(bytes[b2.value.1..], cmd / 64 / 2);
    return Ok((low.value.0 + 0x10000 * b2.value.0, b2.value.1));
  }
}
