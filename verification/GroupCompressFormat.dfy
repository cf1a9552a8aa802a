/** The delta format in plain terms, apart from how it is written and read: which bytes stand for a number, a
    copy and an insert, and where long copies and inserts are cut. */
module GroupCompressFormat {
  import opened Basics
  import opened GroupCompressCodec
  import opened GroupCompressDelta
  import opened GroupCompressIndex

  // ---------------------------------------------------------------------------
  // Numbers
  // ---------------------------------------------------------------------------

  /** Seven bits of each byte, lowest first. */
  ghost function Digits(bytes: Bytes): nat {
    if bytes == [] then 0 else bytes[0] % 0x80 + 0x80 * Digits(bytes[1..])
  }

  /** All bytes but the last have their high bit set, and no last byte is wasted. */
  ghost predicate Canonical(bytes: Bytes) {
    && bytes != []
    && (forall i :: 0 <= i < |bytes| - 1 ==> bytes[i] >= 0x80)
    && bytes[|bytes| - 1] < 0x80
    && (|bytes| > 1 ==> bytes[|bytes| - 1] != 0)
  }

  lemma CanonicalRest(bytes: Bytes)
    requires |bytes| > 1
    ensures Canonical(bytes) <==> bytes[0] >= 0x80 && Canonical(bytes[1..]) && bytes[1..] != [0]
  {
    var rest := bytes[1..];
    if bytes[0] >= 0x80 && Canonical(rest) {
      forall i | 0 <= i < |bytes| - 1 ensures bytes[i] >= 0x80 {
        if i > 0 { assert rest[i - 1] == bytes[i]; }
      }
    }
  }

  lemma {:induction false} CanonicalIsPositive(bytes: Bytes)
    requires Canonical(bytes) && bytes != [0]
    ensures Digits(bytes) > 0
  {
    if |bytes| > 1 {
      CanonicalRest(bytes);
      CanonicalIsPositive(bytes[1..]);
    } else {
      assert bytes[1..] == [];
      assert bytes == [bytes[0]];
    }
  }

  lemma {:induction false} WrittenIsCanonical(val: nat)
    ensures Canonical(Base128(val)) && Digits(Base128(val)) == val
  {
    hide Canonical;
    var bytes := Base128(val);
    if val >= 0x80 {
      WrittenIsCanonical(val / 0x80);
      assert bytes[1..] == Base128(val / 0x80);
      Base128NotZero(val / 0x80);
      CanonicalRest(bytes);
    } else {
      OneDigit(bytes);
    }
  }

  lemma {:induction false} CanonicalIsUnique(x: Bytes, y: Bytes)
    requires Canonical(x) && Canonical(y) && Digits(x) == Digits(y)
    ensures x == y
    decreases |x|
  {
    hide Canonical, Digits;
    OneDigit(x);
    OneDigit(y);
    LongIsLarge(x);
    LongIsLarge(y);
    if |x| > 1 {
      FirstDigit(x);
      FirstDigit(y);
      CanonicalIsUnique(x[1..], y[1..]);
      assert x == [x[0]] + x[1..] && y == [y[0]] + y[1..];
    }
  }

  /** With a canonical string of several bytes: the first byte and the rest can be told from the number. */
  lemma FirstDigit(x: Bytes)
    requires Canonical(x) && |x| > 1
    ensures x[0] == 0x80 + Digits(x) % 0x80 && Canonical(x[1..]) && Digits(x[1..]) == Digits(x) / 0x80
  {
    hide Canonical, Digits;
    CanonicalRest(x);
    DigitsUnfold(x);
    SplitDigit(x[0], Digits(x[1..]));
  }

  lemma DigitsUnfold(x: Bytes)
    requires x != []
    ensures Digits(x) == x[0] % 0x80 + 0x80 * Digits(x[1..])
  {
  }

  lemma SplitDigit(b: Byte, q: nat)
    requires b >= 0x80
    ensures b % 0x80 == b - 0x80
    ensures var v := b % 0x80 + 0x80 * q; v % 0x80 == b % 0x80 && v / 0x80 == q
  {
  }

  lemma LongIsLarge(x: Bytes)
    requires Canonical(x)
    ensures |x| > 0 && (|x| > 1 <==> Digits(x) >= 0x80)
  {
    OneDigit(x);
    if |x| > 1 {
      CanonicalRest(x);
      CanonicalIsPositive(x[1..]);
    }
  }

  /** The written number is the one canonical string that stands for it. */
  lemma Base128Is(val: nat, bytes: Bytes)
    ensures Canonical(bytes) && Digits(bytes) == val <==> bytes == Base128(val)
  {
    hide Canonical, Digits;
    WrittenIsCanonical(val);
    if Canonical(bytes) && Digits(bytes) == val { CanonicalIsUnique(bytes, Base128(val)); }
  }

  lemma Base128NotZero(val: nat)
    requires val > 0
    ensures Base128(val) != [0]
  {
  }

  lemma OneDigit(bytes: Bytes)
    ensures |bytes| == 1 ==> Digits(bytes) == bytes[0] % 0x80
    ensures |bytes| == 1 && Canonical(bytes) ==> Digits(bytes) == bytes[0] && bytes == [Digits(bytes)]
    ensures |bytes| == 1 && bytes[0] < 0x80 ==> Canonical(bytes)
  {
    if |bytes| == 1 { assert bytes[1..] == []; }
  }

  /** Reading takes the bytes up to the first without a high bit, canonical or not, and fails if there is none. */
  lemma {:induction false} NumberIsRead(bytes: Bytes, k: nat)
    requires k <= |bytes| && forall i :: 0 <= i < k ==> bytes[i] >= 0x80
    ensures k == |bytes| ==> ParseBase128(bytes) == Err(IndexError)
    ensures k < |bytes| && bytes[k] < 0x80 ==> ParseBase128(bytes) == Ok(Parsed(Digits(bytes[..k + 1]), bytes[k + 1..]))
  {
    if k > 0 {
      NumberIsRead(bytes[1..], k - 1);
      if k < |bytes| {
        assert bytes[..k + 1][1..] == bytes[1..][..k] && bytes[1..][k..] == bytes[k + 1..];
      }
    } else if k < |bytes| {
      assert bytes[..1] == [bytes[0]] && [bytes[0]][1..] == [];
    }
  }

  // ---------------------------------------------------------------------------
  // Copy instructions
  // ---------------------------------------------------------------------------

  /** Of four offset bytes and three length bytes those that the bits of the command announce. */
  ghost function Chosen(cmd: nat, b: Bytes): Bytes
    requires |b| == 7
  {
    (if cmd % 2 == 1 then [b[0]] else []) + ((if cmd / 2 % 2 == 1 then [b[1]] else [])
    + ((if cmd / 4 % 2 == 1 then [b[2]] else []) + ((if cmd / 8 % 2 == 1 then [b[3]] else [])
    + ((if cmd / 16 % 2 == 1 then [b[4]] else []) + ((if cmd / 32 % 2 == 1 then [b[5]] else [])
    + (if cmd / 64 % 2 == 1 then [b[6]] else []))))))
  }

  lemma MaskedByte(b: Byte, tail: Bytes, mask: nat, n: nat)
    requires n > 0
    ensures ParseMasked((if mask % 2 == 1 then [b] else []) + tail, mask, n) ==
      match ParseMasked(tail, mask / 2, n - 1)
      case Ok(p) => Ok(Parsed((if mask % 2 == 1 then b else 0) + 0x100 * p.value, p.rest))
      case Err(e) => Err(e)
  {
    var bytes := (if mask % 2 == 1 then [b] else []) + tail;
    if mask % 2 == 1 { assert bytes[1..] == tail; } else { assert bytes == tail; }
  }

  lemma NoMoreBytes(tail: Bytes, mask: nat)
    ensures ParseMasked(tail, mask, 0) == Ok(Parsed(0, tail))
  {
  }

  lemma FourBytes(b0: Byte, b1: Byte, b2: Byte, b3: Byte, cmd: nat, tail: Bytes)
    ensures ParseMasked((if cmd % 2 == 1 then [b0] else []) + ((if cmd / 2 % 2 == 1 then [b1] else [])
                      + ((if cmd / 4 % 2 == 1 then [b2] else []) + ((if cmd / 8 % 2 == 1 then [b3] else []) + tail))), cmd, 4) ==
      Ok(Parsed((if cmd % 2 == 1 then b0 else 0) + 0x100 * ((if cmd / 2 % 2 == 1 then b1 else 0)
              + 0x100 * ((if cmd / 4 % 2 == 1 then b2 else 0) + 0x100 * (if cmd / 8 % 2 == 1 then b3 else 0))), tail))
  {
    hide ParseMasked;
    var t3 := (if cmd / 8 % 2 == 1 then [b3] else []) + tail;
    var t2 := (if cmd / 4 % 2 == 1 then [b2] else []) + t3;
    var t1 := (if cmd / 2 % 2 == 1 then [b1] else []) + t2;
    NoMoreBytes(tail, cmd / 16);
    Halves(cmd);
    MaskedByte(b3, tail, cmd / 8, 1);
    MaskedByte(b2, t3, cmd / 4, 2);
    MaskedByte(b1, t2, cmd / 2, 3);
    MaskedByte(b0, t1, cmd, 4);
  }

  lemma Halves(cmd: nat)
    ensures cmd / 2 / 2 == cmd / 4 && cmd / 4 / 2 == cmd / 8 && cmd / 8 / 2 == cmd / 16
  {
  }

  lemma ThreeBytes(b0: Byte, b1: Byte, b2: Byte, cmd: nat, tail: Bytes)
    ensures ParseMasked((if cmd % 2 == 1 then [b0] else []) + ((if cmd / 2 % 2 == 1 then [b1] else [])
                      + ((if cmd / 4 % 2 == 1 then [b2] else []) + tail)), cmd, 3) ==
      Ok(Parsed((if cmd % 2 == 1 then b0 else 0) + 0x100 * ((if cmd / 2 % 2 == 1 then b1 else 0)
              + 0x100 * (if cmd / 4 % 2 == 1 then b2 else 0)), tail))
  {
    hide ParseMasked;
    var t2 := (if cmd / 4 % 2 == 1 then [b2] else []) + tail;
    var t1 := (if cmd / 2 % 2 == 1 then [b1] else []) + t2;
    NoMoreBytes(tail, cmd / 8);
    Halves(cmd);
    MaskedByte(b2, tail, cmd / 4, 1);
    MaskedByte(b1, t2, cmd / 2, 2);
    MaskedByte(b0, t1, cmd, 3);
  }

  lemma HighHalves(cmd: nat)
    ensures cmd / 16 / 2 == cmd / 32 && cmd / 16 / 4 == cmd / 64
  {
  }

  function ByteIf(announced: bool, b: Byte): nat {
    if announced then b else 0
  }

  /** Reading a copy: a byte that is not announced is 0, and a length of 0 stands for 64KiB. */
  lemma CopyIsRead(cmd: Byte, b: Bytes, rest: Bytes)
    requires |b| == 7 && cmd >= 0x80
    ensures var offset := ByteIf(cmd % 2 == 1, b[0]) + 0x100 * ByteIf(cmd / 2 % 2 == 1, b[1])
                        + 0x10000 * ByteIf(cmd / 4 % 2 == 1, b[2]) + 0x1000000 * ByteIf(cmd / 8 % 2 == 1, b[3]);
            var length := ByteIf(cmd / 16 % 2 == 1, b[4]) + 0x100 * ByteIf(cmd / 32 % 2 == 1, b[5])
                        + 0x10000 * ByteIf(cmd / 64 % 2 == 1, b[6]);
            ParseCopy(cmd, Chosen(cmd, b) + rest) == Ok(Parsed((offset, if length == 0 then 65536 else length), rest))
  {
    hide ParseMasked;
    var tail := (if cmd / 16 % 2 == 1 then [b[4]] else []) + ((if cmd / 32 % 2 == 1 then [b[5]] else [])
              + ((if cmd / 64 % 2 == 1 then [b[6]] else []) + rest));
    HighHalves(cmd);
    ThreeBytes(b[4], b[5], b[6], cmd / 16, rest);
    FourBytes(b[0], b[1], b[2], b[3], cmd, tail);
    ChosenAndRest(cmd, b, rest);
  }

  lemma ChosenAndRest(cmd: nat, b: Bytes, rest: Bytes)
    requires |b| == 7
    ensures Chosen(cmd, b) + rest ==
      (if cmd % 2 == 1 then [b[0]] else []) + ((if cmd / 2 % 2 == 1 then [b[1]] else [])
      + ((if cmd / 4 % 2 == 1 then [b[2]] else []) + ((if cmd / 8 % 2 == 1 then [b[3]] else [])
      + ((if cmd / 16 % 2 == 1 then [b[4]] else []) + ((if cmd / 32 % 2 == 1 then [b[5]] else [])
      + ((if cmd / 64 % 2 == 1 then [b[6]] else []) + rest))))))
  {
    var x6 := if cmd / 64 % 2 == 1 then [b[6]] else [];
    var x5 := if cmd / 32 % 2 == 1 then [b[5]] else [];
    var x4 := if cmd / 16 % 2 == 1 then [b[4]] else [];
    var x3 := if cmd / 8 % 2 == 1 then [b[3]] else [];
    var x2 := if cmd / 4 % 2 == 1 then [b[2]] else [];
    var x1 := if cmd / 2 % 2 == 1 then [b[1]] else [];
    var x0 := if cmd % 2 == 1 then [b[0]] else [];
    Shift(x5, x6, rest);
    Shift(x4, x5 + x6, rest);
    Shift(x3, x4 + (x5 + x6), rest);
    Shift(x2, x3 + (x4 + (x5 + x6)), rest);
    Shift(x1, x2 + (x3 + (x4 + (x5 + x6))), rest);
    Shift(x0, x1 + (x2 + (x3 + (x4 + (x5 + x6)))), rest);
  }

  lemma Shift(x: Bytes, y: Bytes, z: Bytes)
    ensures (x + y) + z == x + (y + z)
  {
  }

  function One(b: nat): nat {
    if b != 0 then 1 else 0
  }

  lemma MaskOfTwo(x: nat)
    ensures Mask(x, 2) == One(x % 0x100) + 2 * One(x / 0x100 % 0x100)
    ensures MaskedBytes(x, 2) == (if x % 0x100 != 0 then [x % 0x100] else [])
                               + (if x / 0x100 % 0x100 != 0 then [x / 0x100 % 0x100] else [])
  {
    NoMask(x / 0x100 / 0x100);
    MaskOne(x);
    MaskOne(x / 0x100);
  }

  lemma NoMask(x: nat)
    ensures Mask(x, 0) == 0 && MaskedBytes(x, 0) == []
  {
  }

  lemma MaskOne(x: nat)
    ensures forall n :: n > 0 ==> Mask(x, n) == One(x % 0x100) + 2 * Mask(x / 0x100, n - 1)
    ensures forall n :: n > 0 ==> MaskedBytes(x, n) == (if x % 0x100 != 0 then [x % 0x100] else []) + MaskedBytes(x / 0x100, n - 1)
  {
  }

  lemma MaskOfFour(x: nat)
    ensures Mask(x, 4) == One(x % 0x100) + 2 * One(x / 0x100 % 0x100) + 4 * One(x / 0x10000 % 0x100) + 8 * One(x / 0x1000000 % 0x100)
    ensures MaskedBytes(x, 4) == (if x % 0x100 != 0 then [x % 0x100] else [])
      + ((if x / 0x100 % 0x100 != 0 then [x / 0x100 % 0x100] else [])
      + ((if x / 0x10000 % 0x100 != 0 then [x / 0x10000 % 0x100] else [])
      + (if x / 0x1000000 % 0x100 != 0 then [x / 0x1000000 % 0x100] else [])))
  {
    hide Mask, MaskedBytes;
    assert x / 0x100 / 0x100 == x / 0x10000 && x / 0x10000 / 0x100 == x / 0x1000000;
    MaskOne(x);
    MaskOne(x / 0x100);
    MaskOfTwo(x / 0x10000);
  }

  lemma BitsOf(cmd: nat, b0: nat, b1: nat, b2: nat, b3: nat, b4: nat, b5: nat)
    requires b0 <= 1 && b1 <= 1 && b2 <= 1 && b3 <= 1 && b4 <= 1 && b5 <= 1
    requires cmd == 0x80 + (b0 + 2 * b1 + 4 * b2 + 8 * b3) + 16 * (b4 + 2 * b5)
    ensures cmd < 0x100 && cmd % 2 == b0 && cmd / 2 % 2 == b1 && cmd / 4 % 2 == b2 && cmd / 8 % 2 == b3
    ensures cmd / 16 % 2 == b4 && cmd / 32 % 2 == b5 && cmd / 64 % 2 == 0
  {
    HalfIs(cmd, b0, 0x40 + b1 + 2 * b2 + 4 * b3 + 8 * b4 + 16 * b5);
    HalfIs(cmd / 2, b1, 0x20 + b2 + 2 * b3 + 4 * b4 + 8 * b5);
    HalfIs(cmd / 4, b2, 0x10 + b3 + 2 * b4 + 4 * b5);
    HalfIs(cmd / 8, b3, 8 + b4 + 2 * b5);
    HalfIs(cmd / 16, b4, 4 + b5);
    HalfIs(cmd / 32, b5, 2);
  }

  lemma HalfIs(x: nat, b: nat, half: nat)
    requires b <= 1 && x == b + 2 * half
    ensures x % 2 == b && x / 2 == half
  {
  }

  /** A written copy announces exactly the bytes of offset and length that are not zero, and 64KiB by none. */
  lemma CopyIsWritten(offset: nat, length: nat)
    requires 0 < length <= 65536
    ensures var code := CopyInstruction(offset, length);
            var b := [offset % 0x100, offset / 0x100 % 0x100, offset / 0x10000 % 0x100, offset / 0x1000000 % 0x100,
                      length % 0x100, length / 0x100 % 0x100, 0];
            && code != [] && code[0] >= 0x80 && code == [code[0]] + Chosen(code[0], b)
            && (code[0] % 2 == 1 <==> b[0] != 0) && (code[0] / 2 % 2 == 1 <==> b[1] != 0)
            && (code[0] / 4 % 2 == 1 <==> b[2] != 0) && (code[0] / 8 % 2 == 1 <==> b[3] != 0)
            && (code[0] / 16 % 2 == 1 <==> b[4] != 0) && (code[0] / 32 % 2 == 1 <==> b[5] != 0) && code[0] / 64 % 2 == 0
  {
    hide Mask, MaskedBytes, Chosen, One;
    MaskOfFour(offset);
    MaskOfTwo(length);
    CopyFits(offset, length);
    var cmd := 0x80 + Mask(offset, 4) + 16 * Mask(length, 2);
    var b := [offset % 0x100, offset / 0x100 % 0x100, offset / 0x10000 % 0x100, offset / 0x1000000 % 0x100,
              length % 0x100, length / 0x100 % 0x100, 0];
    CommandBits(cmd, b);
    ChosenBytes(cmd, b, MaskedBytes(length, 2));
    Shift([cmd], MaskedBytes(offset, 4), MaskedBytes(length, 2));
  }

  lemma CommandBits(cmd: nat, b: Bytes)
    requires |b| == 7
    requires cmd == 0x80 + (One(b[0]) + 2 * One(b[1]) + 4 * One(b[2]) + 8 * One(b[3])) + 16 * (One(b[4]) + 2 * One(b[5]))
    ensures cmd < 0x100
    ensures (cmd % 2 == 1 <==> b[0] != 0) && (cmd / 2 % 2 == 1 <==> b[1] != 0)
    ensures (cmd / 4 % 2 == 1 <==> b[2] != 0) && (cmd / 8 % 2 == 1 <==> b[3] != 0)
    ensures (cmd / 16 % 2 == 1 <==> b[4] != 0) && (cmd / 32 % 2 == 1 <==> b[5] != 0) && cmd / 64 % 2 == 0
  {
    BitsOf(cmd, One(b[0]), One(b[1]), One(b[2]), One(b[3]), One(b[4]), One(b[5]));
  }

  lemma ChosenBytes(cmd: nat, b: Bytes, high: Bytes)
    requires |b| == 7 && cmd / 64 % 2 == 0
    requires (cmd % 2 == 1 <==> b[0] != 0) && (cmd / 2 % 2 == 1 <==> b[1] != 0)
    requires (cmd / 4 % 2 == 1 <==> b[2] != 0) && (cmd / 8 % 2 == 1 <==> b[3] != 0)
    requires (cmd / 16 % 2 == 1 <==> b[4] != 0) && (cmd / 32 % 2 == 1 <==> b[5] != 0)
    requires high == (if b[4] != 0 then [b[4]] else []) + (if b[5] != 0 then [b[5]] else [])
    ensures Chosen(cmd, b) == ((if b[0] != 0 then [b[0]] else []) + ((if b[1] != 0 then [b[1]] else [])
                            + ((if b[2] != 0 then [b[2]] else []) + (if b[3] != 0 then [b[3]] else [])))) + high
  {
    var x5 := if b[5] != 0 then [b[5]] else [];
    var x4 := if b[4] != 0 then [b[4]] else [];
    var x3 := if b[3] != 0 then [b[3]] else [];
    var x2 := if b[2] != 0 then [b[2]] else [];
    var x1 := if b[1] != 0 then [b[1]] else [];
    var x0 := if b[0] != 0 then [b[0]] else [];
    assert x5 + [] == x5;
    Shift(x2, x3, high);
    Shift(x1, x2 + x3, high);
    Shift(x0, x1 + (x2 + x3), high);
  }

  // ---------------------------------------------------------------------------
  // Where copies and inserts are cut
  // ---------------------------------------------------------------------------

  /** Copies go out in pieces of 65536 bytes and a last one, none of them flagged. */
  lemma {:induction false} CopyPieces(start: nat, end: nat)
    requires start < end
    ensures CopyOut(start, end) ==
      if end - start <= 65536 then [OutLine(CopyInstruction(start, end - start), false)]
      else [OutLine(CopyInstruction(start, 65536), false)] + CopyOut(start + 65536, end)
    ensures CopyOut(end, end) == []
  {
    hide CopyInstruction;
    assert end - start <= 65536 ==> CopyOut(end, end) == [];
  }

  /** Lines above 127 bytes go out in pieces of 127 and a last one, none of them flagged. */
  lemma LongPieces(line: Bytes)
    requires line != []
    ensures LongOut(line) ==
      if |line| <= 127 then [OutLine([|line|], false), OutLine(line, false)]
      else [OutLine([127], false), OutLine(line[..127], false)] + LongOut(line[127..])
  {
    hide LongOut;
    var n := if |line| < 127 then |line| else 127;
    LongUnfolds(line, n);
    if |line| <= 127 {
      assert line[..n] == line && line[n..] == [];
      NothingLong();
      assert [OutLine([n], false), OutLine(line, false)] + [] == [OutLine([n], false), OutLine(line, false)];
    }
  }

  lemma LongUnfolds(line: Bytes, n: nat)
    requires line != [] && n == if |line| < MAX_INSERT then |line| else MAX_INSERT
    ensures LongOut(line) == [OutLine([n], false), OutLine(line[..n], false)] + LongOut(line[n..])
  {
  }

  lemma NothingLong()
    ensures LongOut([]) == []
  {
  }

  ghost function Group(lines: seq<Bytes>, flagged: bool): seq<OutLine> {
    seq(|lines|, i requires 0 <= i < |lines| => OutLine(lines[i], flagged))
  }

  lemma {:induction false} GroupIsMarked(lines: seq<Bytes>, flagged: bool)
    ensures Group(lines, flagged) == Marked(lines, flagged)
  {
    MarkedAt(lines, flagged);
  }

  /** Lines are collected while they fit 127 bytes together. */
  lemma {:induction false} Collects(lines: seq<Bytes>, pending: seq<Bytes>, k: nat, least: nat)
    requires k <= |lines| && |Join(pending + lines[..k])| <= 127
    ensures |Join(pending)| <= 127
    ensures InsertOut(lines, pending, least) == InsertOut(lines[k..], pending + lines[..k], least)
    decreases k
  {
    hide Join, FlushOut, LongOut, InsertOut;
    JoinConcat(pending, lines[..k]);
    if k == 0 {
      assert lines[0..] == lines && pending + lines[..0] == pending;
    } else {
      var line, rest := lines[0], lines[1..];
      assert pending + lines[..k] == (pending + [line]) + rest[..k - 1];
      assert rest[k - 1..] == lines[k..];
      JoinConcat(pending + [line], rest[..k - 1]);
      JoinOne(pending, line);
      NothingFits();
      InsertCases(lines, pending, least);
      Collects(rest, pending + [line], k - 1, least);
    }
  }

  /** An insert takes as many lines as fit 127 bytes together, flagged if they have the least length together,
      and the next insert starts behind them. */
  lemma InsertTakesMost(lines: seq<Bytes>, k: nat, least: nat)
    requires 0 < k <= |lines| && |Join(lines[..k])| <= 127 && (k < |lines| ==> |Join(lines[..k + 1])| > 127)
    ensures |Join([])| == 0
    ensures InsertOut(lines, [], least) ==
      [OutLine([|Join(lines[..k])|], false)] + Group(lines[..k], |Join(lines[..k])| >= least) + InsertOut(lines[k..], [], least)
  {
    hide Join, LongOut, InsertOut, Marked, Group;
    JoinNothing();
    var taken, rest := lines[..k], lines[k..];
    assert [] + taken == taken;
    Collects(lines, [], k, least);
    GroupIsMarked(taken, |Join(taken)| >= least);
    NothingToFlush(least);
    if rest == [] {
      InsertNothing(taken, least);
      InsertNothing([], least);
    } else {
      var line := rest[0];
      assert lines[..k + 1] == taken + [line];
      JoinOne(taken, line);
      InsertCases(rest, taken, least);
      InsertCases(rest, [], least);
      AfterFlush(rest, least);
    }
  }

  lemma AfterFlush(rest: seq<Bytes>, least: nat)
    requires rest != [] && |Join([])| == 0
    ensures |rest[0]| <= 127 ==> |Join([rest[0]])| <= 127 && InsertOut(rest, [], least) == InsertOut(rest[1..], [rest[0]], least)
    ensures |rest[0]| > 127 ==> InsertOut(rest, [], least) == LongOut(rest[0]) + InsertOut(rest[1..], [], least)
  {
    hide Join, LongOut, InsertOut, FlushOut;
    NothingToFlush(least);
    InsertCases(rest, [], least);
    assert [] + [rest[0]] == [rest[0]];
    JoinSingle(rest[0]);
    assert [] + LongOut(rest[0]) == LongOut(rest[0]);
  }

  // ---------------------------------------------------------------------------
  // Deltas that end too soon or reach too far
  // ---------------------------------------------------------------------------

  /** An insert that is cut short gives what there is. */
  lemma ShortInsert(basis: Bytes, n: Byte, text: Bytes)
    requires 0 < n <= 127 && |text| < n
    ensures Exec(basis, [n] + text) == Ok(text)
  {
    var code := [n] + text;
    assert code[1..1 + |text|] == text && code[1 + |text|..] == [];
    assert Exec(basis, []) == Ok([]);
    assert text + [] == text;
  }

  /** A copy from behind the source is refused, and so is command 0. */
  lemma RefusedCodes(basis: Bytes, cmd: Byte, code: Bytes)
    ensures cmd == 0 ==> Exec(basis, [cmd] + code) == Err(ZeroCommand)
    ensures cmd >= 0x80 && ParseCopy(cmd, code).Ok? && ParseCopy(cmd, code).value.value.0 + ParseCopy(cmd, code).value.value.1 > |basis| ==>
              Exec(basis, [cmd] + code) == Err(CopyPastEnd)
    ensures cmd >= 0x80 && ParseCopy(cmd, code).Err? ==> Exec(basis, [cmd] + code) == Err(ParseCopy(cmd, code).error)
  {
    hide ParseCopy;
    assert ([cmd] + code)[1..] == code;
  }
}
