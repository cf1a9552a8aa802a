/** Deltas between byte strings, as bzrlib/_groupcompress_py.py makes and applies them.

    Exec gives a stream of instructions its meaning.  The functions ending in Out say which
    output lines each part of the encoder appends, and the Exec lemmas say what running those
    lines does, up to the theorem that a delta rebuilds its target. */
module GroupCompressDelta {
  import opened Basics
  import opened GroupCompressCodec

  // ---------------------------------------------------------------------------
  // Joining lines
  // ---------------------------------------------------------------------------

  function Join(lines: seq<Bytes>): Bytes {
    if lines == [] then [] else lines[0] + Join(lines[1..])
  }

  lemma JoinUnfolds(lines: seq<Bytes>)
    requires lines != []
    ensures Join(lines) == lines[0] + Join(lines[1..])
  {
  }

  lemma {:induction false} JoinConcat(p: seq<Bytes>, q: seq<Bytes>)
    ensures Join(p + q) == Join(p) + Join(q)
  {
    hide Join;
    if p == [] {
      assert p + q == q;
      JoinNothing();
    } else {
      JoinUnfolds(p);
      JoinUnfolds(p + q);
      JoinConcat(p[1..], q);
      assert (p + q)[1..] == p[1..] + q;
      assert p[0] + (Join(p[1..]) + Join(q)) == (p[0] + Join(p[1..])) + Join(q);
    }
  }

  lemma JoinNothing()
    ensures Join([]) == []
  {
  }

  lemma JoinOne(p: seq<Bytes>, x: Bytes)
    ensures Join(p + [x]) == Join(p) + x
  {
    JoinConcat(p, [x]);
    assert Join([x]) == x + Join([]) == x;
  }

  // ---------------------------------------------------------------------------
  // What a delta means
  // ---------------------------------------------------------------------------

  function Prepend(x: Bytes, r: Result<Bytes, Error>): Result<Bytes, Error> {
    match r
    case Ok(y) => Ok(x + y)
    case Err(e) => Err(e)
  }

  /** Running instructions over a source. */
  function Exec(basis: Bytes, code: Bytes): Result<Bytes, Error>
    decreases |code|
  {
    if code == [] then Ok([])
    else if code[0] >= 0x80 then
      var copy := ParseCopy(code[0], code[1..]);
      if copy.Err? then Err(copy.error)
      else
        var offset, length := copy.value.value.0, copy.value.value.1;
        if offset + length > |basis| then Err(CopyPastEnd)
        else Prepend(basis[offset..offset + length], Exec(basis, copy.value.rest))
    else if code[0] == 0 then Err(ZeroCommand)
    else
      var n := if code[0] < |code| then code[0] else |code| - 1;
      Prepend(code[1..1 + n], Exec(basis, code[1 + n..]))
  }

  function Apply(basis: Bytes, delta: Bytes): Result<Bytes, Error> {
    var header := ParseBase128(delta);
    if header.Err? then Err(header.error)
    else
      var result := Exec(basis, header.value.rest);
      if result.Ok? && |result.value| != header.value.value then Err(WrongLength) else result
  }

  lemma PrependTwice(x: Bytes, y: Bytes, r: Result<Bytes, Error>)
    ensures Prepend(x, Prepend(y, r)) == Prepend(x + y, r) && Prepend([], r) == r
  {
    if r.Ok? { assert x + (y + r.value) == x + y + r.value && [] + r.value == r.value; }
  }

  method ApplyDelta(basis: Bytes, delta: Bytes) returns (r: Result<Bytes, Error>)
    ensures r == Apply(basis, delta)
  {
    hide Exec, ParseBase128, ParseCopy, Join, Prepend;
    var header := DecodeBase128Int(delta);
    if header.Err? { return Err(header.error); }
    var (targetLength, pos) := header.value;
    var lines: seq<Bytes> := [];
    ghost var code := delta[pos..];
    EmptyPrefix(Exec(basis, code));
    while pos < |delta|
      invariant 0 <= pos <= |delta|
      invariant Exec(basis, code) == Prepend(Join(lines), Exec(basis, delta[pos..]))
      decreases |delta| - pos
    {
      var cmd := delta[pos];
      if cmd >= 0x80 {
        ExecAtCopy(basis, delta, pos);
        var copy := DecodeCopyInstruction(delta, cmd, pos + 1);
        if copy.Err? { PrependError(Join(lines), copy.error); return Err(copy.error); }
        var (offset, length, newPos) := copy.value;
        var last := offset + length;
        if last > |basis| { PrependError(Join(lines), CopyPastEnd); return Err(CopyPastEnd); }
        PrependTwice(Join(lines), basis[offset..last], Exec(basis, delta[newPos..]));
        JoinOne(lines, basis[offset..last]);
        lines := lines + [basis[offset..last]];
        pos := newPos;
      } else {
        ExecAtInsert(basis, delta, pos);
        if cmd == 0 { PrependError(Join(lines), ZeroCommand); return Err(ZeroCommand); }
        var end := if pos + 1 + cmd <= |delta| then pos + 1 + cmd else |delta|;
        PrependTwice(Join(lines), delta[pos + 1..end], Exec(basis, delta[end..]));
        JoinOne(lines, delta[pos + 1..end]);
        lines := lines + [delta[pos + 1..end]];
        pos := end;
      }
    }
    ExecDone(basis, delta, Join(lines));
    var bytes := Join(lines);
    if |bytes| != targetLength {
      return Err(WrongLength);
    }
    return Ok(bytes);
  }

  lemma EmptyPrefix(r: Result<Bytes, Error>)
    ensures Prepend(Join([]), r) == r
  {
    PrependTwice([], [], r);
  }

  lemma PrependError(x: Bytes, e: Error)
    ensures Prepend(x, Err(e)) == Err(e)
  {
  }

  lemma ExecDone(basis: Bytes, delta: Bytes, x: Bytes)
    ensures Prepend(x, Exec(basis, delta[|delta|..])) == Ok(x)
  {
    assert x + [] == x;
  }

  lemma ExecAtCopy(basis: Bytes, delta: Bytes, pos: nat)
    requires pos < |delta| && delta[pos] >= 0x80
    ensures Exec(basis, delta[pos..]) ==
      var copy := ParseCopy(delta[pos], delta[pos + 1..]);
      if copy.Err? then Err(copy.error)
      else
        var offset, length := copy.value.value.0, copy.value.value.1;
        if offset + length > |basis| then Err(CopyPastEnd)
        else Prepend(basis[offset..offset + length], Exec(basis, copy.value.rest))
  {
    hide ParseCopy, Prepend;
    assert delta[pos..][0] == delta[pos] && delta[pos..][1..] == delta[pos + 1..];
  }

  lemma ExecAtInsert(basis: Bytes, delta: Bytes, pos: nat)
    requires pos < |delta| && delta[pos] < 0x80
    ensures Exec(basis, delta[pos..]) ==
      if delta[pos] == 0 then Err(ZeroCommand)
      else
        var end := if pos + 1 + delta[pos] <= |delta| then pos + 1 + delta[pos] else |delta|;
        Prepend(delta[pos + 1..end], Exec(basis, delta[end..]))
  {
    hide ParseCopy, Prepend;
    var code := delta[pos..];
    var n := if code[0] < |code| then code[0] else |code| - 1;
    assert code[1..1 + n] == delta[pos + 1..pos + 1 + n] && code[1 + n..] == delta[pos + 1 + n..];
  }

  /** Each range error has its own message; the first that applies is reported. */
  method ApplyDeltaToSource(source: Bytes, deltaStart: nat, deltaEnd: nat) returns (r: Result<Bytes, Error>)
    ensures deltaStart < deltaEnd <= |source| ==> r == Apply(source, source[deltaStart..deltaEnd])
    ensures deltaStart >= |source| ==> r == Err(StartsAfterSource)
    ensures deltaStart < |source| < deltaEnd ==> r == Err(EndsAfterSource)
    ensures deltaEnd <= deltaStart < |source| ==> r == Err(StartsAfterItEnds)
  {
    if deltaStart >= |source| {
      return Err(StartsAfterSource);
    }
    if deltaEnd > |source| {
      return Err(EndsAfterSource);
    }
    if deltaStart >= deltaEnd {
      return Err(StartsAfterItEnds);
    }
    r := ApplyDelta(source, source[deltaStart..deltaEnd]);
  }

  // ---------------------------------------------------------------------------
  // What the encoder writes
  // ---------------------------------------------------------------------------

  /** An output line and whether it may be indexed for later matches. */
  datatype OutLine = OutLine(bytes: Bytes, indexed: bool)

  ghost function Raw(out: seq<OutLine>): Bytes {
    if out == [] then [] else out[0].bytes + Raw(out[1..])
  }

  lemma RawUnfolds(out: seq<OutLine>)
    requires out != []
    ensures Raw(out) == out[0].bytes + Raw(out[1..])
  {
  }

  lemma {:induction false} RawConcat(p: seq<OutLine>, q: seq<OutLine>)
    ensures Raw(p + q) == Raw(p) + Raw(q)
  {
    hide Raw;
    if p == [] {
      assert p + q == q;
      RawNothing();
    } else {
      RawUnfolds(p);
      RawUnfolds(p + q);
      RawConcat(p[1..], q);
      assert (p + q)[1..] == p[1..] + q;
      assert p[0].bytes + (Raw(p[1..]) + Raw(q)) == (p[0].bytes + Raw(p[1..])) + Raw(q);
    }
  }

  lemma RawNothing()
    ensures Raw([]) == []
  {
  }

  const MAX_COPY := 0x10000
  const MAX_INSERT := 127

  /** Copying source bytes [start, end), at most 64KiB at a time. */
  ghost function CopyOut(start: nat, end: nat): seq<OutLine>
    decreases end - start
  {
    if start >= end then []
    else
      var n := if end - start < MAX_COPY then end - start else MAX_COPY;
      [OutLine(CopyInstruction(start, n), false)] + CopyOut(start + n, end)
  }

  /** A line that does not fit one insert, in pieces that are not indexed. */
  ghost function LongOut(line: Bytes): seq<OutLine> {
    if line == [] then []
    else
      var n := if |line| < MAX_INSERT then |line| else MAX_INSERT;
      [OutLine([n], false), OutLine(line[..n], false)] + LongOut(line[n..])
  }

  ghost function Marked(lines: seq<Bytes>, indexed: bool): seq<OutLine> {
    if lines == [] then [] else [OutLine(lines[0], indexed)] + Marked(lines[1..], indexed)
  }

  /** One insert for the pending lines, if there are any. */
  ghost function FlushOut(pending: seq<Bytes>, minIndexed: nat): seq<OutLine>
    requires |Join(pending)| <= MAX_INSERT
  {
    if pending == [] then []
    else [OutLine([|Join(pending)|], false)] + Marked(pending, |Join(pending)| >= minIndexed)
  }

  /** Inserting lines after the pending ones. */
  ghost function InsertOut(lines: seq<Bytes>, pending: seq<Bytes>, minIndexed: nat): seq<OutLine>
    requires |Join(pending)| <= MAX_INSERT
    decreases |lines|
  {
    if lines == [] then FlushOut(pending, minIndexed)
    else
      var line, rest := lines[0], lines[1..];
      if |line| > MAX_INSERT then
        FlushOut(pending, minIndexed) + LongOut(line) + InsertOut(rest, [], minIndexed)
      else if |Join(pending)| + |line| > MAX_INSERT then
        JoinSingle(line);
        FlushOut(pending, minIndexed) + InsertOut(rest, [line], minIndexed)
      else
        JoinOne(pending, line);
        InsertOut(rest, pending + [line], minIndexed)
  }

  lemma JoinSingle(x: Bytes)
    ensures Join([x]) == x
  {
  }

  /** Whether some insert among these consists of empty lines only, which is written as command 0. */
  ghost predicate EmptyGroup(lines: seq<Bytes>, pending: seq<Bytes>)
    decreases |lines|
  {
    if lines == [] then pending != [] && Join(pending) == []
    else
      var line, rest := lines[0], lines[1..];
      if |line| > MAX_INSERT then
        (pending != [] && Join(pending) == []) || EmptyGroup(rest, [])
      else if |Join(pending)| + |line| > MAX_INSERT then
        (pending != [] && Join(pending) == []) || EmptyGroup(rest, [line])
      else
        EmptyGroup(rest, pending + [line])
  }

  /** Without empty lines there is no such group. */
  lemma {:induction false} NoEmptyGroup(lines: seq<Bytes>, pending: seq<Bytes>)
    requires forall k :: 0 <= k < |lines| ==> lines[k] != []
    requires forall k :: 0 <= k < |pending| ==> pending[k] != []
    ensures !EmptyGroup(lines, pending)
    decreases |lines|
  {
    if lines != [] {
      var line, rest := lines[0], lines[1..];
      NoEmptyGroup(rest, []);
      NoEmptyGroup(rest, [line]);
      NoEmptyGroup(rest, pending + [line]);
    }
  }

  // ---------------------------------------------------------------------------
  // What running the written lines does
  // ---------------------------------------------------------------------------

  /** Copy instructions have four bytes for the offset. */
  const OFFSETS := 0x1_0000_0000

  /** What the decoder copies for source bytes [start, end): each offset arrives without its higher bits. */
  ghost function Fetched(basis: Bytes, start: nat, end: nat): Bytes
    requires start <= end <= |basis|
    decreases end - start
  {
    if start == end then []
    else
      var n := if end - start < MAX_COPY then end - start else MAX_COPY;
      var from := start % OFFSETS;
      basis[from..from + n] + Fetched(basis, start + n, end)
  }

  lemma {:induction false} FetchedLength(basis: Bytes, start: nat, end: nat)
    requires start <= end <= |basis|
    ensures |Fetched(basis, start, end)| == end - start
    decreases end - start
  {
    if start < end { FetchedLength(basis, if end - start < MAX_COPY then end else start + MAX_COPY, end); }
  }

  /** The offset of the last copy instruction for [start, end). */
  function LastStart(start: nat, end: nat): (last: nat)
    requires start < end
    ensures start <= last < end
    decreases end - start
  {
    if end - start <= MAX_COPY then start else LastStart(start + MAX_COPY, end)
  }

  lemma {:induction false} LastStartIs(start: nat, end: nat)
    requires start < end
    ensures LastStart(start, end) == start + 0x10000 * ((end - start - 1) / 0x10000)
    decreases end - start
  {
    if end - start > MAX_COPY {
      LastStartIs(start + MAX_COPY, end);
    }
  }

  /** All its copy instructions have offsets that four bytes can hold. */
  predicate InReach(start: nat, end: nat) {
    start >= end || LastStart(start, end) < OFFSETS
  }

  lemma FetchedOnce(basis: Bytes, start: nat, end: nat)
    requires start < end <= |basis| && end - start <= MAX_COPY
    ensures LastStart(start, end) == start && start % OFFSETS <= start
    ensures Fetched(basis, start, end) == basis[start % OFFSETS..start % OFFSETS + (end - start)]
  {
    assert Fetched(basis, end, end) == [];
  }

  lemma FetchedStep(basis: Bytes, start: nat, end: nat)
    requires start + MAX_COPY < end <= |basis|
    ensures LastStart(start, end) == LastStart(start + MAX_COPY, end) && start % OFFSETS <= start
    ensures Fetched(basis, start, end) == basis[start % OFFSETS..start % OFFSETS + MAX_COPY] + Fetched(basis, start + MAX_COPY, end)
  {
  }

  lemma {:induction false} FetchedInReach(basis: Bytes, start: nat, end: nat)
    requires start <= end <= |basis| && InReach(start, end)
    ensures Fetched(basis, start, end) == basis[start..end]
    decreases end - start
  {
    hide Fetched, LastStart;
    if start == end {
      FetchedNothing(basis, start);
    } else if end - start > MAX_COPY {
      FetchedStep(basis, start, end);
      FetchedInReach(basis, start + MAX_COPY, end);
      assert start < LastStart(start + MAX_COPY, end) < OFFSETS;
      assert basis[start..end] == basis[start..start + MAX_COPY] + basis[start + MAX_COPY..end];
    } else {
      FetchedOnce(basis, start, end);
    }
  }

  lemma FetchedNothing(basis: Bytes, start: nat)
    requires start <= |basis|
    ensures Fetched(basis, start, start) == []
  {
  }

  /** Where the last instruction starts, the byte comes from its offset modulo 2^32. */
  lemma {:induction false} FetchedAtLast(basis: Bytes, start: nat, end: nat)
    requires start < end <= |basis|
    ensures var last := LastStart(start, end);
            |Fetched(basis, start, end)| == end - start && last % OFFSETS <= last
            && Fetched(basis, start, end)[last - start] == basis[last % OFFSETS]
    decreases end - start
  {
    hide Fetched, LastStart;
    FetchedLength(basis, start, end);
    if end - start > MAX_COPY {
      FetchedStep(basis, start, end);
      FetchedAtLast(basis, start + MAX_COPY, end);
      ByteBehind(basis[start % OFFSETS..start % OFFSETS + MAX_COPY], Fetched(basis, start + MAX_COPY, end),
                 LastStart(start, end) - start);
    } else {
      FetchedOnce(basis, start, end);
    }
  }

  lemma ByteBehind(x: Bytes, y: Bytes, i: nat)
    requires |x| <= i < |x| + |y|
    ensures (x + y)[i] == y[i - |x|]
  {
  }

  /** A text that shows the difference: one byte that no other equals, where the last instruction starts. */
  ghost function Marker(length: nat, at: nat): (basis: Bytes)
    ensures |basis| == length && forall i :: 0 <= i < length ==> basis[i] == if i == at then 1 else 0
  {
    seq(length, i => if i == at then 1 else 0)
  }

  lemma MarkerIsMissed(start: nat, end: nat, length: nat)
    requires start < end <= length && !InReach(start, end)
    ensures var basis := Marker(length, LastStart(start, end)); Fetched(basis, start, end) != basis[start..end]
  {
    var last := LastStart(start, end);
    var basis := Marker(length, last);
    FetchedAtLast(basis, start, end);
    assert basis[start..end][last - start] == 1 && last % OFFSETS < last;
  }

  /** A range of every text is copied exactly, if and only if the last instruction for it starts below 2^32. */
  lemma FetchedIsRange(start: nat, end: nat)
    requires start <= end
    ensures InReach(start, end) <==> forall basis: Bytes :: |basis| >= end ==> Fetched(basis, start, end) == basis[start..end]
  {
    if InReach(start, end) {
      forall basis: Bytes | |basis| >= end ensures Fetched(basis, start, end) == basis[start..end] {
        FetchedInReach(basis, start, end);
      }
    } else {
      MarkerIsMissed(start, end, end);
      assert |Marker(end, LastStart(start, end))| >= end;
    }
  }

  /** From offset 2^32 on the decoder reads the source from its start. */
  lemma {:induction false} FetchedWraps(basis: Bytes, i: nat, m: nat)
    requires i <= m <= OFFSETS && OFFSETS + m <= |basis|
    ensures Fetched(basis, OFFSETS + i, OFFSETS + m) == basis[i..m]
    decreases m - i
  {
    if i < m {
      var n := if m - i < MAX_COPY then m - i else MAX_COPY;
      FetchedWraps(basis, i + n, m);
      assert (OFFSETS + i) % OFFSETS == i;
      assert basis[i..m] == basis[i..i + n] + basis[i + n..m];
    }
  }

  lemma ExecCopyCode(basis: Bytes, start: nat, n: nat, rest: Bytes)
    requires 0 < n <= MAX_COPY && start + n <= |basis|
    ensures Exec(basis, CopyInstruction(start, n) + rest) ==
            Prepend(basis[start % OFFSETS..start % OFFSETS + n], Exec(basis, rest))
  {
    hide CopyInstruction, ParseCopy, Exec;
    var code := CopyInstruction(start, n) + rest;
    CopyRoundTrip(start, n, rest);
    CopyNotEmpty(start, n);
    assert code[1..] == CopyInstruction(start, n)[1..] + rest;
    OffsetFits(start);
    ExecParsedCopy(basis, code, start % OFFSETS, n, rest);
  }

  lemma OffsetFits(start: nat)
    ensures start % OFFSETS <= start
  {
  }

  /** A copy instruction that was read and fits the source is carried out. */
  lemma ExecParsedCopy(basis: Bytes, code: Bytes, from: nat, n: nat, rest: Bytes)
    requires code != [] && code[0] >= 0x80 && ParseCopy(code[0], code[1..]) == Ok(Parsed((from, n), rest))
    requires from + n <= |basis|
    ensures Exec(basis, code) == Prepend(basis[from..from + n], Exec(basis, rest))
  {
    hide ParseCopy;
  }

  lemma CopyNotEmpty(start: nat, n: nat)
    ensures |CopyInstruction(start, n)| > 0
  {
  }

  lemma {:induction false} ExecCopy(basis: Bytes, start: nat, end: nat, rest: Bytes)
    requires start <= end <= |basis|
    ensures Exec(basis, Raw(CopyOut(start, end)) + rest) == Prepend(Fetched(basis, start, end), Exec(basis, rest))
    decreases end - start
  {
    hide Exec, CopyInstruction, Prepend, CopyOut, Raw;
    CopyOutUnfolds(start, end);
    if start == end {
      RawNothing();
      assert [] + rest == rest;
      PrependTwice([], [], Exec(basis, rest));
    } else {
      var n := if end - start < MAX_COPY then end - start else MAX_COPY;
      var tail := Raw(CopyOut(start + n, end)) + rest;
      ExecCopyCode(basis, start, n, tail);
      ExecCopy(basis, start + n, end, rest);
      PrependTwice(basis[start % OFFSETS..start % OFFSETS + n], Fetched(basis, start + n, end), Exec(basis, rest));
      assert Raw(CopyOut(start, end)) + rest == CopyInstruction(start, n) + tail;
    }
  }

  lemma CopyOutUnfolds(start: nat, end: nat)
    ensures start >= end ==> CopyOut(start, end) == []
    ensures start < end ==>
      var n := if end - start < MAX_COPY then end - start else MAX_COPY;
      Raw(CopyOut(start, end)) == CopyInstruction(start, n) + Raw(CopyOut(start + n, end))
  {
    hide CopyInstruction;
    if start < end {
      var n := if end - start < MAX_COPY then end - start else MAX_COPY;
      assert CopyOut(start, end)[1..] == CopyOut(start + n, end);
    }
  }

  lemma ExecInsertCode(basis: Bytes, text: Bytes, rest: Bytes)
    requires |text| <= MAX_INSERT
    ensures Exec(basis, [|text|] + text + rest) == if text == [] then Err(ZeroCommand) else Prepend(text, Exec(basis, rest))
  {
    var code := [|text|] + text + rest;
    assert code[1..1 + |text|] == text && code[1 + |text|..] == rest;
  }

  lemma {:induction false} ExecLong(basis: Bytes, line: Bytes, rest: Bytes)
    ensures Exec(basis, Raw(LongOut(line)) + rest) == Prepend(line, Exec(basis, rest))
    decreases |line|
  {
    hide Exec;
    if line == [] {
      assert Raw(LongOut(line)) + rest == rest;
      PrependTwice([], [], Exec(basis, rest));
    } else {
      var n := if |line| < MAX_INSERT then |line| else MAX_INSERT;
      var tail := Raw(LongOut(line[n..])) + rest;
      ExecInsertCode(basis, line[..n], tail);
      ExecLong(basis, line[n..], rest);
      PrependTwice(line[..n], line[n..], Exec(basis, rest));
      RawConcat([OutLine([n], false), OutLine(line[..n], false)], LongOut(line[n..]));
      RawPair([n], line[..n]);
      assert Raw(LongOut(line)) + rest == [n] + line[..n] + tail;
      assert line == line[..n] + line[n..];
    }
  }

  lemma RawPair(x: Bytes, y: Bytes)
    ensures Raw([OutLine(x, false), OutLine(y, false)]) == x + y
  {
    assert [OutLine(x, false), OutLine(y, false)][1..] == [OutLine(y, false)];
    assert Raw([OutLine(y, false)]) == y;
  }

  lemma {:induction false} RawMarked(lines: seq<Bytes>, indexed: bool)
    ensures Raw(Marked(lines, indexed)) == Join(lines)
  {
    if lines != [] { RawMarked(lines[1..], indexed); }
  }

  lemma ExecFlush(basis: Bytes, pending: seq<Bytes>, minIndexed: nat, rest: Bytes)
    requires |Join(pending)| <= MAX_INSERT
    ensures Exec(basis, Raw(FlushOut(pending, minIndexed)) + rest) ==
      if pending != [] && Join(pending) == [] then Err(ZeroCommand) else Prepend(Join(pending), Exec(basis, rest))
  {
    hide Exec;
    var text := Join(pending);
    if pending == [] {
      assert Raw(FlushOut(pending, minIndexed)) + rest == rest;
      PrependTwice([], [], Exec(basis, rest));
    } else {
      ExecInsertCode(basis, text, rest);
      RawMarked(pending, |text| >= minIndexed);
      assert FlushOut(pending, minIndexed)[1..] == Marked(pending, |text| >= minIndexed);
      assert Raw(FlushOut(pending, minIndexed)) + rest == [|text|] + text + rest;
    }
  }

  /** Running an insertion adds its lines, or fails on command 0 exactly when some group is empty. */
  lemma {:induction false} ExecInsert(basis: Bytes, lines: seq<Bytes>, pending: seq<Bytes>, minIndexed: nat, rest: Bytes)
    requires |Join(pending)| <= 127
    ensures Exec(basis, Raw(InsertOut(lines, pending, minIndexed)) + rest) ==
      if EmptyGroup(lines, pending) then Err(ZeroCommand)
      else Prepend(Join(pending) + Join(lines), Exec(basis, rest))
    decreases |lines|, 1
  {
    hide Exec, FlushOut, LongOut, Raw, Prepend;
    if lines == [] {
      ExecFlush(basis, pending, minIndexed, rest);
      assert Join(pending) + Join(lines) == Join(pending);
    } else {
      var line, more := lines[0], lines[1..];
      if |line| > MAX_INSERT {
        ExecInsertLong(basis, line, more, pending, minIndexed, rest);
      } else if |Join(pending)| + |line| > MAX_INSERT {
        JoinSingle(line);
        var after := Raw(InsertOut(more, [line], minIndexed));
        RawConcat(FlushOut(pending, minIndexed), InsertOut(more, [line], minIndexed));
        assert Raw(InsertOut(lines, pending, minIndexed)) + rest == Raw(FlushOut(pending, minIndexed)) + (after + rest);
        ExecFlush(basis, pending, minIndexed, after + rest);
        ExecInsert(basis, more, [line], minIndexed, rest);
        PrependTwice(Join(pending), line + Join(more), Exec(basis, rest));
        PrependError(Join(pending), ZeroCommand);
      } else {
        JoinOne(pending, line);
        ExecInsert(basis, more, pending + [line], minIndexed, rest);
        assert Join(pending) + line + Join(more) == Join(pending) + Join(lines);
      }
    }
  }

  lemma {:induction false} ExecInsertLong(basis: Bytes, line: Bytes, more: seq<Bytes>, pending: seq<Bytes>, minIndexed: nat, rest: Bytes)
    requires |Join(pending)| <= MAX_INSERT && |line| > MAX_INSERT
    ensures Exec(basis, Raw(InsertOut([line] + more, pending, minIndexed)) + rest) ==
      if (pending != [] && Join(pending) == []) || EmptyGroup(more, []) then Err(ZeroCommand)
      else Prepend(Join(pending) + (line + Join(more)), Exec(basis, rest))
    decreases |more| + 1, 0
  {
    hide Exec, FlushOut, LongOut, Raw, Prepend;
    assert ([line] + more)[1..] == more;
    var f, g, h := FlushOut(pending, minIndexed), LongOut(line), InsertOut(more, [], minIndexed);
    RawConcat(f + g, h);
    RawConcat(f, g);
    assert Raw(f + g + h) + rest == Raw(f) + (Raw(g) + (Raw(h) + rest));
    ExecFlush(basis, pending, minIndexed, Raw(g) + (Raw(h) + rest));
    ExecLong(basis, line, Raw(h) + rest);
    ExecInsert(basis, more, [], minIndexed, rest);
    assert Join([]) + Join(more) == Join(more);
    PrependTwice(line, Join(more), Exec(basis, rest));
    PrependTwice(Join(pending), line + Join(more), Exec(basis, rest));
    PrependError(line, ZeroCommand);
    PrependError(Join(pending), ZeroCommand);
  }
}
