/** Leaf pages as text: _flatten_node and _parse_leaf_lines of bzrlib/_btree_serializer_py.py. */
module BTreeSerializer {
  import opened Basics

  type KeyTuple = seq<string>

  datatype Node = Node(key: KeyTuple, value: string, refs: seq<seq<KeyTuple>>)

  const NUL: char := '\0'
  const TAB: char := '\t'
  const CR: char := '\r'
  const LF: char := '\n'

  // ---------------------------------------------------------------------------
  // Joining and splitting
  // ---------------------------------------------------------------------------

  /** sep.join(parts) */
  function Join(parts: seq<string>, sep: char): string {
    if parts == [] then "" else if |parts| == 1 then parts[0] else parts[0] + [sep] + Join(parts[1..], sep)
  }

  /** Where the first separator is, or the length. */
  function FirstOf(s: string, sep: char): (i: nat)
    ensures i <= |s|
  {
    if s == "" || s[0] == sep then 0 else 1 + FirstOf(s[1..], sep)
  }

  /** s.split(sep) */
  function Split(s: string, sep: char): seq<string>
    decreases |s|
  {
    var i := FirstOf(s, sep);
    if i == |s| then [s] else [s[..i]] + Split(s[i + 1..], sep)
  }

  /** s.split(sep, n) */
  function SplitFirst(s: string, sep: char, n: nat): seq<string> {
    var i := FirstOf(s, sep);
    if n == 0 || i == |s| then [s] else [s[..i]] + SplitFirst(s[i + 1..], sep, n - 1)
  }

  /** Where the last separator is. */
  function LastOf(s: string, sep: char): (i: Option<nat>)
    ensures i.Some? ==> i.value < |s| && s[i.value] == sep
  {
    if s == "" then None else if s[|s| - 1] == sep then Some(|s| - 1) else LastOf(s[..|s| - 1], sep)
  }

  ghost predicate Lacks(s: string, c: char) {
    c !in s
  }

  lemma {:induction false} FirstOfBoth(a: string, sep: char, b: string)
    requires Lacks(a, sep)
    ensures FirstOf(a + [sep] + b, sep) == |a|
  {
    var s := a + [sep] + b;
    if a != "" {
      assert s[0] == a[0] && s[1..] == a[1..] + [sep] + b;
      assert forall c :: c in a[1..] ==> c in a;
      FirstOfBoth(a[1..], sep, b);
    }
  }

  lemma {:induction false} FirstOfNone(s: string, sep: char)
    requires Lacks(s, sep)
    ensures FirstOf(s, sep) == |s|
  {
    if s != "" {
      assert forall c :: c in s[1..] ==> c in s;
      FirstOfNone(s[1..], sep);
    }
  }

  lemma SplitBoth(a: string, sep: char, b: string)
    requires Lacks(a, sep)
    ensures Split(a + [sep] + b, sep) == [a] + Split(b, sep)
  {
    var s := a + [sep] + b;
    FirstOfBoth(a, sep, b);
    assert s[..|a|] == a && s[|a| + 1..] == b;
  }

  lemma SplitFirstBoth(a: string, sep: char, b: string, n: nat)
    requires Lacks(a, sep) && n > 0
    ensures SplitFirst(a + [sep] + b, sep, n) == [a] + SplitFirst(b, sep, n - 1)
  {
    var s := a + [sep] + b;
    FirstOfBoth(a, sep, b);
    assert s[..|a|] == a && s[|a| + 1..] == b;
  }

  ghost predicate AllLack(parts: seq<string>, sep: char) {
    forall i :: 0 <= i < |parts| ==> Lacks(parts[i], sep)
  }

  /** Splitting undoes joining, except that nothing joined reads as one empty part. */
  lemma {:induction false} SplitJoin(parts: seq<string>, sep: char)
    requires AllLack(parts, sep)
    ensures Split(Join(parts, sep), sep) == if parts == [] then [""] else parts
  {
    hide Lacks;
    if |parts| > 1 {
      SplitJoin(parts[1..], sep);
      SplitBoth(parts[0], sep, Join(parts[1..], sep));
    } else if |parts| == 1 {
      FirstOfNone(parts[0], sep);
    }
  }

  /** Only the first |parts| separators are looked at. */
  lemma {:induction false} SplitFirstJoin(parts: seq<string>, sep: char, rest: string)
    requires AllLack(parts, sep) && parts != []
    ensures SplitFirst(Join(parts, sep) + [sep] + rest, sep, |parts|) == parts + [rest]
  {
    hide Lacks, SplitFirst;
    var s := Join(parts, sep) + [sep] + rest;
    if |parts| > 1 {
      var tail := Join(parts[1..], sep) + [sep] + rest;
      SplitFirstJoin(parts[1..], sep, rest);
      assert s == parts[0] + [sep] + tail;
      SplitFirstBoth(parts[0], sep, tail, |parts|);
      assert [parts[0]] + (parts[1..] + [rest]) == parts + [rest];
    } else {
      SplitFirstBoth(parts[0], sep, rest, 1);
      SplitNone(rest, sep);
      assert parts == [parts[0]];
    }
  }

  lemma SplitNone(s: string, sep: char)
    ensures SplitFirst(s, sep, 0) == [s]
  {
  }

  lemma {:induction false} LastOfBoth(a: string, sep: char, b: string)
    requires Lacks(b, sep)
    ensures LastOf(a + [sep] + b, sep) == Some(|a|)
  {
    var s := a + [sep] + b;
    if b != "" {
      var init := b[..|b| - 1];
      assert forall c :: c in init ==> c in b;
      assert s[..|s| - 1] == a + [sep] + init && s[|s| - 1] == b[|b| - 1];
      LastOfBoth(a, sep, init);
    }
  }

  lemma {:induction false} JoinLacks(parts: seq<string>, sep: char, c: char)
    requires AllLack(parts, c) && c != sep
    ensures Lacks(Join(parts, sep), c)
  {
    if |parts| > 1 { JoinLacks(parts[1..], sep, c); }
  }

  // ---------------------------------------------------------------------------
  // What the builder lets in
  // ---------------------------------------------------------------------------

  ghost predicate GoodElement(s: string) {
    s != "" && Lacks(s, NUL) && Lacks(s, TAB) && Lacks(s, CR) && Lacks(s, LF)
  }

  ghost predicate GoodKey(key: KeyTuple, keyLength: nat) {
    |key| == keyLength > 0 && forall i :: 0 <= i < |key| ==> GoodElement(key[i])
  }

  ghost predicate GoodRefs(list: seq<KeyTuple>, keyLength: nat) {
    forall i :: 0 <= i < |list| ==> GoodKey(list[i], keyLength)
  }

  ghost predicate GoodNode(node: Node, keyLength: nat, refLists: nat) {
    && GoodKey(node.key, keyLength) && |node.refs| == refLists
    && Lacks(node.value, NUL) && Lacks(node.value, LF)
    && forall i :: 0 <= i < |node.refs| ==> GoodRefs(node.refs[i], keyLength)
  }

  // ---------------------------------------------------------------------------
  // Printing
  // ---------------------------------------------------------------------------

  function FlattenKey(key: KeyTuple): string {
    Join(key, NUL)
  }

  function FlattenKeys(list: seq<KeyTuple>): seq<string> {
    seq(|list|, i requires 0 <= i < |list| => FlattenKey(list[i]))
  }

  function FlattenLists(refs: seq<seq<KeyTuple>>): seq<string> {
    seq(|refs|, i requires 0 <= i < |refs| => Join(FlattenKeys(refs[i]), CR))
  }

  /** The key as text, and the line of a leaf page. */
  function FlattenNode(node: Node, refLists: nat): (string, string) {
    var stringKey := FlattenKey(node.key);
    var references := if refLists > 0 then Join(FlattenLists(node.refs), TAB) else "";
    (stringKey, stringKey + [NUL] + references + [NUL] + node.value + [LF])
  }

  // ---------------------------------------------------------------------------
  // Parsing
  // ---------------------------------------------------------------------------

  /** The keys of one reference list; empty strings are no keys. */
  function ParseRefs(parts: seq<string>): seq<KeyTuple> {
    if parts == [] then []
    else (if parts[0] == "" then [] else [Split(parts[0], NUL)]) + ParseRefs(parts[1..])
  }

  function ParseLists(parts: seq<string>): seq<seq<KeyTuple>> {
    seq(|parts|, i requires 0 <= i < |parts| => ParseRefs(Split(parts[i], CR)))
  }

  /** One line without its newline; None where the original raises an error. */
  function ParseLine(line: string, keyLength: nat, refLists: nat): Option<Node> {
    var elements := SplitFirst(line, NUL, keyLength);
    var rest := elements[|elements| - 1];
    var at := LastOf(rest, NUL);
    if at.None? then None
    else
      var references, value := rest[..at.value], rest[at.value + 1..];
      Some(Node(if keyLength <= |elements| then elements[..keyLength] else elements, value,
                if refLists > 0 then ParseLists(Split(references, TAB)) else []))
  }

  /** Entries are read until a line is empty. */
  method ParseLeafLines(bytes: string, keyLength: nat, refLists: nat) returns (nodes: Option<seq<Node>>)
    ensures nodes == ParseLines(Split(bytes, LF)[1..], keyLength, refLists)
  {
    hide ParseLine;
    var lines := Split(bytes, LF);
    var parsed: seq<Node> := [];
    PrefixedNone(ParseLines(lines[1..], keyLength, refLists));
    for i := 1 to |lines|
      invariant ParseLines(lines[1..], keyLength, refLists) == Prefixed(parsed, ParseLines(lines[i..], keyLength, refLists))
    {
      assert lines[i..][1..] == lines[i + 1..];
      if lines[i] == "" {
        assert parsed + [] == parsed;
        return Some(parsed);
      }
      var node := ParseLine(lines[i], keyLength, refLists);
      if node.None? {
        return None;
      }
      PrefixedMore(parsed, node.value, ParseLines(lines[i + 1..], keyLength, refLists));
      parsed := parsed + [node.value];
    }
    assert parsed + [] == parsed;
    return Some(parsed);
  }

  ghost function Prefixed(before: seq<Node>, rest: Option<seq<Node>>): Option<seq<Node>> {
    if rest.Some? then Some(before + rest.value) else None
  }

  lemma PrefixedNone(rest: Option<seq<Node>>)
    ensures Prefixed([], rest) == rest
  {
    if rest.Some? { assert [] + rest.value == rest.value; }
  }

  lemma PrefixedMore(before: seq<Node>, node: Node, rest: Option<seq<Node>>)
    ensures Prefixed(before, Prefixed([node], rest)) == Prefixed(before + [node], rest)
  {
    if rest.Some? { assert before + ([node] + rest.value) == (before + [node]) + rest.value; }
  }

  ghost function ParseLines(lines: seq<string>, keyLength: nat, refLists: nat): Option<seq<Node>> {
    if lines == [] || lines[0] == "" then Some([])
    else
      var node := ParseLine(lines[0], keyLength, refLists);
      if node.None? then None else Prefixed([node.value], ParseLines(lines[1..], keyLength, refLists))
  }

  // ---------------------------------------------------------------------------
  // Round trip
  // ---------------------------------------------------------------------------

  lemma KeyLacks(key: KeyTuple, keyLength: nat)
    requires GoodKey(key, keyLength)
    ensures AllLack(key, NUL) && FlattenKey(key) != ""
    ensures Lacks(FlattenKey(key), TAB) && Lacks(FlattenKey(key), CR) && Lacks(FlattenKey(key), LF)
  {
    hide Lacks;
    JoinLacks(key, NUL, TAB);
    JoinLacks(key, NUL, CR);
    JoinLacks(key, NUL, LF);
    assert GoodElement(key[0]);
  }

  lemma {:induction false} RefsRoundTrip(list: seq<KeyTuple>, keyLength: nat)
    requires GoodRefs(list, keyLength)
    ensures ParseRefs(FlattenKeys(list)) == list
  {
    if list != [] {
      var rest := list[1..];
      RefsRoundTrip(rest, keyLength);
      KeyLacks(list[0], keyLength);
      SplitJoin(list[0], NUL);
      assert FlattenKeys(list)[1..] == FlattenKeys(rest);
    }
  }

  lemma ListRoundTrip(list: seq<KeyTuple>, keyLength: nat)
    requires GoodRefs(list, keyLength)
    ensures ParseRefs(Split(Join(FlattenKeys(list), CR), CR)) == list
    ensures Lacks(Join(FlattenKeys(list), CR), TAB) && Lacks(Join(FlattenKeys(list), CR), LF)
  {
    hide Lacks, Split;
    forall i | 0 <= i < |list|
      ensures Lacks(FlattenKeys(list)[i], CR) && Lacks(FlattenKeys(list)[i], TAB) && Lacks(FlattenKeys(list)[i], LF)
    {
      KeyLacks(list[i], keyLength);
    }
    SplitJoin(FlattenKeys(list), CR);
    JoinLacks(FlattenKeys(list), CR, TAB);
    JoinLacks(FlattenKeys(list), CR, LF);
    RefsRoundTrip(list, keyLength);
    if list == [] {
      assert ParseRefs([""][1..]) == [];
    }
  }

  lemma ListsRoundTrip(refs: seq<seq<KeyTuple>>, keyLength: nat)
    requires refs != [] && forall i :: 0 <= i < |refs| ==> GoodRefs(refs[i], keyLength)
    ensures ParseLists(Split(Join(FlattenLists(refs), TAB), TAB)) == refs
    ensures Lacks(Join(FlattenLists(refs), TAB), LF)
  {
    hide Lacks, Split, GoodRefs, ParseRefs;
    var parts := FlattenLists(refs);
    forall i | 0 <= i < |refs|
      ensures Lacks(parts[i], TAB) && Lacks(parts[i], LF) && ParseRefs(Split(parts[i], CR)) == refs[i]
    {
      ListRoundTrip(refs[i], keyLength);
    }
    SplitJoin(parts, TAB);
    JoinLacks(parts, TAB, LF);
  }

  ghost function References(node: Node, refLists: nat): string {
    if refLists > 0 then Join(FlattenLists(node.refs), TAB) else ""
  }

  /** Parsing a line gives back the node that was printed. */
  lemma LineRoundTrip(node: Node, keyLength: nat, refLists: nat, line: string)
    requires GoodNode(node, keyLength, refLists) && FlattenNode(node, refLists).1 == line + [LF]
    ensures ParseLine(line, keyLength, refLists) == Some(node)
    ensures line != "" && Lacks(line, LF)
  {
    hide Join, Split, SplitFirst, LastOf, ParseLists, FlattenLists, GoodRefs;
    var key, references := FlattenKey(node.key), References(node, refLists);
    assert (line + [LF])[..|line|] == line;
    assert line == key + [NUL] + (references + [NUL] + node.value);
    KeyLacks(node.key, keyLength);
    if refLists > 0 { ListsRoundTrip(node.refs, keyLength); }
    SplitFirstJoin(node.key, NUL, references + [NUL] + node.value);
    LastOfBoth(references, NUL, node.value);
    var rest := references + [NUL] + node.value;
    assert rest[..|references|] == references && rest[|references| + 1..] == node.value;
    assert (node.key + [rest])[..keyLength] == node.key;
  }

  /** The string key stands for the key: it is what the line starts with, and splitting it gives the key. */
  lemma StringKeyIsKey(node: Node, keyLength: nat, refLists: nat)
    requires GoodKey(node.key, keyLength)
    ensures var (stringKey, line) := FlattenNode(node, refLists);
            && Split(stringKey, '\0') == node.key
            && |stringKey| < |line| && line[..|stringKey|] == stringKey && line[|stringKey|] == '\0'
  {
    hide Join, Split;
    KeyLacks(node.key, keyLength);
    SplitJoin(node.key, NUL);
    var (stringKey, line) := FlattenNode(node, refLists);
    var rest := References(node, refLists) + [NUL] + node.value + [LF];
    assert line == stringKey + [NUL] + rest;
  }

  /** One line in full: which separators are used where. */
  lemma PrintedExample()
    ensures FlattenNode(Node(["a", "b"], "v", [[["c", "d"], ["e", "f"]], []]), 2) ==
            ("a\0b", "a\0b\0c\0d\re\0f\t\0v\n")
    ensures FlattenNode(Node(["a", "b"], "v", []), 0) == ("a\0b", "a\0b\0\0v\n")
  {
    var first: seq<KeyTuple>, second: seq<KeyTuple> := [["c", "d"], ["e", "f"]], [];
    JoinTwo("a", "b", NUL);
    JoinTwo("c", "d", NUL);
    JoinTwo("e", "f", NUL);
    assert |FlattenKeys(first)| == 2 && FlattenKeys(first)[0] == "c\0d" && FlattenKeys(first)[1] == "e\0f";
    assert FlattenKeys(first) == ["c\0d", "e\0f"];
    assert |FlattenKeys(second)| == 0 && Join([], CR) == "";
    JoinTwo("c\0d", "e\0f", CR);
    var lists := FlattenLists([first, second]);
    assert |lists| == 2 && lists[0] == "c\0d\re\0f" && lists[1] == "";
    assert lists == ["c\0d\re\0f", ""];
    JoinTwo("c\0d\re\0f", "", TAB);
    assert FlattenKey(["a", "b"]) == "a\0b" && Join(lists, TAB) == "c\0d\re\0f\t";
    assert "a\0b" + [NUL] + "c\0d\re\0f\t" + [NUL] + "v" + [LF] == "a\0b\0c\0d\re\0f\t\0v\n";
    assert "a\0b" + [NUL] + "" + [NUL] + "v" + [LF] == "a\0b\0\0v\n";
  }

  lemma JoinTwo(a: string, b: string, sep: char)
    ensures Join([a, b], sep) == a + [sep] + b
  {
    assert [a, b][1..] == [b];
  }

  ghost function Lines(nodes: seq<Node>, refLists: nat): string {
    if nodes == [] then "" else FlattenNode(nodes[0], refLists).1 + Lines(nodes[1..], refLists)
  }

  lemma {:induction false} LinesRoundTrip(nodes: seq<Node>, keyLength: nat, refLists: nat)
    requires forall i :: 0 <= i < |nodes| ==> GoodNode(nodes[i], keyLength, refLists)
    ensures ParseLines(Split(Lines(nodes, refLists), LF), keyLength, refLists) == Some(nodes)
  {
    hide ParseLine, GoodNode, Lacks, FlattenNode;
    if nodes != [] {
      var rest := nodes[1..];
      LinesRoundTrip(rest, keyLength, refLists);
      var line := LineOf(nodes[0], refLists);
      LineRoundTrip(nodes[0], keyLength, refLists, line);
      SplitBoth(line, LF, Lines(rest, refLists));
      assert ([line] + Split(Lines(rest, refLists), LF))[1..] == Split(Lines(rest, refLists), LF);
      assert [nodes[0]] + rest == nodes;
    } else {
      assert Split("", LF) == [""];
    }
  }

  lemma LineOf(node: Node, refLists: nat) returns (line: string)
    ensures FlattenNode(node, refLists).1 == line + [LF]
  {
    line := FlattenKey(node.key) + [NUL] + References(node, refLists) + [NUL] + node.value;
  }

  /** A page that was printed, flag first, parses to the same nodes in the same order. */
  lemma LeafRoundTrip(flag: string, nodes: seq<Node>, keyLength: nat, refLists: nat)
    requires Lacks(flag, LF) && forall i :: 0 <= i < |nodes| ==> GoodNode(nodes[i], keyLength, refLists)
    ensures ParseLines(Split(flag + [LF] + Lines(nodes, refLists), LF)[1..], keyLength, refLists) == Some(nodes)
  {
    hide Lacks, GoodNode, ParseLines, Lines;
    LinesRoundTrip(nodes, keyLength, refLists);
    SplitBoth(flag, LF, Lines(nodes, refLists));
    assert ([flag] + Split(Lines(nodes, refLists), LF))[1..] == Split(Lines(nodes, refLists), LF);
  }
}
