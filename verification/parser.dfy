/** The line-oriented BEGIN/END parser: `parse_node` over a cursor into the
    list of lines, and `parse_file` over the whole text. */
module Parser {
  import opened Wrappers
  import opened Text
  import opened Tree
  import opened Tokens

  /** The longest prefix without whitespace: the greedy `\S+`. */
  function NonSpacePrefix(s: string): (r: string)
    ensures |r| <= |s| && r == s[..|r|]
    ensures forall i :: 0 <= i < |r| ==> !IsSpace(s[i])
    ensures |r| < |s| ==> IsSpace(s[|r|])
    decreases |s|
  {
    if s == "" || IsSpace(s[0]) then "" else [s[0]] + NonSpacePrefix(s[1..])
  }

  /** Index of the first double quote at or after `from`, or `|s|`. */
  function QuoteIndex(s: string, from: nat): (j: nat)
    requires from <= |s|
    ensures from <= j <= |s|
    ensures j < |s| ==> s[j] == '"'
    ensures forall i :: from <= i < j ==> s[i] != '"'
    decreases |s| - from
  {
    if from == |s| || s[from] == '"' then from else QuoteIndex(s, from + 1)
  }

  /** The inline-node pattern `^\s*BEGIN\s+(?:"([^"]+)"|(\S+))\s*(.*?)\s*END\s*$`
      on a stripped line (the only lines it is applied to, so the outer `\s*`
      match nothing): the tag (first alternative preferred) and the attribute
      text between it and the final `END`. Lines come from `str.splitlines`,
      so `.` meets no line feed. */
  function MatchInline(line: string): (r: Option<(string, string)>)
    ensures r.Some? ==> r.value.0 != ""
  {
    if !StartsWith(line, "BEGIN") || |line| == 5 || !IsSpace(line[5]) then None
    else
      var body := TrimLeft(line[5..]);
      if !EndsWith(body, "END") then None
      else MatchTag(body)
  }

  /** The pattern after `BEGIN\s+`, on text ending in `END` and not starting
      with whitespace. */
  function MatchTag(body: string): (r: Option<(string, string)>)
    requires EndsWith(body, "END") && !IsSpace(body[0])
    ensures r.Some? ==> r.value.0 != ""
  {
    assert body[|body| - 3..] == "END";
    assert body[|body| - 3] == 'E' && body[|body| - 2] == 'N' && body[|body| - 1] == 'D';
    var j := if |body| > 1 then QuoteIndex(body, 1) else |body|;
    if |body| > 1 && body[0] == '"' && body[1] != '"' && j < |body| then
      // a quoted tag; its closing quote comes before the final END
      Some((body[1..j], Strip(body[j + 1..|body| - 3])))
    else
      var run := NonSpacePrefix(body);
      if |run| < |body| then
        // the greedy bare tag stops at whitespace before the final END
        Some((run, Strip(body[|run|..|body| - 3])))
      else if |body| > 3 then
        // no whitespace: the tag gives back the final END
        Some((body[..|body| - 3], ""))
      else None
  }

  /** Attributes of a non-inline `BEGIN` line, given its words (tag first):
      the words after the tag, paired up. */
  function HeaderAttrs(tokens: seq<string>): (attrs: seq<Attr>)
    requires |tokens| > 1
    ensures |attrs| == |tokens| / 2
    ensures forall i :: 0 <= i < |attrs| ==> attrs[i].0 == tokens[2 * i + 1]
    ensures forall i :: 0 <= i < |attrs| ==>
              attrs[i].1 == if 2 * i + 2 < |tokens| then tokens[2 * i + 2] else ""
  {
    PairTokens(tokens[1..])
  }

  /** What lines 110-111 do: join the words after the tag with single spaces
      and split them again, which loses the quoting of words holding spaces. */
  function HeaderAttrsAsWritten(tokens: seq<string>): Result<seq<Attr>, ParseError>
    requires |tokens| > 1
  {
    TokenizeAttributes(Join(" ", tokens[1..]))
  }

  /** The two agree when no word after the tag holds a quote or separator. */
  lemma HeaderAttrsAgreeOnPlainWords(tokens: seq<string>)
    requires |tokens| > 1
    requires forall i :: 1 <= i < |tokens| ==> Plain(tokens[i])
    ensures HeaderAttrsAsWritten(tokens) == Success(HeaderAttrs(tokens))
  {
    SplitJoinPlain(tokens[1..], []);
    assert [] + tokens[1..] == tokens[1..];
  }

  /** A quoted value with a space, `BEGIN Layer Name "New Ship"`, is split in
      two by the code as written, but kept whole by the corrected reading. */
  lemma HeaderRequoteLoss()
    ensures HeaderAttrsAsWritten(["Layer", "Name", "New Ship"]) == Success([("Name", "New"), ("Ship", "")])
    ensures HeaderAttrs(["Layer", "Name", "New Ship"]) == [("Name", "New Ship")]
  {
    var tokens := ["Layer", "Name", "New Ship"];
    var ws := ["Name", "New", "Ship"];
    RequoteJoin(tokens[1..], ws);
    RequoteWords(ws);
    assert tokens[1..] == ["Name", "New Ship"];
  }

  /** Joined with spaces, the two words `Name`, `New Ship` and the three
      words `Name`, `New`, `Ship` are the same text. */
  lemma RequoteJoin(a: seq<string>, b: seq<string>)
    requires a == ["Name", "New Ship"] && b == ["Name", "New", "Ship"]
    ensures Join(" ", a) == Join(" ", b)
  {
    assert a[1..] == ["New Ship"] && b[1..] == ["New", "Ship"] && b[1..][1..] == ["Ship"];
    assert Join(" ", b[1..]) == "New" + " " + "Ship";
    assert "New Ship" == "New" + " " + "Ship";
  }

  /** The text `Name New Ship` tokenizes to `Name New` and `Ship` with an
      empty value. */
  lemma RequoteWords(ws: seq<string>)
    requires ws == ["Name", "New", "Ship"]
    ensures TokenizeAttributes(Join(" ", ws)) == Success([("Name", "New"), ("Ship", "")])
  {
    var none: seq<string> := [];
    assert Plain("Name") && Plain("New") && Plain("Ship");
    SplitJoinPlain(ws, none);
    assert none + ws == ws;
    assert Split(Join(" ", ws)) == Success(ws);
    assert ws[2..] == ["Ship"];
    assert PairTokens(["Ship"]) == [("Ship", "")];
    assert PairTokens(ws) == [("Name", "New")] + PairTokens(["Ship"]);
    assert PairTokens(ws) == [("Name", "New"), ("Ship", "")];
    assert TokenizeAttributes(Join(" ", ws)) == Success(PairTokens(ws));
  }

  /** `parse_node(lines, start)`: the node starting at `start` and the index
      of the first line after it. */
  function ParseNode(lines: seq<string>, start: nat): (r: Result<(Node, nat), ParseError>)
    requires start < |lines|
    ensures r.Success? ==> start < r.value.1 <= |lines|
    ensures r.Success? ==> StartsWith(Strip(lines[start]), "BEGIN")
    decreases |lines| - start, 0
  {
    var line := Strip(lines[start]);
    if !StartsWith(line, "BEGIN") then Failure(ExpectedBegin(start + 1))
    else if Contains(line, "END") then
      var node :- ParseInline(line, start);
      Success((node, start + 1))
    else
      var node :- ParseHeader(line);
      ParseBody(lines, start, start + 1, node)
  }

  /** Lines 93-103: a `BEGIN` line holding `END` anywhere is read as an
      inline node, which never has children. */
  function ParseInline(line: string, start: nat): (r: Result<Node, ParseError>)
    ensures r.Success? ==> r.value.children == [] && r.value.tag.Some?
  {
    match MatchInline(line)
    case None => Failure(MalformedInline(start + 1))
    case Some((tag, attrText)) =>
      if attrText != "" then
        var attrs :- TokenizeAttributes(attrText);
        Success(Node(Some(tag), attrs, []))
      else
        Success(Node(Some(tag), [], []))
  }

  /** Lines 105-111: the node opened by a `BEGIN` line, from the words after
      `BEGIN` (tag first); it has no children yet. */
  function ParseHeader(line: string): (r: Result<Node, ParseError>)
    requires StartsWith(line, "BEGIN")
    ensures r.Success? ==> r.value.children == []
  {
    var tokens :- Split(Strip(line[5..]));
    var tag := if |tokens| > 0 then Some(tokens[0]) else None;
    var attrs := if |tokens| > 1 then HeaderAttrs(tokens) else [];
    Success(Node(tag, attrs, []))
  }

  /** The `while` loop of `parse_node`: lines after the header until the
      matching `END`, accumulating stray attribute lines and children. */
  function ParseBody(lines: seq<string>, start: nat, i: nat, node: Node): (r: Result<(Node, nat), ParseError>)
    requires start < i <= |lines|
    ensures r.Success? ==> i < r.value.1 <= |lines|
    decreases |lines| - i, 1
  {
    if i == |lines| then Failure(MissingEnd(start + 1))
    else
      var current := Strip(lines[i]);
      if StartsWith(current, "END") then Success((node, i + 1))
      else if StartsWith(current, "BEGIN") then
        var p :- ParseNode(lines, i);
        ParseBody(lines, start, p.1, node.(children := node.children + [p.0]))
      else if current != "" then
        var more :- TokenizeAttributes(current);
        ParseBody(lines, start, i + 1, node.(attrs := node.attrs + more))
      else
        ParseBody(lines, start, i + 1, node)
  }

  /** `parse_file(text)`: a text of blank lines is the empty document, and
      a text without `BEGIN` lines has no nodes. */
  function ParseFile(text: string): (r: Result<Document, ParseError>)
    ensures (forall k :: 0 <= k < |SplitLines(text)| ==> Strip(SplitLines(text)[k]) == "") ==>
              r == Success(Document([], []))
    ensures (forall k :: 0 <= k < |SplitLines(text)| ==> !StartsWith(Strip(SplitLines(text)[k]), "BEGIN")) ==>
              r.Success? ==> r.value.nodes == []
  {
    var lines := SplitLines(text);
    ParseLines(lines, 0, [], [])
  }

  /** The loop of `parse_file`: blank lines are skipped, other non-`BEGIN`
      lines are header attributes, `BEGIN` lines start a top-level node.
      Header pairs and nodes are only ever appended. */
  function ParseLines(lines: seq<string>, i: nat, header: seq<Attr>, nodes: seq<Node>)
    : (r: Result<Document, ParseError>)
    requires i <= |lines|
    ensures r.Success? ==> header <= r.value.header && nodes <= r.value.nodes
    ensures (forall k :: i <= k < |lines| ==> Strip(lines[k]) == "") ==> r == Success(Document(header, nodes))
    ensures (forall k :: i <= k < |lines| ==> !StartsWith(Strip(lines[k]), "BEGIN")) ==>
              r.Success? ==> r.value.nodes == nodes
    decreases |lines| - i
  {
    if i == |lines| then Success(Document(header, nodes))
    else
      var line := lines[i];
      if Strip(line) == "" then ParseLines(lines, i + 1, header, nodes)
      else if !StartsWith(Strip(line), "BEGIN") then
        var attrs :- TokenizeAttributes(line);
        ParseLines(lines, i + 1, header + attrs, nodes)
      else
        var p :- ParseNode(lines, i);
        ParseLines(lines, p.1, header, nodes + [p.0])
  }

  /* One iteration of the `parse_file` loop, one lemma per branch. */

  /** A blank line is skipped. */
  lemma FileBlankStep(lines: seq<string>, i: nat, header: seq<Attr>, nodes: seq<Node>)
    requires i < |lines| && Strip(lines[i]) == ""
    ensures ParseLines(lines, i, header, nodes) == ParseLines(lines, i + 1, header, nodes)
  {
  }

  /** Any other line not starting with `BEGIN` extends the header with its
      pairs, or fails with the tokenizer's error. */
  lemma FileHeaderStep(lines: seq<string>, i: nat, header: seq<Attr>, nodes: seq<Node>)
    requires i < |lines| && Strip(lines[i]) != "" && !StartsWith(Strip(lines[i]), "BEGIN")
    ensures var t := TokenizeAttributes(lines[i]);
            && (t.Failure? ==> ParseLines(lines, i, header, nodes) == Failure(t.error))
            && (t.Success? ==> ParseLines(lines, i, header, nodes) == ParseLines(lines, i + 1, header + t.value, nodes))
  {
  }

  /** A `BEGIN` line starts a top-level node; the loop resumes after it. */
  lemma FileNodeStep(lines: seq<string>, i: nat, header: seq<Attr>, nodes: seq<Node>)
    requires i < |lines| && StartsWith(Strip(lines[i]), "BEGIN")
    ensures var p := ParseNode(lines, i);
            && (p.Failure? ==> ParseLines(lines, i, header, nodes) == Failure(p.error))
            && (p.Success? ==> ParseLines(lines, i, header, nodes) == ParseLines(lines, p.value.1, header, nodes + [p.value.0]))
  {
  }

  /** A first line that does not start with `BEGIN` is an error naming that line. */
  lemma ParseNodeExpectsBegin(lines: seq<string>, start: nat)
    requires start < |lines|
    requires !StartsWith(Strip(lines[start]), "BEGIN")
    ensures ParseNode(lines, start) == Failure(ExpectedBegin(start + 1))
  {
  }

  lemma NodeInlineStep(lines: seq<string>, start: nat)
    requires start < |lines|
    requires StartsWith(Strip(lines[start]), "BEGIN") && Contains(Strip(lines[start]), "END")
    ensures var r := ParseNode(lines, start);
            var q := ParseInline(Strip(lines[start]), start);
            && (q.Failure? ==> r == Failure(q.error))
            && (q.Success? ==> r == Success((q.value, start + 1)))
  {
  }

  lemma InlineOutcome(line: string, start: nat)
    ensures var q := ParseInline(line, start);
            && (MatchInline(line).None? <==> q == Failure(MalformedInline(start + 1)))
            && (q.Failure? ==> q.error == MalformedInline(start + 1) || q.error == NoClosingQuotation)
  {
    match MatchInline(line)
    case None =>
    case Some((tag, attrText)) =>
      if attrText != "" {
        var t := TokenizeAttributes(attrText);
        if t.Failure? {
          assert t.error == NoClosingQuotation;
        }
      }
  }

  /** A `BEGIN` line holding `END` anywhere is an inline node: it is the
      whole node, has no children and the next line follows it; a line the
      pattern rejects is a malformed inline node. */
  lemma ParseNodeInline(lines: seq<string>, start: nat)
    requires start < |lines|
    requires StartsWith(Strip(lines[start]), "BEGIN") && Contains(Strip(lines[start]), "END")
    ensures var r := ParseNode(lines, start);
            && (MatchInline(Strip(lines[start])).None? <==> r == Failure(MalformedInline(start + 1)))
            && (r.Success? ==> r.value.1 == start + 1 && r.value.0.children == [] && r.value.0.tag.Some?)
            && (r.Failure? ==> r.error == MalformedInline(start + 1) || r.error == NoClosingQuotation)
  {
    NodeInlineStep(lines, start);
    InlineOutcome(Strip(lines[start]), start);
  }

  /* One iteration of the body loop, one lemma per branch. */

  lemma BodyEndStep(lines: seq<string>, start: nat, i: nat, node: Node)
    requires start < i < |lines|
    requires StartsWith(Strip(lines[i]), "END")
    ensures ParseBody(lines, start, i, node) == Success((node, i + 1))
  {
  }

  lemma BodyChildStep(lines: seq<string>, start: nat, i: nat, node: Node)
    requires start < i < |lines|
    requires !StartsWith(Strip(lines[i]), "END") && StartsWith(Strip(lines[i]), "BEGIN")
    ensures var p := ParseNode(lines, i);
            && (p.Failure? ==> ParseBody(lines, start, i, node) == Failure(p.error))
            && (p.Success? ==>
                  ParseBody(lines, start, i, node) ==
                  ParseBody(lines, start, p.value.1, node.(children := node.children + [p.value.0])))
  {
  }

  lemma BodyAttrStep(lines: seq<string>, start: nat, i: nat, node: Node)
    requires start < i < |lines|
    requires !StartsWith(Strip(lines[i]), "END") && !StartsWith(Strip(lines[i]), "BEGIN")
    requires Strip(lines[i]) != ""
    ensures var t := TokenizeAttributes(Strip(lines[i]));
            && (t.Failure? ==> ParseBody(lines, start, i, node) == Failure(t.error))
            && (t.Success? ==>
                  ParseBody(lines, start, i, node) ==
                  ParseBody(lines, start, i + 1, node.(attrs := node.attrs + t.value)))
  {
  }

  lemma BodyBlankStep(lines: seq<string>, start: nat, i: nat, node: Node)
    requires start < i < |lines|
    requires Strip(lines[i]) == ""
    ensures ParseBody(lines, start, i, node) == ParseBody(lines, start, i + 1, node)
  {
  }

  /** Line `k`, stripped, starts with `END`. */
  predicate EndLineAt(lines: seq<string>, k: nat)
    requires k < |lines|
  {
    StartsWith(Strip(lines[k]), "END")
  }

  /** Line `k` is blank once stripped. */
  predicate BlankAt(lines: seq<string>, k: nat)
    requires k < |lines|
  {
    Strip(lines[k]) == ""
  }

  /* The same steps with the outcome of the rest of the loop given as `r`. */

  /** A line the parser took for a `BEGIN` line is not an `END` line. */
  lemma BeginNotEnd(s: string)
    requires StartsWith(s, "BEGIN")
    ensures !StartsWith(s, "END")
  {
    assert s[0] == 'B';
  }

  lemma ChildStep(lines: seq<string>, start: nat, i: nat, j: nat, c: Node, node: Node, next: Node,
                  r: Result<(Node, nat), ParseError>)
    requires start < i < |lines| && ParseNode(lines, i) == Success((c, j))
    requires next == node.(children := node.children + [c])
    requires ParseBody(lines, start, j, next) == r
    ensures ParseBody(lines, start, i, node) == r
  {
    BeginNotEnd(Strip(lines[i]));
    BodyChildStep(lines, start, i, node);
  }

  lemma ChildFails(lines: seq<string>, start: nat, i: nat, node: Node)
    requires start < i < |lines| && StartsWith(Strip(lines[i]), "BEGIN") && ParseNode(lines, i).Failure?
    ensures ParseBody(lines, start, i, node) == Failure(ParseNode(lines, i).error)
  {
    BeginNotEnd(Strip(lines[i]));
    BodyChildStep(lines, start, i, node);
  }

  lemma AttrsStep(lines: seq<string>, start: nat, i: nat, j: nat, node: Node, more: seq<Attr>, next: Node,
                  r: Result<(Node, nat), ParseError>)
    requires start < i < |lines| && j == i + 1
    requires !EndLineAt(lines, i) && !StartsWith(Strip(lines[i]), "BEGIN") && !BlankAt(lines, i)
    requires TokenizeAttributes(Strip(lines[i])) == Success(more) && next == node.(attrs := node.attrs + more)
    requires ParseBody(lines, start, j, next) == r
    ensures ParseBody(lines, start, i, node) == r
  {
    NextBody(lines, start, i, j, next, r);
    BodyAttrStep(lines, start, i, node);
  }

  /** The loop from line `j`, named as the line after `i`. */
  lemma NextBody(lines: seq<string>, start: nat, i: nat, j: nat, node: Node, r: Result<(Node, nat), ParseError>)
    requires start < i < |lines| && j == i + 1
    requires ParseBody(lines, start, j, node) == r
    ensures ParseBody(lines, start, i + 1, node) == r
  {
  }

  lemma AttrsFail(lines: seq<string>, start: nat, i: nat, node: Node)
    requires start < i < |lines|
    requires !EndLineAt(lines, i) && !StartsWith(Strip(lines[i]), "BEGIN") && !BlankAt(lines, i)
    requires TokenizeAttributes(Strip(lines[i])).Failure?
    ensures ParseBody(lines, start, i, node) == Failure(TokenizeAttributes(Strip(lines[i])).error)
  {
    BodyAttrStep(lines, start, i, node);
  }

  lemma BlankStep(lines: seq<string>, start: nat, i: nat, j: nat, node: Node, r: Result<(Node, nat), ParseError>)
    requires start < i < |lines| && j == i + 1 && BlankAt(lines, i)
    requires ParseBody(lines, start, j, node) == r
    ensures ParseBody(lines, start, i, node) == r
  {
    NextBody(lines, start, i, j, node, r);
    BodyBlankStep(lines, start, i, node);
  }

  /** The body loop cannot succeed without an `END` line. */
  lemma {:induction false} ParseBodyNeedsEnd(lines: seq<string>, start: nat, i: nat, node: Node)
    requires start < i <= |lines|
    requires forall k :: i <= k < |lines| ==> !EndLineAt(lines, k)
    ensures ParseBody(lines, start, i, node).Failure?
    decreases |lines| - i
  {
    if i < |lines| {
      assert !EndLineAt(lines, i);
      if StartsWith(Strip(lines[i]), "BEGIN") {
        NeedsEndChild(lines, start, i, node);
      } else if !BlankAt(lines, i) {
        NeedsEndAttrs(lines, start, i, node);
      } else {
        var j := i + 1;
        ParseBodyNeedsEnd(lines, start, j, node);
        BlankStep(lines, start, i, j, node, ParseBody(lines, start, j, node));
      }
    }
  }

  lemma {:induction false} NeedsEndChild(lines: seq<string>, start: nat, i: nat, node: Node)
    requires start < i < |lines| && StartsWith(Strip(lines[i]), "BEGIN")
    requires forall k :: i <= k < |lines| ==> !EndLineAt(lines, k)
    ensures ParseBody(lines, start, i, node).Failure?
    decreases |lines| - i, 0
  {
    var p := ParseNode(lines, i);
    if p.Failure? {
      ChildFails(lines, start, i, node);
    } else {
      var next := node.(children := node.children + [p.value.0]);
      ParseBodyNeedsEnd(lines, start, p.value.1, next);
      ChildStep(lines, start, i, p.value.1, p.value.0, node, next, ParseBody(lines, start, p.value.1, next));
    }
  }

  lemma {:induction false} NeedsEndAttrs(lines: seq<string>, start: nat, i: nat, node: Node)
    requires start < i < |lines| && !StartsWith(Strip(lines[i]), "BEGIN") && !BlankAt(lines, i)
    requires forall k :: i <= k < |lines| ==> !EndLineAt(lines, k)
    ensures ParseBody(lines, start, i, node).Failure?
    decreases |lines| - i, 0
  {
    assert !EndLineAt(lines, i);
    var t := TokenizeAttributes(Strip(lines[i]));
    if t.Failure? {
      AttrsFail(lines, start, i, node);
    } else {
      var j := i + 1;
      var next := node.(attrs := node.attrs + t.value);
      ParseBodyNeedsEnd(lines, start, j, next);
      AttrsStep(lines, start, i, j, node, t.value, next, ParseBody(lines, start, j, next));
    }
  }

  /** With only blank lines left, the body loop reports the missing `END`
      of the node that opened it. */
  lemma {:induction false} BlankBody(lines: seq<string>, start: nat, i: nat, node: Node)
    requires start < i <= |lines|
    requires forall k :: i <= k < |lines| ==> BlankAt(lines, k)
    ensures ParseBody(lines, start, i, node) == Failure(MissingEnd(start + 1))
    decreases |lines| - i
  {
    if i < |lines| {
      var j := i + 1;
      assert BlankAt(lines, i);
      BlankBody(lines, start, j, node);
      BlankStep(lines, start, i, j, node, Failure(MissingEnd(start + 1)));
    }
  }

  lemma NodeHeaderStep(lines: seq<string>, start: nat)
    requires start < |lines|
    requires StartsWith(Strip(lines[start]), "BEGIN") && !Contains(Strip(lines[start]), "END")
    ensures var h := ParseHeader(Strip(lines[start]));
            && (h.Failure? ==> ParseNode(lines, start) == Failure(h.error))
            && (h.Success? ==> ParseNode(lines, start) == ParseBody(lines, start, start + 1, h.value))
  {
  }

  /** A node opened on a line without `END`, with no `END` line after it,
      is an error; when only blank lines follow, it is the missing `END` of
      that node. */
  lemma ParseNodeMissingEnd(lines: seq<string>, start: nat)
    requires start < |lines|
    requires StartsWith(Strip(lines[start]), "BEGIN") && !Contains(Strip(lines[start]), "END")
    requires forall k :: start < k < |lines| ==> !EndLineAt(lines, k)
    ensures ParseNode(lines, start).Failure?
    ensures (forall k :: start < k < |lines| ==> BlankAt(lines, k)) &&
            ParseHeader(Strip(lines[start])).Success? ==>
              ParseNode(lines, start) == Failure(MissingEnd(start + 1))
  {
    NodeHeaderStep(lines, start);
    var h := ParseHeader(Strip(lines[start]));
    if h.Success? {
      ParseBodyNeedsEnd(lines, start, start + 1, h.value);
      if forall k :: start < k < |lines| ==> BlankAt(lines, k) {
        BlankBody(lines, start, start + 1, h.value);
      }
    }
  }
}
