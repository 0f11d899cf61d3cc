/** The text of a node, read back: `to_string` of a well-formed node holds
    no line boundary inside a line, so `splitlines` recovers its lines, and
    `parse_node` over them gives the node again; a file of header pairs and
    nodes is read back by `parse_file`. Two lemmas show words the format
    cannot carry: a value `END`, and an empty value between two pairs. */
module NodeText {
  import opened Wrappers
  import opened Text
  import opened Tree
  import opened Tokens
  import opened Serializer
  import opened Parser
  import opened RoundTrip
  import opened Seqs

  /** The keywords and gaps the serializer writes hold no whitespace but
      the plain space. */
  lemma FlatLiterals()
    ensures Flat("BEGIN ") && Flat("BEGIN") && Flat("END") && Flat("  END")
    ensures Flat("      ") && Flat("    ")
  {
  }

  lemma IndentFlat(level: nat)
    ensures Flat(Indent(level))
  {
  }

  /** The header lines of both forms. */
  lemma HeaderFlat(n: Node, level: nat)
    requires n.tag.Some? && Word(n.tag.value) && GoodAttrs(n.attrs)
    ensures Flat(BareHeader(n, level)) && Flat(HorizHeader(n, level))
  {
    var ind, t := Indent(level), TagText(n);
    var begin := "BEGIN " + t;
    QuotedWord(n.tag.value);
    FlatLiterals();
    IndentFlat(level);
    FlatCat("BEGIN ", t);
    FlatCat(ind, begin);
    assert BareText(n) == begin && BareHeader(n, level) == ind + begin;
    if n.attrs != [] {
      var h := HorizAttrs(n.attrs);
      HorizShape(n.attrs);
      FlatCat(begin, "      ");
      FlatCat(begin + "      ", h);
      FlatCat(ind, begin + "      " + h);
    }
  }

  /** The one-line form of a childless node. */
  lemma InlineFlat(n: Node, level: nat)
    requires n.tag.Some? && Word(n.tag.value) && GoodAttrs(n.attrs)
    ensures Flat(InlineLine(n, level))
  {
    var ind, t := Indent(level), TagText(n);
    var begin := "BEGIN " + t;
    QuotedWord(n.tag.value);
    FlatLiterals();
    IndentFlat(level);
    FlatCat("BEGIN ", t);
    if n.attrs != [] {
      var h := HorizAttrs(n.attrs);
      HorizShape(n.attrs);
      FlatCat(begin, "      ");
      FlatCat(begin + "      ", h);
      FlatCat(begin + "      " + h, "  END");
      FlatCat(ind, begin + "      " + h + "  END");
    } else {
      FlatCat(begin, "  END");
      FlatCat(ind, begin + "  END");
    }
  }

  /** The attribute lines of the vertical form, and the `END` line. */
  lemma AttrLinesFlat(attrs: seq<Attr>, level: nat)
    requires GoodAttrs(attrs)
    ensures forall i :: 0 <= i < |attrs| ==> Flat(AttrLines(attrs, level)[i])
    ensures Flat(EndLine(level))
  {
    var ind := Indent(level);
    FlatLiterals();
    IndentFlat(level);
    FlatCat(ind, "END");
    FlatCat(ind, "    ");
    forall i | 0 <= i < |attrs|
      ensures Flat(AttrLines(attrs, level)[i])
    {
      PairLineShape(attrs[i].0, " ", attrs[i].1);
      assert PairText(attrs[i]) == PairLine(attrs[i].0, " ", attrs[i].1);
      FlatCat(ind + "    ", PairText(attrs[i]));
    }
  }

  /** Every line `to_string(indent)` writes for a well-formed node is flat. */
  lemma {:induction false} LinesFlat(n: Node, level: nat)
    requires WellFormed(n)
    ensures forall i :: 0 <= i < |Lines(n, level)| ==> Flat(Lines(n, level)[i])
    decreases n, 1
  {
    var ls := Lines(n, level);
    if n.children != [] {
      var head := ParentHead(n, level);
      var kids := ChildLines(n, 0, level + 1);
      LinesShape(n, level);
      AttrLinesFlat(n.attrs, level);
      assert AllWellFormed(n.children);
      ChildLinesFlat(n, 0, level + 1);
      HeadFlat(n, level, head);
      FlatRuns(head, kids, [EndLine(level)], ls);
    } else {
      LeafFlat(n, level, ls);
    }
  }

  /** The lines of a childless node: one inline line, or the vertical form. */
  lemma LeafFlat(n: Node, level: nat, ls: seq<string>)
    requires n.tag.Some? && Word(n.tag.value) && GoodAttrs(n.attrs)
    requires n.children == [] && ls == Lines(n, level)
    ensures forall i :: 0 <= i < |ls| ==> Flat(ls[i])
  {
    LayoutLeaf(n, level, ls);
    if |ls| == 1 {
      InlineFlat(n, level);
    } else {
      VerticalFlat(n, level, ls);
    }
  }

  /** The vertical form: bare header, attribute lines, `END`. */
  lemma VerticalFlat(n: Node, level: nat, ls: seq<string>)
    requires n.tag.Some? && Word(n.tag.value) && GoodAttrs(n.attrs)
    requires ls == [BareHeader(n, level)] + AttrLines(n.attrs, level) + [EndLine(level)]
    ensures forall i :: 0 <= i < |ls| ==> Flat(ls[i])
  {
    var head := [BareHeader(n, level)];
    HeaderFlat(n, level);
    AttrLinesFlat(n.attrs, level);
    FlatRuns(head, AttrLines(n.attrs, level), [EndLine(level)], ls);
  }

  /** The header line or lines of a node with children. */
  lemma HeadFlat(n: Node, level: nat, head: seq<string>)
    requires n.tag.Some? && Word(n.tag.value) && GoodAttrs(n.attrs)
    requires head == ParentHead(n, level)
    ensures forall i :: 0 <= i < |head| ==> Flat(head[i])
  {
    HeaderFlat(n, level);
    if n.attrs != [] && |HorizHeader(n, level)| <= LineLimit {
      assert head == [HorizHeader(n, level)];
    } else {
      var a := AttrLines(n.attrs, level);
      AttrLinesFlat(n.attrs, level);
      assert head == [BareHeader(n, level)] + a + [];
      FlatRuns([BareHeader(n, level)], a, [], head);
    }
  }

  /** The children's lines, from the `k`-th child on. */
  lemma {:induction false} ChildLinesFlat(p: Node, k: nat, level: nat)
    requires k <= |p.children| && AllWellFormed(p.children)
    ensures forall i :: 0 <= i < |ChildLines(p, k, level)| ==> Flat(ChildLines(p, k, level)[i])
    decreases p, 0, |p.children| - k
  {
    if k < |p.children| {
      var k1 := k + 1;
      var own, rest := Lines(p.children[k], level), ChildLines(p, k1, level);
      ChildLinesCons(p, k, level, k1);
      LinesFlat(p.children[k], level);
      ChildLinesFlat(p, k1, level);
      FlatRuns(own, rest, [], own + rest);
    }
  }

  /** Three runs of flat lines, one after the other. */
  lemma FlatRuns(a: seq<string>, b: seq<string>, c: seq<string>, all: seq<string>)
    requires all == a + b + c
    requires forall i :: 0 <= i < |a| ==> Flat(a[i])
    requires forall i :: 0 <= i < |b| ==> Flat(b[i])
    requires forall i :: 0 <= i < |c| ==> Flat(c[i])
    ensures forall i :: 0 <= i < |all| ==> Flat(all[i])
  {
    forall i | 0 <= i < |all|
      ensures Flat(all[i])
    {
      if i < |a| {
        assert all[i] == a[i];
      } else if i < |a| + |b| {
        assert all[i] == b[i - |a|];
      } else {
        assert all[i] == c[i - |a| - |b|];
      }
    }
  }

  /** `splitlines` of `to_string(indent)` gives back the serializer's lines. */
  lemma SplitToString(n: Node, level: nat)
    requires WellFormed(n)
    ensures SplitLines(ToString(n, level)) == Lines(n, level)
  {
    var ls := Lines(n, level);
    ToStringIsLines(n, level);
    LinesFlat(n, level);
    forall i | 0 <= i < |ls|
      ensures NoLineBreak(ls[i])
    {
      FlatNoBreak(ls[i]);
    }
    Layout(n, level);
    if |ls| != 1 {
      assert ls[|ls| - 1] == EndLine(level);
      assert EndLine(level)[|Indent(level)|] == 'E';
    } else {
      assert |InlineLine(n, level)| >= |InlineText(n)| > 0;
    }
    SplitJoinLines(ls);
  }

  /** The round trip on text: for a well-formed node, `parse_node` over
      `to_string(indent).splitlines()` gives the node back, having consumed
      every line. */
  lemma NodeRoundTrip(n: Node, level: nat)
    requires WellFormed(n)
    ensures var lines := SplitLines(ToString(n, level));
            ParseNode(lines, 0) == Success((n, |lines|))
  {
    var lines := SplitLines(ToString(n, level));
    SplitToString(n, level);
    assert lines[0..0 + |lines|] == lines;
    ReadNode(lines, 0, |lines|, n, level);
  }

  /* ---------- A file of header pairs and nodes ---------- */

  /** The lines of a list of top-level nodes, each written at level 0. */
  function NodesLines(nodes: seq<Node>): (ls: seq<string>)
    decreases |nodes|
  {
    if nodes == [] then [] else Lines(nodes[0], 0) + NodesLines(nodes[1..])
  }

  /** A file in the layout `parse_file` reads: one `key value` line per
      header pair, then the nodes as `to_string` writes them. */
  function FileText(header: seq<Attr>, nodes: seq<Node>): string {
    JoinLines(PairTexts(header) + NodesLines(nodes))
  }

  /** The last line of a node's text is not empty. */
  lemma LastLine(n: Node, level: nat)
    ensures Lines(n, level)[|Lines(n, level)| - 1] != ""
  {
    var ls := Lines(n, level);
    Layout(n, level);
    if |ls| != 1 {
      assert ls[|ls| - 1] == EndLine(level);
      assert EndLine(level)[|Indent(level)|] == 'E';
    } else {
      assert |InlineLine(n, level)| >= |InlineText(n)| > 0;
    }
  }

  /** Every line of the nodes is flat, and the last one is not empty. */
  lemma {:induction false} NodesLinesShape(nodes: seq<Node>)
    requires AllWellFormed(nodes)
    ensures forall i :: 0 <= i < |NodesLines(nodes)| ==> Flat(NodesLines(nodes)[i])
    ensures nodes != [] ==> NodesLines(nodes) != [] && NodesLines(nodes)[|NodesLines(nodes)| - 1] != ""
    decreases |nodes|
  {
    if nodes != [] {
      var own, rest := Lines(nodes[0], 0), NodesLines(nodes[1..]);
      WellFormedTail(nodes);
      LinesFlat(nodes[0], 0);
      LastLine(nodes[0], 0);
      NodesLinesShape(nodes[1..]);
      FlatRuns(own, rest, [], own + rest);
      LastOfRuns(own, rest);
    }
  }

  lemma LastOfRuns(a: seq<string>, b: seq<string>)
    requires a != [] && a[|a| - 1] != ""
    requires b != [] ==> b[|b| - 1] != ""
    ensures a + b != [] && (a + b)[|a + b| - 1] != ""
  {
    if b != [] {
      assert (a + b)[|a + b| - 1] == b[|b| - 1];
    } else {
      assert a + b == a;
    }
  }

  /** A header line is flat and solid, and is read back as its pair. */
  lemma PairTextShape(p: Attr)
    requires KeyWord(p.0) && Word(p.1)
    ensures Flat(PairText(p)) && Solid(PairText(p)) && !StartsWith(PairText(p), "BEGIN")
    ensures TokenizeAttributes(PairText(p)) == Success([p])
  {
    PairLineShape(p.0, " ", p.1);
    assert PairText(p) == PairLine(p.0, " ", p.1);
    SplitPair(p);
    PairTwo(p.0, p.1);
  }

  /** Every header line is flat and none is empty. */
  lemma PairTextsShape(header: seq<Attr>)
    requires GoodAttrs(header)
    ensures forall i :: 0 <= i < |header| ==> Flat(PairTexts(header)[i]) && PairTexts(header)[i] != ""
  {
    forall i | 0 <= i < |header|
      ensures Flat(PairTexts(header)[i]) && PairTexts(header)[i] != ""
    {
      PairTextShape(header[i]);
    }
  }

  /** A header line read by `parse_file`: a pair added to the header. */
  lemma HeaderLineStep(lines: seq<string>, i: nat, i1: nat, p: Attr, header: seq<Attr>, h1: seq<Attr>,
                       nodes: seq<Node>, r: Result<Document, ParseError>)
    requires i < |lines| && i1 == i + 1 && h1 == header + [p]
    requires Solid(lines[i]) && !StartsWith(lines[i], "BEGIN")
    requires TokenizeAttributes(lines[i]) == Success([p])
    requires ParseLines(lines, i1, h1, nodes) == r
    ensures ParseLines(lines, i, header, nodes) == r
  {
    StripLead("", lines[i]);
    assert "" + lines[i] == lines[i];
  }

  /** The first of the lines `xs` found at `i`, and the rest found after it. */
  lemma AtCons(lines: seq<string>, i: nat, i1: nat, xs: seq<string>, h: string, tail: seq<string>)
    requires At(lines, i, xs) && xs != [] && h == xs[0] && tail == xs[1..] && i1 == i + 1
    ensures i < |lines| && lines[i] == h && At(lines, i1, tail)
  {
    assert xs == [h] + tail;
    AtSplit(lines, i, i1, [h], tail);
    AtHead(lines, i, xs);
  }

  lemma PairTextsTail(ps: seq<Attr>)
    requires ps != []
    ensures PairTexts(ps)[0] == PairText(ps[0]) && PairTexts(ps)[1..] == PairTexts(ps[1..])
  {
  }

  /** The first of the header lines from `i` on, and the rest. */
  lemma HeaderSplit(lines: seq<string>, i: nat, i1: nat, ps: seq<Attr>, header: seq<Attr>, h1: seq<Attr>)
    requires GoodAttrs(ps) && ps != [] && At(lines, i, PairTexts(ps))
    requires i1 == i + 1 && h1 == header + [ps[0]]
    ensures i < |lines| && lines[i] == PairText(ps[0]) && KeyWord(ps[0].0) && Word(ps[0].1)
    ensures GoodAttrs(ps[1..]) && At(lines, i1, PairTexts(ps[1..]))
    ensures i1 + |ps[1..]| == i + |ps| && h1 + ps[1..] == header + ps
  {
    PairTextsTail(ps);
    AtCons(lines, i, i1, PairTexts(ps), PairText(ps[0]), PairTexts(ps[1..]));
    GoodTail(ps);
    HeadOnto(header, ps, ps[0], ps[1..], h1);
  }

  /** The header lines from `i` on add their pairs to the header. */
  lemma {:induction false} ReadHeaderLines(lines: seq<string>, i: nat, e: nat, ps: seq<Attr>,
                                           header: seq<Attr>, full: seq<Attr>, nodes: seq<Node>,
                                           r: Result<Document, ParseError>)
    requires GoodAttrs(ps) && At(lines, i, PairTexts(ps)) && e == i + |ps| && full == header + ps
    requires ParseLines(lines, e, full, nodes) == r
    ensures ParseLines(lines, i, header, nodes) == r
    decreases |ps|
  {
    if ps != [] {
      var i1, h1 := i + 1, header + [ps[0]];
      HeaderSplit(lines, i, i1, ps, header, h1);
      PairTextShape(ps[0]);
      ReadHeaderLines(lines, i1, e, ps[1..], h1, full, nodes, r);
      HeaderLineStep(lines, i, i1, ps[0], header, h1, nodes, r);
    } else {
      assert header + ps == header;
    }
  }

  /** A node read by `parse_file`: the node added to the list. */
  lemma NodeLineStep(lines: seq<string>, i: nat, e: nat, n: Node, header: seq<Attr>, nodes: seq<Node>,
                     n1: seq<Node>, r: Result<Document, ParseError>)
    requires i < |lines| && ParseNode(lines, i) == Success((n, e)) && n1 == nodes + [n]
    requires ParseLines(lines, e, header, n1) == r
    ensures ParseLines(lines, i, header, nodes) == r
  {
    assert |Strip(lines[i])| >= 5;
  }

  lemma WellFormedTail(ns: seq<Node>)
    requires ns != [] && AllWellFormed(ns)
    ensures WellFormed(ns[0]) && AllWellFormed(ns[1..])
  {
    forall j | 0 <= j < |ns[1..]|
      ensures WellFormed(ns[1..][j])
    {
      assert ns[1..][j] == ns[j + 1];
    }
  }

  /** The first of the nodes' lines from `i` on, and the rest. */
  lemma NodesSplit(lines: seq<string>, i: nat, e: nat, ns: seq<Node>, nodes: seq<Node>, n1: seq<Node>)
    requires AllWellFormed(ns) && ns != [] && At(lines, i, NodesLines(ns))
    requires e == i + |Lines(ns[0], 0)| && n1 == nodes + [ns[0]]
    ensures WellFormed(ns[0]) && At(lines, i, Lines(ns[0], 0))
    ensures AllWellFormed(ns[1..]) && At(lines, e, NodesLines(ns[1..]))
    ensures n1 + ns[1..] == nodes + ns
  {
    AtSplit(lines, i, e, Lines(ns[0], 0), NodesLines(ns[1..]));
    WellFormedTail(ns);
    HeadOnto(nodes, ns, ns[0], ns[1..], n1);
  }

  /** The nodes' lines from `i` to the end add those nodes to the list. */
  lemma {:induction false} ReadNodesLines(lines: seq<string>, i: nat, ns: seq<Node>, header: seq<Attr>,
                                          nodes: seq<Node>, full: seq<Node>)
    requires AllWellFormed(ns) && At(lines, i, NodesLines(ns)) && i + |NodesLines(ns)| == |lines|
    requires full == nodes + ns
    ensures ParseLines(lines, i, header, nodes) == Success(Document(header, full))
    decreases |ns|
  {
    if ns == [] {
      assert nodes + ns == nodes;
    } else {
      var n := ns[0];
      var e, n1 := i + |Lines(n, 0)|, nodes + [n];
      NodesSplit(lines, i, e, ns, nodes, n1);
      ReadNode(lines, i, e, n, 0);
      ReadNodesLines(lines, e, ns[1..], header, n1, full);
      NodeLineStep(lines, i, e, n, header, nodes, n1, Success(Document(header, full)));
    }
  }

  /** Flat lines hold no line boundary. */
  lemma FlatLines(lines: seq<string>)
    requires forall i :: 0 <= i < |lines| ==> Flat(lines[i])
    ensures forall i :: 0 <= i < |lines| ==> NoLineBreak(lines[i])
  {
    forall i | 0 <= i < |lines|
      ensures NoLineBreak(lines[i])
    {
      FlatNoBreak(lines[i]);
    }
  }

  /** The last of the header lines and node lines is not empty. */
  lemma FileLastLine(hs: seq<string>, ns: seq<string>, lines: seq<string>)
    requires lines == hs + ns
    requires forall i :: 0 <= i < |hs| ==> hs[i] != ""
    requires ns != [] ==> ns[|ns| - 1] != ""
    ensures lines != [] ==> lines[|lines| - 1] != ""
  {
    if ns != [] {
      assert lines[|lines| - 1] == ns[|ns| - 1];
    } else if hs != [] {
      assert lines[|lines| - 1] == hs[|hs| - 1];
    }
  }

  /** `splitlines` of the file's text gives back its lines. */
  lemma SplitFile(header: seq<Attr>, nodes: seq<Node>, hs: seq<string>, ns: seq<string>)
    requires GoodAttrs(header) && AllWellFormed(nodes)
    requires hs == PairTexts(header) && ns == NodesLines(nodes)
    ensures SplitLines(FileText(header, nodes)) == hs + ns
  {
    var lines, none := hs + ns, [];
    PairTextsShape(header);
    NodesLinesShape(nodes);
    assert lines == hs + ns + none;
    FlatRuns(hs, ns, none, lines);
    FlatLines(lines);
    FileLastLine(hs, ns, lines);
    SplitJoinLines(lines);
  }

  /** The round trip on files: `parse_file` gives back the header pairs and
      the well-formed nodes it was written from. */
  lemma FileRoundTrip(header: seq<Attr>, nodes: seq<Node>)
    requires GoodAttrs(header) && AllWellFormed(nodes)
    ensures ParseFile(FileText(header, nodes)) == Success(Document(header, nodes))
  {
    var hs, ns := PairTexts(header), NodesLines(nodes);
    var lines := hs + ns;
    var e, none, empty := |hs|, [], [];
    SplitFile(header, nodes, hs, ns);
    assert lines[0..0 + |lines|] == lines;
    AtSplit(lines, 0, e, hs, ns);
    assert none + nodes == nodes;
    ReadNodesLines(lines, e, nodes, header, none, nodes);
    assert empty + header == header;
    ReadHeaderLines(lines, 0, e, header, empty, header, none, Success(Document(header, nodes)));
  }

  /* ---------- What the format cannot carry ---------- */

  /** The one-line header written for a parent `A` with the pair `k END`. */
  lemma EndHeader(c: Node, n: Node)
    requires n == Node(Some("A"), [("k", "END")], [c])
    ensures HorizHeader(n, 0) == "BEGIN A      k END"
  {
    assert "k" == ['k'] && "A" == ['A'] && "END" == ['E', 'N', 'D'];
    assert QuoteIfNeeded("k") == "k" && QuoteIfNeeded("END") == "END" && QuoteIfNeeded("A") == "A";
    var ts := PairTexts(n.attrs);
    assert ts[0] == "k END";
    assert ts == ["k END"];
    assert Join("  ", ts) == "k END";
  }

  /** That header line is its own strip, starts with `BEGIN` and holds `END`. */
  lemma EndHeaderLine(line: string)
    requires line == "BEGIN A      k END"
    ensures Strip(line) == line && StartsWith(line, "BEGIN") && Contains(line, "END")
  {
    EndHeaderSolid(line);
    EndHeaderHolds(line);
  }

  lemma EndHeaderSolid(line: string)
    requires line == "BEGIN A      k END"
    ensures Strip(line) == line && StartsWith(line, "BEGIN")
  {
    assert line[..5] == "BEGIN";
    assert line[0] == 'B' && line[|line| - 1] == 'D';
    TrimLeftKeeps(line);
    TrimRightKeeps(line);
  }

  lemma EndHeaderHolds(line: string)
    requires line == "BEGIN A      k END"
    ensures Contains(line, "END")
  {
    assert line[15..18] == "END";
    assert OccursAt(line, "END", 15);
    ContainsAt(line, "END");
  }

  /** A value `END` is not carried: the one-line header of a parent whose
      value is `END` holds `END`, so `parse_node` reads it as an inline
      node, which has no children, and the parent is not given back. */
  lemma EndValueLost(c: Node)
    ensures var n := Node(Some("A"), [("k", "END")], [c]);
            var r := ParseNode(Lines(n, 0), 0);
            r.Success? ==> r.value.0 != n && r.value.1 == 1
  {
    var n := Node(Some("A"), [("k", "END")], [c]);
    var lines := Lines(n, 0);
    var line := "BEGIN A      k END";
    EndHeader(c, n);
    LayoutParent(n, 0, lines);
    assert lines[0] == line;
    EndHeaderLine(line);
    ParseNodeInline(lines, 0);
  }

  /** The attribute text written for the pairs `k ""` and `j v`. */
  lemma EmptyValueText(attrs: seq<Attr>)
    requires attrs == [("k", ""), ("j", "v")]
    ensures HorizAttrs(attrs) == "k" + ("   " + Join(" ", ["j", "v"]))
  {
    assert "k" == ['k'] && "j" == ['j'] && "v" == ['v'];
    assert QuoteIfNeeded("k") == "k" && QuoteIfNeeded("") == "";
    assert QuoteIfNeeded("j") == "j" && QuoteIfNeeded("v") == "v";
    var ts := PairTexts(attrs);
    assert ts[0] == "k " && ts[1] == "j v";
    assert ts == ["k ", "j v"];
    assert Join("  ", ts[1..]) == "j v";
    assert Join(" ", ["j", "v"][1..]) == "v";
    assert Join(" ", ["j", "v"]) == "j v";
  }

  /** `shlex.split` of that text: three words. */
  lemma EmptyValueWords(text: string)
    requires text == "k" + ("   " + Join(" ", ["j", "v"]))
    ensures Split(text) == Success(["k", "j", "v"])
  {
    var rest := Join(" ", ["j", "v"]);
    assert "k" == ['k'] && "j" == ['j'] && "v" == ['v'];
    assert Quotable("k") && QuoteIfNeeded("k") == "k";
    var none: seq<string> := [];
    ReadQuoted("k", "   " + rest, none);
    assert Words(text, "", false, false, none) == Words("   " + rest, "k", true, false, none);
    assert AllShellSpace("   ");
    CloseWord("   ", rest, "k", none);
    assert none + ["k"] == ["k"];
    assert Plain("j") && Plain("v");
    SplitJoinPlain(["j", "v"], ["k"]);
    assert ["k"] + ["j", "v"] == ["k", "j", "v"];
  }

  lemma PairsOfThree(ws: seq<string>)
    requires ws == ["k", "j", "v"]
    ensures PairTokens(ws) == [("k", "j"), ("v", "")]
  {
    assert ws[2..] == ["v"];
  }

  /** An empty value is not carried: written between two pairs it leaves
      nothing for `shlex.split` to read, so `tokenize_attributes` pairs the
      next key with the first key, and the words shift. */
  lemma EmptyValueShifts()
    ensures var attrs := [("k", ""), ("j", "v")];
            TokenizeAttributes(HorizAttrs(attrs)) == Success([("k", "j"), ("v", "")])
  {
    var attrs := [("k", ""), ("j", "v")];
    var text := HorizAttrs(attrs);
    EmptyValueText(attrs);
    EmptyValueWords(text);
    PairsOfThree(["k", "j", "v"]);
  }
}
