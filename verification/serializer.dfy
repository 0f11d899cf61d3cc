/** `Node.to_string`: a node is written on one line when it is childless,
    has attributes and the line fits in 220 characters; otherwise as a
    header line, its attribute lines, its children one level deeper, and
    `END`. Each level indents by four spaces. */
module Serializer {
  import opened Wrappers
  import opened Text
  import opened Tree

  /** Longest line, in characters, written in horizontal form. */
  const LineLimit := 220

  function Indent(level: nat): (s: string)
    ensures |s| == 4 * level
    ensures forall i :: 0 <= i < |s| ==> s[i] == ' '
  {
    if level == 0 then "" else "    " + Indent(level - 1)
  }

  /** The tag as written: quoted when needed, empty when absent. */
  function TagText(n: Node): string {
    if n.tag.Some? then QuoteIfNeeded(n.tag.value) else ""
  }

  function PairText(p: Attr): string {
    QuoteIfNeeded(p.0) + " " + QuoteIfNeeded(p.1)
  }

  function PairTexts(attrs: seq<Attr>): (ts: seq<string>)
    ensures |ts| == |attrs|
    ensures forall i :: 0 <= i < |attrs| ==> ts[i] == PairText(attrs[i])
  {
    seq(|attrs|, i requires 0 <= i < |attrs| => PairText(attrs[i]))
  }

  /** The attributes side by side, two spaces between pairs; empty exactly
      when there are no attributes. */
  function HorizAttrs(attrs: seq<Attr>): (h: string)
    ensures h == "" <==> attrs == []
  {
    var ts := PairTexts(attrs);
    if ts == [] then "" else
      assert Join("  ", ts) == ts[0] || Join("  ", ts) == ts[0] + "  " + Join("  ", ts[1..]);
      assert |Join("  ", ts)| >= |ts[0]| > 0;
      Join("  ", ts)
  }

  /** The one-line form of a childless node, before indentation. */
  function InlineText(n: Node): string {
    var h := HorizAttrs(n.attrs);
    if h != "" then "BEGIN " + TagText(n) + "      " + h + "  END"
    else "BEGIN " + TagText(n) + "  END"
  }

  function InlineLine(n: Node, level: nat): string {
    Indent(level) + InlineText(n)
  }

  /** The header line of a node with children, attributes included, before
      indentation. */
  function HorizText(n: Node): string {
    var h := HorizAttrs(n.attrs);
    if h != "" then "BEGIN " + TagText(n) + "      " + h
    else "BEGIN " + TagText(n)
  }

  function HorizHeader(n: Node, level: nat): string {
    Indent(level) + HorizText(n)
  }

  /** The header line of the vertical form, before indentation. */
  function BareText(n: Node): string {
    if TagText(n) != "" then "BEGIN " + TagText(n) else "BEGIN"
  }

  function BareHeader(n: Node, level: nat): string {
    Indent(level) + BareText(n)
  }

  /** One line per attribute, one level deeper than the node. */
  function AttrLines(attrs: seq<Attr>, level: nat): (ls: seq<string>)
    ensures |ls| == |attrs|
    ensures forall i :: 0 <= i < |attrs| ==> ls[i] == Indent(level) + "    " + PairText(attrs[i])
  {
    seq(|attrs|, i requires 0 <= i < |attrs| => Indent(level) + "    " + PairText(attrs[i]))
  }

  function EndLine(level: nat): string {
    Indent(level) + "END"
  }

  /** The horizontal candidate is longer than the limit. */
  predicate UseVertical(n: Node, level: nat) {
    if n.children != [] then |HorizHeader(n, level)| > LineLimit
    else |InlineLine(n, level)| > LineLimit
  }

  /** The header of a node with children: the one-line form when it has
      attributes and the line fits (the horizontal attribute text is empty
      exactly when there are none), else the bare `BEGIN` line and one line
      per attribute. */
  function ParentHead(n: Node, level: nat): seq<string> {
    if n.attrs != [] && |HorizHeader(n, level)| <= LineLimit then [HorizHeader(n, level)]
    else [BareHeader(n, level)] + AttrLines(n.attrs, level)
  }

  /** `to_string(indent)`, with each child's text joined in as one element,
      as the source does. */
  function ToString(n: Node, level: nat): string
    decreases n
  {
    if n.children != [] then
      var kids := seq(|n.children|, i requires 0 <= i < |n.children| => ToString(n.children[i], level + 1));
      JoinLines(ParentHead(n, level) + kids + [EndLine(level)])
    else if !UseVertical(n, level) && HorizAttrs(n.attrs) != "" then InlineLine(n, level)
    else JoinLines([BareHeader(n, level)] + AttrLines(n.attrs, level) + [EndLine(level)])
  }

  /** The text of a node opens with `BEGIN` at its indentation and closes
      with `END`, whichever form it takes. */
  lemma ToStringFramed(n: Node, level: nat)
    ensures StartsWith(ToString(n, level), Indent(level) + "BEGIN") && EndsWith(ToString(n, level), "END")
  {
    ToStringIsLines(n, level);
    LinesFramed(n, level, Lines(n, level));
    Framed(Lines(n, level), Indent(level) + "BEGIN");
  }

  /** The first line opens the node and the last closes it. */
  lemma LinesFramed(n: Node, level: nat, ls: seq<string>)
    requires ls == Lines(n, level)
    ensures ls != [] && StartsWith(ls[0], Indent(level) + "BEGIN") && EndsWith(ls[|ls| - 1], "END")
  {
    HeadsOpen(n, level);
    Closers(n, level);
    if n.children != [] {
      LayoutParent(n, level, ls);
    } else {
      LayoutLeaf(n, level, ls);
      if |ls| != 1 {
        assert ls[0] == BareHeader(n, level) && ls[|ls| - 1] == EndLine(level);
      }
    }
  }

  /** The inline line and the `END` line both close with `END`. */
  lemma Closers(n: Node, level: nat)
    ensures EndsWith(InlineLine(n, level), "END") && EndsWith(EndLine(level), "END")
  {
    var h := HorizAttrs(n.attrs);
    var body := if h != "" then "BEGIN " + TagText(n) + "      " + h else "BEGIN " + TagText(n);
    assert InlineText(n) == body + "  END";
    EndsWithEnd(Indent(level) + body + "  ");
    assert InlineLine(n, level) == Indent(level) + body + "  " + "END";
    EndsWithEnd(Indent(level));
  }

  lemma EndsWithEnd(s: string)
    ensures EndsWith(s + "END", "END")
  {
    var t := s + "END";
    assert t[|t| - 3..] == "END";
  }

  /** Every header form opens with `BEGIN` at the node's indentation. */
  lemma HeadsOpen(n: Node, level: nat)
    ensures StartsWith(InlineLine(n, level), Indent(level) + "BEGIN")
    ensures StartsWith(BareHeader(n, level), Indent(level) + "BEGIN")
    ensures StartsWith(HorizHeader(n, level), Indent(level) + "BEGIN")
  {
    Opens(InlineText(n), level);
    Opens(BareText(n), level);
    Opens(HorizText(n), level);
  }

  lemma Opens(t: string, level: nat)
    requires |t| >= 5 && t[..5] == "BEGIN"
    ensures StartsWith(Indent(level) + t, Indent(level) + "BEGIN")
  {
    var s, p := Indent(level) + t, Indent(level) + "BEGIN";
    assert s[..|p|] == Indent(level) + t[..5];
  }

  /** Joined lines open as the first line does and close as the last. */
  lemma Framed(ls: seq<string>, pre: string)
    requires ls != [] && StartsWith(ls[0], pre) && EndsWith(ls[|ls| - 1], "END")
    ensures StartsWith(JoinLines(ls), pre) && EndsWith(JoinLines(ls), "END")
  {
    JoinEnds("\n", ls);
    StartsWithPrefix(JoinLines(ls), ls[0], pre);
    var j, e := JoinLines(ls), ls[|ls| - 1];
    assert j[|j| - 3..] == e[|e| - 3..];
  }

  /** The lines of `to_string(indent)`, children's lines spliced in. */
  function Lines(n: Node, level: nat): (ls: seq<string>)
    ensures |ls| >= 1
    decreases n, 1
  {
    if n.children != [] then ParentHead(n, level) + ChildLines(n, 0, level + 1) + [EndLine(level)]
    else if !UseVertical(n, level) && HorizAttrs(n.attrs) != "" then [InlineLine(n, level)]
    else [BareHeader(n, level)] + AttrLines(n.attrs, level) + [EndLine(level)]
  }

  /** The lines of the children from index `k` on. */
  function ChildLines(p: Node, k: nat, level: nat): (ls: seq<string>)
    requires k <= |p.children|
    decreases p, 0, |p.children| - k
  {
    if k == |p.children| then []
    else Lines(p.children[k], level) + ChildLines(p, k + 1, level)
  }

  /** A deeper indentation starts with a shallower one. */
  lemma IndentPrefix(level: nat)
    ensures forall s :: StartsWith(s, Indent(level + 1)) ==> StartsWith(s, Indent(level))
  {
  }

  lemma IndentedLine(level: nat, text: string)
    ensures StartsWith(Indent(level) + text, Indent(level))
  {
    assert (Indent(level) + text)[..|Indent(level)|] == Indent(level);
  }

  /** Every line `to_string(indent)` writes starts with the node's indentation. */
  lemma {:induction false} LinesIndented(n: Node, level: nat)
    ensures forall i :: 0 <= i < |Lines(n, level)| ==> StartsWith(Lines(n, level)[i], Indent(level))
    decreases n, 1
  {
    var ls := Lines(n, level);
    var bare := [BareHeader(n, level)] + AttrLines(n.attrs, level);
    var last := [EndLine(level)];
    HeadIndented(n, level, bare);
    IndentedLine(level, "END");
    if n.children != [] {
      var head, kids := ParentHead(n, level), ChildLines(n, 0, level + 1);
      IndentedLine(level, HorizText(n));
      ChildLinesIndented(n, 0, level + 1);
      IndentPrefix(level);
      IndentedRuns(head, kids, last, ls, Indent(level));
    } else if |ls| == 1 {
      IndentedLine(level, InlineText(n));
    } else {
      IndentedRuns(bare, [], last, ls, Indent(level));
    }
  }

  /** The bare header and the attribute lines are indented. */
  lemma HeadIndented(n: Node, level: nat, bare: seq<string>)
    requires bare == [BareHeader(n, level)] + AttrLines(n.attrs, level)
    ensures forall i :: 0 <= i < |bare| ==> StartsWith(bare[i], Indent(level))
  {
    forall i | 0 <= i < |bare|
      ensures StartsWith(bare[i], Indent(level))
    {
      if i == 0 {
        IndentedLine(level, BareText(n));
      } else {
        IndentedLine(level, "    " + PairText(n.attrs[i - 1]));
      }
    }
  }

  /** Three runs of lines, each starting with `pre`, one after the other. */
  lemma IndentedRuns(a: seq<string>, b: seq<string>, c: seq<string>, all: seq<string>, pre: string)
    requires all == a + b + c
    requires forall i :: 0 <= i < |a| ==> StartsWith(a[i], pre)
    requires forall i :: 0 <= i < |b| ==> StartsWith(b[i], pre)
    requires forall i :: 0 <= i < |c| ==> StartsWith(c[i], pre)
    ensures forall i :: 0 <= i < |all| ==> StartsWith(all[i], pre)
  {
    forall i | 0 <= i < |all|
      ensures StartsWith(all[i], pre)
    {
      if i < |a| {
        assert all[i] == a[i];
      } else if i < |a| + |b| {
        assert all[i] == b[i - |a|];
      } else {
        assert all[i] == c[i - |a| - |b|];
      }
    }
  }

  lemma {:induction false} ChildLinesIndented(p: Node, k: nat, level: nat)
    requires k <= |p.children|
    ensures forall i :: 0 <= i < |ChildLines(p, k, level)| ==> StartsWith(ChildLines(p, k, level)[i], Indent(level))
    decreases p, 0, |p.children| - k
  {
    if k < |p.children| {
      var own := Lines(p.children[k], level);
      var rest := ChildLines(p, k + 1, level);
      LinesIndented(p.children[k], level);
      ChildLinesIndented(p, k + 1, level);
      forall i | 0 <= i < |own + rest|
        ensures StartsWith((own + rest)[i], Indent(level))
      {
        if i < |own| {
          assert (own + rest)[i] == own[i];
        } else {
          assert (own + rest)[i] == rest[i - |own|];
        }
      }
    }
  }

  /** Layout: one line exactly when the node is childless, has attributes
      and its horizontal line is at most 220 characters; a childless node
      otherwise takes its attribute count plus two lines. */
  lemma Layout(n: Node, level: nat)
    ensures |Lines(n, level)| == 1 <==>
              n.children == [] && n.attrs != [] && |InlineLine(n, level)| <= LineLimit
    ensures |Lines(n, level)| == 1 ==> Lines(n, level)[0] == InlineLine(n, level)
    ensures n.children == [] && |Lines(n, level)| != 1 ==>
              && |Lines(n, level)| == |n.attrs| + 2
              && Lines(n, level) == [BareHeader(n, level)] + AttrLines(n.attrs, level) + [EndLine(level)]
    ensures n.children != [] ==>
              && Lines(n, level)[0] == (if n.attrs != [] && |HorizHeader(n, level)| <= LineLimit
                                        then HorizHeader(n, level) else BareHeader(n, level))
              && Lines(n, level)[|Lines(n, level)| - 1] == EndLine(level)
              && |Lines(n, level)| >= |n.children| + 2
  {
    var ls := Lines(n, level);
    if n.children != [] {
      LayoutParent(n, level, ls);
    } else {
      LayoutLeaf(n, level, ls);
    }
  }

  lemma LayoutParent(n: Node, level: nat, ls: seq<string>)
    requires n.children != [] && ls == Lines(n, level)
    ensures |ls| >= |n.children| + 2 && ls[|ls| - 1] == EndLine(level)
    ensures ls[0] == (if n.attrs != [] && |HorizHeader(n, level)| <= LineLimit
                      then HorizHeader(n, level) else BareHeader(n, level))
  {
    var head, kids := ParentHead(n, level), ChildLines(n, 0, level + 1);
    assert ls == head + kids + [EndLine(level)];
    ChildLinesCount(n, 0, level + 1);
    HeadFirst(n, level, head);
    Sandwich(ls, head, kids, EndLine(level));
  }

  lemma HeadFirst(n: Node, level: nat, head: seq<string>)
    requires head == ParentHead(n, level)
    ensures head != [] && head[0] == (if n.attrs != [] && |HorizHeader(n, level)| <= LineLimit
                                      then HorizHeader(n, level) else BareHeader(n, level))
  {
  }

  lemma Sandwich(ls: seq<string>, head: seq<string>, mid: seq<string>, last: string)
    requires head != [] && ls == head + mid + [last]
    ensures |ls| == |head| + |mid| + 1 && ls[0] == head[0] && ls[|ls| - 1] == last
  {
  }

  lemma LayoutLeaf(n: Node, level: nat, ls: seq<string>)
    requires n.children == [] && ls == Lines(n, level)
    ensures |ls| == 1 <==> n.attrs != [] && |InlineLine(n, level)| <= LineLimit
    ensures |ls| == 1 ==> ls[0] == InlineLine(n, level)
    ensures |ls| != 1 ==> |ls| == |n.attrs| + 2
                          && ls == [BareHeader(n, level)] + AttrLines(n.attrs, level) + [EndLine(level)]
  {
    assert HorizAttrs(n.attrs) != "" <==> n.attrs != [];
  }

  lemma {:induction false} ChildLinesCount(p: Node, k: nat, level: nat)
    requires k <= |p.children|
    ensures |ChildLines(p, k, level)| >= |p.children| - k
    decreases |p.children| - k
  {
    if k < |p.children| {
      var k1 := k + 1;
      ChildLinesCons(p, k, level, k1);
      ChildLinesCount(p, k1, level);
    }
  }

  /** The lines of the children from `k` on: child `k`'s, then the rest. */
  lemma ChildLinesCons(p: Node, k: nat, level: nat, k1: nat)
    requires k < |p.children| && k1 == k + 1
    ensures ChildLines(p, k, level) == Lines(p.children[k], level) + ChildLines(p, k1, level)
  {
  }

  /** Joining two non-empty runs of lines puts one line break between them. */
  lemma {:induction false} JoinLinesAppend(a: seq<string>, b: seq<string>)
    requires a != [] && b != []
    ensures JoinLines(a + b) == JoinLines(a) + "\n" + JoinLines(b)
    decreases |a|
  {
    if |a| == 1 {
      assert (a + b)[1..] == b;
    } else {
      assert (a + b)[1..] == a[1..] + b;
      JoinLinesAppend(a[1..], b);
    }
  }

  /** Runs of lines that join to the same text can replace each other
      between a header and an end line. */
  lemma JoinSandwich(head: seq<string>, kids: seq<string>, cl: seq<string>, last: string)
    requires head != [] && kids != [] && cl != [] && JoinLines(kids) == JoinLines(cl)
    ensures JoinLines(head + kids + [last]) == JoinLines(head + cl + [last])
  {
    JoinLinesAppend(head + kids, [last]);
    JoinLinesAppend(head, kids);
    JoinLinesAppend(head, cl);
    JoinLinesAppend(head + cl, [last]);
  }

  /** `to_string` is the line list joined with line breaks. */
  lemma {:induction false} ToStringIsLines(n: Node, level: nat)
    ensures ToString(n, level) == JoinLines(Lines(n, level))
    decreases n, 1
  {
    if n.children != [] {
      var head := ParentHead(n, level);
      var kids := seq(|n.children|, i requires 0 <= i < |n.children| => ToString(n.children[i], level + 1));
      var cl := ChildLines(n, 0, level + 1);
      ParentUnfold(n, level, head, kids, cl);
      KidsAreChildLines(n, kids, 0, level + 1);
      assert kids[0..] == kids;
      ChildLinesCount(n, 0, level + 1);
      JoinSandwich(head, kids, cl, EndLine(level));
    } else {
      var head := [BareHeader(n, level)] + AttrLines(n.attrs, level);
      assert ChildLines(n, 0, level + 1) == [];
      assert head + [] + [EndLine(level)] == head + [EndLine(level)];
    }
  }

  /** Both views of a node with children: its text, and its lines. */
  lemma ParentUnfold(n: Node, level: nat, head: seq<string>, kids: seq<string>, cl: seq<string>)
    requires n.children != [] && head == ParentHead(n, level) && cl == ChildLines(n, 0, level + 1)
    requires kids == seq(|n.children|, i requires 0 <= i < |n.children| => ToString(n.children[i], level + 1))
    ensures ToString(n, level) == JoinLines(head + kids + [EndLine(level)])
    ensures Lines(n, level) == head + cl + [EndLine(level)]
  {
    assert HorizAttrs(n.attrs) != "" <==> n.attrs != [];
  }

  /** The children's texts, joined, are their lines joined. */
  lemma {:induction false} KidsAreChildLines(p: Node, kids: seq<string>, k: nat, level: nat)
    requires k < |p.children| && |kids| == |p.children|
    requires forall i :: 0 <= i < |kids| ==> kids[i] == ToString(p.children[i], level)
    ensures JoinLines(kids[k..]) == JoinLines(ChildLines(p, k, level))
    decreases p, 0, |p.children| - k
  {
    var k1 := k + 1;
    var here, rest := Lines(p.children[k], level), ChildLines(p, k1, level);
    ChildLinesCons(p, k, level, k1);
    ToStringIsLines(p.children[k], level);
    if k1 == |p.children| {
      JoinLast(kids, k, here, rest);
    } else {
      KidsAreChildLines(p, kids, k1, level);
      ChildLinesCount(p, k1, level);
      JoinSplice(kids, k, k1, here, rest);
    }
  }

  /** The last text, written as its own lines. */
  lemma JoinLast(kids: seq<string>, k: nat, here: seq<string>, rest: seq<string>)
    requires k + 1 == |kids| && rest == [] && kids[k] == JoinLines(here)
    ensures JoinLines(kids[k..]) == JoinLines(here + rest)
  {
    assert kids[k..] == [kids[k]];
    assert here + rest == here;
  }

  /** A text written as its own lines, ahead of texts already so written. */
  lemma JoinSplice(kids: seq<string>, k: nat, k1: nat, here: seq<string>, rest: seq<string>)
    requires k1 == k + 1 && k1 < |kids| && here != [] && rest != []
    requires kids[k] == JoinLines(here) && JoinLines(kids[k1..]) == JoinLines(rest)
    ensures JoinLines(kids[k..]) == JoinLines(here + rest)
  {
    assert kids[k..] == [kids[k]] + kids[k1..];
    JoinLinesAppend([kids[k]], kids[k1..]);
    JoinLinesAppend(here, rest);
  }
}
