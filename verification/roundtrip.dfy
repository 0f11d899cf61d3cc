/** Reading back what the serializer writes: for a tree whose tags, keys and
    values are words the format can carry, `parse_node` over the lines of
    `to_string` gives the same node. The text-level statements, over
    `splitlines` and `parse_file`, are in the module NodeText. */
module RoundTrip {
  import opened Wrappers
  import opened Text
  import opened Tree
  import opened Tokens
  import opened Serializer
  import opened Parser
  import opened Seqs

  /* ---------- Text facts ---------- */

  /** `t` occurs in `s` at position `k`. */
  predicate OccursAt(s: string, t: string, k: int) {
    0 <= k && k + |t| <= |s| && s[k..k + |t|] == t
  }

  /** `t in s` as an index: `t` occurs at some position of `s`. */
  lemma {:induction false} ContainsAt(s: string, t: string)
    ensures Contains(s, t) <==> exists k :: OccursAt(s, t, k)
    decreases |s|
  {
    if |s| > 0 {
      ContainsAt(s[1..], t);
      if Contains(s[1..], t) {
        var k :| OccursAt(s[1..], t, k);
        assert s[k + 1..k + 1 + |t|] == s[1..][k..k + |t|];
        assert OccursAt(s, t, k + 1);
      }
      if StartsWith(s, t) {
        assert OccursAt(s, t, 0);
      }
      if exists k :: OccursAt(s, t, k) {
        var k :| OccursAt(s, t, k);
        if k == 0 {
          assert s[..|t|] == s[0..|t|];
        } else {
          assert s[1..][k - 1..k - 1 + |t|] == s[k..k + |t|];
          assert OccursAt(s[1..], t, k - 1);
        }
      }
    } else if Contains(s, t) {
      assert OccursAt(s, t, 0);
    }
  }

  predicate EndFree(s: string) {
    !Contains(s, "END")
  }

  /** Characters that cannot be part of `END`. */
  predicate Gap(c: char) {
    c == ' ' || c == '"'
  }

  /** `END` cannot straddle a space or a quote. */
  lemma EndFreeCat(a: string, b: string)
    requires EndFree(a) && EndFree(b)
    requires (|a| > 0 && Gap(a[|a| - 1])) || (|b| > 0 && Gap(b[0]))
    ensures EndFree(a + b)
  {
    var s := a + b;
    ContainsAt(s, "END");
    forall k | 0 <= k && k + 3 <= |s|
      ensures !OccursAt(s, "END", k)
    {
      EndAcross(a, b, k);
    }
  }

  /** No `END` at position `k` of `a + b`, wherever `k` falls. */
  lemma EndAcross(a: string, b: string, k: int)
    requires EndFree(a) && EndFree(b)
    requires (|a| > 0 && Gap(a[|a| - 1])) || (|b| > 0 && Gap(b[0]))
    requires 0 <= k && k + 3 <= |a + b|
    ensures !OccursAt(a + b, "END", k)
  {
    var s := a + b;
    if k + 3 <= |a| {
      ContainsAt(a, "END");
      assert a[k..k + 3] == s[k..k + 3];
      assert !OccursAt(a, "END", k);
    } else if k >= |a| {
      ContainsAt(b, "END");
      assert b[k - |a|..k - |a| + 3] == s[k..k + 3];
      assert !OccursAt(b, "END", k - |a|);
    } else {
      assert s[|a| - 1] == a[|a| - 1] && s[|a|] == b[0];
      assert s[k..k + 3][|a| - 1 - k] == s[|a| - 1];
      assert s[k..k + 3][|a| - k] == s[|a|];
    }
  }

  lemma ShortEndFree(s: string)
    requires |s| < 3
    ensures EndFree(s)
  {
    ContainsAt(s, "END");
  }

  lemma BeginEndFree()
    ensures EndFree("BEGIN")
  {
    var s := "BEGIN";
    ContainsAt(s, "END");
    forall k | 0 <= k && k + 3 <= |s|
      ensures !OccursAt(s, "END", k)
    {
      assert s[k..k + 3][1] == s[k + 1];
    }
  }

  lemma EndsWithContains(s: string, t: string)
    requires EndsWith(s, t)
    ensures Contains(s, t)
  {
    ContainsAt(s, t);
    assert OccursAt(s, t, |s| - |t|);
  }

  /** A line with no whitespace at either end. */
  predicate Solid(s: string) {
    s != "" && !IsSpace(s[0]) && !IsSpace(s[|s| - 1])
  }

  lemma {:induction false} TrimLeftSpaces(pre: string, s: string)
    requires AllSpace(pre)
    ensures TrimLeft(pre + s) == TrimLeft(s)
    decreases |pre|
  {
    if pre == "" {
      assert pre + s == s;
    } else {
      assert (pre + s)[0] == pre[0];
      assert (pre + s)[1..] == pre[1..] + s;
      TrimLeftSpaces(pre[1..], s);
    }
  }

  lemma {:induction false} TrimRightSpaces(s: string, post: string)
    requires AllSpace(post)
    ensures TrimRight(s + post) == TrimRight(s)
    decreases |post|
  {
    if post == "" {
      assert s + post == s;
    } else {
      var t := s + post;
      assert t[|t| - 1] == post[|post| - 1];
      assert t[..|t| - 1] == s + post[..|post| - 1];
      TrimRightSpaces(s, post[..|post| - 1]);
    }
  }

  /** Stripping a padded line leaves its core. */
  lemma StripPadded(pre: string, core: string, post: string)
    requires AllSpace(pre) && AllSpace(post) && Solid(core)
    ensures Strip(pre + core + post) == core
  {
    var cp := core + post;
    PaddedLeft(pre, core, post, cp);
    PaddedRight(core, post, cp);
  }

  lemma PaddedLeft(pre: string, core: string, post: string, cp: string)
    requires AllSpace(pre) && Solid(core) && cp == core + post
    ensures TrimLeft(pre + core + post) == cp
  {
    assert pre + core + post == pre + cp;
    TrimLeftSpaces(pre, cp);
    assert cp[0] == core[0];
    TrimLeftKeeps(cp);
  }

  lemma PaddedRight(core: string, post: string, cp: string)
    requires AllSpace(post) && Solid(core) && cp == core + post
    ensures TrimRight(cp) == core
  {
    TrimRightSpaces(core, post);
    TrimRightKeeps(core);
  }

  lemma IndentSpace(level: nat)
    ensures AllSpace(Indent(level))
  {
  }

  /** No whitespace but the plain space, hence no line boundary. */
  predicate Flat(s: string) {
    forall i :: 0 <= i < |s| && IsSpace(s[i]) ==> s[i] == ' '
  }

  lemma FlatCat(a: string, b: string)
    requires Flat(a) && Flat(b)
    ensures Flat(a + b)
  {
    forall i | 0 <= i < |a + b| && IsSpace((a + b)[i])
      ensures (a + b)[i] == ' '
    {
      if i < |a| {
        assert (a + b)[i] == a[i];
      } else {
        assert (a + b)[i] == b[i - |a|];
      }
    }
  }

  lemma FlatNoBreak(s: string)
    requires Flat(s)
    ensures NoLineBreak(s)
  {
    forall i | 0 <= i < |s|
      ensures !IsLineBreak(s[i])
    {
      if IsLineBreak(s[i]) {
        assert IsSpace(s[i]);
      }
    }
  }

  lemma BlankEndFree(s: string)
    requires forall i :: 0 <= i < |s| ==> s[i] == ' '
    ensures EndFree(s)
  {
    ContainsAt(s, "END");
    forall k | 0 <= k && k + 3 <= |s|
      ensures !OccursAt(s, "END", k)
    {
      assert s[k..k + 3][0] == s[k];
    }
  }

  /* ---------- Words the format carries ---------- */

  /** A tag, key or value written and read back unchanged: not empty, no
      double quote, no whitespace but the plain space, no `END`, and no
      single quote or backslash. */
  predicate Word(w: string) {
    Quotable(w) && Flat(w) && EndFree(w) && ShellLiteral(w)
  }

  /** Neither a single quote nor a backslash: `shlex` gives both a meaning
      (an unmatched `'` is an error, `\` escapes the next character), and
      the splitter modelled here reads them as plain characters. */
  predicate ShellLiteral(w: string) {
    '\'' !in w && '\\' !in w
  }

  /** A key must also not open a line the parser reads as a child. */
  predicate KeyWord(k: string) {
    Word(k) && !StartsWith(k, "BEGIN")
  }

  predicate GoodAttrs(attrs: seq<Attr>) {
    forall j :: 0 <= j < |attrs| ==> KeyWord(attrs[j].0) && Word(attrs[j].1)
  }

  /** The first pair of a good list, and the rest of it. */
  lemma GoodTail(ps: seq<Attr>)
    requires ps != [] && GoodAttrs(ps)
    ensures KeyWord(ps[0].0) && Word(ps[0].1) && GoodAttrs(ps[1..])
  {
    forall j | 0 <= j < |ps[1..]|
      ensures KeyWord(ps[1..][j].0) && Word(ps[1..][j].1)
    {
      assert ps[1..][j] == ps[j + 1];
    }
  }

  /** Every tag, key and value of the tree is a word. */
  predicate WellFormed(n: Node)
    decreases n
  {
    && n.tag.Some? && Word(n.tag.value)
    && GoodAttrs(n.attrs)
    && forall j :: 0 <= j < |n.children| ==> WellFormed(n.children[j])
  }

  /** A quoted-if-needed word is solid, free of `END`, flat, and either the
      word itself (holding no whitespace at all) or quoted. */
  lemma QuotedWord(w: string)
    requires Word(w)
    ensures var q := QuoteIfNeeded(w);
            && Solid(q) && EndFree(q) && Flat(q)
            && ((q == w && forall i :: 0 <= i < |w| ==> !IsSpace(w[i])) || q[0] == '"')
  {
    var q := QuoteIfNeeded(w);
    if ' ' in w {
      ShortEndFree("\"");
      EndFreeCat("\"", w);
      EndFreeCat("\"" + w, "\"");
      FlatCat("\"", w);
      FlatCat("\"" + w, "\"");
    } else {
      forall i | 0 <= i < |w|
        ensures !IsSpace(w[i])
      {
        assert w[i] in w;
      }
    }
  }

  /** `quote_if_needed(k) + sep + quote_if_needed(v)` for a run of spaces `sep`:
      an attribute line, and a header line of the file. */
  function PairLine(k: string, sep: string, v: string): string {
    QuoteIfNeeded(k) + sep + QuoteIfNeeded(v)
  }

  predicate Spaces(s: string) {
    forall i :: 0 <= i < |s| ==> s[i] == ' '
  }

  lemma SpacesFacts(s: string)
    requires Spaces(s)
    ensures AllSpace(s) && AllShellSpace(s) && Flat(s) && EndFree(s)
  {
    BlankEndFree(s);
  }

  /** The fixed pieces the serializer writes. */
  lemma Literals()
    ensures AllSpace(" ") && AllShellSpace(" ") && Flat(" ") && EndFree(" ")
    ensures AllSpace("  ") && AllShellSpace("  ") && Flat("  ") && EndFree("  ")
    ensures AllSpace("    ") && AllShellSpace("    ") && Flat("    ") && EndFree("    ")
    ensures AllSpace("      ") && AllShellSpace("      ") && Flat("      ") && EndFree("      ")
    ensures Spaces(" ") && Spaces("  ") && Spaces("    ") && Spaces("      ")
    ensures EndFree("BEGIN")
  {
    SpacesFacts(" ");
    SpacesFacts("  ");
    SpacesFacts("    ");
    SpacesFacts("      ");
    BeginEndFree();
  }

  /** The words of a pair line are the key and the value. */
  lemma ReadPairLine(k: string, sep: string, v: string, rest: string, acc: seq<string>)
    requires Quotable(k) && Quotable(v) && sep != "" && Spaces(sep)
    ensures Words(PairLine(k, sep, v) + rest, "", false, false, acc) == Words(rest, v, true, false, acc + [k])
  {
    SpacesFacts(sep);
    assert PairLine(k, sep, v) + rest == QuoteIfNeeded(k) + (sep + (QuoteIfNeeded(v) + rest));
    ReadQuoted(k, sep + (QuoteIfNeeded(v) + rest), acc);
    CloseWord(sep, QuoteIfNeeded(v) + rest, k, acc);
    ReadQuoted(v, rest, acc + [k]);
  }

  /** A pair line is solid, flat, free of `END`, and opens neither an `END`
      nor a `BEGIN` line. */
  lemma PairLineShape(k: string, sep: string, v: string)
    requires KeyWord(k) && Word(v) && sep != "" && Spaces(sep)
    ensures var s := PairLine(k, sep, v);
            Solid(s) && Flat(s) && EndFree(s) && !StartsWith(s, "END") && !StartsWith(s, "BEGIN")
  {
    var qk, qv := QuoteIfNeeded(k), QuoteIfNeeded(v);
    var s := PairLine(k, sep, v);
    QuotedWord(k);
    QuotedWord(v);
    SpacesFacts(sep);
    EndFreeCat(qk, sep);
    EndFreeCat(qk + sep, qv);
    FlatCat(qk, sep);
    FlatCat(qk + sep, qv);
    assert s == qk + sep + qv;
    assert s[0] == qk[0];
    assert s[|s| - 1] == qv[|qv| - 1];
    if qk == k && |k| < 5 {
      assert s[|k|] == ' ';
      assert "BEGIN"[|k|] != ' ';
    } else if qk == k {
      assert s[..5] == k[..5];
    }
  }

  /** The attributes side by side: solid, flat and free of `END`. */
  lemma {:induction false} JoinShape(ts: seq<string>)
    requires ts != []
    requires forall i :: 0 <= i < |ts| ==> Solid(ts[i]) && Flat(ts[i]) && EndFree(ts[i])
    ensures var j := Join("  ", ts);
            Solid(j) && Flat(j) && EndFree(j)
    decreases |ts|
  {
    if |ts| > 1 {
      var rest := Join("  ", ts[1..]);
      JoinShape(ts[1..]);
      Literals();
      EndFreeCat(ts[0], "  ");
      EndFreeCat(ts[0] + "  ", rest);
      FlatCat(ts[0], "  ");
      FlatCat(ts[0] + "  ", rest);
      var j := ts[0] + "  " + rest;
      assert j[0] == ts[0][0];
      assert j[|j| - 1] == rest[|rest| - 1];
    }
  }

  lemma HorizShape(attrs: seq<Attr>)
    requires attrs != [] && GoodAttrs(attrs)
    ensures var h := HorizAttrs(attrs);
            Solid(h) && Flat(h) && EndFree(h)
  {
    var ts := PairTexts(attrs);
    forall i | 0 <= i < |ts|
      ensures Solid(ts[i]) && Flat(ts[i]) && EndFree(ts[i])
    {
      PairLineShape(attrs[i].0, " ", attrs[i].1);
      assert ts[i] == PairLine(attrs[i].0, " ", attrs[i].1);
    }
    JoinShape(ts);
  }

  /** The one-line attribute text is the first pair, then two spaces and the rest. */
  lemma HorizCons(attrs: seq<Attr>)
    requires attrs != []
    ensures var first := PairLine(attrs[0].0, " ", attrs[0].1);
            && (|attrs| == 1 ==> HorizAttrs(attrs) == first + "")
            && (|attrs| > 1 ==> HorizAttrs(attrs) == first + ("  " + HorizAttrs(attrs[1..])))
  {
    var ts := PairTexts(attrs);
    assert ts[0] == PairLine(attrs[0].0, " ", attrs[0].1);
    assert ts[1..] == PairTexts(attrs[1..]);
  }

  /** A pair followed by the two-space separator is read as its two words. */
  lemma ReadPairThen(k: string, v: string, rest: string, acc: seq<string>)
    requires Quotable(k) && Quotable(v)
    ensures Words(PairLine(k, " ", v) + ("  " + rest), "", false, false, acc)
         == Words(rest, "", false, false, acc + [k] + [v])
  {
    ReadPairLine(k, " ", v, "  " + rest, acc);
    Literals();
    CloseWord("  ", rest, v, acc + [k]);
  }

  predicate QuotableAttrs(attrs: seq<Attr>) {
    forall j :: 0 <= j < |attrs| ==> Quotable(attrs[j].0) && Quotable(attrs[j].1)
  }

  lemma QuotableTail(attrs: seq<Attr>)
    requires attrs != [] && QuotableAttrs(attrs)
    ensures Quotable(attrs[0].0) && Quotable(attrs[0].1) && QuotableAttrs(attrs[1..])
  {
    forall j | 0 <= j < |attrs[1..]|
      ensures Quotable(attrs[1..][j].0) && Quotable(attrs[1..][j].1)
    {
      assert attrs[1..][j] == attrs[j + 1];
    }
  }

  /** Reading past the first pair of a longer one-line attribute text. */
  lemma ReadHorizMore(attrs: seq<Attr>, acc: seq<string>, r: Result<seq<string>, ParseError>)
    requires |attrs| > 1 && Quotable(attrs[0].0) && Quotable(attrs[0].1)
    requires Words(HorizAttrs(attrs[1..]), "", false, false, acc + [attrs[0].0] + [attrs[0].1]) == r
    ensures Words(HorizAttrs(attrs), "", false, false, acc) == r
  {
    HorizCons(attrs);
    ReadPairThen(attrs[0].0, attrs[0].1, HorizAttrs(attrs[1..]), acc);
  }

  lemma ReadHorizOne(attrs: seq<Attr>, acc: seq<string>)
    requires |attrs| == 1 && Quotable(attrs[0].0) && Quotable(attrs[0].1)
    ensures Words(HorizAttrs(attrs), "", false, false, acc) == Success(acc + Flatten(attrs))
  {
    var k, v := attrs[0].0, attrs[0].1;
    assert HorizAttrs(attrs) == PairLine(k, " ", v) + "" by {
      HorizCons(attrs);
    }
    ReadPairLine(k, " ", v, "", acc);
    assert acc + [k] + [v] == acc + Flatten(attrs) by {
      assert Flatten(attrs) == [k, v] + Flatten(attrs[1..]);
      assert Flatten(attrs[1..]) == [];
    }
  }

  /** The words of the attributes side by side are the keys and values in order. */
  lemma {:induction false} ReadHoriz(attrs: seq<Attr>, acc: seq<string>)
    requires attrs != [] && QuotableAttrs(attrs)
    ensures Words(HorizAttrs(attrs), "", false, false, acc) == Success(acc + Flatten(attrs))
    decreases |attrs|
  {
    QuotableTail(attrs);
    if |attrs| == 1 {
      ReadHorizOne(attrs, acc);
    } else {
      var k, v := attrs[0].0, attrs[0].1;
      ReadHoriz(attrs[1..], acc + [k] + [v]);
      assert acc + [k] + [v] + Flatten(attrs[1..]) == acc + Flatten(attrs) by {
        assert Flatten(attrs) == [k, v] + Flatten(attrs[1..]);
      }
      ReadHorizMore(attrs, acc, Success(acc + Flatten(attrs)));
    }
  }

  lemma TokenizeHoriz(attrs: seq<Attr>)
    requires attrs != [] && QuotableAttrs(attrs)
    ensures TokenizeAttributes(HorizAttrs(attrs)) == Success(attrs)
  {
    ReadHoriz(attrs, []);
    assert [] + Flatten(attrs) == Flatten(attrs);
    PairFlatten(attrs);
  }

  /* ---------- Each kind of line, read back ---------- */

  /** The text between the tag and the final `END` of an inline line. */
  lemma InlineBody(q: string, h: string, m: nat)
    requires q != "" && m == |q|
    ensures var body := q + "      " + h + "  END";
            && EndsWith(body, "END") && body[0] == q[0]
            && body[m..|body| - 3] == "      " + h + "  "
            && m < |body| && body[..m] == q && body[m] == ' '
  {
    var body := q + "      " + h + "  END";
    var tail := "      " + h + "  END";
    assert body == q + tail;
    assert body[|body| - 3..] == "END";
    assert body[m] == tail[0];
  }

  lemma StripMid(h: string)
    requires Solid(h)
    ensures Strip("      " + h + "  ") == h
  {
    Literals();
    StripPadded("      ", h, "  ");
  }

  lemma MatchTagQuoted(body: string, tag: string, mid: string, h: string, qi: nat)
    requires EndsWith(body, "END") && !IsSpace(body[0])
    requires |body| > 1 && body[0] == '"' && body[1] != '"' && QuoteIndex(body, 1) == qi && qi < |body|
    requires body[1..qi] == tag
    requires body[qi + 1..|body| - 3] == mid && Strip(mid) == h
    ensures MatchTag(body) == Some((tag, h))
  {
  }

  lemma MatchTagBare(body: string, tag: string, mid: string, h: string)
    requires EndsWith(body, "END") && !IsSpace(body[0]) && body[0] != '"'
    requires |NonSpacePrefix(body)| < |body|
    requires NonSpacePrefix(body) == tag
    requires body[|tag|..|body| - 3] == mid && Strip(mid) == h
    ensures MatchTag(body) == Some((tag, h))
  {
  }

  /** `QuoteIndex` finds the first double quote. */
  lemma {:induction false} QuoteIndexAt(s: string, from: nat, j: nat)
    requires from <= j < |s| && s[j] == '"'
    requires forall i :: from <= i < j ==> s[i] != '"'
    ensures QuoteIndex(s, from) == j
    decreases j - from
  {
    if from < j {
      QuoteIndexAt(s, from + 1, j);
    }
  }

  /** A quoted word at the head of a text closes where the word ends. */
  lemma QuotedPrefix(w: string, rest: string, s: string, e: nat)
    requires w != "" && '"' !in w && s == "\"" + w + "\"" + rest && e == 1 + |w|
    ensures |s| > e && s[0] == '"' && s[1] != '"' && QuoteIndex(s, 1) == e && s[1..e] == w
  {
    assert s[1] == w[0] && w[0] in w;
    forall i | 1 <= i < 1 + |w|
      ensures s[i] != '"'
    {
      assert s[i] == w[i - 1];
      assert w[i - 1] in w;
    }
    QuoteIndexAt(s, 1, 1 + |w|);
  }

  lemma QuotedTagMatch(tag: string, h: string)
    requires Word(tag) && ' ' in tag && Solid(h)
    ensures var body := QuoteIfNeeded(tag) + "      " + h + "  END";
            EndsWith(body, "END") && !IsSpace(body[0]) && MatchTag(body) == Some((tag, h))
  {
    var q := QuoteIfNeeded(tag);
    assert q == "\"" + tag + "\"";
    QuotedMatch(tag, h, q, q + "      " + h + "  END");
  }

  lemma QuotedMatch(tag: string, h: string, q: string, body: string)
    requires Word(tag) && Solid(h) && q == "\"" + tag + "\"" && body == q + "      " + h + "  END"
    ensures EndsWith(body, "END") && !IsSpace(body[0]) && MatchTag(body) == Some((tag, h))
  {
    var mid := "      " + h + "  ";
    QuotedBody(tag, h, q, mid, body);
    var qi := 1 + |tag|;
    QuotedPrefix(tag, mid + "END", body, qi);
    InlineBody(q, h, qi + 1);
    StripMid(h);
    MatchTagQuoted(body, tag, mid, h, qi);
  }

  lemma QuotedBody(tag: string, h: string, q: string, mid: string, body: string)
    requires q == "\"" + tag + "\"" && mid == "      " + h + "  " && body == q + "      " + h + "  END"
    ensures body == "\"" + tag + "\"" + (mid + "END")
  {
  }

  /** The bare-tag run stops at the first whitespace. */
  lemma NonSpaceRun(s: string, w: string)
    requires |w| < |s| && s[..|w|] == w && IsSpace(s[|w|])
    requires forall i :: 0 <= i < |w| ==> !IsSpace(w[i])
    ensures NonSpacePrefix(s) == w
  {
    var r := NonSpacePrefix(s);
    assert |r| >= |w| by {
      assert forall i :: 0 <= i < |w| ==> s[i] == w[i] && !IsSpace(s[i]);
    }
    assert r == s[..|w|];
  }

  lemma PlainTagMatch(tag: string, h: string)
    requires Word(tag) && ' ' !in tag && Solid(h)
    ensures var body := QuoteIfNeeded(tag) + "      " + h + "  END";
            EndsWith(body, "END") && !IsSpace(body[0]) && MatchTag(body) == Some((tag, h))
  {
    var mid := "      " + h + "  ";
    var body := tag + "      " + h + "  END";
    assert QuoteIfNeeded(tag) == tag;
    assert forall i :: 0 <= i < |tag| ==> !IsSpace(tag[i]) by { QuotedWord(tag); }
    InlineBody(tag, h, |tag|);
    StripMid(h);
    NonSpaceRun(body, tag);
    MatchTagBare(body, tag, mid, h);
  }

  /** The inline pattern finds the tag and the attribute text of an inline line. */
  lemma MatchTagOf(tag: string, h: string)
    requires Word(tag) && Solid(h)
    ensures var body := QuoteIfNeeded(tag) + "      " + h + "  END";
            EndsWith(body, "END") && !IsSpace(body[0]) && MatchTag(body) == Some((tag, h))
  {
    if ' ' in tag {
      QuotedTagMatch(tag, h);
    } else {
      PlainTagMatch(tag, h);
    }
  }

  /** Stripping an indented line leaves its text. */
  lemma StripLead(pre: string, core: string)
    requires AllSpace(pre) && Solid(core)
    ensures Strip(pre + core) == core
  {
    StripPadded(pre, core, "");
    assert pre + core + "" == pre + core;
  }

  /** The first step of the inline pattern: `BEGIN`, whitespace, then the rest. */
  lemma MatchInlineOf(text: string, body: string)
    requires StartsWith(text, "BEGIN") && |text| > 5 && IsSpace(text[5])
    requires TrimLeft(text[5..]) == body && EndsWith(body, "END")
    ensures !IsSpace(body[0]) && MatchInline(text) == MatchTag(body)
  {
  }

  /** Where the parts of an inline line's text sit. */
  lemma InlineLayout(q: string, h: string)
    requires q != ""
    ensures var x := q + "      " + h + "  END";
            var core := "BEGIN " + q + "      " + h + "  END";
            && |core| > 5 && StartsWith(core, "BEGIN") && core[5] == ' ' && core[5..] == " " + x
            && EndsWith(core, "END") && EndsWith(x, "END") && x[0] == q[0]
  {
    var x := q + "      " + h + "  END";
    var core := "BEGIN " + q + "      " + h + "  END";
    assert core[5..] == " " + x;
    assert core[|core| - 3..] == "END";
    assert x[|x| - 3..] == "END";
  }

  lemma TrimOne(x: string)
    requires x != "" && !IsSpace(x[0])
    ensures TrimLeft(" " + x) == x
  {
    assert (" " + x)[1..] == x;
    TrimLeftKeeps(x);
  }

  /** The text of an inline line after its indentation, for any tag text
      `q` and attribute text `h` the inline pattern splits correctly. */
  lemma InlineShape(tag: string, q: string, h: string)
    requires Solid(q) && Solid(h)
    requires MatchTag(q + "      " + h + "  END") == Some((tag, h))
    ensures var core := "BEGIN " + q + "      " + h + "  END";
            && Solid(core) && StartsWith(core, "BEGIN") && Contains(core, "END")
            && MatchInline(core) == Some((tag, h))
  {
    var x := q + "      " + h + "  END";
    var core := "BEGIN " + q + "      " + h + "  END";
    InlineLayout(q, h);
    TrimOne(x);
    MatchInlineOf(core, x);
    EndsWithContains(core, "END");
  }

  lemma ParseInlineOf(line: string, start: nat, tag: string, h: string, attrs: seq<Attr>)
    requires MatchInline(line) == Some((tag, h)) && h != ""
    requires TokenizeAttributes(h) == Success(attrs)
    ensures ParseInline(line, start) == Success(Node(Some(tag), attrs, []))
  {
  }

  /** An inline line opens with `BEGIN`, holds `END`, and reads back as the
      childless node it was written from. */
  lemma InlineRead(n: Node, level: nat, start: nat)
    requires n.tag.Some? && Word(n.tag.value) && GoodAttrs(n.attrs) && n.attrs != []
    ensures var line := Strip(InlineLine(n, level));
            && StartsWith(line, "BEGIN") && Contains(line, "END")
            && ParseInline(line, start) == Success(Node(n.tag, n.attrs, []))
  {
    var tag := n.tag.value;
    var q := QuoteIfNeeded(tag);
    var h := HorizAttrs(n.attrs);
    assert Solid(q) by {
      QuotedWord(tag);
    }
    assert Solid(h) by {
      HorizShape(n.attrs);
    }
    assert TokenizeAttributes(h) == Success(n.attrs) by {
      TokenizeHoriz(n.attrs);
    }
    assert MatchTag(q + "      " + h + "  END") == Some((tag, h)) by {
      MatchTagOf(tag, h);
    }
    InlineShape(tag, q, h);
    ParseInlineOf("BEGIN " + q + "      " + h + "  END", start, tag, h, n.attrs);
    assert InlineText(n) == "BEGIN " + q + "      " + h + "  END" by {
      assert TagText(n) == q;
    }
    IndentSpace(level);
    StripLead(Indent(level), InlineText(n));
  }

  /** A header line's text: `BEGIN`, one space, then solid END-free text. */
  lemma BeginShape(x: string)
    requires Solid(x) && EndFree(x)
    ensures var core := "BEGIN " + x;
            && Solid(core) && StartsWith(core, "BEGIN") && !Contains(core, "END")
            && Strip(core[5..]) == x
  {
    var core := "BEGIN " + x;
    assert core == "BEGIN" + (" " + x);
    assert core[5..] == " " + x;
    assert Solid(core) by {
      assert core[|core| - 1] == x[|x| - 1];
    }
    Literals();
    assert !Contains(core, "END") by {
      EndFreeCat(" ", x);
      EndFreeCat("BEGIN", " " + x);
    }
    StripLead(" ", x);
  }

  /** The tag text and the attribute text of a header line, together. */
  lemma TagAttrsShape(q: string, h: string)
    requires Solid(q) && EndFree(q) && Solid(h) && EndFree(h)
    ensures var x := q + "      " + h;
            && Solid(x) && EndFree(x) && "BEGIN " + q + "      " + h == "BEGIN " + x
  {
    var x := q + "      " + h;
    assert x[0] == q[0];
    assert x[|x| - 1] == h[|h| - 1];
    SpacesFacts("      ");
    EndFreeCat(q, "      ");
    EndFreeCat(q + "      ", h);
  }

  /** The words after `BEGIN` on a header line: the tag, then the keys and values. */
  lemma HeaderWords(tag: string, h: string, attrs: seq<Attr>)
    requires Quotable(tag)
    requires Words(h, "", false, false, [tag]) == Success([tag] + Flatten(attrs))
    ensures Split(QuoteIfNeeded(tag) + "      " + h) == Success([tag] + Flatten(attrs))
  {
    var q := QuoteIfNeeded(tag);
    assert q + "      " + h == q + ("      " + h);
    ReadQuoted(tag, "      " + h, []);
    Literals();
    CloseWord("      ", h, tag, []);
    assert [] + [tag] == [tag];
  }

  lemma ParseHeaderOf(line: string, x: string, tokens: seq<string>)
    requires StartsWith(line, "BEGIN") && Strip(line[5..]) == x
    requires Split(x) == Success(tokens) && tokens != []
    ensures ParseHeader(line)
         == Success(Node(Some(tokens[0]), if |tokens| > 1 then HeaderAttrs(tokens) else [], []))
  {
  }

  /** The header line with the attributes on it reads back as the node's tag
      and attributes, and does not hold `END`. */
  lemma HorizHeaderRead(n: Node, level: nat)
    requires n.tag.Some? && Word(n.tag.value) && GoodAttrs(n.attrs) && n.attrs != []
    ensures var line := Strip(HorizHeader(n, level));
            && StartsWith(line, "BEGIN") && !Contains(line, "END")
            && ParseHeader(line) == Success(Node(n.tag, n.attrs, []))
  {
    var tag := n.tag.value;
    var q := QuoteIfNeeded(tag);
    var h := HorizAttrs(n.attrs);
    assert Solid(q) && EndFree(q) by {
      QuotedWord(tag);
    }
    assert Solid(h) && EndFree(h) by {
      HorizShape(n.attrs);
    }
    assert Words(h, "", false, false, [tag]) == Success([tag] + Flatten(n.attrs)) by {
      ReadHoriz(n.attrs, [tag]);
    }
    var x := q + "      " + h;
    TagAttrsShape(q, h);
    BeginShape(x);
    HeaderWords(tag, h, n.attrs);
    var tokens := [tag] + Flatten(n.attrs);
    assert HeaderAttrs(tokens) == n.attrs by {
      assert tokens[1..] == Flatten(n.attrs);
      PairFlatten(n.attrs);
    }
    ParseHeaderOf("BEGIN " + x, x, tokens);
    assert HorizText(n) == "BEGIN " + q + "      " + h by {
      assert TagText(n) == q;
    }
    IndentSpace(level);
    StripLead(Indent(level), HorizText(n));
  }

  /** The bare header line reads back as the node's tag alone. */
  lemma BareHeaderRead(n: Node, level: nat)
    requires n.tag.Some? && Word(n.tag.value)
    ensures var line := Strip(BareHeader(n, level));
            && StartsWith(line, "BEGIN") && !Contains(line, "END")
            && ParseHeader(line) == Success(Node(n.tag, [], []))
  {
    var tag := n.tag.value;
    var q := QuoteIfNeeded(tag);
    assert Solid(q) && EndFree(q) by {
      QuotedWord(tag);
    }
    BeginShape(q);
    assert Split(q) == Success([tag]) by {
      ReadQuoted(tag, "", []);
      assert q + "" == q;
      assert [] + [tag] == [tag];
    }
    ParseHeaderOf("BEGIN " + q, q, [tag]);
    assert BareText(n) == "BEGIN " + q by {
      assert TagText(n) == q;
    }
    IndentSpace(level);
    StripLead(Indent(level), BareText(n));
  }

  /** An attribute line of the vertical form reads back as its one pair. */
  lemma AttrLineRead(p: Attr, level: nat)
    requires KeyWord(p.0) && Word(p.1)
    ensures var c := Strip(Indent(level) + "    " + PairText(p));
            && c == PairText(p) && c != ""
            && !StartsWith(c, "END") && !StartsWith(c, "BEGIN")
            && TokenizeAttributes(c) == Success([p])
  {
    var s := PairText(p);
    assert s == PairLine(p.0, " ", p.1);
    assert Solid(s) && !StartsWith(s, "END") && !StartsWith(s, "BEGIN") by {
      PairLineShape(p.0, " ", p.1);
    }
    assert Strip(Indent(level) + "    " + s) == s by {
      IndentSpace(level);
      SpacesFacts("    ");
      assert AllSpace(Indent(level) + "    ");
      StripLead(Indent(level) + "    ", s);
    }
    SplitPair(p);
    PairTwo(p.0, p.1);
  }

  lemma SplitPair(p: Attr)
    requires KeyWord(p.0) && Word(p.1)
    ensures Split(PairText(p)) == Success([p.0, p.1])
  {
    var s := PairText(p);
    assert s == PairLine(p.0, " ", p.1);
    ReadPairLine(p.0, " ", p.1, "", []);
    assert s + "" == s;
    TwoWords([], p.0, p.1);
  }

  lemma TwoWords(e: seq<string>, k: string, v: string)
    requires e == []
    ensures e + [k] + [v] == [k, v]
  {
  }

  lemma PairTwo(k: string, v: string)
    ensures PairTokens([k, v]) == [(k, v)]
  {
    assert [k, v][2..] == [];
  }

  lemma EndLineRead(level: nat)
    ensures StartsWith(Strip(EndLine(level)), "END")
  {
    IndentSpace(level);
    StripLead(Indent(level), "END");
  }

  /* ---------- A whole node, read back ---------- */

  /** `xs` sits in `lines` from index `i` on. */
  predicate At(lines: seq<string>, i: nat, xs: seq<string>) {
    i + |xs| <= |lines| && lines[i..i + |xs|] == xs
  }

  lemma AtSplit(lines: seq<string>, i: nat, j: nat, a: seq<string>, b: seq<string>)
    requires At(lines, i, a + b) && j == i + |a|
    ensures At(lines, i, a) && At(lines, j, b)
  {
    assert lines[i..i + |a|] == (a + b)[..|a|];
    assert lines[i + |a|..i + |a| + |b|] == (a + b)[|a|..];
  }

  lemma AtHead(lines: seq<string>, i: nat, xs: seq<string>)
    requires At(lines, i, xs) && xs != []
    ensures i < |lines| && lines[i] == xs[0]
  {
    assert lines[i..i + |xs|][0] == lines[i];
  }

  /** The lines of a node with children: its header line or lines, the
      children's lines, and the `END` line. */
  lemma LinesShape(n: Node, level: nat)
    requires n.children != []
    ensures Lines(n, level) == ParentHead(n, level) + ChildLines(n, 0, level + 1) + [EndLine(level)]
  {
    assert HorizAttrs(n.attrs) != "" <==> n.attrs != [];
  }

  /** What the parser needs of a vertical attribute line: its stripped text
      is neither blank, `END` nor `BEGIN`, and splits into the one pair. */
  predicate AttrRow(line: string, p: Attr) {
    var c := Strip(line);
    && c != "" && !StartsWith(c, "END") && !StartsWith(c, "BEGIN")
    && TokenizeAttributes(c) == Success([p])
  }

  /** The lines from `i` on are attribute lines for the pairs `ps`, in order. */
  predicate Rows(lines: seq<string>, i: nat, ps: seq<Attr>)
    decreases |ps|, 1
  {
    ps == [] || (i < |lines| && RowsFrom(lines, i, ps))
  }

  /** `Rows` for a non-empty `ps`: the first line, then the others. */
  predicate RowsFrom(lines: seq<string>, i: nat, ps: seq<Attr>)
    requires i < |lines| && ps != []
    decreases |ps|, 0
  {
    AttrRow(lines[i], ps[0]) && Rows(lines, i + 1, ps[1..])
  }

  lemma {:induction false} AttrRows(lines: seq<string>, i: nat, ps: seq<Attr>, level: nat)
    requires GoodAttrs(ps) && At(lines, i, AttrLines(ps, level))
    ensures Rows(lines, i, ps)
    decreases |ps|
  {
    if ps != [] {
      var i1, tail := i + 1, ps[1..];
      AttrRowHead(lines, i, i1, ps, tail, level);
      AttrRows(lines, i1, tail, level);
      assert RowsFrom(lines, i, ps);
    }
  }

  /** The first vertical attribute line reads its pair; the others follow. */
  lemma AttrRowHead(lines: seq<string>, i: nat, i1: nat, ps: seq<Attr>, tail: seq<Attr>, level: nat)
    requires GoodAttrs(ps) && At(lines, i, AttrLines(ps, level))
    requires ps != [] && i1 == i + 1 && tail == ps[1..]
    ensures i < |lines| && AttrRow(lines[i], ps[0])
    ensures GoodAttrs(tail) && At(lines, i1, AttrLines(tail, level))
  {
    var xs := AttrLines(ps, level);
    AtHead(lines, i, xs);
    AttrRowFirst(lines[i], xs, ps, level);
    GoodTail(ps);
    AttrLinesTail(ps, tail, level, xs);
    AtSplit(lines, i, i1, [xs[0]], AttrLines(tail, level));
  }

  lemma AttrLinesTail(ps: seq<Attr>, tail: seq<Attr>, level: nat, xs: seq<string>)
    requires ps != [] && tail == ps[1..] && xs == AttrLines(ps, level)
    ensures xs == [xs[0]] + AttrLines(tail, level)
  {
    assert xs[1..] == AttrLines(tail, level);
    assert xs == [xs[0]] + xs[1..];
  }

  lemma AttrRowFirst(line: string, xs: seq<string>, ps: seq<Attr>, level: nat)
    requires GoodAttrs(ps) && ps != [] && xs == AttrLines(ps, level) && line == xs[0]
    ensures AttrRow(line, ps[0])
  {
    AttrLineRead(ps[0], level);
  }

  /** The vertical attribute lines add their pairs to the node being read,
      which ends up as `full`. */
  lemma {:induction false} ReadAttrLines(lines: seq<string>, start: nat, i: nat, e: nat,
                                         ps: seq<Attr>, node: Node, full: Node)
    requires start < i && e == i + |ps| && e <= |lines| && Rows(lines, i, ps)
    requires full == node.(attrs := node.attrs + ps)
    ensures ParseBody(lines, start, i, node) == ParseBody(lines, start, e, full)
    decreases |ps|, 1
  {
    if ps == [] {
      assert node.attrs + ps == node.attrs;
      SameBody(lines, start, i, e, node, full);
    } else {
      ReadAttrLine(lines, start, i, e, ps, node, full);
    }
  }

  /** The first of the vertical attribute lines, then the rest. */
  lemma {:induction false} ReadAttrLine(lines: seq<string>, start: nat, i: nat, e: nat,
                                        ps: seq<Attr>, node: Node, full: Node)
    requires start < i && e == i + |ps| && e <= |lines| && Rows(lines, i, ps) && ps != []
    requires full == node.(attrs := node.attrs + ps)
    ensures ParseBody(lines, start, i, node) == ParseBody(lines, start, e, full)
    decreases |ps|, 0
  {
    var next := node.(attrs := node.attrs + [ps[0]]);
    assert full == next.(attrs := next.attrs + ps[1..]) by {
      assert node.attrs + [ps[0]] + ps[1..] == node.attrs + ps;
    }
    var i1 := i + 1;
    RowsTail(lines, i, i1, ps);
    ReadAttrLines(lines, start, i1, e, ps[1..], next, full);
    AttrStep(lines, start, i, i1, node, ps[0], next, ParseBody(lines, start, e, full));
  }

  lemma RowsTail(lines: seq<string>, i: nat, i1: nat, ps: seq<Attr>)
    requires Rows(lines, i, ps) && ps != [] && i1 == i + 1
    ensures i < |lines| && AttrRow(lines[i], ps[0]) && Rows(lines, i1, ps[1..])
  {
    assert RowsFrom(lines, i, ps);
  }

  lemma SameBody(lines: seq<string>, start: nat, i: nat, e: nat, node: Node, full: Node)
    requires start < i <= |lines| && i == e && node == full
    ensures ParseBody(lines, start, i, node) == ParseBody(lines, start, e, full)
  {
  }

  /** One vertical attribute line, read into the node. */
  lemma AttrStep(lines: seq<string>, start: nat, i: nat, j: nat, node: Node, p: Attr, next: Node,
                 r: Result<(Node, nat), ParseError>)
    requires start < i < |lines| && j == i + 1 && AttrRow(lines[i], p)
    requires next == node.(attrs := node.attrs + [p])
    requires ParseBody(lines, start, j, next) == r
    ensures ParseBody(lines, start, i, node) == r
  {
    NextBody(lines, start, i, j, next, r);
    BodyAttrStep(lines, start, i, node);
  }

  /* Parsing steps with the line facts given abstractly. */

  lemma EndStep(lines: seq<string>, start: nat, i: nat, j: nat, node: Node)
    requires start < i < |lines| && j == i + 1 && StartsWith(Strip(lines[i]), "END")
    ensures ParseBody(lines, start, i, node) == Success((node, j))
  {
    BodyEndStep(lines, start, i, node);
  }

  lemma HeaderStep(lines: seq<string>, i: nat, j: nat, hdr: Node, r: Result<(Node, nat), ParseError>)
    requires i < |lines| && j == i + 1
    requires StartsWith(Strip(lines[i]), "BEGIN") && !Contains(Strip(lines[i]), "END")
    requires ParseHeader(Strip(lines[i])) == Success(hdr)
    requires ParseBody(lines, i, j, hdr) == r
    ensures ParseNode(lines, i) == r
  {
    NodeHeaderStep(lines, i);
  }

  lemma InlineStep(lines: seq<string>, i: nat, j: nat, n: Node)
    requires i < |lines| && j == i + 1
    requires StartsWith(Strip(lines[i]), "BEGIN") && Contains(Strip(lines[i]), "END")
    requires ParseInline(Strip(lines[i]), i) == Success(n)
    ensures ParseNode(lines, i) == Success((n, j))
  {
    NodeInlineStep(lines, i);
  }

  /* Line facts, from where the lines sit. */

  lemma AtOne(lines: seq<string>, i: nat, x: string)
    requires At(lines, i, [x])
    ensures i < |lines| && lines[i] == x
  {
    AtHead(lines, i, [x]);
  }

  lemma EndAt(lines: seq<string>, i: nat, level: nat)
    requires At(lines, i, [EndLine(level)])
    ensures i < |lines| && StartsWith(Strip(lines[i]), "END")
  {
    AtOne(lines, i, EndLine(level));
    EndLineRead(level);
  }

  lemma InlineAt(lines: seq<string>, i: nat, n: Node, level: nat)
    requires n.tag.Some? && Word(n.tag.value) && GoodAttrs(n.attrs) && n.attrs != [] && n.children == []
    requires At(lines, i, [InlineLine(n, level)])
    ensures i < |lines| && StartsWith(Strip(lines[i]), "BEGIN") && Contains(Strip(lines[i]), "END")
    ensures ParseInline(Strip(lines[i]), i) == Success(n)
  {
    AtOne(lines, i, InlineLine(n, level));
    InlineRead(n, level, i);
  }

  lemma HorizAt(lines: seq<string>, i: nat, n: Node, level: nat)
    requires n.tag.Some? && Word(n.tag.value) && GoodAttrs(n.attrs) && n.attrs != []
    requires At(lines, i, [HorizHeader(n, level)])
    ensures i < |lines| && StartsWith(Strip(lines[i]), "BEGIN") && !Contains(Strip(lines[i]), "END")
    ensures ParseHeader(Strip(lines[i])) == Success(Node(n.tag, n.attrs, []))
  {
    AtOne(lines, i, HorizHeader(n, level));
    HorizHeaderRead(n, level);
  }

  lemma BareAt(lines: seq<string>, i: nat, n: Node, level: nat)
    requires n.tag.Some? && Word(n.tag.value)
    requires At(lines, i, [BareHeader(n, level)])
    ensures i < |lines| && StartsWith(Strip(lines[i]), "BEGIN") && !Contains(Strip(lines[i]), "END")
    ensures ParseHeader(Strip(lines[i])) == Success(Node(n.tag, [], []))
  {
    AtOne(lines, i, BareHeader(n, level));
    BareHeaderRead(n, level);
  }

  /** The vertical attribute lines add the attributes to the node being read. */
  lemma AttrBlock(lines: seq<string>, i: nat, i1: nat, b: nat, n: Node, level: nat, hdr: Node,
                  r: Result<(Node, nat), ParseError>)
    requires GoodAttrs(n.attrs) && i < i1 && b == i1 + |n.attrs|
    requires At(lines, i1, AttrLines(n.attrs, level)) && hdr == Node(n.tag, [], [])
    requires ParseBody(lines, i, b, Node(n.tag, n.attrs, [])) == r
    ensures ParseBody(lines, i, i1, hdr) == r
  {
    AttrRows(lines, i1, n.attrs, level);
    assert Node(n.tag, n.attrs, []) == hdr.(attrs := hdr.attrs + n.attrs);
    ReadAttrLines(lines, i, i1, b, n.attrs, hdr, Node(n.tag, n.attrs, []));
  }

  /** The bare header line opens the node with its tag alone. */
  lemma BareHeadStep(lines: seq<string>, i: nat, i1: nat, n: Node, level: nat, hdr: Node,
                     r: Result<(Node, nat), ParseError>)
    requires n.tag.Some? && Word(n.tag.value) && i1 == i + 1 && hdr == Node(n.tag, [], [])
    requires At(lines, i, [BareHeader(n, level)])
    requires ParseBody(lines, i, i1, hdr) == r
    ensures ParseNode(lines, i) == r
  {
    BareAt(lines, i, n, level);
    HeaderStep(lines, i, i1, hdr, r);
  }

  /** The bare header line and the vertical attribute lines read as the node's
      tag and attributes, leaving the body to be read from `b` on. */
  lemma VerticalHead(lines: seq<string>, i: nat, b: nat, n: Node, level: nat, r: Result<(Node, nat), ParseError>)
    requires n.tag.Some? && Word(n.tag.value) && GoodAttrs(n.attrs)
    requires At(lines, i, [BareHeader(n, level)] + AttrLines(n.attrs, level)) && b == i + 1 + |n.attrs|
    requires ParseBody(lines, i, b, Node(n.tag, n.attrs, [])) == r
    ensures ParseNode(lines, i) == r
  {
    var i1 := i + 1;
    var hdr := Node(n.tag, [], []);
    AtSplit(lines, i, i1, [BareHeader(n, level)], AttrLines(n.attrs, level));
    AttrBlock(lines, i, i1, b, n, level, hdr, r);
    BareHeadStep(lines, i, i1, n, level, hdr, r);
  }

  /** The header line or lines of a node with children. */
  lemma HeadRead(lines: seq<string>, i: nat, b: nat, n: Node, level: nat, r: Result<(Node, nat), ParseError>)
    requires WellFormed(n) && At(lines, i, ParentHead(n, level)) && b == i + |ParentHead(n, level)|
    requires ParseBody(lines, i, b, Node(n.tag, n.attrs, [])) == r
    ensures ParseNode(lines, i) == r
  {
    if n.attrs != [] && |HorizHeader(n, level)| <= LineLimit {
      HorizAt(lines, i, n, level);
      HeaderStep(lines, i, b, Node(n.tag, n.attrs, []), r);
    } else {
      VerticalHead(lines, i, b, n, level, r);
    }
  }

  predicate AllWellFormed(ns: seq<Node>) {
    forall j :: 0 <= j < |ns| ==> WellFormed(ns[j])
  }

  /** The children's lines, from the `k`-th child on, add those children to
      the node being read, which ends up as `full`. */
  lemma {:induction false} ReadChildren(lines: seq<string>, start: nat, i: nat, e: nat, p: Node, k: nat,
                                        level: nat, node: Node, full: Node)
    requires AllWellFormed(p.children) && k <= |p.children| && start < i
    requires At(lines, i, ChildLines(p, k, level)) && e == i + |ChildLines(p, k, level)|
    requires node.children == p.children[..k] && full == node.(children := p.children)
    ensures ParseBody(lines, start, i, node) == ParseBody(lines, start, e, full)
    decreases p, 0, |p.children| - k, 1
  {
    if k == |p.children| {
      assert p.children[..k] == p.children;
      SameBody(lines, start, i, e, node, full);
    } else {
      var c, k1 := p.children[k], k + 1;
      var j := i + |Lines(c, level)|;
      var next := node.(children := p.children[..k1]);
      PrefixStep(p.children, k, k1, node.children, c);
      ChildAt(lines, i, j, p, k, level);
      ReadChildren(lines, start, j, e, p, k1, level, next, full);
      ReadChild(lines, start, i, j, p, k, level, node, next, ParseBody(lines, start, e, full));
    }
  }

  /** The `k`-th child's lines add that child to the node being read. */
  lemma {:induction false} ReadChild(lines: seq<string>, start: nat, i: nat, j: nat, p: Node, k: nat,
                                     level: nat, node: Node, next: Node, r: Result<(Node, nat), ParseError>)
    requires k < |p.children| && WellFormed(p.children[k]) && start < i
    requires At(lines, i, Lines(p.children[k], level)) && j == i + |Lines(p.children[k], level)|
    requires next == node.(children := node.children + [p.children[k]])
    requires ParseBody(lines, start, j, next) == r
    ensures ParseBody(lines, start, i, node) == r
    decreases p, 0, |p.children| - k, 0
  {
    ReadNode(lines, i, j, p.children[k], level);
    ChildStep(lines, start, i, j, p.children[k], node, next, r);
  }

  /** Reading the lines `to_string` writes for a well-formed node, wherever
      they sit, gives the node back and moves past its lines. */
  lemma {:induction false} ReadNode(lines: seq<string>, i: nat, e: nat, n: Node, level: nat)
    requires WellFormed(n) && At(lines, i, Lines(n, level)) && e == i + |Lines(n, level)|
    ensures i < |lines| && ParseNode(lines, i) == Success((n, e))
    decreases n, 2
  {
    AtHead(lines, i, Lines(n, level));
    if n.children != [] {
      ReadParent(lines, i, e, n, level);
    } else if |Lines(n, level)| == 1 {
      ReadInline(lines, i, e, n, level);
    } else {
      ReadVertical(lines, i, e, n, level);
    }
  }

  /** A childless node on one line. */
  lemma ReadInline(lines: seq<string>, i: nat, e: nat, n: Node, level: nat)
    requires WellFormed(n) && At(lines, i, Lines(n, level)) && e == i + |Lines(n, level)|
    requires |Lines(n, level)| == 1
    ensures ParseNode(lines, i) == Success((n, e))
  {
    Layout(n, level);
    assert Lines(n, level) == [InlineLine(n, level)];
    InlineAt(lines, i, n, level);
    InlineStep(lines, i, e, n);
  }

  /** A childless node with its attributes one per line. */
  lemma ReadVertical(lines: seq<string>, i: nat, e: nat, n: Node, level: nat)
    requires WellFormed(n) && At(lines, i, Lines(n, level)) && e == i + |Lines(n, level)|
    requires n.children == [] && |Lines(n, level)| != 1
    ensures ParseNode(lines, i) == Success((n, e))
  {
    Layout(n, level);
    var a := [BareHeader(n, level)] + AttrLines(n.attrs, level);
    var b := i + |a|;
    AtSplit(lines, i, b, a, [EndLine(level)]);
    EndAt(lines, b, level);
    EndStep(lines, i, b, e, n);
    VerticalHead(lines, i, b, n, level, Success((n, e)));
  }

  /** A node with children: its header, its children, its `END` line. */
  lemma {:induction false} ReadParent(lines: seq<string>, i: nat, e: nat, n: Node, level: nat)
    requires WellFormed(n) && At(lines, i, Lines(n, level)) && e == i + |Lines(n, level)|
    requires n.children != []
    ensures ParseNode(lines, i) == Success((n, e))
    decreases n, 1
  {
    var b := i + |ParentHead(n, level)|;
    var d := b + |ChildLines(n, 0, level + 1)|;
    ParentAt(lines, i, b, d, e, n, level);
    EndAt(lines, d, level);
    EndStep(lines, i, d, e, n);
    var node0 := Node(n.tag, n.attrs, []);
    assert n.children[..0] == [];
    assert n == node0.(children := n.children);
    assert AllWellFormed(n.children);
    ReadChildren(lines, i, b, d, n, 0, level + 1, node0, n);
    HeadRead(lines, i, b, n, level, Success((n, e)));
  }

  /** Where the header, the children and the `END` line of a node with
      children sit. */
  lemma ParentAt(lines: seq<string>, i: nat, b: nat, d: nat, e: nat, n: Node, level: nat)
    requires n.children != [] && At(lines, i, Lines(n, level)) && e == i + |Lines(n, level)|
    requires b == i + |ParentHead(n, level)| && d == b + |ChildLines(n, 0, level + 1)|
    ensures At(lines, i, ParentHead(n, level)) && At(lines, b, ChildLines(n, 0, level + 1))
    ensures At(lines, d, [EndLine(level)]) && e == d + 1
  {
    var head := ParentHead(n, level);
    var kids := ChildLines(n, 0, level + 1);
    LinesShape(n, level);
    AtSplit(lines, i, d, head + kids, [EndLine(level)]);
    AtSplit(lines, i, b, head, kids);
  }

  /** Where the lines of the `k`-th child and of the ones after it sit. */
  lemma ChildAt(lines: seq<string>, i: nat, j: nat, p: Node, k: nat, level: nat)
    requires k < |p.children| && At(lines, i, ChildLines(p, k, level))
    requires j == i + |Lines(p.children[k], level)|
    ensures At(lines, i, Lines(p.children[k], level)) && At(lines, j, ChildLines(p, k + 1, level))
    ensures i + |ChildLines(p, k, level)| == j + |ChildLines(p, k + 1, level)|
  {
    AtSplit(lines, i, j, Lines(p.children[k], level), ChildLines(p, k + 1, level));
  }
}
