/** Attribute text to (key, value) pairs: a shell-style word splitter
    standing in for `shlex.split`, and `tokenize_attributes`, which pairs
    the words up. */
module Tokens {
  import opened Wrappers
  import opened Text
  import opened Tree

  /** The errors the parser can raise. Line numbers are 1-based, as in the
      messages of `parse_node`. */
  datatype ParseError =
    | ExpectedBegin(line: nat)
    | MalformedInline(line: nat)
    | MissingEnd(line: nat)
    | NoClosingQuotation

  /** The word splitter, one character at a time. `cur` is the word being
      built, `inWord` whether a word is open (a `""` opens an empty one),
      `inQuote` whether we are between double quotes, `acc` the finished words. */
  function Words(s: string, cur: string, inWord: bool, inQuote: bool, acc: seq<string>)
    : (r: Result<seq<string>, ParseError>)
    ensures r.Failure? ==> r.error == NoClosingQuotation
    ensures !inQuote && (forall i :: 0 <= i < |s| ==> s[i] != '"') ==> r.Success?
    ensures r.Success? ==> acc <= r.value
    decreases |s|
  {
    if s == "" then
      if inQuote then Failure(NoClosingQuotation)
      else Success(if inWord then acc + [cur] else acc)
    else
      var c, rest := s[0], s[1..];
      if inQuote then
        if c == '"' then Words(rest, cur, true, false, acc)
        else Words(rest, cur + [c], true, true, acc)
      else if c == '"' then Words(rest, cur, true, true, acc)
      else if IsShellSpace(c) then Words(rest, "", false, false, if inWord then acc + [cur] else acc)
      else Words(rest, cur + [c], true, false, acc)
  }

  /** `shlex.split(s)`, for text without backslashes or single quotes. */
  function Split(s: string): (r: Result<seq<string>, ParseError>)
    ensures r.Failure? ==> r.error == NoClosingQuotation
    ensures (forall i :: 0 <= i < |s| ==> s[i] != '"') ==> r.Success?
  {
    Words(s, "", false, false, [])
  }

  /** The loop of `tokenize_attributes`: words are taken two at a time as
      (key, value); an odd last word pairs with the empty string. */
  function PairTokens(tokens: seq<string>): (pairs: seq<Attr>)
    ensures |pairs| == (|tokens| + 1) / 2
    ensures forall i :: 0 <= i < |pairs| ==> pairs[i].0 == tokens[2 * i]
    ensures forall i :: 0 <= i < |pairs| ==>
              pairs[i].1 == if 2 * i + 1 < |tokens| then tokens[2 * i + 1] else ""
    decreases |tokens|
  {
    if |tokens| == 0 then []
    else if |tokens| == 1 then [(tokens[0], "")]
    else [(tokens[0], tokens[1])] + PairTokens(tokens[2..])
  }

  /** `tokenize_attributes(text)`. */
  function TokenizeAttributes(text: string): (r: Result<seq<Attr>, ParseError>)
    ensures r.Failure? ==> r.error == NoClosingQuotation
    ensures (forall i :: 0 <= i < |text| ==> text[i] != '"') ==> r.Success?
  {
    var tokens :- Split(text);
    Success(PairTokens(tokens))
  }

  /** The words of an attribute list, key then value, in order. */
  function Flatten(attrs: seq<Attr>): (ws: seq<string>)
    ensures |ws| == 2 * |attrs|
    decreases |attrs|
  {
    if attrs == [] then [] else [attrs[0].0, attrs[0].1] + Flatten(attrs[1..])
  }

  /** Pairing the flattened words of an attribute list gives the list back. */
  lemma {:induction false} PairFlatten(attrs: seq<Attr>)
    ensures PairTokens(Flatten(attrs)) == attrs
    decreases |attrs|
  {
    if attrs != [] {
      assert Flatten(attrs)[2..] == Flatten(attrs[1..]);
      PairFlatten(attrs[1..]);
    }
  }

  /** An even number of words flattens back from its pairs; an odd one gains
      a trailing empty value. */
  lemma {:induction false} FlattenPair(tokens: seq<string>)
    ensures |tokens| % 2 == 0 ==> Flatten(PairTokens(tokens)) == tokens
    ensures |tokens| % 2 == 1 ==> Flatten(PairTokens(tokens)) == tokens + [""]
    decreases |tokens|
  {
    if |tokens| == 1 {
      FlattenCons((tokens[0], ""), []);
      assert tokens + [""] == [tokens[0], ""] + [];
    } else if |tokens| >= 2 {
      var two, tail := tokens[..2], tokens[2..];
      FlattenPair(tail);
      var rec := Flatten(PairTokens(tail));
      FlattenPairStep(tokens, two, tail, rec);
      FlattenPairJoin(tokens, two, tail, rec);
    }
  }

  /** Putting the first two words back in front of the rest's flattening. */
  lemma FlattenPairJoin(tokens: seq<string>, two: seq<string>, tail: seq<string>, rec: seq<string>)
    requires |two| == 2 && tokens == two + tail
    requires |tail| % 2 == 0 ==> rec == tail
    requires |tail| % 2 == 1 ==> rec == tail + [""]
    ensures |tokens| % 2 == 0 ==> two + rec == tokens
    ensures |tokens| % 2 == 1 ==> two + rec == tokens + [""]
  {
    assert two + (tail + [""]) == two + tail + [""];
  }

  /** Pairing and flattening take the first two words through unchanged. */
  lemma FlattenPairStep(tokens: seq<string>, two: seq<string>, tail: seq<string>, rec: seq<string>)
    requires |tokens| >= 2 && two == tokens[..2] && tail == tokens[2..]
    requires Flatten(PairTokens(tail)) == rec
    ensures Flatten(PairTokens(tokens)) == two + rec
  {
    var head := (tokens[0], tokens[1]);
    assert PairTokens(tokens) == [head] + PairTokens(tail);
    FlattenCons(head, PairTokens(tail));
    assert two == [tokens[0], tokens[1]];
  }

  lemma FlattenCons(p: Attr, ps: seq<Attr>)
    ensures Flatten([p] + ps) == [p.0, p.1] + Flatten(ps)
  {
    assert ([p] + ps)[0] == p && ([p] + ps)[1..] == ps;
  }

  /** A word the splitter reads back after `quote_if_needed`: not empty, no
      double quote, and no separator other than the plain space. */
  predicate Quotable(w: string) {
    && w != ""
    && '"' !in w
    && forall i :: 0 <= i < |w| && IsShellSpace(w[i]) ==> w[i] == ' '
  }

  /** A word with neither quotes nor separators. */
  predicate Plain(w: string) {
    w != "" && forall i :: 0 <= i < |w| ==> w[i] != '"' && !IsShellSpace(w[i])
  }

  lemma {:induction false} PlainRun(w: string, rest: string, cur: string, inWord: bool, acc: seq<string>)
    requires forall i :: 0 <= i < |w| ==> w[i] != '"' && !IsShellSpace(w[i])
    ensures Words(w + rest, cur, inWord, false, acc) == Words(rest, cur + w, inWord || w != "", false, acc)
    decreases |w|
  {
    if w == "" {
      assert w + rest == rest;
      assert cur + w == cur;
    } else {
      assert (w + rest)[0] == w[0];
      assert (w + rest)[1..] == w[1..] + rest;
      PlainRun(w[1..], rest, cur + [w[0]], true, acc);
      assert cur + [w[0]] + w[1..] == cur + w;
    }
  }

  lemma {:induction false} QuotedRun(w: string, rest: string, cur: string, acc: seq<string>)
    requires '"' !in w
    ensures Words(w + rest, cur, true, true, acc) == Words(rest, cur + w, true, true, acc)
    decreases |w|
  {
    if w == "" {
      assert w + rest == rest;
      assert cur + w == cur;
    } else {
      assert (w + rest)[0] == w[0];
      assert (w + rest)[1..] == w[1..] + rest;
      QuotedRun(w[1..], rest, cur + [w[0]], acc);
      assert cur + [w[0]] + w[1..] == cur + w;
    }
  }

  predicate AllShellSpace(s: string) {
    forall i :: 0 <= i < |s| ==> IsShellSpace(s[i])
  }

  /** Separators between words are skipped. */
  lemma {:induction false} SpacesRun(sp: string, rest: string, acc: seq<string>)
    requires AllShellSpace(sp)
    ensures Words(sp + rest, "", false, false, acc) == Words(rest, "", false, false, acc)
    decreases |sp|
  {
    if sp == "" {
      assert sp + rest == rest;
    } else {
      assert (sp + rest)[0] == sp[0];
      assert (sp + rest)[1..] == sp[1..] + rest;
      SpacesRun(sp[1..], rest, acc);
    }
  }

  /** A separator closes the open word. */
  lemma CloseWord(sp: string, rest: string, w: string, acc: seq<string>)
    requires sp != "" && AllShellSpace(sp)
    ensures Words(sp + rest, w, true, false, acc) == Words(rest, "", false, false, acc + [w])
  {
    assert (sp + rest)[0] == sp[0];
    assert (sp + rest)[1..] == sp[1..] + rest;
    SpacesRun(sp[1..], rest, acc + [w]);
  }

  /** A quoted-if-needed word is read back as itself. */
  lemma ReadQuoted(w: string, rest: string, acc: seq<string>)
    requires Quotable(w)
    ensures Words(QuoteIfNeeded(w) + rest, "", false, false, acc) == Words(rest, w, true, false, acc)
  {
    if ' ' in w {
      var q := "\"" + w + "\"";
      assert q + rest == "\"" + (w + ("\"" + rest));
      assert (q + rest)[1..] == w + ("\"" + rest);
      QuotedRun(w, "\"" + rest, "", acc);
      assert "" + w == w;
      assert ("\"" + rest)[1..] == rest;
    } else {
      forall i | 0 <= i < |w|
        ensures w[i] != '"' && !IsShellSpace(w[i])
      {
        assert w[i] in w;
      }
      PlainRun(w, rest, "", false, acc);
      assert "" + w == w;
    }
  }

  /** Plain words joined by single spaces split back into the same words. */
  lemma {:induction false} SplitJoinPlain(ws: seq<string>, acc: seq<string>)
    requires forall i :: 0 <= i < |ws| ==> Plain(ws[i])
    ensures Words(Join(" ", ws), "", false, false, acc) == Success(acc + ws)
    decreases |ws|
  {
    if ws == [] {
      assert acc + ws == acc;
    } else {
      var w := ws[0];
      assert QuoteIfNeeded(w) == w;
      assert Quotable(w);
      if |ws| == 1 {
        assert Join(" ", ws) == QuoteIfNeeded(w) + "";
        ReadQuoted(w, "", acc);
        assert ws == [w];
      } else {
        var rest := Join(" ", ws[1..]);
        assert Join(" ", ws) == w + (" " + rest);
        ReadQuoted(w, " " + rest, acc);
        CloseWord(" ", rest, w, acc);
        SplitJoinPlain(ws[1..], acc + [w]);
        assert acc + [w] + ws[1..] == acc + ws;
      }
    }
  }
}
