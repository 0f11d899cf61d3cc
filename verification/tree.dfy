/** The tree model: a node has an optional tag, an ordered list of
    (key, value) attributes and ordered children. A document is the header
    attributes written before the first node plus the top-level nodes. */
module Tree {
  import opened Wrappers
  import opened Text
  import opened Seqs

  type Attr = (string, string)

  /** `tag` is `None` only for a `BEGIN` line with no words after it. */
  datatype Node = Node(tag: Option<string>, attrs: seq<Attr>, children: seq<Node>)

  datatype Document = Document(header: seq<Attr>, nodes: seq<Node>)

  /** `node.tag and node.tag.lower() == name`, for a lower-case `name`. */
  predicate TagIs(n: Node, name: string) {
    n.tag.Some? && Lower(n.tag.value) == name
  }

  /** `quote_if_needed`: a string holding a space is wrapped in double
      quotes, any other is written as it is. */
  function QuoteIfNeeded(s: string): string {
    if ' ' in s then "\"" + s + "\"" else s
  }

  /** The quoting changes a string exactly when it holds a space, and then
      only adds a double quote at each end. */
  lemma QuoteIfNeededShape(s: string)
    ensures QuoteIfNeeded(s) == s <==> ' ' !in s
    ensures var r := QuoteIfNeeded(s);
            r != s ==> |r| == |s| + 2 && r[0] == '"' && r[|r| - 1] == '"' && r[1..|r| - 1] == s
  {
  }

  /** Keys are compared ignoring case by `set_attr` and the lookups. */
  predicate KeyMatches(k: string, key: string) {
    EqualsIgnoreCase(k, key)
  }

  predicate HasKey(attrs: seq<Attr>, key: string) {
    exists i :: 0 <= i < |attrs| && KeyMatches(attrs[i].0, key)
  }

  function Keys(attrs: seq<Attr>): (ks: seq<string>)
    ensures |ks| == |attrs|
    ensures forall i :: 0 <= i < |attrs| ==> ks[i] == attrs[i].0
  {
    seq(|attrs|, i requires 0 <= i < |attrs| => attrs[i].0)
  }

  /** The loop of `set_attr`: every entry whose key matches gets the new
      value under its own spelling of the key. */
  function Overwrite(attrs: seq<Attr>, key: string, value: string): (r: seq<Attr>)
    ensures |r| == |attrs|
    ensures forall i :: 0 <= i < |attrs| ==>
              r[i] == (if KeyMatches(attrs[i].0, key) then (attrs[i].0, value) else attrs[i])
    decreases |attrs|
  {
    if attrs == [] then []
    else
      var head := if KeyMatches(attrs[0].0, key) then (attrs[0].0, value) else attrs[0];
      [head] + Overwrite(attrs[1..], key, value)
  }

  /** `set_attr`: a case-insensitive upsert. Every matching entry is
      updated in place; with no match the pair is appended. */
  function SetAttr(attrs: seq<Attr>, key: string, value: string): (r: seq<Attr>)
    ensures HasKey(attrs, key) ==>
              && |r| == |attrs|
              && forall i :: 0 <= i < |attrs| ==>
                   if KeyMatches(attrs[i].0, key) then r[i] == (attrs[i].0, value) else r[i] == attrs[i]
    ensures !HasKey(attrs, key) ==> r == attrs + [(key, value)]
  {
    var updated := Overwrite(attrs, key, value);
    if HasKey(attrs, key) then updated else updated + [(key, value)]
  }

  /** After `set_attr` the key is present and every entry it matches holds the value. */
  lemma SetAttrLookup(attrs: seq<Attr>, key: string, value: string)
    ensures var r := SetAttr(attrs, key, value);
            && HasKey(r, key)
            && forall i :: 0 <= i < |r| && KeyMatches(r[i].0, key) ==> r[i].1 == value
  {
    var r := SetAttr(attrs, key, value);
    if !HasKey(attrs, key) {
      assert KeyMatches(r[|attrs|].0, key);
    }
  }

  /** The keys, with their spelling, are those of the input, plus `key` at
      the end when nothing matched. */
  lemma SetAttrKeys(attrs: seq<Attr>, key: string, value: string)
    ensures HasKey(attrs, key) ==> Keys(SetAttr(attrs, key, value)) == Keys(attrs)
    ensures !HasKey(attrs, key) ==> Keys(SetAttr(attrs, key, value)) == Keys(attrs) + [key]
  {
  }

  /** Setting the same key to the same value twice is setting it once. */
  lemma SetAttrIdempotent(attrs: seq<Attr>, key: string, value: string)
    ensures SetAttr(SetAttr(attrs, key, value), key, value) == SetAttr(attrs, key, value)
  {
    SetAttrLookup(attrs, key, value);
  }

  /** The entries whose key satisfies `keep`, in their original order. */
  function FilterKeys(attrs: seq<Attr>, keep: string -> bool): (r: seq<Attr>)
    ensures |r| <= |attrs|
    ensures forall p :: p in r ==> p in attrs && keep(p.0)
    ensures forall p :: p in attrs && keep(p.0) ==> p in r
    decreases |attrs|
  {
    if attrs == [] then []
    else (if keep(attrs[0].0) then [attrs[0]] else []) + FilterKeys(attrs[1..], keep)
  }

  /** Filtering works entry by entry: it distributes over concatenation,
      which is what makes it order-preserving. */
  lemma {:induction false} FilterKeysAppend(a: seq<Attr>, b: seq<Attr>, keep: string -> bool)
    ensures FilterKeys(a + b, keep) == FilterKeys(a, keep) + FilterKeys(b, keep)
    decreases |a|
  {
    if a == [] {
      assert a + b == b;
    } else {
      var h, tail := a[0], a[1..];
      var own := if keep(h.0) then [h] else [];
      ConsAppend(a, b, h, tail);
      FilterKeysCons(a + b, h, tail + b, keep);
      FilterKeysCons(a, h, tail, keep);
      FilterKeysAppend(tail, b, keep);
      AppendAssoc(own, FilterKeys(tail, keep), FilterKeys(b, keep));
    }
  }

  lemma FilterKeysCons(x: seq<Attr>, h: Attr, tail: seq<Attr>, keep: string -> bool)
    requires x != [] && x[0] == h && x[1..] == tail
    ensures FilterKeys(x, keep) == (if keep(h.0) then [h] else []) + FilterKeys(tail, keep)
  {
  }

  lemma {:induction false} FilterKeysIdempotent(attrs: seq<Attr>, keep: string -> bool)
    ensures FilterKeys(FilterKeys(attrs, keep), keep) == FilterKeys(attrs, keep)
    decreases |attrs|
  {
    if attrs != [] {
      var head := if keep(attrs[0].0) then [attrs[0]] else [];
      FilterKeysAppend(head, FilterKeys(attrs[1..], keep), keep);
      FilterKeysIdempotent(attrs[1..], keep);
    }
  }

  /** A filter that keeps every key changes nothing. */
  lemma {:induction false} FilterKeysAll(attrs: seq<Attr>, keep: string -> bool)
    requires forall i :: 0 <= i < |attrs| ==> keep(attrs[i].0)
    ensures FilterKeys(attrs, keep) == attrs
    decreases |attrs|
  {
    if attrs != [] {
      var h, tail := attrs[0], attrs[1..];
      forall i | 0 <= i < |tail|
        ensures keep(tail[i].0)
      {
        assert tail[i] == attrs[i + 1];
      }
      FilterKeysAll(tail, keep);
      FilterKeysCons(attrs, h, tail, keep);
      assert attrs == [h] + tail;
    }
  }

  /** `remove_attributes`: drop every entry whose key is exactly one of `keys`. */
  function RemoveAttributes(attrs: seq<Attr>, keys: set<string>): (r: seq<Attr>)
    ensures forall p :: p in r ==> p in attrs && p.0 !in keys
    ensures forall p :: p in attrs && p.0 !in keys ==> p in r
  {
    FilterKeys(attrs, k => k !in keys)
  }

  /** Removal is a filter: it distributes over concatenation (so the
      survivors keep their order) and a second removal changes nothing. */
  lemma RemoveAttributesFilter(a: seq<Attr>, b: seq<Attr>, keys: set<string>)
    ensures RemoveAttributes(a + b, keys) == RemoveAttributes(a, keys) + RemoveAttributes(b, keys)
    ensures forall p :: RemoveAttributes([p], keys) == if p.0 in keys then [] else [p]
    ensures RemoveAttributes(RemoveAttributes(a, keys), keys) == RemoveAttributes(a, keys)
  {
    FilterKeysAppend(a, b, k => k !in keys);
    FilterKeysIdempotent(a, k => k !in keys);
  }

  /** The value of the first entry whose key matches (a lookup loop with `break`). */
  function FirstValue(attrs: seq<Attr>, key: string): (r: Option<string>)
    ensures r.None? <==> !HasKey(attrs, key)
    ensures r.Some? ==> exists i :: 0 <= i < |attrs| && KeyMatches(attrs[i].0, key) && attrs[i].1 == r.value
                          && forall j :: 0 <= j < i ==> !KeyMatches(attrs[j].0, key)
    decreases |attrs|
  {
    if attrs == [] then None
    else if KeyMatches(attrs[0].0, key) then Some(attrs[0].1)
    else
      var r := FirstValue(attrs[1..], key);
      if r.Some? then
        ghost var i :| 0 <= i < |attrs| - 1 && KeyMatches(attrs[1..][i].0, key) && attrs[1..][i].1 == r.value
                     && forall j :: 0 <= j < i ==> !KeyMatches(attrs[1..][j].0, key);
        assert KeyMatches(attrs[i + 1].0, key);
        r
      else
        r
  }

  /** The value of the last entry whose key matches (a lookup loop without `break`). */
  function LastValue(attrs: seq<Attr>, key: string): (r: Option<string>)
    ensures r.None? <==> !HasKey(attrs, key)
    ensures r.Some? ==> exists i :: 0 <= i < |attrs| && KeyMatches(attrs[i].0, key) && attrs[i].1 == r.value
                          && forall j :: i < j < |attrs| ==> !KeyMatches(attrs[j].0, key)
    decreases |attrs|
  {
    if attrs == [] then None
    else
      var last := attrs[|attrs| - 1];
      if KeyMatches(last.0, key) then Some(last.1)
      else LastValue(attrs[..|attrs| - 1], key)
  }

  /** Looking a key up right after setting it finds the new value, whichever
      end the lookup starts from. */
  lemma SetAttrThenGet(attrs: seq<Attr>, key: string, value: string)
    ensures FirstValue(SetAttr(attrs, key, value), key) == Some(value)
    ensures LastValue(SetAttr(attrs, key, value), key) == Some(value)
  {
    SetAttrLookup(attrs, key, value);
  }
}
