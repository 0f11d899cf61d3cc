/** The two-pass identifier remapper. `assign_new_ids` gives every `id`
    attribute a fresh number from a shared counter and records the old
    value to new value map; `apply_related_id_mapping` then redirects the
    attributes that refer to an id through that map; `update_ids` runs one
    after the other. `update_related_ids` redirects a single old id.

    The source mutates a tree in place and threads the counter through a
    one-element list; here each pass is a function over a forest (a
    sequence of sibling nodes, visited in pre-order) that returns the new
    forest, the counter and the map. */
module Remap {
  import opened Text
  import opened Tree
  import opened Seqs

  /** `k.lower() == "id"`: the attributes the first pass renumbers. */
  predicate IsIdKey(k: string) {
    Lower(k) == "id"
  }

  /** Keys ending in `Id` that do not refer to another object's id. */
  const Excluded: set<string> := {"Id", "NextId", "NetworkId", "JobId", "CrewJobId", "LayerId"}

  /** The attributes the second pass redirects: a key ending in `Id`
      (case-sensitive) outside `Excluded`, or exactly `Carrying`. */
  predicate IsReferenceKey(k: string) {
    (EndsWith(k, "Id") && k !in Excluded) || k == "Carrying"
  }

  /** Nodes tagged `network` (any case) keep their own ids. */
  predicate IsNetwork(n: Node) {
    TagIs(n, "network")
  }

  /** An id attribute is never a reference, so the second pass leaves the
      numbers of the first pass alone. */
  lemma IdKeyIsNoReference(k: string)
    requires IsIdKey(k)
    ensures !IsReferenceKey(k)
  {
    assert |k| == |Lower(k)| == 2;
    assert Lower(k)[0] == 'i' && Lower(k)[1] == 'd';
    if EndsWith(k, "Id") {
      assert k == k[|k| - 2..] == "Id";
    }
  }

  /* ---------- Reference views of a forest ---------- */

  /** Every attribute of a forest, node by node in pre-order. */
  function AllAttrs(nodes: seq<Node>): seq<Attr>
    decreases nodes
  {
    if nodes == [] then []
    else nodes[0].attrs + AllAttrs(nodes[0].children) + AllAttrs(nodes[1..])
  }

  /** The values of the id attributes of one list, in order. */
  function AttrIds(attrs: seq<Attr>): seq<string>
    decreases |attrs|
  {
    if attrs == [] then []
    else (if IsIdKey(attrs[0].0) then [attrs[0].1] else []) + AttrIds(attrs[1..])
  }

  /** The ids the first pass renumbers, in visiting order: those of every
      node not tagged `network`. */
  function Ids(nodes: seq<Node>): seq<string>
    decreases nodes
  {
    if nodes == [] then []
    else OwnIds(nodes[0]) + Ids(nodes[0].children) + Ids(nodes[1..])
  }

  function OwnIds(n: Node): seq<string> {
    if IsNetwork(n) then [] else AttrIds(n.attrs)
  }

  /** An attribute list with the values of its id attributes blanked. */
  function MaskAttrs(attrs: seq<Attr>): (r: seq<Attr>)
    ensures |r| == |attrs|
  {
    seq(|attrs|, i requires 0 <= i < |attrs| => if IsIdKey(attrs[i].0) then (attrs[i].0, "") else attrs[i])
  }

  /** A forest with the ids the first pass renumbers blanked: what that
      pass must leave exactly as it was. */
  function Mask(nodes: seq<Node>): (r: seq<Node>)
    ensures |r| == |nodes|
    decreases nodes
  {
    if nodes == [] then []
    else
      var n := nodes[0];
      [Node(n.tag, if IsNetwork(n) then n.attrs else MaskAttrs(n.attrs), Mask(n.children))] + Mask(nodes[1..])
  }

  /** A forest with every attribute value blanked: tags, keys and shape. */
  function Skeleton(nodes: seq<Node>): (r: seq<Node>)
    ensures |r| == |nodes|
    decreases nodes
  {
    if nodes == [] then []
    else
      var n := nodes[0];
      [Node(n.tag, Blank(n.attrs), Skeleton(n.children))] + Skeleton(nodes[1..])
  }

  /** The keys of an attribute list, each with an empty value. */
  function Blank(attrs: seq<Attr>): (r: seq<Attr>)
    ensures |r| == |attrs|
  {
    seq(|attrs|, i requires 0 <= i < |attrs| => (attrs[i].0, ""))
  }

  lemma BlankByKeys(a: seq<Attr>, b: seq<Attr>)
    requires |a| == |b| && forall i :: 0 <= i < |a| ==> a[i].0 == b[i].0
    ensures Blank(a) == Blank(b)
  {
  }

  /** The texts `str(c)`, `str(c + 1)`, ..., `count` of them. */
  function Consecutive(c: int, count: nat): (r: seq<string>)
    ensures |r| == count
    decreases count
  {
    if count == 0 then [] else [IntToString(c)] + Consecutive(c + 1, count - 1)
  }

  /** The `i`-th text of a run is `str(c + i)`, written `v`. */
  lemma {:induction false} ConsecutiveAt(c: int, count: nat, i: nat, v: int)
    requires i < count && v == c + i
    ensures Consecutive(c, count)[i] == IntToString(v)
    decreases i
  {
    if i > 0 {
      ConsecutiveAt(c + 1, count - 1, i - 1, v);
    }
  }

  /** A run of `n > 0` texts is `str(c)` followed by the run from `c1 = c + 1`. */
  lemma ConsecutiveCons(c: int, n: nat, c1: int, n1: nat)
    requires n > 0 && c1 == c + 1 && n1 == n - 1
    ensures Consecutive(c, n) == [IntToString(c)] + Consecutive(c1, n1)
  {
  }

  /** A run of `n = a + b` texts is a run of `a` followed by the run of `b`
      from `m = c + a`. */
  lemma {:induction false} ConsecutiveSplit(c: int, a: nat, b: nat, n: nat, m: int)
    requires n == a + b && m == c + a
    ensures Consecutive(c, n) == Consecutive(c, a) + Consecutive(m, b)
    decreases a
  {
    if a == 0 {
      assert Consecutive(c, a) + Consecutive(m, b) == Consecutive(m, b);
    } else {
      var t, x, y := [IntToString(c)], Consecutive(c + 1, a - 1), Consecutive(m, b);
      ConsecutiveSplit(c + 1, a - 1, b, n - 1, m);
      ConsecutiveCons(c, n, c + 1, n - 1);
      ConsecutiveCons(c, a, c + 1, a - 1);
      assert t + x + y == t + (x + y);
    }
  }

  /** The map after recording `olds[i] -> str(c + i)` in order; a later
      entry for the same old value overrides an earlier one. */
  function Record(m: map<string, string>, olds: seq<string>, c: int): map<string, string>
    decreases |olds|
  {
    if olds == [] then m else Record(m[olds[0] := IntToString(c)], olds[1..], c + 1)
  }

  /* ---------- Pass 1: assign_new_ids ---------- */

  datatype Assigned = Assigned(nodes: seq<Node>, next: int, mapping: map<string, string>)

  /** The attribute loop of `assign_new_ids` on one node. */
  function AssignAttrs(attrs: seq<Attr>, next: int, m: map<string, string>): (r: (seq<Attr>, int, map<string, string>))
    ensures r.1 == next + |AttrIds(attrs)|
    ensures MaskAttrs(r.0) == MaskAttrs(attrs)
    ensures AttrIds(r.0) == Consecutive(next, |AttrIds(attrs)|)
    ensures r.2 == Record(m, AttrIds(attrs), next)
    decreases |attrs|
  {
    if attrs == [] then ([], next, m)
    else
      var a := attrs[0];
      var newId := IntToString(next);
      var head := if IsIdKey(a.0) then (a.0, newId) else a;
      var rest := if IsIdKey(a.0) then AssignAttrs(attrs[1..], next + 1, m[a.1 := newId])
                  else AssignAttrs(attrs[1..], next, m);
      AssignAttrsStep(attrs, next, m, head, rest);
      ([head] + rest.0, rest.1, rest.2)
  }

  lemma AssignAttrsStep(attrs: seq<Attr>, next: int, m: map<string, string>,
                        head: Attr, rest: (seq<Attr>, int, map<string, string>))
    requires attrs != []
    requires head == if IsIdKey(attrs[0].0) then (attrs[0].0, IntToString(next)) else attrs[0]
    requires var n1 := if IsIdKey(attrs[0].0) then next + 1 else next;
             var m1 := if IsIdKey(attrs[0].0) then m[attrs[0].1 := IntToString(next)] else m;
             && rest.1 == n1 + |AttrIds(attrs[1..])|
             && MaskAttrs(rest.0) == MaskAttrs(attrs[1..])
             && AttrIds(rest.0) == Consecutive(n1, |AttrIds(attrs[1..])|)
             && rest.2 == Record(m1, AttrIds(attrs[1..]), n1)
    ensures rest.1 == next + |AttrIds(attrs)|
    ensures MaskAttrs([head] + rest.0) == MaskAttrs(attrs)
    ensures AttrIds([head] + rest.0) == Consecutive(next, |AttrIds(attrs)|)
    ensures rest.2 == Record(m, AttrIds(attrs), next)
  {
    var out := [head] + rest.0;
    assert out[1..] == rest.0;
    assert attrs == [attrs[0]] + attrs[1..];
    MaskCons(head, rest.0);
    MaskCons(attrs[0], attrs[1..]);
    var ids := AttrIds(attrs);
    if IsIdKey(attrs[0].0) {
      assert ids == [attrs[0].1] + AttrIds(attrs[1..]);
      assert ids[0] == attrs[0].1 && ids[1..] == AttrIds(attrs[1..]);
      ConsecutiveCons(next, |ids|, next + 1, |AttrIds(attrs[1..])|);
    } else {
      assert ids == AttrIds(attrs[1..]);
    }
  }

  /** `assign_new_ids` over a forest: a `network` node keeps its own
      attributes, but its children are renumbered like any others. */
  function AssignForest(nodes: seq<Node>, next: int, m: map<string, string>): (r: Assigned)
    ensures |r.nodes| == |nodes|
    ensures r.next == next + |Ids(nodes)|
    ensures Mask(r.nodes) == Mask(nodes)
    ensures Ids(r.nodes) == Consecutive(next, |Ids(nodes)|)
    ensures r.mapping == Record(m, Ids(nodes), next)
    decreases nodes
  {
    if nodes == [] then Assigned([], next, m)
    else
      var n := nodes[0];
      var own := if IsNetwork(n) then (n.attrs, next, m) else AssignAttrs(n.attrs, next, m);
      var kids := AssignForest(n.children, own.1, own.2);
      var rest := AssignForest(nodes[1..], kids.next, kids.mapping);
      var first := Node(n.tag, own.0, kids.nodes);
      AssignForestStep(nodes, next, m, own, kids, rest);
      Assigned([first] + rest.nodes, rest.next, rest.mapping)
  }

  /** One node of `AssignForest`: its own attributes, then its children,
      then its later siblings. */
  lemma AssignForestStep(nodes: seq<Node>, next: int, m: map<string, string>,
                         own: (seq<Attr>, int, map<string, string>), kids: Assigned, rest: Assigned)
    requires nodes != []
    requires IsNetwork(nodes[0]) ==> own == (nodes[0].attrs, next, m)
    requires !IsNetwork(nodes[0]) ==>
               && own.1 == next + |AttrIds(nodes[0].attrs)|
               && MaskAttrs(own.0) == MaskAttrs(nodes[0].attrs)
               && AttrIds(own.0) == Consecutive(next, |AttrIds(nodes[0].attrs)|)
               && own.2 == Record(m, AttrIds(nodes[0].attrs), next)
    requires kids.next == own.1 + |Ids(nodes[0].children)|
    requires Mask(kids.nodes) == Mask(nodes[0].children)
    requires Ids(kids.nodes) == Consecutive(own.1, |Ids(nodes[0].children)|)
    requires kids.mapping == Record(own.2, Ids(nodes[0].children), own.1)
    requires |rest.nodes| == |nodes[1..]|
    requires rest.next == kids.next + |Ids(nodes[1..])|
    requires Mask(rest.nodes) == Mask(nodes[1..])
    requires Ids(rest.nodes) == Consecutive(kids.next, |Ids(nodes[1..])|)
    requires rest.mapping == Record(kids.mapping, Ids(nodes[1..]), kids.next)
    ensures var out := [Node(nodes[0].tag, own.0, kids.nodes)] + rest.nodes;
            && rest.next == next + |Ids(nodes)|
            && Mask(out) == Mask(nodes)
            && Ids(out) == Consecutive(next, |Ids(nodes)|)
            && rest.mapping == Record(m, Ids(nodes), next)
  {
    var n := nodes[0];
    OwnStep(n, next, m, own);
    IdsStep(nodes, next, own.0, kids.nodes, rest.nodes, own.1, kids.next);
    RecordAppend(m, OwnIds(n), Ids(n.children), next, own.1);
    RecordAppend(m, OwnIds(n) + Ids(n.children), Ids(nodes[1..]), next, kids.next);
    assert Ids(nodes) == OwnIds(n) + Ids(n.children) + Ids(nodes[1..]);
    MaskStep(nodes, own.0, kids.nodes, rest.nodes);
  }

  lemma IdsStep(nodes: seq<Node>, next: int, attrs: seq<Attr>, kids: seq<Node>, rest: seq<Node>, cb: int, cd: int)
    requires nodes != []
    requires cb == next + |OwnIds(nodes[0])| && cd == cb + |Ids(nodes[0].children)|
    requires OwnIds(Node(nodes[0].tag, attrs, kids)) == Consecutive(next, |OwnIds(nodes[0])|)
    requires Ids(kids) == Consecutive(cb, |Ids(nodes[0].children)|)
    requires Ids(rest) == Consecutive(cd, |Ids(nodes[1..])|)
    ensures Ids([Node(nodes[0].tag, attrs, kids)] + rest) == Consecutive(next, |Ids(nodes)|)
  {
    var first := Node(nodes[0].tag, attrs, kids);
    assert |Ids(nodes)| == |OwnIds(nodes[0])| + |Ids(nodes[0].children)| + |Ids(nodes[1..])|;
    assert Ids([first] + rest) == OwnIds(first) + Ids(kids) + Ids(rest) by {
      var out := [first] + rest;
      assert out[0] == first && out[1..] == rest;
    }
    ConsecutiveJoin(next, OwnIds(first), Ids(kids), Ids(rest),
                    |OwnIds(nodes[0])|, |Ids(nodes[0].children)|, |Ids(nodes[1..])|,
                    cb, cd, |Ids(nodes)|);
  }

  /** Three runs that continue each other make one run. `cb` and `cd` are
      where the second and third runs start, `n` the length of the whole. */
  lemma ConsecutiveJoin(c: int, xs: seq<string>, ys: seq<string>, zs: seq<string>, a: nat, b: nat, d: nat,
                        cb: int, cd: int, n: nat)
    requires cb == c + a && cd == cb + b && n == a + b + d
    requires xs == Consecutive(c, a) && ys == Consecutive(cb, b) && zs == Consecutive(cd, d)
    ensures xs + ys + zs == Consecutive(c, n)
  {
    var ab := a + b;
    ConsecutiveSplit(c, ab, d, n, cd);
    ConsecutiveSplit(c, a, b, ab, cb);
    var xy := Consecutive(c, ab);
    assert xy == xs + ys;
    assert Consecutive(c, n) == xy + zs;
  }

  lemma OwnStep(n: Node, next: int, m: map<string, string>, own: (seq<Attr>, int, map<string, string>))
    requires IsNetwork(n) ==> own == (n.attrs, next, m)
    requires !IsNetwork(n) ==>
               && own.1 == next + |AttrIds(n.attrs)|
               && AttrIds(own.0) == Consecutive(next, |AttrIds(n.attrs)|)
               && own.2 == Record(m, AttrIds(n.attrs), next)
    ensures own.1 == next + |OwnIds(n)|
    ensures own.2 == Record(m, OwnIds(n), next)
    ensures forall kids :: OwnIds(Node(n.tag, own.0, kids)) == Consecutive(next, |OwnIds(n)|)
  {
  }

  lemma MaskStep(nodes: seq<Node>, attrs: seq<Attr>, kids: seq<Node>, rest: seq<Node>)
    requires nodes != []
    requires IsNetwork(nodes[0]) ==> attrs == nodes[0].attrs
    requires !IsNetwork(nodes[0]) ==> MaskAttrs(attrs) == MaskAttrs(nodes[0].attrs)
    requires Mask(kids) == Mask(nodes[0].children)
    requires Mask(rest) == Mask(nodes[1..])
    ensures Mask([Node(nodes[0].tag, attrs, kids)] + rest) == Mask(nodes)
  {
    var out := [Node(nodes[0].tag, attrs, kids)] + rest;
    assert out[0] == Node(nodes[0].tag, attrs, kids) && out[1..] == rest;
  }

  lemma MaskCons(a: Attr, rest: seq<Attr>)
    ensures MaskAttrs([a] + rest) == MaskAttrs([a]) + MaskAttrs(rest)
  {
  }

  lemma {:induction false} RecordAppend(m: map<string, string>, x: seq<string>, y: seq<string>, c: int, cy: int)
    requires cy == c + |x|
    ensures Record(m, x + y, c) == Record(Record(m, x, c), y, cy)
    decreases |x|
  {
    if x != [] {
      assert (x + y)[0] == x[0] && (x + y)[1..] == x[1..] + y;
      RecordAppend(m[x[0] := IntToString(c)], x[1..], y, c + 1, cy);
    } else {
      assert x + y == y;
    }
  }

  /** `str` of distinct counters differ. */
  lemma TextsDiffer(a: int, b: int)
    requires a != b
    ensures IntToString(a) != IntToString(b)
  {
    if IntToString(a) == IntToString(b) {
      IntToStringInjective(a, b);
    }
  }

  /** The new ids of one run are pairwise distinct. */
  lemma ConsecutiveDistinct(c: int, count: nat)
    ensures forall i, j :: 0 <= i < j < count ==> Consecutive(c, count)[i] != Consecutive(c, count)[j]
  {
    var x := Consecutive(c, count);
    forall i, j | 0 <= i < j < count
      ensures x[i] != x[j]
    {
      ConsecutiveAt(c, count, i, c + i);
      ConsecutiveAt(c, count, j, c + j);
      TextsDiffer(c + i, c + j);
    }
  }

  /** Two runs that share the counter, the second starting where the first
      stopped (as successive layers do), never hand out the same id. */
  lemma ConsecutiveDisjoint(c: int, a: nat, b: nat)
    ensures forall s :: s in Consecutive(c, a) ==> s !in Consecutive(c + a, b)
  {
    var x := Consecutive(c, a);
    forall s | s in x
      ensures s !in Consecutive(c + a, b)
    {
      var i :| 0 <= i < |x| && x[i] == s;
      ConsecutiveAt(c, a, i, c + i);
      TextBelowRun(c + i, c + a, b);
    }
  }

  /** A number below the start of a run is not written in it. */
  lemma TextBelowRun(v: int, m: int, b: nat)
    requires v < m
    ensures IntToString(v) !in Consecutive(m, b)
  {
    var y := Consecutive(m, b);
    forall j | 0 <= j < |y|
      ensures y[j] != IntToString(v)
    {
      ConsecutiveAt(m, b, j, m + j);
      TextsDiffer(v, m + j);
    }
  }

  /** What the recorded map holds: exactly the old values seen (and what was
      there before), each sent to the number given at its last occurrence. */
  lemma RecordLookup(m: map<string, string>, olds: seq<string>, c: int)
    ensures forall v :: v in Record(m, olds, c) <==> v in m || v in olds
    ensures forall v :: v in m && v !in olds ==> Record(m, olds, c)[v] == m[v]
    ensures forall i :: 0 <= i < |olds| && olds[i] !in olds[i + 1..] ==>
              Record(m, olds, c)[olds[i]] == IntToString(c + i)
  {
    RecordDomain(m, olds, c);
    RecordKeeps(m, olds, c);
    RecordLast(m, olds, c);
  }

  /** One step of `Record`, with the first old value split off. */
  lemma RecordCons(m: map<string, string>, olds: seq<string>, c: int, m1: map<string, string>, tail: seq<string>)
    requires olds != [] && m1 == m[olds[0] := IntToString(c)] && tail == olds[1..]
    ensures Record(m, olds, c) == Record(m1, tail, c + 1)
    ensures forall v :: v in olds <==> v == olds[0] || v in tail
  {
    assert olds == [olds[0]] + tail;
  }

  lemma {:induction false} RecordDomain(m: map<string, string>, olds: seq<string>, c: int)
    ensures forall v :: v in Record(m, olds, c) <==> v in m || v in olds
    decreases |olds|
  {
    if olds != [] {
      var m1, tail := m[olds[0] := IntToString(c)], olds[1..];
      RecordCons(m, olds, c, m1, tail);
      RecordDomain(m1, tail, c + 1);
    }
  }

  lemma {:induction false} RecordKeeps(m: map<string, string>, olds: seq<string>, c: int)
    ensures forall v :: v in m && v !in olds ==> v in Record(m, olds, c) && Record(m, olds, c)[v] == m[v]
    decreases |olds|
  {
    if olds != [] {
      var m1, tail := m[olds[0] := IntToString(c)], olds[1..];
      RecordCons(m, olds, c, m1, tail);
      RecordKeeps(m1, tail, c + 1);
    }
  }

  lemma {:induction false} RecordLast(m: map<string, string>, olds: seq<string>, c: int)
    ensures forall i :: 0 <= i < |olds| && olds[i] !in olds[i + 1..] ==>
              olds[i] in Record(m, olds, c) && Record(m, olds, c)[olds[i]] == IntToString(c + i)
    decreases |olds|
  {
    if olds != [] {
      var m1, tail := m[olds[0] := IntToString(c)], olds[1..];
      RecordCons(m, olds, c, m1, tail);
      RecordLast(m1, tail, c + 1);
      RecordKeeps(m1, tail, c + 1);
      forall i | 0 <= i < |olds| && olds[i] !in olds[i + 1..]
        ensures olds[i] in Record(m, olds, c) && Record(m, olds, c)[olds[i]] == IntToString(c + i)
      {
        if i > 0 {
          assert tail[i - 1] == olds[i] && tail[i..] == olds[i + 1..];
        } else {
          assert olds[0] !in tail;
        }
      }
    }
  }

  /* ---------- Pass 2: apply_related_id_mapping ---------- */

  /** The attribute loop of `apply_related_id_mapping`: a reference whose
      value is an old id takes the new one; every other entry is kept. */
  function Redirect(attrs: seq<Attr>, mapping: map<string, string>): (r: seq<Attr>)
    ensures |r| == |attrs|
    ensures forall i :: 0 <= i < |attrs| ==> r[i].0 == attrs[i].0
    ensures forall i :: 0 <= i < |attrs| && IsReferenceKey(attrs[i].0) && attrs[i].1 in mapping ==>
              r[i].1 == mapping[attrs[i].1]
    ensures forall i :: 0 <= i < |attrs| && !(IsReferenceKey(attrs[i].0) && attrs[i].1 in mapping) ==>
              r[i] == attrs[i]
    decreases |attrs|
  {
    if attrs == [] then [] else [RedirectAttr(attrs[0], mapping)] + Redirect(attrs[1..], mapping)
  }

  /** One entry of that loop. */
  function RedirectAttr(p: Attr, mapping: map<string, string>): Attr {
    if IsReferenceKey(p.0) && p.1 in mapping then (p.0, mapping[p.1]) else p
  }

  lemma RedirectCons(x: seq<Attr>, h: Attr, tail: seq<Attr>, mapping: map<string, string>)
    requires x != [] && x[0] == h && x[1..] == tail
    ensures Redirect(x, mapping) == [RedirectAttr(h, mapping)] + Redirect(tail, mapping)
  {
  }

  lemma {:induction false} RedirectAppend(a: seq<Attr>, b: seq<Attr>, mapping: map<string, string>)
    ensures Redirect(a + b, mapping) == Redirect(a, mapping) + Redirect(b, mapping)
    decreases |a|
  {
    if a == [] {
      assert a + b == b;
    } else {
      var h, tail := a[0], a[1..];
      ConsAppend(a, b, h, tail);
      RedirectCons(a + b, h, tail + b, mapping);
      RedirectCons(a, h, tail, mapping);
      RedirectAppend(tail, b, mapping);
      AppendAssoc([RedirectAttr(h, mapping)], Redirect(tail, mapping), Redirect(b, mapping));
    }
  }

  /** `apply_related_id_mapping` over a forest: the tree keeps its tags,
      keys and shape, and its attributes, read in pre-order, are redirected
      one by one. */
  function ApplyForest(nodes: seq<Node>, mapping: map<string, string>): (r: seq<Node>)
    ensures Skeleton(r) == Skeleton(nodes)
    ensures AllAttrs(r) == Redirect(AllAttrs(nodes), mapping)
    decreases nodes
  {
    if nodes == [] then []
    else
      var n := nodes[0];
      var first := Node(n.tag, Redirect(n.attrs, mapping), ApplyForest(n.children, mapping));
      var rest := ApplyForest(nodes[1..], mapping);
      ApplyStep(nodes, mapping, first, rest);
      [first] + rest
  }

  lemma ApplyStep(nodes: seq<Node>, mapping: map<string, string>, first: Node, rest: seq<Node>)
    requires nodes != []
    requires first.tag == nodes[0].tag && first.attrs == Redirect(nodes[0].attrs, mapping)
    requires Skeleton(first.children) == Skeleton(nodes[0].children)
    requires AllAttrs(first.children) == Redirect(AllAttrs(nodes[0].children), mapping)
    requires Skeleton(rest) == Skeleton(nodes[1..])
    requires AllAttrs(rest) == Redirect(AllAttrs(nodes[1..]), mapping)
    ensures Skeleton([first] + rest) == Skeleton(nodes)
    ensures AllAttrs([first] + rest) == Redirect(AllAttrs(nodes), mapping)
  {
    var out := [first] + rest;
    assert out[0] == first && out[1..] == rest;
    var n := nodes[0];
    RedirectAppend(n.attrs, AllAttrs(n.children), mapping);
    RedirectAppend(n.attrs + AllAttrs(n.children), AllAttrs(nodes[1..]), mapping);
    assert AllAttrs(nodes) == n.attrs + AllAttrs(n.children) + AllAttrs(nodes[1..]);
    assert AllAttrs(out) == first.attrs + AllAttrs(first.children) + AllAttrs(rest);
    BlankByKeys(first.attrs, n.attrs);
  }

  /** The empty map changes nothing. */
  lemma {:induction false} ApplyEmptyMapping(nodes: seq<Node>)
    ensures ApplyForest(nodes, map[]) == nodes
    decreases nodes
  {
    if nodes != [] {
      var n := nodes[0];
      assert Redirect(n.attrs, map[]) == n.attrs;
      ApplyEmptyMapping(n.children);
      ApplyEmptyMapping(nodes[1..]);
      assert nodes == [n] + nodes[1..];
    }
  }

  /* ---------- update_related_ids ---------- */

  /** The attribute loop of `update_related_ids`: references holding
      `target` take `replacement`. */
  function RedirectOne(attrs: seq<Attr>, target: string, replacement: string): (r: seq<Attr>)
    ensures r == Redirect(attrs, map[target := replacement])
    decreases |attrs|
  {
    if attrs == [] then []
    else
      var (k, v) := attrs[0];
      var head := if IsReferenceKey(k) && v == target then (k, replacement) else (k, v);
      [head] + RedirectOne(attrs[1..], target, replacement)
  }

  /** `update_related_ids` over a forest. */
  function UpdateRelatedForest(nodes: seq<Node>, target: string, replacement: string): seq<Node>
    decreases nodes
  {
    if nodes == [] then []
    else
      var n := nodes[0];
      [Node(n.tag, RedirectOne(n.attrs, target, replacement), UpdateRelatedForest(n.children, target, replacement))]
        + UpdateRelatedForest(nodes[1..], target, replacement)
  }

  /** Redirecting one id is the second pass with a one-entry map. */
  lemma {:induction false} UpdateRelatedIsApply(nodes: seq<Node>, target: string, replacement: string)
    ensures UpdateRelatedForest(nodes, target, replacement) == ApplyForest(nodes, map[target := replacement])
    decreases nodes
  {
    if nodes != [] {
      UpdateRelatedIsApply(nodes[0].children, target, replacement);
      UpdateRelatedIsApply(nodes[1..], target, replacement);
    }
  }

  /* ---------- update_ids ---------- */

  /** `update_ids(node, next_id)`: renumber, then redirect through the
      map of this call only; the counter after it is returned. */
  function UpdateIds(n: Node, next: int): (r: (Node, int))
    ensures r.1 == next + |Ids([n])|
    ensures Skeleton([r.0]) == Skeleton([n])
    ensures Ids([r.0]) == Consecutive(next, |Ids([n])|)
    ensures Mask([r.0]) == ApplyForest(Mask([n]), Record(map[], Ids([n]), next))
  {
    var pass1 := AssignForest([n], next, map[]);
    var applied := ApplyForest(pass1.nodes, pass1.mapping);
    IdsUnderApply(pass1.nodes, pass1.mapping);
    MaskKeepsSkeleton(pass1.nodes, [n]);
    MaskUnderApply(pass1.nodes, pass1.mapping);
    assert [applied[0]] == applied;
    (applied[0], pass1.next)
  }

  /** Blanking the renumbered ids commutes with the second pass, since it
      never redirects an id attribute. With the mask of `update_ids` this
      says that a `network` node's own ids come out as they went in. */
  lemma {:induction false} MaskUnderApply(nodes: seq<Node>, mapping: map<string, string>)
    ensures Mask(ApplyForest(nodes, mapping)) == ApplyForest(Mask(nodes), mapping)
    decreases nodes
  {
    if nodes != [] {
      var n := nodes[0];
      var a := ApplyForest(nodes, mapping);
      var first := Node(n.tag, Redirect(n.attrs, mapping), ApplyForest(n.children, mapping));
      assert a == [first] + ApplyForest(nodes[1..], mapping);
      assert a[0] == first && a[1..] == ApplyForest(nodes[1..], mapping);
      var mn := Mask(nodes);
      var own := if IsNetwork(n) then n.attrs else MaskAttrs(n.attrs);
      assert mn[0] == Node(n.tag, own, Mask(n.children)) && mn[1..] == Mask(nodes[1..]);
      MaskUnderApply(n.children, mapping);
      MaskUnderApply(nodes[1..], mapping);
      if !IsNetwork(n) {
        MaskRedirect(n.attrs, mapping);
      }
    }
  }

  /** Blanking ids commutes with redirecting one attribute list. */
  lemma MaskRedirect(attrs: seq<Attr>, mapping: map<string, string>)
    ensures MaskAttrs(Redirect(attrs, mapping)) == Redirect(MaskAttrs(attrs), mapping)
  {
    var x, y := MaskAttrs(Redirect(attrs, mapping)), Redirect(MaskAttrs(attrs), mapping);
    forall i | 0 <= i < |attrs|
      ensures x[i] == y[i]
    {
      if IsIdKey(attrs[i].0) {
        IdKeyIsNoReference(attrs[i].0);
      }
    }
  }

  /** The second pass never touches an id attribute, nor a tag. */
  lemma {:induction false} IdsUnderApply(nodes: seq<Node>, mapping: map<string, string>)
    ensures |ApplyForest(nodes, mapping)| == |nodes|
    ensures Ids(ApplyForest(nodes, mapping)) == Ids(nodes)
    decreases nodes
  {
    if nodes != [] {
      var n := nodes[0];
      var first := Node(n.tag, Redirect(n.attrs, mapping), ApplyForest(n.children, mapping));
      var rest := ApplyForest(nodes[1..], mapping);
      var r := ApplyForest(nodes, mapping);
      assert r == [first] + rest;
      assert r[0] == first && r[1..] == rest;
      AttrIdsUnderRedirect(n.attrs, mapping);
      assert OwnIds(first) == OwnIds(n);
      IdsUnderApply(n.children, mapping);
      IdsUnderApply(nodes[1..], mapping);
      assert Ids(r) == OwnIds(first) + Ids(first.children) + Ids(rest);
    }
  }

  lemma {:induction false} AttrIdsUnderRedirect(attrs: seq<Attr>, mapping: map<string, string>)
    ensures AttrIds(Redirect(attrs, mapping)) == AttrIds(attrs)
    decreases |attrs|
  {
    if attrs != [] {
      var r := Redirect(attrs, mapping);
      assert r == [r[0]] + Redirect(attrs[1..], mapping);
      assert ([r[0]] + Redirect(attrs[1..], mapping))[1..] == Redirect(attrs[1..], mapping);
      if IsIdKey(attrs[0].0) {
        IdKeyIsNoReference(attrs[0].0);
      }
      AttrIdsUnderRedirect(attrs[1..], mapping);
    }
  }

  /** Forests that agree once their ids are blanked have the same skeleton. */
  lemma {:induction false} MaskKeepsSkeleton(x: seq<Node>, y: seq<Node>)
    requires Mask(x) == Mask(y)
    ensures Skeleton(x) == Skeleton(y)
    decreases x
  {
    if x != [] {
      MaskHead(x, y);
      BlankByKeys(x[0].attrs, y[0].attrs);
      MaskKeepsSkeleton(x[0].children, y[0].children);
      MaskKeepsSkeleton(x[1..], y[1..]);
    }
  }

  lemma MaskHead(x: seq<Node>, y: seq<Node>)
    requires Mask(x) == Mask(y) && x != []
    ensures y != [] && x[0].tag == y[0].tag
    ensures |x[0].attrs| == |y[0].attrs| && forall i :: 0 <= i < |x[0].attrs| ==> x[0].attrs[i].0 == y[0].attrs[i].0
    ensures Mask(x[0].children) == Mask(y[0].children) && Mask(x[1..]) == Mask(y[1..])
  {
    var s, t := Mask(x), Mask(y);
    assert s[0] == t[0] && s[1..] == t[1..];
    var a, b := x[0].attrs, y[0].attrs;
    assert |a| == |s[0].attrs| == |b|;
    forall i | 0 <= i < |a|
      ensures a[i].0 == b[i].0
    {
      assert a[i].0 == s[0].attrs[i].0;
      assert b[i].0 == t[0].attrs[i].0;
    }
  }

  lemma MaskAppend(a: seq<Attr>, b: seq<Attr>)
    ensures MaskAttrs(a + b) == MaskAttrs(a) + MaskAttrs(b)
  {
  }

  lemma MaskTwice(a: seq<Attr>)
    ensures MaskAttrs(MaskAttrs(a)) == MaskAttrs(a)
  {
  }

  /** Blanking the ids of a forest, then all ids of its attribute list,
      is the same as blanking all ids of its attribute list. */
  lemma {:induction false} MaskAllAttrs(x: seq<Node>)
    ensures MaskAttrs(AllAttrs(Mask(x))) == MaskAttrs(AllAttrs(x))
    decreases x
  {
    if x != [] {
      var n := x[0];
      var own := if IsNetwork(n) then n.attrs else MaskAttrs(n.attrs);
      var mx := Mask(x);
      assert mx[0] == Node(n.tag, own, Mask(n.children)) && mx[1..] == Mask(x[1..]);
      assert AllAttrs(mx) == own + AllAttrs(Mask(n.children)) + AllAttrs(Mask(x[1..]));
      assert AllAttrs(x) == n.attrs + AllAttrs(n.children) + AllAttrs(x[1..]);
      MaskAllAttrs(n.children);
      MaskAllAttrs(x[1..]);
      MaskAppend(own + AllAttrs(Mask(n.children)), AllAttrs(Mask(x[1..])));
      MaskAppend(own, AllAttrs(Mask(n.children)));
      MaskAppend(n.attrs + AllAttrs(n.children), AllAttrs(x[1..]));
      MaskAppend(n.attrs, AllAttrs(n.children));
      MaskTwice(n.attrs);
    }
  }

  /** What `update_ids` does to the attributes, read in pre-order: keys
      stay; a reference whose value was an old id now holds the number that
      id received (the last one, if the old id occurred twice); every other
      attribute that is not an id is unchanged. */
  lemma UpdateIdsAttributes(n: Node, next: int)
    ensures var before, after := AllAttrs([n]), AllAttrs([UpdateIds(n, next).0]);
            var m := Record(map[], Ids([n]), next);
            && |after| == |before|
            && (forall i :: 0 <= i < |before| ==> after[i].0 == before[i].0)
            && (forall i :: 0 <= i < |before| && IsReferenceKey(before[i].0) && before[i].1 in m ==>
                  after[i].1 == m[before[i].1])
            && (forall i ::
                  (0 <= i < |before| && !IsIdKey(before[i].0) && !(IsReferenceKey(before[i].0) && before[i].1 in m))
                  ==> after[i] == before[i])
  {
    var pass1 := AssignForest([n], next, map[]);
    var applied := ApplyForest(pass1.nodes, pass1.mapping);
    assert |applied| == 1 by { assert |Skeleton(applied)| == |Skeleton(pass1.nodes)|; }
    assert [applied[0]] == applied;
    var before, mid, after := AllAttrs([n]), AllAttrs(pass1.nodes), AllAttrs(applied);
    var m := pass1.mapping;
    assert after == Redirect(mid, m);
    MaskAllAttrs(pass1.nodes);
    MaskAllAttrs([n]);
    MaskAgree(mid, before);
  }

  /** Two attribute lists that agree once their ids are blanked have the
      same keys, and the same attribute wherever the key is not an id. */
  lemma MaskAgree(x: seq<Attr>, y: seq<Attr>)
    requires MaskAttrs(x) == MaskAttrs(y)
    ensures |x| == |y|
    ensures forall i :: 0 <= i < |y| ==> x[i].0 == y[i].0
    ensures forall i :: 0 <= i < |y| && !IsIdKey(y[i].0) ==> x[i] == y[i]
    ensures forall i :: 0 <= i < |y| && IsReferenceKey(y[i].0) ==> x[i] == y[i]
  {
    assert |x| == |MaskAttrs(x)| == |y|;
    forall i | 0 <= i < |y|
      ensures x[i].0 == y[i].0
      ensures !IsIdKey(y[i].0) ==> x[i] == y[i]
    {
      assert MaskAttrs(x)[i] == MaskAttrs(y)[i];
    }
    forall i | 0 <= i < |y| && IsReferenceKey(y[i].0)
      ensures x[i] == y[i]
    {
      if IsIdKey(y[i].0) {
        IdKeyIsNoReference(y[i].0);
      }
    }
  }
}
