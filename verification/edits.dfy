/** The tree edits applied to every ship layer, and `calc_offset`, the
    alternating placement of successive ships. Each edit that the source
    writes as an in-place recursion over a node's children is a function
    over a forest here; the node-level operation applies it to the
    children. */
module Edits {
  import opened Wrappers
  import opened Text
  import opened Tree
  import opened Seqs

  /** A forest with the attributes dropped: its tags and its shape. */
  function Outline(nodes: seq<Node>): (r: seq<Node>)
    ensures |r| == |nodes|
    decreases nodes
  {
    if nodes == [] then []
    else [Node(nodes[0].tag, [], Outline(nodes[0].children))] + Outline(nodes[1..])
  }

  /** A forest whose first node keeps its tag and the outline of its
      children, and whose other nodes keep their outline, keeps its outline. */
  lemma OutlineCons(nodes: seq<Node>, first: Node, rest: seq<Node>)
    requires nodes != [] && first.tag == nodes[0].tag
    requires Outline(first.children) == Outline(nodes[0].children) && Outline(rest) == Outline(nodes[1..])
    ensures Outline([first] + rest) == Outline(nodes)
  {
    var out := [first] + rest;
    assert out[0] == first && out[1..] == rest;
  }

  /** `r` has the tag and shape of `n`, and at every depth its attributes
      are `f` of the corresponding ones: an edit that rewrites attribute
      lists one node at a time and changes nothing else. */
  predicate AttrsMapped(r: Node, n: Node, f: seq<Attr> -> seq<Attr>)
    decreases n
  {
    && r.tag == n.tag && r.attrs == f(n.attrs) && |r.children| == |n.children|
    && forall i :: 0 <= i < |n.children| ==> AttrsMapped(r.children[i], n.children[i], f)
  }

  predicate ForestMapped(r: seq<Node>, nodes: seq<Node>, f: seq<Attr> -> seq<Attr>) {
    |r| == |nodes| && forall i :: 0 <= i < |nodes| ==> AttrsMapped(r[i], nodes[i], f)
  }

  /** A node rebuilt from `f` of its attributes and mapped children, ahead
      of a mapped tail. */
  lemma MappedCons(nodes: seq<Node>, first: Node, rest: seq<Node>, f: seq<Attr> -> seq<Attr>)
    requires nodes != [] && first.tag == nodes[0].tag && first.attrs == f(nodes[0].attrs)
    requires ForestMapped(first.children, nodes[0].children, f) && ForestMapped(rest, nodes[1..], f)
    ensures ForestMapped([first] + rest, nodes, f)
  {
    var out := [first] + rest;
    assert AttrsMapped(first, nodes[0], f);
    forall i | 0 < i < |nodes|
      ensures AttrsMapped(out[i], nodes[i], f)
    {
      assert out[i] == rest[i - 1] && nodes[i] == nodes[1..][i - 1];
    }
  }

  /* ---------- remove_workqueue / remove_newship_friendly ---------- */

  /** Which nodes an edit removes, judged by tag and attributes. */
  type Rejects = (Option<string>, seq<Attr>) -> bool

  predicate Dropped(n: Node, drop: Rejects) {
    drop(n.tag, n.attrs)
  }

  /** At every depth below `n`, no node satisfies `drop`. */
  predicate NoneBelow(n: Node, drop: Rejects)
    decreases n
  {
    forall i :: 0 <= i < |n.children| ==> !Dropped(n.children[i], drop) && NoneBelow(n.children[i], drop)
  }

  /** The siblings that `drop` does not reject, in order. */
  function Survivors(nodes: seq<Node>, drop: Rejects): (r: seq<Node>)
    ensures |r| <= |nodes|
    ensures forall c :: c in r ==> c in nodes && !Dropped(c, drop)
    ensures forall c :: c in nodes && !Dropped(c, drop) ==> c in r
    decreases |nodes|
  {
    if nodes == [] then []
    else (if Dropped(nodes[0], drop) then [] else [nodes[0]]) + Survivors(nodes[1..], drop)
  }

  /** Filtering is node by node, so survivors keep their relative order. */
  lemma {:induction false} SurvivorsAppend(a: seq<Node>, b: seq<Node>, drop: Rejects)
    ensures Survivors(a + b, drop) == Survivors(a, drop) + Survivors(b, drop)
    decreases |a|
  {
    if a == [] {
      assert a + b == b;
    } else {
      var h, tail := a[0], a[1..];
      var keep := if Dropped(h, drop) then [] else [h];
      ConsAppend(a, b, h, tail);
      SurvivorsCons(a + b, h, tail + b, drop);
      SurvivorsCons(a, h, tail, drop);
      SurvivorsAppend(tail, b, drop);
      AppendAssoc(keep, Survivors(tail, drop), Survivors(b, drop));
    }
  }

  /** The survivors of a non-empty forest: its head if kept, then those of
      the tail. */
  lemma SurvivorsCons(x: seq<Node>, h: Node, tail: seq<Node>, drop: Rejects)
    requires x != [] && x[0] == h && x[1..] == tail
    ensures Survivors(x, drop) == (if Dropped(h, drop) then [] else [h]) + Survivors(tail, drop)
  {
  }

  /** Drop the rejected nodes of a forest, and recursively of the children
      of every node kept: the survivors, in order, with their tags and
      attributes, and nothing rejected at any depth. */
  function Prune(nodes: seq<Node>, drop: Rejects): (r: seq<Node>)
    ensures |r| == |Survivors(nodes, drop)|
    ensures forall i :: 0 <= i < |r| ==>
              r[i].tag == Survivors(nodes, drop)[i].tag && r[i].attrs == Survivors(nodes, drop)[i].attrs
    ensures forall i :: 0 <= i < |r| ==> !Dropped(r[i], drop) && NoneBelow(r[i], drop)
    decreases nodes
  {
    if nodes == [] then []
    else
      var kids := Prune(nodes[0].children, drop);
      var rest := Prune(nodes[1..], drop);
      if Dropped(nodes[0], drop) then
        assert Survivors(nodes, drop) == Survivors(nodes[1..], drop);
        rest
      else
        var first := Node(nodes[0].tag, nodes[0].attrs, kids);
        PruneStep(nodes, drop, first, rest);
        [first] + rest
  }

  lemma PruneStep(nodes: seq<Node>, drop: Rejects, first: Node, rest: seq<Node>)
    requires nodes != [] && !Dropped(nodes[0], drop)
    requires first == Node(nodes[0].tag, nodes[0].attrs, first.children)
    requires forall i :: 0 <= i < |first.children| ==>
               !Dropped(first.children[i], drop) && NoneBelow(first.children[i], drop)
    requires |rest| == |Survivors(nodes[1..], drop)|
    requires forall i :: 0 <= i < |rest| ==>
               rest[i].tag == Survivors(nodes[1..], drop)[i].tag && rest[i].attrs == Survivors(nodes[1..], drop)[i].attrs
    requires forall i :: 0 <= i < |rest| ==> !Dropped(rest[i], drop) && NoneBelow(rest[i], drop)
    ensures var r := [first] + rest;
            && |r| == |Survivors(nodes, drop)|
            && (forall i :: 0 <= i < |r| ==>
                  r[i].tag == Survivors(nodes, drop)[i].tag && r[i].attrs == Survivors(nodes, drop)[i].attrs)
            && (forall i :: 0 <= i < |r| ==> !Dropped(r[i], drop) && NoneBelow(r[i], drop))
  {
    var sv := Survivors(nodes, drop);
    assert sv == [nodes[0]] + Survivors(nodes[1..], drop);
    var r := [first] + rest;
    forall i | 0 <= i < |r|
      ensures r[i].tag == sv[i].tag && r[i].attrs == sv[i].attrs
      ensures !Dropped(r[i], drop) && NoneBelow(r[i], drop)
    {
      if i > 0 {
        assert r[i] == rest[i - 1] && sv[i] == Survivors(nodes[1..], drop)[i - 1];
      } else {
        assert Dropped(first, drop) == Dropped(nodes[0], drop);
      }
    }
  }

  /** A forest with nothing to drop is left as it is. */
  lemma {:induction false} PruneClean(nodes: seq<Node>, drop: Rejects)
    requires forall i :: 0 <= i < |nodes| ==> !Dropped(nodes[i], drop) && NoneBelow(nodes[i], drop)
    ensures Prune(nodes, drop) == nodes
    decreases nodes
  {
    if nodes != [] {
      var n, tail := nodes[0], nodes[1..];
      CleanParts(nodes, drop, n, tail);
      PruneClean(n.children, drop);
      PruneClean(tail, drop);
      PruneKept(nodes, drop, n, tail, n.children, tail);
    }
  }

  /** The head and tail of a forest with nothing to drop have nothing to drop. */
  lemma CleanParts(nodes: seq<Node>, drop: Rejects, n: Node, tail: seq<Node>)
    requires forall i :: 0 <= i < |nodes| ==> !Dropped(nodes[i], drop) && NoneBelow(nodes[i], drop)
    requires nodes != [] && n == nodes[0] && tail == nodes[1..]
    ensures !Dropped(n, drop) && nodes == [n] + tail
    ensures forall i :: 0 <= i < |n.children| ==> !Dropped(n.children[i], drop) && NoneBelow(n.children[i], drop)
    ensures forall i :: 0 <= i < |tail| ==> !Dropped(tail[i], drop) && NoneBelow(tail[i], drop)
  {
    assert NoneBelow(n, drop);
    forall i | 0 <= i < |tail|
      ensures !Dropped(tail[i], drop) && NoneBelow(tail[i], drop)
    {
      assert tail[i] == nodes[i + 1];
    }
  }

  /** A kept node is rebuilt from its pruned children, ahead of its pruned
      siblings. */
  lemma PruneKept(nodes: seq<Node>, drop: Rejects, n: Node, tail: seq<Node>, kids: seq<Node>, rest: seq<Node>)
    requires nodes != [] && n == nodes[0] && tail == nodes[1..] && !Dropped(n, drop)
    requires Prune(n.children, drop) == kids && Prune(tail, drop) == rest
    ensures Prune(nodes, drop) == [Node(n.tag, n.attrs, kids)] + rest
  {
  }

  /** `r` is `sv` with every node rebuilt from its own pruned children. */
  predicate PrunedAs(r: seq<Node>, sv: seq<Node>, drop: Rejects) {
    |r| == |sv| && forall i :: 0 <= i < |r| ==> PrunedNode(r[i], sv[i], drop)
  }

  /** `x` is `c` rebuilt from its pruned children. */
  predicate PrunedNode(x: Node, c: Node, drop: Rejects) {
    x == Node(c.tag, c.attrs, Prune(c.children, drop))
  }

  /** Below the top level too, pruning keeps exactly the survivors: the
      i-th node of the result is the i-th survivor, rebuilt from its own
      pruned children. */
  lemma {:induction false} PruneIsSurvivors(nodes: seq<Node>, drop: Rejects)
    ensures PrunedAs(Prune(nodes, drop), Survivors(nodes, drop), drop)
    decreases nodes
  {
    if nodes != [] {
      PruneIsSurvivors(nodes[1..], drop);
      PruneSurvivorsStep(nodes, drop, nodes[0], nodes[1..]);
    }
  }

  /** One step of that induction: the head is either rejected or kept. */
  lemma PruneSurvivorsStep(nodes: seq<Node>, drop: Rejects, n: Node, tail: seq<Node>)
    requires nodes != [] && n == nodes[0] && tail == nodes[1..]
    requires PrunedAs(Prune(tail, drop), Survivors(tail, drop), drop)
    ensures PrunedAs(Prune(nodes, drop), Survivors(nodes, drop), drop)
  {
    SurvivorsCons(nodes, n, tail, drop);
    if !Dropped(n, drop) {
      var r := Prune(nodes, drop);
      PruneKept(nodes, drop, n, tail, Prune(n.children, drop), Prune(tail, drop));
      assert PrunedNode(r[0], n, drop) && r[1..] == Prune(tail, drop);
      PrunedAsCons(r, Survivors(nodes, drop), n, Prune(tail, drop), Survivors(tail, drop), drop);
    }
  }

  lemma PrunedAsCons(r: seq<Node>, sv: seq<Node>, n: Node, rest: seq<Node>, svt: seq<Node>, drop: Rejects)
    requires |r| == |rest| + 1 && PrunedNode(r[0], n, drop) && r[1..] == rest && sv == [n] + svt
    requires PrunedAs(rest, svt, drop)
    ensures PrunedAs(r, sv, drop)
  {
    forall i | 0 < i < |r|
      ensures PrunedNode(r[i], sv[i], drop)
    {
      assert r[i] == rest[i - 1] && sv[i] == svt[i - 1];
    }
  }

  /** A node tagged `workqueue` (any case). */
  predicate IsWorkqueue(tag: Option<string>, attrs: seq<Attr>) {
    tag.Some? && Lower(tag.value) == "workqueue"
  }

  /** `remove_workqueue(node)`: at every depth, children tagged
      `workqueue` are removed; the node itself is kept. */
  function RemoveWorkqueue(n: Node): (r: Node)
    ensures r.tag == n.tag && r.attrs == n.attrs
    ensures NoneBelow(r, IsWorkqueue)
    ensures |r.children| == |Survivors(n.children, IsWorkqueue)|
    ensures PrunedAs(r.children, Survivors(n.children, IsWorkqueue), IsWorkqueue)
  {
    PruneIsSurvivors(n.children, IsWorkqueue);
    Node(n.tag, n.attrs, Prune(n.children, IsWorkqueue))
  }

  /** `remove_workqueue` changes a node exactly when some descendant is a
      workqueue; so applying it twice is applying it once. */
  lemma RemoveWorkqueueFixpoint(n: Node)
    ensures RemoveWorkqueue(n) == n <==> NoneBelow(n, IsWorkqueue)
    ensures RemoveWorkqueue(RemoveWorkqueue(n)) == RemoveWorkqueue(n)
  {
    if NoneBelow(n, IsWorkqueue) {
      PruneClean(n.children, IsWorkqueue);
    }
    PruneClean(RemoveWorkqueue(n).children, IsWorkqueue);
  }

  /** The placeholder ship: the last `name` entry is `NEWSHIP` and the
      last `type` entry is `FriendlyShip` (keys compared ignoring case). */
  predicate IsNewshipFriendly(tag: Option<string>, attrs: seq<Attr>) {
    LastValue(attrs, "name") == Some("NEWSHIP") && LastValue(attrs, "type") == Some("FriendlyShip")
  }

  /** `remove_newship_friendly(nodes)`: the placeholder ships are removed
      from the list and, at every depth, from the children of the others. */
  function RemoveNewshipFriendly(nodes: seq<Node>): (r: seq<Node>)
    ensures |r| == |Survivors(nodes, IsNewshipFriendly)|
    ensures PrunedAs(r, Survivors(nodes, IsNewshipFriendly), IsNewshipFriendly)
    ensures forall i :: 0 <= i < |r| ==> !Dropped(r[i], IsNewshipFriendly) && NoneBelow(r[i], IsNewshipFriendly)
  {
    PruneIsSurvivors(nodes, IsNewshipFriendly);
    Prune(nodes, IsNewshipFriendly)
  }

  /** Exactly the lists without a placeholder at any depth are unchanged. */
  lemma RemoveNewshipFriendlyFixpoint(nodes: seq<Node>)
    ensures RemoveNewshipFriendly(nodes) == nodes <==>
              forall i :: 0 <= i < |nodes| ==> !Dropped(nodes[i], IsNewshipFriendly) && NoneBelow(nodes[i], IsNewshipFriendly)
    ensures RemoveNewshipFriendly(RemoveNewshipFriendly(nodes)) == RemoveNewshipFriendly(nodes)
  {
    if forall i :: 0 <= i < |nodes| ==> !Dropped(nodes[i], IsNewshipFriendly) && NoneBelow(nodes[i], IsNewshipFriendly) {
      PruneClean(nodes, IsNewshipFriendly);
    }
    PruneClean(RemoveNewshipFriendly(nodes), IsNewshipFriendly);
  }

  /* ---------- clear_crew_attributes ---------- */

  /** A node holds the exact entry `Type CrewMember`. */
  predicate IsCrewMember(attrs: seq<Attr>) {
    exists i :: 0 <= i < |attrs| && attrs[i] == ("Type", "CrewMember")
  }

  const CrewKeys: set<string> := {"JobId", "State"}

  /** One node of `clear_crew_attributes`: a crew member loses its `JobId`
      and `State` entries, everything else is kept. */
  function ClearCrewAttrs(attrs: seq<Attr>): (r: seq<Attr>)
    ensures forall p :: p in r <==> p in attrs && (!IsCrewMember(attrs) || p.0 !in CrewKeys)
  {
    if IsCrewMember(attrs) then RemoveAttributes(attrs, CrewKeys) else attrs
  }

  /** At every depth, a crew member has no `JobId` or `State`. */
  predicate CrewCleared(n: Node)
    decreases n
  {
    && (IsCrewMember(n.attrs) ==> forall i :: 0 <= i < |n.attrs| ==> n.attrs[i].0 !in CrewKeys)
    && forall i :: 0 <= i < |n.children| ==> CrewCleared(n.children[i])
  }

  /** `clear_crew_attributes` over a forest. */
  function ClearCrewForest(nodes: seq<Node>): (r: seq<Node>)
    ensures ForestMapped(r, nodes, ClearCrewAttrs)
    ensures Outline(r) == Outline(nodes)
    ensures forall i :: 0 <= i < |r| ==> CrewCleared(r[i])
    ensures forall i :: 0 <= i < |r| ==> IsCrewMember(r[i].attrs) == IsCrewMember(nodes[i].attrs)
    decreases nodes
  {
    if nodes == [] then []
    else
      var n := nodes[0];
      var attrs := ClearCrewAttrs(n.attrs);
      var first := Node(n.tag, attrs, ClearCrewForest(n.children));
      var rest := ClearCrewForest(nodes[1..]);
      CrewNode(n, first);
      MappedCons(nodes, first, rest, ClearCrewAttrs);
      OutlineCons(nodes, first, rest);
      CrewForestStep(nodes, first, rest);
      [first] + rest
  }

  /** One cleared node, given cleared children. */
  lemma CrewNode(n: Node, first: Node)
    requires first.attrs == ClearCrewAttrs(n.attrs)
    requires forall i :: 0 <= i < |first.children| ==> CrewCleared(first.children[i])
    ensures CrewCleared(first) && IsCrewMember(first.attrs) == IsCrewMember(n.attrs)
  {
    CrewStaysCrew(n.attrs);
  }

  lemma CrewForestStep(nodes: seq<Node>, first: Node, rest: seq<Node>)
    requires nodes != [] && |rest| == |nodes| - 1
    requires CrewCleared(first) && IsCrewMember(first.attrs) == IsCrewMember(nodes[0].attrs)
    requires forall i :: 0 <= i < |rest| ==> CrewCleared(rest[i])
    requires forall i :: 0 <= i < |rest| ==> IsCrewMember(rest[i].attrs) == IsCrewMember(nodes[i + 1].attrs)
    ensures forall i :: 0 <= i < |[first] + rest| ==> CrewCleared(([first] + rest)[i])
    ensures forall i :: 0 <= i < |[first] + rest| ==>
              IsCrewMember(([first] + rest)[i].attrs) == IsCrewMember(nodes[i].attrs)
  {
    var out := [first] + rest;
    forall i | 0 < i < |out|
      ensures CrewCleared(out[i]) && IsCrewMember(out[i].attrs) == IsCrewMember(nodes[i].attrs)
    {
      assert out[i] == rest[i - 1];
    }
  }

  /** The `Type CrewMember` entry itself survives, and what is left of a
      crew member holds no `JobId` or `State`. */
  lemma CrewStaysCrew(attrs: seq<Attr>)
    ensures IsCrewMember(ClearCrewAttrs(attrs)) == IsCrewMember(attrs)
    ensures IsCrewMember(attrs) ==>
              forall i :: 0 <= i < |ClearCrewAttrs(attrs)| ==> ClearCrewAttrs(attrs)[i].0 !in CrewKeys
  {
    var r := ClearCrewAttrs(attrs);
    if IsCrewMember(attrs) {
      var i :| 0 <= i < |attrs| && attrs[i] == ("Type", "CrewMember");
      assert attrs[i] in r;
      assert forall j :: 0 <= j < |r| ==> r[j] in r;
    }
  }

  /** `clear_crew_attributes(node)`. */
  function ClearCrewAttributes(n: Node): (r: Node)
    ensures AttrsMapped(r, n, ClearCrewAttrs)
    ensures Outline([r]) == Outline([n])
    ensures CrewCleared(r)
  {
    ClearCrewForest([n])[0]
  }

  /** A second pass finds nothing left to clear. */
  lemma {:induction false} ClearCrewIdempotent(nodes: seq<Node>)
    ensures ClearCrewForest(ClearCrewForest(nodes)) == ClearCrewForest(nodes)
    decreases nodes
  {
    if nodes != [] {
      var n := nodes[0];
      var a := ClearCrewAttrs(n.attrs);
      CrewStaysCrew(n.attrs);
      if IsCrewMember(n.attrs) {
        RemoveAttributesFilter(n.attrs, [], CrewKeys);
      }
      assert ClearCrewAttrs(a) == a;
      ClearCrewIdempotent(n.children);
      ClearCrewIdempotent(nodes[1..]);
      var once := ClearCrewForest(nodes);
      assert once[0] == Node(n.tag, a, ClearCrewForest(n.children));
      assert once[1..] == ClearCrewForest(nodes[1..]);
    }
  }

  /* ---------- remove_entities_recursively / remove_entities_from_habitation ---------- */

  /** `k.lower() == "entities"`. */
  predicate IsEntitiesKey(k: string) {
    Lower(k) == "entities"
  }

  function DropEntities(attrs: seq<Attr>): (r: seq<Attr>)
    ensures forall p :: p in r <==> p in attrs && !IsEntitiesKey(p.0)
  {
    FilterKeys(attrs, k => !IsEntitiesKey(k))
  }

  /** No node at any depth has an `Entities` key. */
  predicate EntitiesFree(n: Node)
    decreases n
  {
    && (forall i :: 0 <= i < |n.attrs| ==> !IsEntitiesKey(n.attrs[i].0))
    && forall i :: 0 <= i < |n.children| ==> EntitiesFree(n.children[i])
  }

  /** `remove_entities_recursively` over a forest. */
  function RemoveEntitiesForest(nodes: seq<Node>): (r: seq<Node>)
    ensures ForestMapped(r, nodes, DropEntities)
    ensures Outline(r) == Outline(nodes)
    ensures forall i :: 0 <= i < |r| ==> EntitiesFree(r[i])
    decreases nodes
  {
    if nodes == [] then []
    else
      var n := nodes[0];
      var first := Node(n.tag, DropEntities(n.attrs), RemoveEntitiesForest(n.children));
      var rest := RemoveEntitiesForest(nodes[1..]);
      EntitiesNode(n, first);
      MappedCons(nodes, first, rest, DropEntities);
      OutlineCons(nodes, first, rest);
      EntitiesForestStep(first, rest);
      [first] + rest
  }

  /** One node without `Entities`, given such children. */
  lemma EntitiesNode(n: Node, first: Node)
    requires first.attrs == DropEntities(n.attrs)
    requires forall i :: 0 <= i < |first.children| ==> EntitiesFree(first.children[i])
    ensures EntitiesFree(first)
  {
    assert forall i :: 0 <= i < |first.attrs| ==> first.attrs[i] in first.attrs;
  }

  lemma EntitiesForestStep(first: Node, rest: seq<Node>)
    requires EntitiesFree(first) && forall i :: 0 <= i < |rest| ==> EntitiesFree(rest[i])
    ensures forall i :: 0 <= i < |[first] + rest| ==> EntitiesFree(([first] + rest)[i])
  {
    var out := [first] + rest;
    forall i | 0 < i < |out|
      ensures EntitiesFree(out[i])
    {
      assert out[i] == rest[i - 1];
    }
  }

  /** `remove_entities_recursively(node)`. */
  function RemoveEntitiesRecursively(n: Node): (r: Node)
    ensures AttrsMapped(r, n, DropEntities)
    ensures Outline([r]) == Outline([n])
    ensures EntitiesFree(r)
  {
    RemoveEntitiesForest([n])[0]
  }

  /** Exactly the forests already free of `Entities` are left unchanged. */
  lemma {:induction false} RemoveEntitiesFixpoint(nodes: seq<Node>)
    ensures RemoveEntitiesForest(nodes) == nodes <==> forall i :: 0 <= i < |nodes| ==> EntitiesFree(nodes[i])
    decreases nodes
  {
    if forall i :: 0 <= i < |nodes| ==> EntitiesFree(nodes[i]) {
      FreeUnchanged(nodes);
    }
  }

  lemma {:induction false} FreeUnchanged(nodes: seq<Node>)
    requires forall i :: 0 <= i < |nodes| ==> EntitiesFree(nodes[i])
    ensures RemoveEntitiesForest(nodes) == nodes
    decreases nodes
  {
    if nodes != [] {
      var n := nodes[0];
      FilterKeysAll(n.attrs, k => !IsEntitiesKey(k));
      FreeUnchanged(n.children);
      FreeUnchanged(nodes[1..]);
      assert nodes == [n] + nodes[1..];
    }
  }

  predicate IsHabitation(n: Node) {
    TagIs(n, "habitation")
  }

  /** At every depth, nothing strictly below a habitation node has an
      `Entities` key. */
  predicate HabitationsClean(n: Node)
    decreases n
  {
    && (IsHabitation(n) ==> forall i :: 0 <= i < |n.children| ==> EntitiesFree(n.children[i]))
    && forall i :: 0 <= i < |n.children| ==> HabitationsClean(n.children[i])
  }

  /** No node at any depth is a habitation node. */
  predicate NoHabitation(n: Node)
    decreases n
  {
    !IsHabitation(n) && forall i :: 0 <= i < |n.children| ==> NoHabitation(n.children[i])
  }

  /** The number of nodes in a forest. */
  function Size(nodes: seq<Node>): nat
    decreases nodes
  {
    if nodes == [] then 0 else 1 + Size(nodes[0].children) + Size(nodes[1..])
  }

  lemma {:induction false} OutlineSize(a: seq<Node>, b: seq<Node>)
    requires Outline(a) == Outline(b)
    ensures Size(a) == Size(b)
    decreases a
  {
    if a != [] {
      var s, t := Outline(a), Outline(b);
      assert s[0] == t[0] && s[1..] == t[1..];
      OutlineSize(a[0].children, b[0].children);
      OutlineSize(a[1..], b[1..]);
    }
  }

  /** `remove_entities_from_habitation` over a forest: the children of a
      habitation node are first cleaned at every depth, then every child is
      visited in turn. The recursion is on the cleaned children, which have
      the shape of the original ones. */
  function HabitationForest(nodes: seq<Node>): (r: seq<Node>)
    ensures Outline(r) == Outline(nodes)
    decreases Size(nodes)
  {
    if nodes == [] then []
    else
      var n := nodes[0];
      var kids := if IsHabitation(n) then RemoveEntitiesForest(n.children) else n.children;
      OutlineSize(kids, n.children);
      var first := Node(n.tag, n.attrs, HabitationForest(kids));
      var rest := HabitationForest(nodes[1..]);
      var out := [first] + rest;
      assert out[0] == first && out[1..] == rest;
      out
  }

  /** A reference reading of the same edit: a node loses its `Entities`
      entries exactly when some ancestor is a habitation node (`below`). */
  function CleanBelow(nodes: seq<Node>, below: bool): (r: seq<Node>)
    ensures Outline(r) == Outline(nodes)
    ensures forall i :: 0 <= i < |r| ==> HabitationsClean(r[i])
    ensures below ==> forall i :: 0 <= i < |r| ==> EntitiesFree(r[i])
    ensures !below ==> forall i :: 0 <= i < |r| ==> r[i].attrs == nodes[i].attrs
    decreases nodes
  {
    if nodes == [] then []
    else
      var n := nodes[0];
      var attrs := if below then DropEntities(n.attrs) else n.attrs;
      var kids := CleanBelow(n.children, below || IsHabitation(n));
      var rest := CleanBelow(nodes[1..], below);
      CleanStep(nodes, below, attrs, kids, rest);
      [Node(n.tag, attrs, kids)] + rest
  }

  lemma CleanStep(nodes: seq<Node>, below: bool, attrs: seq<Attr>, kids: seq<Node>, rest: seq<Node>)
    requires nodes != []
    requires attrs == if below then DropEntities(nodes[0].attrs) else nodes[0].attrs
    requires Outline(kids) == Outline(nodes[0].children)
    requires forall i :: 0 <= i < |kids| ==> HabitationsClean(kids[i])
    requires below || IsHabitation(nodes[0]) ==> forall i :: 0 <= i < |kids| ==> EntitiesFree(kids[i])
    requires Outline(rest) == Outline(nodes[1..])
    requires forall i :: 0 <= i < |rest| ==> HabitationsClean(rest[i])
    requires below ==> forall i :: 0 <= i < |rest| ==> EntitiesFree(rest[i])
    requires !below ==> forall i :: 0 <= i < |rest| ==> rest[i].attrs == nodes[1..][i].attrs
    ensures var out := [Node(nodes[0].tag, attrs, kids)] + rest;
            && Outline(out) == Outline(nodes)
            && (forall i :: 0 <= i < |out| ==> HabitationsClean(out[i]))
            && (below ==> forall i :: 0 <= i < |out| ==> EntitiesFree(out[i]))
            && (!below ==> forall i :: 0 <= i < |out| ==> out[i].attrs == nodes[i].attrs)
  {
    var n, tail := nodes[0], nodes[1..];
    var first := Node(n.tag, attrs, kids);
    var out := [first] + rest;
    assert out[0] == first && out[1..] == rest;
    assert Outline(out) == [Node(n.tag, [], Outline(kids))] + Outline(rest);
    assert |rest| == |Outline(rest)| == |tail|;
    if below {
      forall i | 0 <= i < |attrs|
        ensures !IsEntitiesKey(attrs[i].0)
      {
        assert attrs[i] in attrs;
      }
    }
    forall i | 0 <= i < |out|
      ensures HabitationsClean(out[i])
      ensures below ==> EntitiesFree(out[i])
      ensures !below ==> out[i].attrs == nodes[i].attrs
    {
      if i > 0 {
        assert out[i] == rest[i - 1] && tail[i - 1] == nodes[i];
      }
    }
  }

  lemma {:induction false} CleanBelowOfCleaned(x: seq<Node>)
    ensures CleanBelow(RemoveEntitiesForest(x), true) == CleanBelow(x, true)
    decreases x
  {
    if x != [] {
      var n := x[0];
      FilterKeysIdempotent(n.attrs, k => !IsEntitiesKey(k));
      CleanBelowOfCleaned(n.children);
      CleanBelowOfCleaned(x[1..]);
      var c := RemoveEntitiesForest(x);
      assert c[0] == Node(n.tag, DropEntities(n.attrs), RemoveEntitiesForest(n.children));
      assert c[1..] == RemoveEntitiesForest(x[1..]);
    }
  }

  lemma {:induction false} CleanedIsBelow(x: seq<Node>)
    ensures CleanBelow(RemoveEntitiesForest(x), false) == CleanBelow(x, true)
    decreases x
  {
    if x != [] {
      var n := x[0];
      if IsHabitation(n) {
        CleanBelowOfCleaned(n.children);
      } else {
        CleanedIsBelow(n.children);
      }
      CleanedIsBelow(x[1..]);
      var c := RemoveEntitiesForest(x);
      assert c[0] == Node(n.tag, DropEntities(n.attrs), RemoveEntitiesForest(n.children));
      assert c[1..] == RemoveEntitiesForest(x[1..]);
    }
  }

  /** The edit as written agrees with the reference reading. */
  lemma {:induction false} HabitationIsCleanBelow(nodes: seq<Node>)
    ensures HabitationForest(nodes) == CleanBelow(nodes, false)
    decreases Size(nodes)
  {
    if nodes != [] {
      var n := nodes[0];
      var kids := if IsHabitation(n) then RemoveEntitiesForest(n.children) else n.children;
      OutlineSize(kids, n.children);
      HabitationIsCleanBelow(kids);
      if IsHabitation(n) {
        CleanedIsBelow(n.children);
      }
      HabitationIsCleanBelow(nodes[1..]);
    }
  }

  /** `remove_entities_from_habitation(node)`: the node's own attributes
      and the shape are kept, and at every depth nothing strictly below a
      habitation node has an `Entities` key. */
  function RemoveEntitiesFromHabitation(n: Node): (r: Node)
    ensures Outline([r]) == Outline([n])
    ensures r.attrs == n.attrs
    ensures HabitationsClean(r)
  {
    HabitationIsCleanBelow([n]);
    HabitationForest([n])[0]
  }

  /** Without a habitation node the edit changes nothing. */
  lemma {:induction false} NoHabitationUnchanged(nodes: seq<Node>, below: bool)
    requires !below && forall i :: 0 <= i < |nodes| ==> NoHabitation(nodes[i])
    ensures CleanBelow(nodes, below) == nodes
    decreases nodes
  {
    if nodes != [] {
      NoHabitationUnchanged(nodes[0].children, false);
      NoHabitationUnchanged(nodes[1..], false);
      assert nodes == [nodes[0]] + nodes[1..];
    }
  }

  lemma RemoveEntitiesFromHabitationIdentity(n: Node)
    requires NoHabitation(n)
    ensures RemoveEntitiesFromHabitation(n) == n
  {
    HabitationIsCleanBelow([n]);
    NoHabitationUnchanged([n], false);
  }

  /* ---------- update_shipai_layer_attribute ---------- */

  /** The index of the first child tagged `shipai`, if any. */
  function FirstShipAi(children: seq<Node>): (r: Option<nat>)
    ensures r.None? <==> forall k :: 0 <= k < |children| ==> !TagIs(children[k], "shipai")
    ensures r.Some? ==> r.value < |children| && TagIs(children[r.value], "shipai")
    ensures r.Some? ==> forall k :: 0 <= k < r.value ==> !TagIs(children[k], "shipai")
    decreases |children|
  {
    if children == [] then None
    else if TagIs(children[0], "shipai") then Some(0)
    else
      var r := FirstShipAi(children[1..]);
      if r.Some? then
        assert forall k :: 1 <= k <= r.value ==> children[k] == children[1..][k - 1];
        Some(r.value + 1)
      else
        assert forall k :: 1 <= k < |children| ==> children[k] == children[1..][k - 1];
        None
  }

  /** `update_shipai_layer_attribute(layer)`: when the layer has an `id`,
      its first `shipai` child gets `Layer` set to that id; nothing else
      changes, and without an id or a `shipai` child nothing changes at all. */
  function UpdateShipAiLayer(layer: Node): (r: Node)
    ensures r.tag == layer.tag && r.attrs == layer.attrs && |r.children| == |layer.children|
    ensures FirstValue(layer.attrs, "id").None? || FirstShipAi(layer.children).None? ==> r == layer
    ensures FirstValue(layer.attrs, "id").Some? && FirstShipAi(layer.children).Some? ==>
              var j := FirstShipAi(layer.children).value;
              && (forall k :: 0 <= k < |r.children| && k != j ==> r.children[k] == layer.children[k])
              && r.children[j].tag == layer.children[j].tag
              && r.children[j].children == layer.children[j].children
              && r.children[j].attrs == SetAttr(layer.children[j].attrs, "Layer", FirstValue(layer.attrs, "id").value)
              && FirstValue(r.children[j].attrs, "Layer") == FirstValue(layer.attrs, "id")
              && Keys(r.children[j].attrs) <= Keys(layer.children[j].attrs) + ["Layer"]
  {
    var id := FirstValue(layer.attrs, "id");
    var j := FirstShipAi(layer.children);
    if id.None? || j.None? then layer
    else
      var ai := layer.children[j.value];
      var attrs := SetAttr(ai.attrs, "Layer", id.value);
      SetLayerOfShipAi(ai.attrs, id.value);
      layer.(children := layer.children[j.value := ai.(attrs := attrs)])
  }

  /** A second update finds the same layer id and the same `shipai` child,
      whose `Layer` already reads that id, so it changes nothing. */
  lemma UpdateShipAiLayerIdempotent(layer: Node)
    ensures UpdateShipAiLayer(UpdateShipAiLayer(layer)) == UpdateShipAiLayer(layer)
  {
    var r := UpdateShipAiLayer(layer);
    var id := FirstValue(layer.attrs, "id");
    var j := FirstShipAi(layer.children);
    if id.Some? && j.Some? {
      SameShipAi(layer.children, r.children, j.value);
      SetAttrIdempotent(layer.children[j.value].attrs, "Layer", id.value);
      assert r.children[j.value := r.children[j.value]] == r.children;
    }
  }

  /** Changing one `shipai` child, keeping its tag, keeps it the first one. */
  lemma SameShipAi(a: seq<Node>, b: seq<Node>, j: nat)
    requires FirstShipAi(a) == Some(j) && |b| == |a| && b[j].tag == a[j].tag
    requires forall k :: 0 <= k < |a| && k != j ==> b[k] == a[k]
    ensures FirstShipAi(b) == Some(j)
  {
    assert forall k :: 0 <= k < j ==> !TagIs(b[k], "shipai");
    assert TagIs(b[j], "shipai");
    FirstShipAiUnique(b, j);
  }

  lemma {:induction false} FirstShipAiUnique(b: seq<Node>, j: nat)
    requires j < |b| && TagIs(b[j], "shipai")
    requires forall k :: 0 <= k < j ==> !TagIs(b[k], "shipai")
    ensures FirstShipAi(b) == Some(j)
    decreases j
  {
    if j > 0 {
      FirstShipAiUnique(b[1..], j - 1);
    }
  }

  lemma SetLayerOfShipAi(attrs: seq<Attr>, id: string)
    ensures FirstValue(SetAttr(attrs, "Layer", id), "Layer") == Some(id)
    ensures Keys(SetAttr(attrs, "Layer", id)) <= Keys(attrs) + ["Layer"]
  {
    SetAttrThenGet(attrs, "Layer", id);
    SetAttrKeys(attrs, "Layer", id);
  }

  /* ---------- calc_offset ---------- */

  /** `calc_offset(n)`: 0, 100, -100, 200, -200, ... for n = 0, 1, 2, ... */
  function CalcOffset(n: nat): (r: int)
    ensures r % 100 == 0 && OffsetIndex(r / 100) == n
  {
    if n == 0 then 0
    else if n % 2 == 1 then
      Hundreds((n + 1) / 2);
      ((n + 1) / 2) * 100
    else
      Hundreds(-(n / 2));
      -(n / 2) * 100
  }

  lemma Hundreds(j: int)
    ensures (j * 100) % 100 == 0 && (j * 100) / 100 == j
  {
  }

  /** The position of the multiple `100 * j` in that sequence. */
  function OffsetIndex(j: int): nat {
    if j > 0 then 2 * j - 1 else -2 * j
  }

  /** The offsets are exactly the multiples of 100, each reached once:
      `OffsetIndex` inverts `CalcOffset`. */
  lemma OffsetRoundTrip(n: nat, j: int)
    ensures CalcOffset(n) % 100 == 0 && OffsetIndex(CalcOffset(n) / 100) == n
    ensures CalcOffset(OffsetIndex(j)) == 100 * j
  {
  }

  /** Successive offsets alternate sides and never come closer to the origin. */
  lemma OffsetAlternates(n: nat)
    ensures n > 0 ==> (CalcOffset(n) > 0 <==> n % 2 == 1)
    ensures Abs(CalcOffset(n)) <= Abs(CalcOffset(n + 1))
    ensures Abs(CalcOffset(n)) == 100 * ((n + 1) / 2)
  {
  }

  function Abs(x: int): nat {
    if x < 0 then -x else x
  }
}
