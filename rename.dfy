/**
 * rename(name): a new element takes the place of the current element, with its
 * attributes set one by one from the old map and its children moved over in order.
 */
module Renames {
  import opened Wrappers
  import opened Trees
  import opened Dom
  import opened Edits

  /** The attribute-copy loop: setAttribute of each pair, in map order. */
  function PutAll(ps: Pairs, qs: Pairs): Pairs
    decreases |qs|
  {
    if qs == [] then ps else PutAll(Put(ps, qs[0].0, qs[0].1), qs[1..])
  }

  /** Setting names that sort after all the present ones appends them: the copy of a DOM map is the same map. */
  lemma {:induction false} PutAllSorted(ps: Pairs, qs: Pairs)
    requires SortedNames(ps + qs)
    ensures PutAll(ps, qs) == ps + qs
    decreases |qs|
  {
    if qs != [] {
      var all := ps + qs;
      forall j | 0 <= j < |ps| ensures NameLess(ps[j].0, qs[0].0) && ps[j].0 != qs[0].0 {
        assert all[j] == ps[j] && all[|ps|] == qs[0];
        NameLessIrreflexive(ps[j].0);
      }
      assert FirstNamed(ps, qs[0].0).None?;
      assert NamePoint(ps, qs[0].0) == |ps|;
      assert Put(ps, qs[0].0, qs[0].1) == ps + [qs[0]];
      assert (ps + [qs[0]]) + qs[1..] == all;
      PutAllSorted(ps + [qs[0]], qs[1..]);
    }
  }

  /** A node outside e's attribute map stays outside it when one attribute of e is set. */
  lemma AttrFrameStep(s: Store, t: Store, e: NodeId)
    requires Wf(s) && Wf(t) && e in s.nodes && e in t.nodes
    requires forall y :: y in s.nodes && y != e && y !in s.nodes[e].attrs ==> y in t.nodes && t.nodes[y] == s.nodes[y]
    ensures forall y :: y in s.nodes && y != e && y !in s.nodes[e].attrs ==> t.nodes[y] == s.nodes[y] && y !in t.nodes[e].attrs
  {
    assert NodeWf(t, e);
    forall y | y in s.nodes && y != e && y !in s.nodes[e].attrs ensures y !in t.nodes[e].attrs {
      assert NodeWf(s, y);
    }
  }

  /** setAttribute of every pair of qs on e, in order. */
  function CopyAttrs(s: Store, e: NodeId, qs: Pairs): (r: Store)
    requires Wf(s) && e in s.nodes && s.nodes[e].kind == ElementNode
    ensures Wf(r) && s.nodes.Keys <= r.nodes.Keys && s.next <= r.next
    ensures r.nodes[e] == s.nodes[e].(attrs := r.nodes[e].attrs)
    ensures AttrPairs(r, e) == PutAll(AttrPairs(s, e), qs)
    ensures KeepsFrom(s, r, s.nodes[e].rank + 1)
    ensures forall y :: y in s.nodes && y != e && y !in s.nodes[e].attrs ==> r.nodes[y] == s.nodes[y]
    decreases |qs|
  {
    if qs == [] then s
    else
      var t := SetAttr(s, e, qs[0].0, qs[0].1);
      AttrFrameStep(s, t, e);
      var r := CopyAttrs(t, e, qs[1..]);
      CopyCompose(s, e, t, r);
      r
  }

  /** Frames compose across the setAttribute steps of the copy loop. */
  lemma CopyCompose(s: Store, e: NodeId, t: Store, r: Store)
    requires e in s.nodes && e in t.nodes && e in r.nodes && s.nodes.Keys <= t.nodes.Keys && t.nodes.Keys <= r.nodes.Keys
    requires t.nodes[e] == s.nodes[e].(attrs := t.nodes[e].attrs) && r.nodes[e] == t.nodes[e].(attrs := r.nodes[e].attrs)
    requires KeepsFrom(s, t, s.nodes[e].rank + 1) && KeepsFrom(t, r, t.nodes[e].rank + 1)
    requires forall y :: y in s.nodes && y != e && y !in s.nodes[e].attrs ==> t.nodes[y] == s.nodes[y] && y !in t.nodes[e].attrs
    requires forall y :: y in t.nodes && y != e && y !in t.nodes[e].attrs ==> r.nodes[y] == t.nodes[y]
    ensures r.nodes[e] == s.nodes[e].(attrs := r.nodes[e].attrs)
    ensures KeepsFrom(s, r, s.nodes[e].rank + 1)
    ensures forall y :: y in s.nodes && y != e && y !in s.nodes[e].attrs ==> r.nodes[y] == s.nodes[y]
  {
  }

  /** The child-move loop: e.appendChild(c) takes each child c of x away from x, in order. */
  function MoveChildren(s: Store, x: NodeId, e: NodeId): (r: Store)
    requires Wf(s) && x in s.nodes && e in s.nodes && x != e
    requires s.nodes[e].kind == ElementNode && s.nodes[e].parent == None && s.nodes[e].rank == s.nodes[x].rank
    ensures Wf(r) && r.nodes.Keys == s.nodes.Keys && r.next == s.next
    ensures r.nodes[x] == s.nodes[x].(children := [])
    ensures r.nodes[e] == s.nodes[e].(children := s.nodes[e].children + s.nodes[x].children)
    ensures forall y :: y in s.nodes && y != x && y != e ==> Shape(r.nodes[y]) == Shape(s.nodes[y])
    ensures forall y :: y in s.nodes && y != x && y != e && y !in s.nodes[x].children ==> r.nodes[y] == s.nodes[y]
    decreases |s.nodes[x].children|
  {
    var cs := s.nodes[x].children;
    if cs == [] then
      assert s.nodes[e].children + [] == s.nodes[e].children;
      s
    else
      assert NodeWf(s, x);
      DetachedUnlisted(s, e);
      WithoutAt(cs, 0);
      var u := Unlink(s, x, cs[0]);
      var t := Link(u, e, cs[0], |u.nodes[e].children|);
      MoveStep(s, x, e, cs[0], u, t);
      assert cs[0] in cs;
      var r := MoveChildren(t, x, e);
      MoveCompose(s, x, e, cs[0], t, r);
      MoveShapes(s, x, e, cs[0], t, r);
      MoveFrame(s, x, e, cs[0], t, r);
      r
  }

  /** One move: x loses its first child c and e gains it at the end. */
  lemma MoveStep(s: Store, x: NodeId, e: NodeId, c: NodeId, u: Store, t: Store)
    requires Wf(s) && x in s.nodes && e in s.nodes && x != e && s.nodes[x].children != [] && c == s.nodes[x].children[0]
    requires c in s.nodes && e != c && Without(s.nodes[x].children, c) == s.nodes[x].children[1..]
    requires u.nodes.Keys == s.nodes.Keys
    requires u.nodes[x] == s.nodes[x].(children := Without(s.nodes[x].children, c))
    requires u.nodes[c] == s.nodes[c].(parent := None)
    requires forall y :: y in s.nodes && y != x && y != c ==> u.nodes[y] == s.nodes[y]
    requires t.nodes.Keys == u.nodes.Keys
    requires t.nodes[e] == u.nodes[e].(children := Insert(u.nodes[e].children, |u.nodes[e].children|, c))
    requires t.nodes[c] == u.nodes[c].(parent := Some(e))
    requires forall y :: y in u.nodes && y != e && y != c ==> t.nodes[y] == u.nodes[y]
    ensures t.nodes[x] == s.nodes[x].(children := s.nodes[x].children[1..])
    ensures t.nodes[e] == s.nodes[e].(children := s.nodes[e].children + [c])
    ensures Shape(t.nodes[c]) == Shape(s.nodes[c])
    ensures forall y :: y in s.nodes && y != x && y != e && y != c ==> t.nodes[y] == s.nodes[y]
  {
    var ecs := s.nodes[e].children;
    assert Insert(ecs, |ecs|, c) == ecs + [c];
  }

  /** The first move composes with the moves of the remaining children. */
  lemma MoveCompose(s: Store, x: NodeId, e: NodeId, c: NodeId, t: Store, r: Store)
    requires x in s.nodes && e in s.nodes && s.nodes[x].children != [] && c == s.nodes[x].children[0]
    requires x in t.nodes && e in t.nodes && x in r.nodes && e in r.nodes
    requires t.nodes[x] == s.nodes[x].(children := s.nodes[x].children[1..])
    requires t.nodes[e] == s.nodes[e].(children := s.nodes[e].children + [c])
    requires r.nodes[x] == t.nodes[x].(children := [])
    requires r.nodes[e] == t.nodes[e].(children := t.nodes[e].children + t.nodes[x].children)
    ensures r.nodes[x] == s.nodes[x].(children := [])
    ensures r.nodes[e] == s.nodes[e].(children := s.nodes[e].children + s.nodes[x].children)
  {
    var cs := s.nodes[x].children;
    assert s.nodes[e].children + [c] + cs[1..] == s.nodes[e].children + cs;
  }

  lemma MoveShapes(s: Store, x: NodeId, e: NodeId, c: NodeId, t: Store, r: Store)
    requires t.nodes.Keys == s.nodes.Keys && r.nodes.Keys == t.nodes.Keys && c in s.nodes && c != x && c != e
    requires Shape(t.nodes[c]) == Shape(s.nodes[c])
    requires forall y :: y in s.nodes && y != x && y != e && y != c ==> t.nodes[y] == s.nodes[y]
    requires forall y :: y in t.nodes && y != x && y != e ==> Shape(r.nodes[y]) == Shape(t.nodes[y])
    ensures forall y :: y in s.nodes && y != x && y != e ==> Shape(r.nodes[y]) == Shape(s.nodes[y])
  {
    forall y | y in s.nodes && y != x && y != e ensures Shape(r.nodes[y]) == Shape(s.nodes[y]) {
      if y != c { assert t.nodes[y] == s.nodes[y]; }
    }
  }

  lemma MoveFrame(s: Store, x: NodeId, e: NodeId, c: NodeId, t: Store, r: Store)
    requires x in s.nodes && s.nodes[x].children != [] && c == s.nodes[x].children[0]
    requires t.nodes.Keys == s.nodes.Keys && r.nodes.Keys == t.nodes.Keys && x in t.nodes
    requires t.nodes[x].children == s.nodes[x].children[1..]
    requires forall y :: y in s.nodes && y != x && y != e && y != c ==> t.nodes[y] == s.nodes[y]
    requires forall y :: y in t.nodes && y != x && y != e && y !in t.nodes[x].children ==> r.nodes[y] == t.nodes[y]
    ensures forall y :: y in s.nodes && y != x && y != e && y !in s.nodes[x].children ==> r.nodes[y] == s.nodes[y]
  {
    var cs := s.nodes[x].children;
    forall y | y in s.nodes && y != x && y != e && y !in cs ensures r.nodes[y] == s.nodes[y] {
      assert y !in cs[1..];
      assert t.nodes[y] == s.nodes[y];
    }
  }

  /** The copy loop gives e the attribute subtrees of the copied map and changes nothing else in its subtree. */
  lemma CopyAttrsTree(s: Store, e: NodeId, qs: Pairs)
    requires Wf(s) && e in s.nodes && s.nodes[e].kind == ElementNode
    ensures ToTree(CopyAttrs(s, e, qs), e) == ToTree(s, e).(attrs := AttrLeaves(PutAll(AttrPairs(s, e), qs)))
  {
    AttrListEdit(s, CopyAttrs(s, e, qs), e);
  }

  /** Everything from x's rank down keeps its shape through the move loop. */
  lemma MoveKeeps(s: Store, x: NodeId, e: NodeId)
    requires Wf(s) && x in s.nodes && e in s.nodes && x != e
    requires s.nodes[e].kind == ElementNode && s.nodes[e].parent == None && s.nodes[e].rank == s.nodes[x].rank
    ensures KeepsFrom(s, MoveChildren(s, x, e), s.nodes[x].rank + 1)
  {
  }

  /** The move loop hands x's subtrees to e, after e's own. */
  lemma MoveChildrenTree(s: Store, x: NodeId, e: NodeId)
    requires Wf(s) && x in s.nodes && e in s.nodes && x != e
    requires s.nodes[e].kind == ElementNode && s.nodes[e].parent == None && s.nodes[e].rank == s.nodes[x].rank
    ensures ToTree(MoveChildren(s, x, e), e) == ToTree(s, e).(children := ToTree(s, e).children + ToTree(s, x).children)
  {
    var r := MoveChildren(s, x, e);
    var lo := s.nodes[x].rank + 1;
    MoveKeeps(s, x, e);
    assert NodeWf(s, x);
    assert NodeWf(s, e);
    ChildListEdit(s, r, e);
    TreesKept(s, r, s.nodes[x].children, lo);
    TreesKept(s, r, s.nodes[e].children, lo);
    TreesOfAppend(r, s.nodes[e].children, s.nodes[x].children);
    ToTreeParts(s, e);
    ToTreeParts(s, x);
  }

  /** ... and leaves x with no subtrees below it. */
  lemma MoveEmptiesTree(s: Store, x: NodeId, e: NodeId)
    requires Wf(s) && x in s.nodes && e in s.nodes && x != e
    requires s.nodes[e].kind == ElementNode && s.nodes[e].parent == None && s.nodes[e].rank == s.nodes[x].rank
    ensures ToTree(MoveChildren(s, x, e), x) == ToTree(s, x).(children := [])
  {
    var r := MoveChildren(s, x, e);
    MoveKeeps(s, x, e);
    ChildListEdit(s, r, x);
  }

  /**
   * rename(name) of an element x that has a parent q: a new element named `name`
   * takes x's position in q's child list; x is left detached and without children;
   * every other node keeps its data apart from the parent link of x's former children.
   */
  function Rename(s: Store, x: NodeId, name: string): (r: (Store, NodeId))
    requires Wf(s) && x in s.nodes && s.nodes[x].kind == ElementNode && ParentNode(s, x).Some?
    ensures Wf(r.0) && r.1 == s.next && r.1 !in s.nodes && s.nodes.Keys <= r.0.nodes.Keys && r.1 in r.0.nodes
    ensures var q := ParentNode(s, x).value; var cs := s.nodes[q].children;
      q in r.0.nodes && r.0.nodes[q] == s.nodes[q].(children := cs[IndexOf(cs, x) := r.1]) &&
      r.0.nodes[r.1].parent == Some(q) && r.0.nodes[r.1].kind == ElementNode && r.0.nodes[r.1].name == name
    ensures r.0.nodes[x] == s.nodes[x].(children := [], parent := None)
    ensures forall y :: y in s.nodes && y != x && y != ParentNode(s, x).value ==> Shape(r.0.nodes[y]) == Shape(s.nodes[y])
  {
    var s3 := Staged(s, x, name);
    var s4 := ReplaceChild(s3, x, s.next);
    RenameFinal(s, x, ParentNode(s, x).value, s.next, s3, s4);
    (s4, s.next)
  }

  /** The first two steps of rename: allocate the new element and copy x's attributes onto it. */
  function NewElement(s: Store, x: NodeId, name: string): (r: Store)
    requires Wf(s) && x in s.nodes && s.nodes[x].kind == ElementNode
    ensures Wf(r) && s.next !in s.nodes && s.next in r.nodes && s.nodes.Keys <= r.nodes.Keys
    ensures r.nodes[s.next] == NodeData(ElementNode, name, "", [], r.nodes[s.next].attrs, None, s.nodes[x].rank)
    ensures AttrPairs(r, s.next) == PutAll([], AttrPairs(s, x))
    ensures forall y :: y in s.nodes ==> r.nodes[y] == s.nodes[y]
  {
    assert NodeWf(s, x);
    var a := Alloc(s, ElementNode, name, "", s.nodes[x].rank);
    assert a.0.nodes[a.1].attrs == [];
    CopyAttrs(a.0, a.1, AttrPairs(s, x))
  }

  /** The first three steps of rename: the new element, then x's children moved below it. */
  function Staged(s: Store, x: NodeId, name: string): (r: Store)
    requires Wf(s) && x in s.nodes && s.nodes[x].kind == ElementNode && ParentNode(s, x).Some?
    ensures Wf(r) && s.nodes.Keys <= r.nodes.Keys && s.next !in s.nodes && s.next in r.nodes
    ensures x in r.nodes && ParentNode(r, x) == ParentNode(s, x) && CanLink(r, ParentNode(s, x).value, s.next)
    ensures var q := ParentNode(s, x).value; r.nodes[q] == s.nodes[q]
    ensures r.nodes[x] == s.nodes[x].(children := []) && r.nodes[s.next].name == name && r.nodes[s.next].kind == ElementNode
    ensures forall y :: y in s.nodes && y != x ==> Shape(r.nodes[y]) == Shape(s.nodes[y])
  {
    var s2 := NewElement(s, x, name);
    var s3 := MoveChildren(s2, x, s.next);
    RenameStaged(s, x, s.next, name, s2, s3);
    s3
  }

  /** After the first two steps the new element is a leaf with x's attributes, and x's subtree is untouched. */
  lemma NewElementTree(s: Store, x: NodeId, name: string)
    requires Wf(s) && x in s.nodes && s.nodes[x].kind == ElementNode
    ensures var s2 := NewElement(s, x, name);
      ToTree(s2, s.next) == Tree(ElementNode, name, "", AttrLeaves(PutAll([], AttrPairs(s, x))), []) &&
      ToTree(s2, x) == ToTree(s, x)
  {
    var e := s.next;
    var s2 := NewElement(s, x, name);
    ToTreeParts(s2, e);
    AttrTrees(s2, e);
    ToTreeFrame(s, s2, x);
  }

  /** After the move, the new element holds x's children below x's attributes. */
  lemma StagedTree(s: Store, x: NodeId, name: string)
    requires Wf(s) && x in s.nodes && s.nodes[x].kind == ElementNode && ParentNode(s, x).Some?
    ensures ToTree(Staged(s, x, name), s.next) ==
      Tree(ElementNode, name, "", AttrLeaves(PutAll([], AttrPairs(s, x))), ToTree(s, x).children)
  {
    NewElementTree(s, x, name);
    MovedLeafTree(NewElement(s, x, name), x, s.next);
  }

  /** Moving x's children below a childless e gives e exactly x's subtrees. */
  lemma MovedLeafTree(s: Store, x: NodeId, e: NodeId)
    requires Wf(s) && x in s.nodes && e in s.nodes && x != e
    requires s.nodes[e].kind == ElementNode && s.nodes[e].parent == None && s.nodes[e].rank == s.nodes[x].rank
    requires ToTree(s, e).children == []
    ensures ToTree(MoveChildren(s, x, e), e) == ToTree(s, e).(children := ToTree(s, x).children)
  {
    MoveChildrenTree(s, x, e);
    assert [] + ToTree(s, x).children == ToTree(s, x).children;
  }

  /**
   * The element that takes x's place carries x's whole subtree under the new name:
   * x's attributes re-set one by one in order, and x's children in their order.
   */
  lemma RenameTree(s: Store, x: NodeId, name: string)
    requires Wf(s) && x in s.nodes && s.nodes[x].kind == ElementNode && ParentNode(s, x).Some?
    ensures var r := Rename(s, x, name);
      ToTree(r.0, r.1) == ToTree(s, x).(name := name, value := "", attrs := AttrLeaves(PutAll([], AttrPairs(s, x))))
  {
    var s3 := Staged(s, x, name);
    ReplacementTree(s3, x, s.next);
    StagedTree(s, x, name);
    ToTreeParts(s, x);
  }

  /** replaceChild relinks the replacement's parent only, so its subtree is unchanged. */
  lemma ReplacementTree(s: Store, prev: NodeId, repl: NodeId)
    requires Wf(s) && prev in s.nodes && ParentNode(s, prev).Some? && CanLink(s, ParentNode(s, prev).value, repl)
    ensures ToTree(ReplaceChild(s, prev, repl), repl) == ToTree(s, repl)
  {
    var r := ReplaceChild(s, prev, repl);
    var q := ParentNode(s, prev).value;
    assert NodeWf(s, prev);
    KeepsBelow(s, r, q, s.nodes[repl].rank);
    ToTreeFrame(s, r, repl);
  }

  /** When x's attribute map is in name order (as in any DOM element), only the name changes. */
  lemma RenameTreeSorted(s: Store, x: NodeId, name: string)
    requires Wf(s) && x in s.nodes && s.nodes[x].kind == ElementNode && ParentNode(s, x).Some?
    requires SortedNames(AttrPairs(s, x))
    ensures var r := Rename(s, x, name); ToTree(r.0, r.1) == ToTree(s, x).(name := name, value := "")
  {
    var ps := AttrPairs(s, x);
    assert [] + ps == ps;
    PutAllSorted([], ps);
    assert PutAll([], ps) == ps;
    AttrTrees(s, x);
    assert AttrLeaves(PutAll([], ps)) == ToTree(s, x).attrs;
    RenameTree(s, x, name);
    var r := Rename(s, x, name);
    RenamedKeepsAttrs(ToTree(s, x), ToTree(r.0, r.1), name, AttrLeaves(PutAll([], ps)));
  }

  /** A renamed tree whose new attribute list equals the old one differs only in name and value. */
  lemma RenamedKeepsAttrs(t: Tree, u: Tree, name: string, attrs: seq<Tree>)
    requires u == t.(name := name, value := "", attrs := attrs) && attrs == t.attrs
    ensures u == t.(name := name, value := "")
  {
  }

  /** Before the replaceChild: x still hangs below q and the new element may take its place. */
  lemma RenameStaged(s: Store, x: NodeId, e: NodeId, name: string, s2: Store, s3: Store)
    requires Wf(s) && x in s.nodes && s.nodes[x].kind == ElementNode && ParentNode(s, x).Some?
    requires Wf(s2) && e !in s.nodes && e in s2.nodes && s.nodes.Keys <= s2.nodes.Keys
    requires s2.nodes[e] == NodeData(ElementNode, name, "", [], s2.nodes[e].attrs, None, s.nodes[x].rank)
    requires forall y :: y in s.nodes ==> s2.nodes[y] == s.nodes[y]
    requires Wf(s3) && s3.nodes.Keys == s2.nodes.Keys && x != e
    requires s3.nodes[x] == s2.nodes[x].(children := [])
    requires s3.nodes[e] == s2.nodes[e].(children := s2.nodes[e].children + s2.nodes[x].children)
    requires forall y :: y in s2.nodes && y != x && y != e ==> Shape(s3.nodes[y]) == Shape(s2.nodes[y])
    requires forall y :: y in s2.nodes && y != x && y != e && y !in s2.nodes[x].children ==> s3.nodes[y] == s2.nodes[y]
    ensures x in s3.nodes && ParentNode(s3, x) == ParentNode(s, x) && CanLink(s3, ParentNode(s, x).value, e)
    ensures var q := ParentNode(s, x).value; s3.nodes[q] == s.nodes[q]
    ensures s3.nodes[x] == s.nodes[x].(children := []) && s3.nodes[e].name == name && s3.nodes[e].kind == ElementNode
    ensures forall y :: y in s.nodes && y != x ==> Shape(s3.nodes[y]) == Shape(s.nodes[y])
  {
    var q := ParentNode(s, x).value;
    assert NodeWf(s, x);
    assert NodeWf(s, q);
    assert q !in s.nodes[x].children;
    assert s3.nodes[q] == s.nodes[q];
  }

  lemma RenameFinal(s: Store, x: NodeId, q: NodeId, e: NodeId, s3: Store, s4: Store)
    requires Wf(s) && x in s.nodes && q in s.nodes && e !in s.nodes && x != q
    requires Wf(s3) && x in s3.nodes && ParentNode(s3, x) == Some(q) && CanLink(s3, q, e) && s3.nodes[q] == s.nodes[q]
    requires s3.nodes[x] == s.nodes[x].(children := []) && s.nodes.Keys <= s3.nodes.Keys
    requires forall y :: y in s.nodes && y != x ==> Shape(s3.nodes[y]) == Shape(s.nodes[y])
    requires s4 == ReplaceChild(s3, x, e)
    ensures s4.nodes[q] == s.nodes[q].(children := s.nodes[q].children[IndexOf(s.nodes[q].children, x) := e])
    ensures s4.nodes[e].parent == Some(q) && s4.nodes[e].kind == s3.nodes[e].kind && s4.nodes[e].name == s3.nodes[e].name
    ensures s4.nodes[x] == s.nodes[x].(children := [], parent := None)
    ensures forall y :: y in s.nodes && y != x && y != q ==> Shape(s4.nodes[y]) == Shape(s.nodes[y])
  {
  }
}
