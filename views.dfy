/**
 * Store-level views the cursor is built from: fresh and cloned documents, the
 * document element, the text a cursor reads (getNodeText, asText), ancestry along
 * parent links (what end() climbs), and the removal of a whole selection.
 */
module Views {
  import opened Wrappers
  import opened Trees
  import opened Dom
  import opened Edits

  // ---------------------------------------------------------------- documents

  /** The id of the Document node in every store the model creates. */
  const DocNode: NodeId := 0

  /** A Document node that has no children yet, as getNewDocument returns it. */
  function EmptyDocument(): (s: Store)
    ensures Wf(s) && s.next == 1
    ensures s.nodes == map[DocNode := NodeData(DocumentNode, "#document", "", [], [], None, 0)]
  {
    Alloc(Store(map[], 0), DocumentNode, "#document", "", 0).0
  }

  /** new XDoc(tag): a new document whose only child is the element `tag`. */
  function NewDocument(tag: string): (s: Store)
    ensures Wf(s) && s.nodes.Keys == {DocNode, 1} && s.next == 2
    ensures s.nodes[DocNode] == NodeData(DocumentNode, "#document", "", [1], [], None, 0)
    ensures s.nodes[1] == NodeData(ElementNode, tag, "", [], [], Some(DocNode), 1)
  {
    AppendNew(EmptyDocument(), DocNode, ElementNode, tag, "").0
  }

  /** The new document holds exactly one empty element named tag. */
  lemma NewDocumentTree(tag: string)
    ensures ToTree(NewDocument(tag), 1) == Tree(ElementNode, tag, "", [], [])
    ensures ToTree(NewDocument(tag), DocNode) ==
      Tree(DocumentNode, "#document", "", [], [Tree(ElementNode, tag, "", [], [])])
  {
    LeafTree(EmptyDocument(), DocNode);
    AppendNewTree(EmptyDocument(), DocNode, ElementNode, tag, "");
    LeafTree(NewDocument(tag), 1);
  }

  /** clone() of an element root: a new document whose element is a deep copy of x. */
  function CloneDocument(s: Store, x: NodeId): (r: Store)
    requires Wf(s) && x in s.nodes && s.nodes[x].kind == ElementNode
    ensures Wf(r) && DocNode in r.nodes && 1 in r.nodes
    ensures r.nodes[DocNode].kind == DocumentNode && r.nodes[DocNode].children == [1]
    ensures r.nodes[1].kind == ElementNode && r.nodes[1].parent == Some(DocNode)
  {
    var m := Import(EmptyDocument(), s, x, 1);
    Link(m.0, DocNode, m.1, 0)
  }

  /** The copy is equal, as a tree, to the subtree it was taken from. */
  lemma CloneDocumentTree(s: Store, x: NodeId)
    requires Wf(s) && x in s.nodes && s.nodes[x].kind == ElementNode
    ensures ToTree(CloneDocument(s, x), 1) == ToTree(s, x)
    ensures CompareNode(ToTree(CloneDocument(s, x), 1), ToTree(s, x))
  {
    var m := Import(EmptyDocument(), s, x, 1);
    var r := Link(m.0, DocNode, m.1, 0);
    LinkKeeps(m.0, DocNode, m.1, 0);
    ToTreeFrame(m.0, r, 1);
    CompareNodeReflexive(ToTree(s, x));
  }

  /** getDocumentElement: the first element among the document node's children. */
  function FirstElement(s: Store, xs: seq<NodeId>): (r: Option<NodeId>)
    ensures r.Some? ==> r.value in xs && r.value in s.nodes && s.nodes[r.value].kind == ElementNode
    ensures r.None? ==> forall x :: x in xs && x in s.nodes ==> s.nodes[x].kind != ElementNode
    ensures r.Some? ==> forall x :: x in xs[..IndexOf(xs, r.value)] && x in s.nodes ==> s.nodes[x].kind != ElementNode
  {
    if xs == [] then None
    else if xs[0] in s.nodes && s.nodes[xs[0]].kind == ElementNode then Some(xs[0])
    else
      var r := FirstElement(s, xs[1..]);
      if r.Some? then
        assert xs[..IndexOf(xs, r.value)] == [xs[0]] + xs[1..][..IndexOf(xs[1..], r.value)];
        r
      else r
  }

  /** A node of Document kind never has a parent: a child list only holds child kinds. */
  lemma DocumentHasNoParent(s: Store, d: NodeId)
    requires Wf(s) && d in s.nodes && s.nodes[d].kind == DocumentNode
    ensures s.nodes[d].parent == None
  {
    forall q | q in s.nodes ensures d !in s.nodes[q].children {
      assert NodeWf(s, q);
    }
    assert NodeWf(s, d);
  }

  // ---------------------------------------------------------------- text

  /** getNodeText: the value of a text, CDATA or attribute node; null for any other kind. */
  function NodeText(s: Store, x: NodeId): Option<string>
    requires x in s.nodes
  {
    if IsTextual(s.nodes[x].kind) then Some(s.nodes[x].value) else None
  }

  /** The texts of xs concatenated up to (not including) the first node that has none. */
  function LeadingText(s: Store, xs: seq<NodeId>): string
    requires forall x :: x in xs ==> x in s.nodes
  {
    if xs == [] || NodeText(s, xs[0]).None? then ""
    else NodeText(s, xs[0]).value + LeadingText(s, xs[1..])
  }

  /** asText's loop: the texts of the leading text nodes of xs, concatenated. */
  method LeadingLoop(s: Store, cs: seq<NodeId>) returns (acc: string)
    requires forall x :: x in cs ==> x in s.nodes
    ensures acc == LeadingText(s, cs)
  {
    acc := "";
    var i := 0;
    while i < |cs|
      invariant 0 <= i <= |cs|
      invariant acc + LeadingText(s, cs[i..]) == LeadingText(s, cs)
    {
      var t := NodeText(s, cs[i]);
      if t.None? {
        assert cs[i..][0] == cs[i];
        break;
      }
      assert cs[i..][1..] == cs[i + 1..];
      acc := acc + t.value;
      i := i + 1;
    }
    assert LeadingText(s, cs[i..]) == "";
  }

  /**
   * asText of a non-empty cursor standing on x: an element reads "" without
   * children, its only child's text, or the texts of its leading text children;
   * any other node reads its own text.
   */
  function AsText(s: Store, x: NodeId): Option<string>
    requires Wf(s) && x in s.nodes
  {
    var n := s.nodes[x];
    assert NodeWf(s, x);
    if n.kind == ElementNode then
      if n.children == [] then Some("")
      else if |n.children| == 1 then NodeText(s, n.children[0])
      else Some(LeadingText(s, n.children))
    else NodeText(s, x)
  }

  /** The same reading, defined on a subtree value. */
  function TreeText(t: Tree): Option<string> {
    if IsTextual(t.kind) then Some(t.value) else None
  }

  function TreesText(ts: seq<Tree>): string {
    if ts == [] || TreeText(ts[0]).None? then "" else TreeText(ts[0]).value + TreesText(ts[1..])
  }

  function TreeAsText(t: Tree): Option<string> {
    if t.kind == ElementNode then
      if t.children == [] then Some("")
      else if |t.children| == 1 then TreeText(t.children[0])
      else Some(TreesText(t.children))
    else TreeText(t)
  }

  lemma {:induction false} LeadingTextTrees(s: Store, xs: seq<NodeId>)
    requires Wf(s) && forall x :: x in xs ==> x in s.nodes
    ensures LeadingText(s, xs) == TreesText(TreesOf(s, xs))
  {
    if xs != [] {
      ToTreeParts(s, xs[0]);
      assert TreesOf(s, xs)[1..] == TreesOf(s, xs[1..]);
      assert forall x :: x in xs[1..] ==> x in xs;
      LeadingTextTrees(s, xs[1..]);
    }
  }

  /** asText reads only the subtree value of the node the cursor stands on. */
  lemma AsTextOfTree(s: Store, x: NodeId)
    requires Wf(s) && x in s.nodes
    ensures AsText(s, x) == TreeAsText(ToTree(s, x))
  {
    ToTreeParts(s, x);
    var cs := s.nodes[x].children;
    if |cs| == 1 {
      assert cs[0] in cs;
      ToTreeParts(s, cs[0]);
    }
    LeadingTextTrees(s, cs);
  }

  /** The leading-text walk stops at the first child that is not text. */
  lemma {:induction false} TreesTextStops(pre: seq<Tree>, t: Tree, post: seq<Tree>)
    requires forall u :: u in pre ==> IsTextual(u.kind)
    requires !IsTextual(t.kind)
    ensures TreesText(pre + [t] + post) == TreesText(pre + [t])
  {
    if pre == [] {
    } else {
      assert (pre + [t] + post)[1..] == pre[1..] + [t] + post;
      assert (pre + [t])[1..] == pre[1..] + [t];
      assert forall u :: u in pre[1..] ==> u in pre;
      TreesTextStops(pre[1..], t, post);
    }
  }

  /** Two subtrees that compareNode finds equal read the same text. */
  lemma EqualTreesReadAlike(a: Tree, b: Tree)
    requires CompareNode(a, b)
    ensures TreeAsText(a) == TreeAsText(b)
  {
    CompareNodeIsNormalEquality(a, b);
    if a.kind == ElementNode {
      assert |a.children| == |NormalList(a.children)| == |NormalList(b.children)| == |b.children|;
      NormalTreesText(a.children, b.children);
      if |a.children| == 1 {
        assert Normal(a.children[0]) == Normal(b.children[0]);
      }
    }
  }

  lemma {:induction false} NormalTreesText(xs: seq<Tree>, ys: seq<Tree>)
    requires NormalList(xs) == NormalList(ys)
    ensures TreesText(xs) == TreesText(ys)
  {
    if xs != [] {
      assert |ys| == |xs|;
      assert Normal(xs[0]) == NormalList(xs)[0] == NormalList(ys)[0] == Normal(ys[0]);
      assert NormalList(xs[1..]) == NormalList(xs)[1..] == NormalList(ys)[1..] == NormalList(ys[1..]);
      NormalTreesText(xs[1..], ys[1..]);
    }
  }

  // ---------------------------------------------------------------- climbing with end()

  /** A height that every step of end() lowers: 0 for a Document node, rank + 1 otherwise. */
  function Height(s: Store, x: NodeId): nat
    requires x in s.nodes
  {
    if s.nodes[x].kind == DocumentNode then 0 else s.nodes[x].rank + 1
  }

  /** The store holds its Document node under the id the model gives it. */
  predicate HasDocNode(s: Store) {
    DocNode in s.nodes && s.nodes[DocNode].kind == DocumentNode
  }

  /**
   * Where one end() takes a cursor standing on x: the parent node, or the
   * document's own node when that parent is a Document; None when x has no
   * parent node (an attribute, a detached node, the Document itself).
   */
  function Up(s: Store, x: NodeId): (r: Option<NodeId>)
    requires Wf(s) && x in s.nodes && HasDocNode(s)
    ensures r.Some? <==> ParentNode(s, x).Some?
    ensures r.Some? ==> r.value in s.nodes && Height(s, r.value) < Height(s, x)
    ensures r.Some? ==> (r.value == DocNode <==> s.nodes[ParentNode(s, x).value].kind == DocumentNode)
    ensures r.Some? && r.value != DocNode ==> r.value == ParentNode(s, x).value
  {
    match ParentNode(s, x)
    case None => None
    case Some(p) =>
      assert s.nodes[x].kind != DocumentNode by {
        if s.nodes[x].kind == DocumentNode {
          DocumentHasNoParent(s, x);
        }
      }
      if s.nodes[p].kind == DocumentNode then Some(DocNode) else Some(p)
  }

  /** a is x or a node that repeated end() reaches from x. */
  predicate OnClimb(s: Store, a: NodeId, x: NodeId)
    requires Wf(s) && x in s.nodes && HasDocNode(s)
    decreases Height(s, x)
  {
    a == x || (Up(s, x).Some? && OnClimb(s, a, Up(s, x).value))
  }

  /** Nodes reached by climbing are lower in height, so the climb never cycles. */
  lemma {:induction false} OnClimbHeight(s: Store, a: NodeId, x: NodeId)
    requires Wf(s) && x in s.nodes && HasDocNode(s) && OnClimb(s, a, x)
    ensures a in s.nodes && Height(s, a) <= Height(s, x)
    ensures a != x ==> Height(s, a) < Height(s, x)
    decreases Height(s, x)
  {
    if a != x {
      OnClimbHeight(s, a, Up(s, x).value);
    }
  }

  /** Two nodes each on the other's climb are the same node. */
  lemma OnClimbAntisymmetric(s: Store, a: NodeId, x: NodeId)
    requires Wf(s) && x in s.nodes && a in s.nodes && HasDocNode(s)
    requires OnClimb(s, a, x) && OnClimb(s, x, a)
    ensures a == x
  {
    OnClimbHeight(s, a, x);
    OnClimbHeight(s, x, a);
  }

  /**
   * Repeated end() from x towards marker m stops at m or fails at root without
   * breaking the cursor: every node met before either has a parent node.
   */
  predicate Climbable(s: Store, x: NodeId, root: NodeId, m: Option<NodeId>)
    requires Wf(s) && x in s.nodes && HasDocNode(s)
    decreases Height(s, x)
  {
    Some(x) == m || x == root || (Up(s, x).Some? && Climbable(s, Up(s, x).value, root, m))
  }

  /**
   * end(marker) from x: the marker once it is the current node; IllegalState
   * when end() is asked to leave root first.
   */
  function Climb(s: Store, x: NodeId, root: NodeId, m: Option<NodeId>): (r: Result<NodeId>)
    requires Wf(s) && x in s.nodes && HasDocNode(s) && Climbable(s, x, root, m)
    ensures r.Ok? ==> m == Some(r.value) && OnClimb(s, r.value, x)
    ensures r.Err? ==> r.error == IllegalState && OnClimb(s, root, x)
    decreases Height(s, x)
  {
    if Some(x) == m then Ok(x)
    else if x == root then Err(IllegalState)
    else Climb(s, Up(s, x).value, root, m)
  }

  /**
   * end(marker) lands on the marker exactly when the marker is on the climb from
   * the current node and root does not come strictly before it.
   */
  lemma {:induction false} ClimbSucceeds(s: Store, x: NodeId, root: NodeId, m: Option<NodeId>)
    requires Wf(s) && x in s.nodes && root in s.nodes && HasDocNode(s) && Climbable(s, x, root, m)
    ensures Climb(s, x, root, m).Ok? <==>
      m.Some? && OnClimb(s, m.value, x) && !(OnClimb(s, root, x) && OnClimb(s, m.value, root) && root != m.value)
    decreases Height(s, x)
  {
    if Some(x) == m {
      if OnClimb(s, root, x) && OnClimb(s, x, root) {
        OnClimbHeight(s, root, x);
        OnClimbAntisymmetric(s, root, x);
      }
    } else if x == root {
    } else {
      ClimbSucceeds(s, Up(s, x).value, root, m);
    }
  }

  /** endAll: with no marker the climb is the one end() takes up to root, and it ends there. */
  lemma {:induction false} ClimbToRoot(s: Store, x: NodeId, root: NodeId)
    requires Wf(s) && x in s.nodes && HasDocNode(s) && Climbable(s, x, root, None)
    ensures Climb(s, x, root, None) == Err(IllegalState)
    ensures OnClimb(s, root, x)
    decreases Height(s, x)
  {
    if x != root {
      ClimbToRoot(s, Up(s, x).value, root);
    }
  }

  // ---------------------------------------------------------------- removing a selection

  /** removeAll on one document: each listed node, in order, is removed from its parent or owner. */
  function DetachAll(s: Store, ids: seq<NodeId>): (r: Store)
    requires Wf(s) && forall x :: x in ids ==> x in s.nodes
    ensures Wf(r) && r.nodes.Keys == s.nodes.Keys && r.next == s.next
    ensures forall y :: y in s.nodes ==> r.nodes[y].kind == s.nodes[y].kind
    decreases |ids|
  {
    if ids == [] then s
    else
      assert forall x :: x in ids[1..] ==> x in ids;
      DetachAll(Detach(s, ids[0]), ids[1..])
  }

  /** After removeAll every listed node is detached, and detached nodes stay so. */
  lemma {:induction false} DetachAllDetaches(s: Store, ids: seq<NodeId>)
    requires Wf(s) && forall x :: x in ids ==> x in s.nodes
    ensures forall x :: x in ids ==> DetachAll(s, ids).nodes[x].parent == None
    ensures forall y :: y in s.nodes && s.nodes[y].parent == None ==> DetachAll(s, ids).nodes[y].parent == None
    decreases |ids|
  {
    if ids != [] {
      var t := Detach(s, ids[0]);
      assert forall x :: x in ids[1..] ==> x in ids;
      DetachAllDetaches(t, ids[1..]);
    }
  }

  /** Removing one more node after a run of removals. */
  lemma {:induction false} DetachAllSnoc(s: Store, ids: seq<NodeId>, x: NodeId)
    requires Wf(s) && (forall y :: y in ids ==> y in s.nodes) && x in s.nodes
    ensures forall y :: y in ids + [x] ==> y in s.nodes
    ensures DetachAll(s, ids + [x]) == Detach(DetachAll(s, ids), x)
    decreases |ids|
  {
    if ids == [] {
      assert [] + [x] == [x];
      assert [x][1..] == [];
    } else {
      assert (ids + [x])[1..] == ids[1..] + [x];
      assert forall y :: y in ids[1..] ==> y in ids;
      DetachAllSnoc(Detach(s, ids[0]), ids[1..], x);
    }
  }
}
