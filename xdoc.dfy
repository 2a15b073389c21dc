/**
 * The cursor itself. A Document object owns a node store that the cursor's edits
 * replace in place; an XDoc object holds the selection (`list`, `index`), the scope
 * `root` and the owning `doc`, and its builder, navigation and mutation methods
 * reassign those fields and the owner's store as XDoc.java does.
 */
module XDocs {
  import opened Wrappers
  import opened Trees
  import opened Dom
  import opened Edits
  import opened Paths
  import opened Splices
  import opened Renames
  import opened Inserts
  import opened Views
  import opened Names

  /** A DOM Document: the store of all its nodes, edited in place. */
  class Document {
    var store: Store

    ghost predicate Valid()
      reads this
    {
      Wf(store) && HasDocNode(store)
    }

    /** getNewDocument followed by appendChild(createElement(tag)); createElement refuses a tag that is not an XML name. */
    constructor (tag: string)
      requires IsXmlName(tag)
      ensures Valid() && store == NewDocument(tag)
    {
      store := NewDocument(tag);
    }

    /** A new document holding a deep copy of element x of s (clone()). */
    constructor Clone(s: Store, x: NodeId)
      requires Wf(s) && x in s.nodes && s.nodes[x].kind == ElementNode
      ensures Valid() && store == CloneDocument(s, x)
    {
      store := CloneDocument(s, x);
    }

    /** The loop of removeNodes: p's first child is removed while there is one. */
    method RemoveChildNodes(p: NodeId)
      requires Valid() && p in store.nodes
      modifies this
      ensures Valid() && store == RemoveChildren(old(store), p) && KindsKept(old(store), store)
    {
      ghost var goal := RemoveChildren(store, p);
      ghost var s0 := store;
      while store.nodes[p].children != []
        invariant Valid() && p in store.nodes
        invariant RemoveChildren(store, p) == goal
        decreases |store.nodes[p].children|
      {
        var first := store.nodes[p].children[0];
        RemoveChildrenNext(store, p);
        store := Unlink(store, p, first);
      }
      assert RemoveChildren(store, p) == store;
      ShapesButKinds(s0, store, p);
    }

    /** The child walk of replaceValue: each text or CDATA child of p, in order, is removed. */
    method RemoveTextChildren(p: NodeId)
      requires Valid() && p in store.nodes
      modifies this
      ensures Valid() && KindsKept(old(store), store)
      ensures store == RemoveTexts(old(store), p, [], old(store.nodes[p].children))
    {
      var cs := store.nodes[p].children;
      ghost var s0 := store;
      ghost var goal := RemoveTexts(store, p, [], cs);
      ghost var pre: seq<NodeId> := [];
      assert [] + cs == cs;
      var i := 0;
      while i < |cs|
        invariant 0 <= i <= |cs| && Valid() && p in store.nodes
        invariant store.nodes[p].children == pre + cs[i..]
        invariant RemoveTexts(store, p, pre, cs[i..]) == goal
      {
        ghost var xs := cs[i..];
        assert xs[0] == cs[i] && xs[1..] == cs[i + 1..];
        RemoveTextsNext(store, p, pre, xs);
        if IsTextNode(store, cs[i]) {
          store := Unlink(store, p, cs[i]);
        } else {
          pre := pre + [cs[i]];
        }
        i := i + 1;
      }
      assert cs[i..] == [] && pre + [] == pre;
      assert RemoveTexts(store, p, pre, []) == store;
      ShapesButKinds(s0, store, p);
    }

    /** remove() of a cursor on node x: x leaves its parent or owner element; a Document node stays. */
    method RemoveNode(x: NodeId)
      requires Valid() && x in store.nodes
      modifies this
      ensures Valid() && store == Detach(old(store), x)
    {
      if store.nodes[x].kind != DocumentNode {
        store := Detach(store, x);
      } else {
        DocumentHasNoParent(store, x);
      }
    }

    /** getDocumentElement. */
    function DocumentElement(): (r: Option<NodeId>)
      reads this
      requires Valid()
      ensures forall x :: x in store.nodes[DocNode].children ==> x in store.nodes
      ensures r.Some? ==> r.value in store.nodes[DocNode].children && store.nodes[r.value].kind == ElementNode
      ensures r.None? ==> forall x :: x in store.nodes[DocNode].children ==> store.nodes[x].kind != ElementNode
    {
      assert NodeWf(store, DocNode);
      FirstElement(store, store.nodes[DocNode].children)
    }
  }

  /** A DOM node reference: the document that owns it and its id there. */
  datatype NodeRef = NodeRef(owner: Document, id: NodeId)

  ghost predicate Live(r: NodeRef)
    reads r.owner
  {
    r.owner.Valid() && r.id in r.owner.store.nodes
  }

  /** The child list of a node as references into document d. */
  function Refs(d: Document, ids: seq<NodeId>): (r: seq<NodeRef>)
    ensures |r| == |ids| && forall k :: 0 <= k < |ids| ==> r[k] == NodeRef(d, ids[k])
  {
    seq(|ids|, k requires 0 <= k < |ids| => NodeRef(d, ids[k]))
  }

  /** An edit that keeps the shape of every node but p, and p's kind, keeps all kinds. */
  lemma ShapesButKinds(s: Store, t: Store, p: NodeId)
    requires ShapesBut(s, t, p) && p in s.nodes && p in t.nodes && t.nodes[p].kind == s.nodes[p].kind
    ensures KindsKept(s, t)
  {
    forall y | y in s.nodes
      ensures y in t.nodes && t.nodes[y].kind == s.nodes[y].kind
    {
      if y != p {
        assert Shape(t.nodes[y]) == Shape(s.nodes[y]);
      }
    }
  }

  /**
   * An edit of element e's attribute list that keeps e's kind, the shapes of the
   * nodes ranked below e, and every other node outside e's attributes, keeps all kinds.
   */
  lemma AttrEditKinds(s: Store, r: Store, e: NodeId)
    requires Wf(s) && e in s.nodes && s.nodes.Keys <= r.nodes.Keys
    requires r.nodes[e].kind == s.nodes[e].kind && KeepsFrom(s, r, s.nodes[e].rank + 1)
    requires forall y :: y in s.nodes && y != e && y !in s.nodes[e].attrs ==> r.nodes[y] == s.nodes[y]
    ensures KindsKept(s, r)
  {
    assert NodeWf(s, e);
    forall y | y in s.nodes
      ensures y in r.nodes && r.nodes[y].kind == s.nodes[y].kind
    {
      if y in s.nodes[e].attrs {
        assert Shape(r.nodes[y]) == Shape(s.nodes[y]);
      }
    }
  }

  /** replaceChild keeps every node and its kind. */
  lemma ReplaceChildKinds(s: Store, t: Store, x: NodeId, n: NodeId)
    requires Wf(t) && KindsKept(s, t) && x in t.nodes && ParentNode(t, x).Some?
    requires CanLink(t, ParentNode(t, x).value, n)
    ensures KindsKept(s, ReplaceChild(t, x, n))
  {
  }

  /** Giving an element a new text child does not move it: its step up stays where it was. */
  lemma UpAfterText(s: Store, e: NodeId, v: string)
    requires Wf(s) && HasDocNode(s) && e in s.nodes && s.nodes[e].kind == ElementNode
    ensures var t := AppendNew(s, e, TextNode, "#text", v).0;
      HasDocNode(t) && e in t.nodes && Up(t, e) == Up(s, e) &&
      (s.nodes[e].parent.Some? ==>
        var q := s.nodes[e].parent.value;
        Up(t, e) == Some(if s.nodes[q].kind == DocumentNode then DocNode else q))
  {
    var t := AppendNew(s, e, TextNode, "#text", v).0;
    assert t.nodes[e].parent == s.nodes[e].parent;
    assert ParentNode(t, e) == ParentNode(s, e);
  }

  /**
   * A node n made in t, a store that only adds nodes to s, takes x's place: x's
   * parent then holds n's subtree where it held x's, and nothing else of it changes.
   */
  lemma ReplacedByNew(s: Store, t: Store, x: NodeId, n: NodeId)
    requires Wf(s) && Wf(t) && Extends(s, t) && x in s.nodes && ParentNode(s, x).Some?
    requires CanLink(t, ParentNode(s, x).value, n)
    ensures ParentNode(t, x) == ParentNode(s, x)
    ensures var q := ParentNode(s, x).value;
      var i := IndexOf(s.nodes[q].children, x);
      var kids := ToTree(s, q).children;
      i < |kids| && ToTree(ReplaceChild(t, x, n), q) == ToTree(s, q).(children := Replaced(s, x, ToTree(t, n)))
  {
    var q := ParentNode(s, x).value;
    assert t.nodes[x] == s.nodes[x] && t.nodes[q] == s.nodes[q];
    assert KeepsFrom(s, t, s.nodes[q].rank);
    ToTreeFrame(s, t, q);
    ReplaceChildTree(t, x, n);
  }

  /** A new detached leaf, ranked as a child of q would be (createTextNode and the like). */
  function NewLeaf(s: Store, q: NodeId, kind: Kind, name: string, value: string): (r: (Store, NodeId))
    requires Wf(s) && q in s.nodes
    ensures Wf(r.0) && Extends(s, r.0) && r.1 !in s.nodes && r.1 in r.0.nodes
    ensures r.0.nodes[r.1] == NodeData(kind, name, value, [], [], None, s.nodes[q].rank + 1)
    ensures HasChildren(s.nodes[q].kind) && IsChildKind(kind) ==> CanLink(r.0, q, r.1)
    ensures ToTree(r.0, r.1) == Tree(kind, name, value, [], [])
  {
    assert NodeWf(s, q);
    var a := Alloc(s, kind, name, value, s.nodes[q].rank + 1);
    LeafTree(a.0, a.1);
    a
  }

  /** importNode(y of src, true) into s, the copy ranked as a sibling of x would be. */
  function ImportFor(s: Store, x: NodeId, src: Store, y: NodeId): (r: (Store, NodeId))
    requires Wf(s) && x in s.nodes && ParentNode(s, x).Some?
    requires Wf(src) && y in src.nodes && IsChildKind(src.nodes[y].kind)
    ensures Wf(r.0) && Extends(s, r.0) && r.1 !in s.nodes && r.1 in r.0.nodes
    ensures CanLink(r.0, ParentNode(s, x).value, r.1)
    ensures ToTree(r.0, r.1) == ToTree(src, y)
  {
    var q := ParentNode(s, x).value;
    ParentHasChildren(s, x);
    assert NodeWf(s, q);
    Import(s, src, y, s.nodes[q].rank + 1)
  }

  /** x's parent's subtrees with t in x's place. */
  function Replaced(s: Store, x: NodeId, t: Tree): (r: seq<Tree>)
    requires Wf(s) && x in s.nodes && ParentNode(s, x).Some?
    ensures var q := ParentNode(s, x).value; |r| == |ToTree(s, q).children| == |s.nodes[q].children|
  {
    var q := ParentNode(s, x).value;
    ToTreeParts(s, q);
    ToTree(s, q).children[IndexOf(s.nodes[q].children, x) := t]
  }

  /** Staging a rename keeps every node and its kind. */
  lemma StagedKinds(s: Store, x: NodeId, name: string)
    requires Wf(s) && x in s.nodes && s.nodes[x].kind == ElementNode && ParentNode(s, x).Some?
    ensures KindsKept(s, Staged(s, x, name))
  {
    var t := Staged(s, x, name);
    forall y | y in s.nodes
      ensures y in t.nodes && t.nodes[y].kind == s.nodes[y].kind
    {
      if y != x {
        assert Shape(t.nodes[y]) == Shape(s.nodes[y]);
      }
    }
  }

  /** The ids of the entries of l that belong to document d, in order. */
  function IdsIn(l: seq<NodeRef>, d: Document): (r: seq<NodeId>)
    ensures forall x :: x in r ==> NodeRef(d, x) in l
  {
    if l == [] then []
    else IdsIn(l[..|l| - 1], d) + if l[|l| - 1].owner == d then [l[|l| - 1].id] else []
  }

  lemma IdsInSnoc(l: seq<NodeRef>, i: int, d: Document)
    requires 0 <= i < |l|
    ensures IdsIn(l[..i + 1], d) == IdsIn(l[..i], d) + if l[i].owner == d then [l[i].id] else []
  {
    assert l[..i + 1][..i] == l[..i];
  }

  /** Every entry of l belongs to a document of olds and is a node of its store there. */
  ghost predicate Covers(olds: map<Document, Store>, l: seq<NodeRef>)
  {
    forall k :: 0 <= k < |l| ==>
      l[k].owner in olds && Wf(olds[l[k].owner]) && l[k].id in olds[l[k].owner].nodes
  }

  lemma IdsInCovered(olds: map<Document, Store>, l: seq<NodeRef>, j: int, d: Document)
    requires Covers(olds, l) && 0 <= j <= |l| && d in olds && Wf(olds[d])
    ensures forall x :: x in IdsIn(l[..j], d) ==> x in olds[d].nodes
  {
    forall x | x in IdsIn(l[..j], d)
      ensures x in olds[d].nodes
    {
      var k :| 0 <= k < j && l[..j][k] == NodeRef(d, x);
      assert l[k] == NodeRef(d, x);
    }
  }

  /** Store t of d is d's store in olds after removing the first j entries of l that d owns. */
  ghost predicate RemovedUpTo(olds: map<Document, Store>, l: seq<NodeRef>, j: int, d: Document, t: Store)
  {
    Covers(olds, l) && 0 <= j <= |l| && d in olds && Wf(olds[d]) &&
    (forall x :: x in IdsIn(l[..j], d) ==> x in olds[d].nodes) &&
    t == DetachAll(olds[d], IdsIn(l[..j], d))
  }

  lemma RemovedValid(olds: map<Document, Store>, l: seq<NodeRef>, j: int, d: Document, t: Store)
    requires RemovedUpTo(olds, l, j, d, t) && HasDocNode(olds[d])
    ensures Wf(t) && HasDocNode(t) && KindsKept(olds[d], t)
  {
  }

  lemma RemovedNext(olds: map<Document, Store>, l: seq<NodeRef>, i: int, d: Document, t: Store)
    requires RemovedUpTo(olds, l, i, d, t) && i < |l| && l[i].owner == d
    ensures l[i].id in t.nodes && Wf(t)
    ensures RemovedUpTo(olds, l, i + 1, d, Detach(t, l[i].id))
  {
    IdsInSnoc(l, i, d);
    IdsInCovered(olds, l, i + 1, d);
    DetachAllSnoc(olds[d], IdsIn(l[..i], d), l[i].id);
  }

  lemma RemovedOther(olds: map<Document, Store>, l: seq<NodeRef>, i: int, d: Document, e: Document, t: Store)
    requires RemovedUpTo(olds, l, i, d, t) && i < |l| && l[i].owner == e && e != d
    ensures RemovedUpTo(olds, l, i + 1, d, t)
  {
    IdsInSnoc(l, i, d);
    var ids := IdsIn(l[..i], d);
    assert ids + [] == ids;
    assert IdsIn(l[..i + 1], d) == ids;
  }

  /** The loop of removeAll: each entry of l, in order, leaves its parent in its own document. */
  method DetachEach(l: seq<NodeRef>, ghost ds: set<Document>, ghost olds: map<Document, Store>)
    requires Covers(olds, l) && forall k :: 0 <= k < |l| ==> l[k].owner in ds
    requires forall d :: d in ds ==> d in olds && Wf(olds[d]) && HasDocNode(olds[d]) && d.store == olds[d]
    modifies ds
    ensures forall d :: d in ds ==> RemovedUpTo(olds, l, |l|, d, d.store)
  {
    assert l[..0] == [];
    var i := 0;
    while i < |l|
      invariant 0 <= i <= |l|
      invariant forall d :: d in ds ==> RemovedUpTo(olds, l, i, d, d.store) && HasDocNode(olds[d])
    {
      var e := l[i];
      RemovedNext(olds, l, i, e.owner, e.owner.store);
      RemovedValid(olds, l, i, e.owner, e.owner.store);
      label Before:
      e.owner.RemoveNode(e.id);
      forall d | d in ds
        ensures RemovedUpTo(olds, l, i + 1, d, d.store)
      {
        if d != e.owner {
          RemovedOther(olds, l, i, d, e.owner, old@Before(d.store));
        }
      }
      i := i + 1;
    }
  }

  // ---------------------------------------------------------------- adding

  /** importNode(src node y, true) made ready to go below node q of s. */
  function ImportUnder(s: Store, q: NodeId, src: Store, y: NodeId): (r: (Store, NodeId))
    requires Wf(s) && q in s.nodes && HasChildren(s.nodes[q].kind)
    requires Wf(src) && y in src.nodes && IsChildKind(src.nodes[y].kind)
    ensures Wf(r.0) && Extends(s, r.0) && r.1 !in s.nodes && r.1 in r.0.nodes
    ensures CanLink(r.0, q, r.1)
    ensures ToTree(r.0, r.1) == ToTree(src, y)
  {
    assert NodeWf(s, q);
    Import(s, src, y, s.nodes[q].rank + 1)
  }

  /**
   * appendChild, insertBefore or insertAfter of node n, new in t and detached,
   * below q at position pos: q's subtree gains n's subtree there and no other
   * node of s changes.
   */
  function Placed(s: Store, t: Store, q: NodeId, n: NodeId, pos: nat): (r: Store)
    requires Wf(s) && Wf(t) && Extends(s, t) && q in s.nodes && n !in s.nodes && CanLink(t, q, n)
    requires pos <= |s.nodes[q].children|
    ensures Wf(r) && Grows(s, r) && FrameBut(s, r, q) && KindsKept(s, r) && n in r.nodes
    ensures r.nodes[q] == s.nodes[q].(children := Insert(s.nodes[q].children, pos, n))
    ensures var kids := ToTree(s, q).children;
      pos <= |kids| && ToTree(r, q) == ToTree(s, q).(children := kids[..pos] + [ToTree(t, n)] + kids[pos..])
  {
    assert t.nodes[q] == s.nodes[q];
    assert KeepsFrom(s, t, s.nodes[q].rank);
    ToTreeFrame(s, t, q);
    LinkTree(t, q, n, pos);
    Link(t, q, n, pos)
  }

  /**
   * A deep copy of node y of src put below q at position pos (importNode, then
   * appendChild or insertBefore): q gains one new child there, whose subtree is
   * y's, and no other node of s changes.
   */
  function CopyPlaced(s: Store, q: NodeId, pos: nat, src: Store, y: NodeId): (r: Store)
    requires Wf(s) && q in s.nodes && HasChildren(s.nodes[q].kind) && pos <= |s.nodes[q].children|
    requires Wf(src) && y in src.nodes && IsChildKind(src.nodes[y].kind)
    ensures Wf(r) && Grows(s, r) && FrameBut(s, r, q) && KindsKept(s, r)
    ensures pos < |r.nodes[q].children| && r.nodes[q].children[pos] !in s.nodes
    ensures r.nodes[q] == s.nodes[q].(children := Insert(s.nodes[q].children, pos, r.nodes[q].children[pos]))
    ensures var kids := ToTree(s, q).children;
      pos <= |kids| && ToTree(r, q) == ToTree(s, q).(children := kids[..pos] + [ToTree(src, y)] + kids[pos..])
  {
    var m := ImportUnder(s, q, src, y);
    var r := Placed(s, m.0, q, m.1, pos);
    assert r.nodes[q].children[pos] == m.1;
    r
  }

  /** The position in c's parent's children just before (after false) or just after c. */
  function SiblingPos(s: Store, c: NodeId, after: bool): (r: nat)
    requires Wf(s) && c in s.nodes && ParentNode(s, c).Some?
    ensures var kids := s.nodes[ParentNode(s, c).value].children;
      r <= |kids| && (if after then 0 < r && kids[r - 1] == c else r < |kids| && kids[r] == c)
  {
    var i := IndexOf(s.nodes[ParentNode(s, c).value].children, c);
    if after then i + 1 else i
  }

  /**
   * A deep copy of node y of src put right before (after false) or right after
   * (after true) node c, below c's parent element.
   */
  function CopyBeside(s: Store, c: NodeId, after: bool, src: Store, y: NodeId): (r: Store)
    requires Wf(s) && c in s.nodes && ParentNode(s, c).Some? && s.nodes[ParentNode(s, c).value].kind == ElementNode
    requires Wf(src) && y in src.nodes && IsChildKind(src.nodes[y].kind)
    ensures Wf(r) && KindsKept(s, r)
    ensures r == CopyPlaced(s, ParentNode(s, c).value, SiblingPos(s, c, after), src, y)
  {
    CopyPlaced(s, ParentNode(s, c).value, SiblingPos(s, c, after), src, y)
  }

  /**
   * A new text node holding v put below element q at position pos
   * (createTextNode, then insertBefore): q gains one new child there, a text
   * leaf with v, and no other node of s changes.
   */
  function TextPlaced(s: Store, q: NodeId, pos: nat, v: string): (r: Store)
    requires Wf(s) && q in s.nodes && s.nodes[q].kind == ElementNode && pos <= |s.nodes[q].children|
    ensures Wf(r) && Grows(s, r) && FrameBut(s, r, q) && KindsKept(s, r)
    ensures pos < |r.nodes[q].children| && r.nodes[q].children[pos] !in s.nodes
    ensures r.nodes[q] == s.nodes[q].(children := Insert(s.nodes[q].children, pos, r.nodes[q].children[pos]))
    ensures var kids := ToTree(s, q).children;
      pos <= |kids| && ToTree(r, q) == ToTree(s, q).(children := kids[..pos] + [Tree(TextNode, "#text", v, [], [])] + kids[pos..])
  {
    var a := NewLeaf(s, q, TextNode, "#text", v);
    var r := Placed(s, a.0, q, a.1, pos);
    assert r.nodes[q].children[pos] == a.1;
    r
  }

  /**
   * A new text node holding v put right before (after false) or right after
   * (after true) node c, below c's parent element.
   */
  function TextBeside(s: Store, c: NodeId, after: bool, v: string): (r: Store)
    requires Wf(s) && c in s.nodes && ParentNode(s, c).Some? && s.nodes[ParentNode(s, c).value].kind == ElementNode
    ensures Wf(r) && KindsKept(s, r)
    ensures r == TextPlaced(s, ParentNode(s, c).value, SiblingPos(s, c, after), v)
  {
    TextPlaced(s, ParentNode(s, c).value, SiblingPos(s, c, after), v)
  }

  /**
   * addNodesBefore's splice: with the marker in place before c, copies of the
   * children of node x of the source (read then) are chained after the marker,
   * and the marker is removed.
   */
  function MarkedCopies(s: Store, q: NodeId, c: NodeId, src: Option<Store>, x: NodeId): (r: Store)
    requires Wf(s) && q in s.nodes && s.nodes[q].kind == ElementNode && c in s.nodes[q].children
    requires Wf(Base(s, src)) && x in Base(s, src).nodes
    ensures Wf(r) && KindsKept(s, r)
  {
    var mk := WithMarker(s, q, c);
    var ids := Base(mk.0, src).nodes[x].children;
    ChildSources(mk.0, src, x);
    var t := ChainCopies(mk.0, Repeat(src, |ids|), q, ids, Some(mk.1)).0;
    DetachKinds(s, mk.0, t, mk.1);
    Detach(t, mk.1)
  }

  /** addNodesBefore's loop, run on the store. */
  method MarkedLoop(s: Store, q: NodeId, c: NodeId, src: Option<Store>, x: NodeId) returns (r: Store)
    requires Wf(s) && q in s.nodes && s.nodes[q].kind == ElementNode && c in s.nodes[q].children
    requires Wf(Base(s, src)) && x in Base(s, src).nodes
    ensures r == MarkedCopies(s, q, c, src, x) && Wf(r) && KindsKept(s, r)
  {
    var mk := WithMarker(s, q, c);
    var ids := Base(mk.0, src).nodes[x].children;
    ChildSources(mk.0, src, x);
    var t, last := ChainLoop(mk.0, Repeat(src, |ids|), q, ids, Some(mk.1));
    r := Detach(t, mk.1);
  }

  /**
   * getFirstChild() is non-null: the node has a child, or it is an attribute, whose
   * non-empty value the DOM keeps as a text child.
   */
  predicate HasFirstChild(s: Store, n: NodeId)
    requires n in s.nodes
  {
    s.nodes[n].children != [] || (s.nodes[n].kind == AttributeNode && s.nodes[n].value != "")
  }

  /**
   * replaceWithNodes' splice: copies of the children of node x of the source
   * (read then) are chained in after c below c's parent element, then c leaves
   * its parent; with the node the returned cursor stands on, the last copy,
   * or c itself when there were none.
   */
  function NodesReplaced(s: Store, c: NodeId, src: Option<Store>, x: NodeId): (r: (Store, NodeId))
    requires Wf(s) && c in s.nodes && ParentNode(s, c).Some? && s.nodes[ParentNode(s, c).value].kind == ElementNode
    requires Wf(Base(s, src)) && x in Base(s, src).nodes
    ensures Wf(r.0) && KindsKept(s, r.0) && r.1 in r.0.nodes
  {
    var q := ParentNode(s, c).value;
    var ids := Base(s, src).nodes[x].children;
    ChildSources(s, src, x);
    var t := ChainCopies(s, Repeat(src, |ids|), q, ids, Some(c));
    ChainedLast(s, Repeat(src, |ids|), q, ids, c);
    DetachKinds(s, t.0, t.0, c);
    (Detach(t.0, c), LastPlaced(t.1, Some(c)).value)
  }

  /** The cursor replaceWithNodes returns stands on a node that may sit below an element. */
  lemma NodesReplacedLands(s: Store, c: NodeId, src: Option<Store>, x: NodeId)
    requires Wf(s) && c in s.nodes && ParentNode(s, c).Some? && s.nodes[ParentNode(s, c).value].kind == ElementNode
    requires Wf(Base(s, src)) && x in Base(s, src).nodes
    ensures var r := NodesReplaced(s, c, src, x); IsChildKind(r.0.nodes[r.1].kind)
  {
    var q := ParentNode(s, c).value;
    var ids := Base(s, src).nodes[x].children;
    ChildSources(s, src, x);
    var t := ChainCopies(s, Repeat(src, |ids|), q, ids, Some(c));
    ChainedLast(s, Repeat(src, |ids|), q, ids, c);
    var last := LastPlaced(t.1, Some(c)).value;
    DetachKeepsKind(t.0, c, last);
  }

  /** Detaching a node changes no node's kind. */
  lemma DetachKeepsKind(s: Store, c: NodeId, y: NodeId)
    requires Wf(s) && c in s.nodes && y in s.nodes
    ensures y in Detach(s, c).nodes && Detach(s, c).nodes[y].kind == s.nodes[y].kind
  {
  }

  /** After chaining copies in behind c, the last one placed (c when none) is a child node of the parent. */
  lemma ChainedLast(s: Store, srcs: seq<Option<Store>>, q: NodeId, ids: seq<NodeId>, c: NodeId)
    requires Wf(s) && q in s.nodes && s.nodes[q].kind == ElementNode && SourcesOk(s, srcs, ids)
    requires c in s.nodes[q].children
    ensures var t := ChainCopies(s, srcs, q, ids, Some(c)); var last := LastPlaced(t.1, Some(c)).value;
      last in t.0.nodes[q].children && last in t.0.nodes && IsChildKind(t.0.nodes[last].kind)
  {
    var t := ChainCopies(s, srcs, q, ids, Some(c));
    var cs := s.nodes[q].children;
    var i := InsertPos(s, q, Some(c));
    assert t.0.nodes[q].children == cs[..i] + t.1 + cs[i..];
    if t.1 == [] {
      assert cs[i - 1] == c;
    }
    assert NodeWf(t.0, q);
  }

  /**
   * With another document as the source, replaceWithNodes puts the subtrees of
   * x's children, in order, into the slot c held among its parent's children.
   */
  lemma NodesReplacedTree(s: Store, c: NodeId, src: Store, x: NodeId)
    requires Wf(s) && c in s.nodes && ParentNode(s, c).Some? && s.nodes[ParentNode(s, c).value].kind == ElementNode
    requires Wf(src) && x in src.nodes
    ensures var q := ParentNode(s, c).value; var i := IndexOf(s.nodes[q].children, c);
      var kids := ToTree(s, q).children;
      i < |kids| && kids[i] == ToTree(s, c) &&
      ToTree(NodesReplaced(s, c, Some(src), x).0, q) ==
        ToTree(s, q).(children := kids[..i] + ToTree(src, x).children + kids[i + 1..])
  {
    var q := ParentNode(s, c).value;
    var i := IndexOf(s.nodes[q].children, c);
    var ids := src.nodes[x].children;
    var srcs := Repeat(Some(src), |ids|);
    ChildTreeAt(s, q, c);
    RepeatTrees(src, x);
    ChainedDetachTree(s, srcs, q, ids, c);
    NodesReplacedStore(s, c, Some(src), x);
  }

  /** Copying every child of x from one source yields x's child subtrees. */
  lemma RepeatTrees(src: Store, x: NodeId)
    requires Wf(src) && x in src.nodes
    ensures var ids := src.nodes[x].children; var srcs := Repeat(Some(src), |ids|);
      ForeignOk(srcs, ids) && SourceTrees(srcs, ids) == ToTree(src, x).children
  {
    ToTreeParts(src, x);
    assert NodeWf(src, x);
  }

  /** What replaceWithNodes leaves: the chain of copies after c, without c. */
  lemma NodesReplacedStore(s: Store, c: NodeId, src: Option<Store>, x: NodeId)
    requires Wf(s) && c in s.nodes && ParentNode(s, c).Some? && s.nodes[ParentNode(s, c).value].kind == ElementNode
    requires Wf(Base(s, src)) && x in Base(s, src).nodes
    ensures var q := ParentNode(s, c).value; var ids := Base(s, src).nodes[x].children;
      SourcesOk(s, Repeat(src, |ids|), ids) && c in s.nodes[q].children &&
      var t := ChainCopies(s, Repeat(src, |ids|), q, ids, Some(c)).0;
      c in t.nodes && ParentNode(t, c).Some? && NodesReplaced(s, c, src, x).0 == Detach(t, c)
  {
    var q := ParentNode(s, c).value;
    var ids := Base(s, src).nodes[x].children;
    ChildSources(s, src, x);
    ChainedLast(s, Repeat(src, |ids|), q, ids, c);
  }

  /** Chaining copies in after c and then detaching c swaps c's subtree for the copies. */
  lemma ChainedDetachTree(s: Store, srcs: seq<Option<Store>>, q: NodeId, ids: seq<NodeId>, c: NodeId)
    requires Wf(s) && q in s.nodes && s.nodes[q].kind == ElementNode && ForeignOk(srcs, ids)
    requires c in s.nodes[q].children
    ensures SourcesOk(s, srcs, ids)
    ensures var t := ChainCopies(s, srcs, q, ids, Some(c)).0;
      var i := IndexOf(s.nodes[q].children, c); var kids := ToTree(s, q).children;
      c in t.nodes && ParentNode(t, c) == Some(q) && i < |kids| &&
      ToTree(Detach(t, c), q) == ToTree(s, q).(children := kids[..i] + SourceTrees(srcs, ids) + kids[i + 1..])
  {
    var i := IndexOf(s.nodes[q].children, c);
    ChainCopiesTree(s, srcs, q, ids, Some(c));
    ChainKeeps(s, srcs, q, ids, c);
    var t := ChainCopies(s, srcs, q, ids, Some(c)).0;
    DetachChildTree(t, c);
    SpliceAfter(ToTree(s, q).children, i, SourceTrees(srcs, ids));
  }

  /** After the chain, c still sits below q, at the place it had. */
  lemma ChainKeeps(s: Store, srcs: seq<Option<Store>>, q: NodeId, ids: seq<NodeId>, c: NodeId)
    requires Wf(s) && q in s.nodes && s.nodes[q].kind == ElementNode && SourcesOk(s, srcs, ids)
    requires c in s.nodes[q].children
    ensures var t := ChainCopies(s, srcs, q, ids, Some(c)).0;
      c in t.nodes && ParentNode(t, c) == Some(q) &&
      IndexOf(t.nodes[q].children, c) == IndexOf(s.nodes[q].children, c)
  {
    var cs := s.nodes[q].children;
    var t := ChainCopies(s, srcs, q, ids, Some(c));
    var pos := InsertPos(s, q, Some(c));
    assert pos == IndexOf(cs, c) + 1;
    SpliceKeepsIndex(cs, t.0.nodes[q].children, t.1, c, pos);
    ChildParent(t.0, q, c);
  }

  /** A node followed by a spliced-in run keeps its index. */
  lemma SpliceKeepsIndex(cs: seq<NodeId>, cs2: seq<NodeId>, m: seq<NodeId>, c: NodeId, pos: nat)
    requires c in cs && pos == IndexOf(cs, c) + 1 && cs2 == cs[..pos] + m + cs[pos..]
    ensures c in cs2 && IndexOf(cs2, c) == IndexOf(cs, c)
  {
    var i := IndexOf(cs, c);
    SpliceAfter(cs, i, m);
    IndexOfAt(cs2, c, i);
  }

  /** Cutting element i out of a sequence with m spliced in right after it. */
  lemma SpliceAfter<T>(a: seq<T>, i: nat, m: seq<T>)
    requires i < |a|
    ensures var k := a[..i + 1] + m + a[i + 1..];
      |k| == |a| + |m| && k[..i] == a[..i] && k[i] == a[i] && k[..i] + k[i + 1..] == a[..i] + m + a[i + 1..]
  {
    var k := a[..i + 1] + m + a[i + 1..];
    assert k[..i] == a[..i];
    assert k[i + 1..] == m + a[i + 1..];
  }

  /** replaceWithNodes' loop, run on the store. */
  method ReplacedLoop(s: Store, c: NodeId, src: Option<Store>, x: NodeId) returns (r: Store, n: NodeId)
    requires Wf(s) && c in s.nodes && ParentNode(s, c).Some? && s.nodes[ParentNode(s, c).value].kind == ElementNode
    requires Wf(Base(s, src)) && x in Base(s, src).nodes
    ensures (r, n) == NodesReplaced(s, c, src, x)
  {
    var q := ParentNode(s, c).value;
    var ids := Base(s, src).nodes[x].children;
    ChildSources(s, src, x);
    var t, last := ChainLoop(s, Repeat(src, |ids|), q, ids, Some(c));
    r, n := Detach(t, c), last.value;
  }

  /** Kinds kept over two edits and a removal are kept over all three. */
  lemma DetachKinds(s: Store, m: Store, t: Store, x: NodeId)
    requires Wf(t) && x in t.nodes && KindsKept(s, m) && KindsKept(m, t)
    ensures KindsKept(s, Detach(t, x))
  {
  }

  /** Every child of node x of a source is a node the import loops may copy. */
  lemma ChildSources(s: Store, src: Option<Store>, x: NodeId)
    requires Wf(Base(s, src)) && x in Base(s, src).nodes
    ensures var ids := Base(s, src).nodes[x].children; SourcesOk(s, Repeat(src, |ids|), ids)
  {
    assert NodeWf(Base(s, src), x);
  }

  /**
   * addNodesBefore's marker: a "#" text node put right before x below its parent q.
   */
  function WithMarker(s: Store, q: NodeId, x: NodeId): (r: (Store, NodeId))
    requires Wf(s) && q in s.nodes && s.nodes[q].kind == ElementNode && x in s.nodes[q].children
    ensures Wf(r.0) && KindsKept(s, r.0) && r.1 !in s.nodes && r.1 in r.0.nodes
    ensures r.0.nodes[r.1].kind == TextNode && r.0.nodes[r.1].value == "#"
    ensures r.0.nodes[q] == s.nodes[q].(children := Insert(s.nodes[q].children, IndexOf(s.nodes[q].children, x), r.1))
    ensures x in r.0.nodes[q].children && r.1 in r.0.nodes[q].children && r.0.nodes[q].kind == ElementNode
  {
    assert NodeWf(s, q);
    var a := Alloc(s, TextNode, "#text", "#", s.nodes[q].rank + 1);
    var t := Link(a.0, q, a.1, IndexOf(s.nodes[q].children, x));
    InsertFacts(s.nodes[q].children, IndexOf(s.nodes[q].children, x), a.1);
    (t, a.1)
  }

  /** The entries of a selection that toList turns into non-empty cursors: Document nodes drop out. */
  function Copyable(l: seq<NodeRef>): (r: seq<NodeRef>)
    reads set k | 0 <= k < |l| :: l[k].owner
    requires forall k :: 0 <= k < |l| ==> Live(l[k])
    ensures |r| <= |l|
    ensures forall k :: 0 <= k < |r| ==> r[k] in l && Live(r[k]) && r[k].owner.store.nodes[r[k].id].kind != DocumentNode
    ensures forall k :: 0 <= k < |l| && Live(l[k]) && l[k].owner.store.nodes[l[k].id].kind != DocumentNode ==> l[k] in r
  {
    if l == [] then []
    else
      var rest := Copyable(l[1..]);
      assert forall k :: 1 <= k < |l| ==> l[k] == l[1..][k - 1];
      assert Live(l[0]);
      if l[0].owner.store.nodes[l[0].id].kind == DocumentNode then rest else [l[0]] + rest
  }

  /** The node of each entry. */
  function IdsOf(es: seq<NodeRef>): (r: seq<NodeId>)
    ensures |r| == |es| && forall k :: 0 <= k < |es| ==> r[k] == es[k].id
  {
    seq(|es|, k requires 0 <= k < |es| => es[k].id)
  }

  /** Where each entry is copied from: None for this document d, read live, else the owner's store. */
  function SourcesOf(es: seq<NodeRef>, d: Document): (r: seq<Option<Store>>)
    reads set k | 0 <= k < |es| :: es[k].owner
    ensures |r| == |es|
    ensures forall k :: 0 <= k < |es| ==> r[k] == if es[k].owner == d then None else Some(es[k].owner.store)
  {
    if es == [] then []
    else [if es[0].owner == d then None else Some(es[0].owner.store)] + SourcesOf(es[1..], d)
  }

  /** Entries live in their documents, and those of d are in s, give sources the loops accept. */
  lemma EntrySources(s: Store, d: Document, es: seq<NodeRef>)
    requires Placeable(es) && d.store == s
    ensures SourcesOk(s, SourcesOf(es, d), IdsOf(es))
  {
  }

  /** Every entry is live and of a kind that may be copied below an element. */
  ghost predicate Placeable(es: seq<NodeRef>)
    reads set k | 0 <= k < |es| :: es[k].owner
  {
    forall k :: 0 <= k < |es| ==> Live(es[k]) && IsChildKind(es[k].owner.store.nodes[es[k].id].kind)
  }

  /**
   * addAll's splice: a copy of each entry of es, read when its turn comes,
   * appended in order below element p of d.
   */
  function AppendEntries(d: Document, es: seq<NodeRef>, p: NodeId): (r: Store)
    reads d, set k | 0 <= k < |es| :: es[k].owner
    requires d.Valid() && p in d.store.nodes && d.store.nodes[p].kind == ElementNode
    requires Placeable(es)
    ensures Wf(r) && KindsKept(d.store, r)
  {
    EntrySources(d.store, d, es);
    AppendCopies(d.store, SourcesOf(es, d), p, IdsOf(es)).0
  }

  /**
   * addAllBefore's splice: a copy of each entry of es, in order, inserted right
   * before node c below c's parent element.
   */
  function BeforeEntries(d: Document, es: seq<NodeRef>, c: NodeId): (r: Store)
    reads d, set k | 0 <= k < |es| :: es[k].owner
    requires d.Valid() && c in d.store.nodes && ParentNode(d.store, c).Some?
    requires d.store.nodes[ParentNode(d.store, c).value].kind == ElementNode
    requires Placeable(es)
    ensures Wf(r) && KindsKept(d.store, r)
  {
    EntrySources(d.store, d, es);
    CopiesBefore(d.store, SourcesOf(es, d), ParentNode(d.store, c).value, IdsOf(es), c).0
  }

  /**
   * addAllAfter's splice: the entries of es taken last first, a copy of each
   * inserted right after node c below c's parent element.
   */
  function AfterEntries(d: Document, es: seq<NodeRef>, c: NodeId): (r: Store)
    reads d, set k | 0 <= k < |es| :: es[k].owner
    requires d.Valid() && c in d.store.nodes && ParentNode(d.store, c).Some?
    requires d.store.nodes[ParentNode(d.store, c).value].kind == ElementNode
    requires Placeable(es)
    ensures Wf(r) && KindsKept(d.store, r)
  {
    var rs := Reversed(es);
    assert forall k :: 0 <= k < |rs| ==> rs[k] == es[|es| - 1 - k];
    EntrySources(d.store, d, rs);
    CopiesRightAfter(d.store, SourcesOf(rs, d), ParentNode(d.store, c).value, IdsOf(rs), c).0
  }

  /** addAllAfter's loop over the entries, last first, on d's store. */
  method AfterLoop(d: Document, es: seq<NodeRef>, c: NodeId) returns (t: Store)
    requires d.Valid() && c in d.store.nodes && ParentNode(d.store, c).Some?
    requires d.store.nodes[ParentNode(d.store, c).value].kind == ElementNode
    requires Placeable(es)
    ensures t == old(AfterEntries(d, es, c))
  {
    var rs := Reversed(es);
    assert forall k :: 0 <= k < |rs| ==> rs[k] == es[|es| - 1 - k];
    EntrySources(d.store, d, rs);
    t := RightAfterLoop(d.store, SourcesOf(rs, d), ParentNode(d.store, c).value, IdsOf(rs), c);
  }

  /** The scan at() makes over the children of e: the Element children named `name`, in document order. */
  method CollectNamed(s: Store, e: NodeId, name: string) returns (m: seq<NodeId>)
    requires e in s.nodes
    ensures m == ChildrenNamed(s, e, name)
  {
    var cs := s.nodes[e].children;
    m := [];
    var i := 0;
    while i < |cs|
      invariant 0 <= i <= |cs| && m == NamedAmong(s, cs[..i], name)
    {
      NamedAmongAppend(s, cs[..i], cs[i], name);
      assert cs[..i + 1] == cs[..i] + [cs[i]];
      if IsNamedElement(s, cs[i], name) {
        m := m + [cs[i]];
      }
      i := i + 1;
    }
    assert cs[..|cs|] == cs;
  }

  class XDoc {
    /** The owner document; null for the empty cursor. */
    var doc: Document?
    /** The scope node: end() stops there, equals and clone work on it. */
    var root: NodeId
    /** The selection; None once end() climbed onto the Document node. */
    var list: Option<seq<NodeRef>>
    var index: int

    ghost function Owners(): set<Document>
      reads this
    {
      if list.Some? then set k | 0 <= k < |list.value| :: list.value[k].owner else {}
    }

    /**
     * The state initialize establishes and every method keeps: a non-empty cursor's
     * root lies in its document and is not the Document node; when there is a
     * selection, the index is in range, the current node belongs to `doc` and is
     * not a Document node, and every selected node is live in its own document.
     * A cursor whose `doc` is null but which has a selection is one initialize
     * rooted at a Document node (getOwnerDocument of a Document is null): its
     * root is that Document node, in the document of the selected node.
     */
    ghost predicate Valid()
      reads this, doc, Owners()
    {
      (doc == null && list.Some? ==>
         0 <= index < |list.value| &&
         (forall k :: 0 <= k < |list.value| ==>
            list.value[k].owner.Valid() && list.value[k].id in list.value[k].owner.store.nodes) &&
         root in list.value[index].owner.store.nodes &&
         list.value[index].owner.store.nodes[root].kind == DocumentNode) &&
      (doc != null ==>
        doc.Valid() && root in doc.store.nodes && doc.store.nodes[root].kind != DocumentNode &&
        (list.Some? ==>
           0 <= index < |list.value| && list.value[index].owner == doc &&
           list.value[index].id in doc.store.nodes &&
           doc.store.nodes[list.value[index].id].kind != DocumentNode &&
           forall k :: 0 <= k < |list.value| ==> list.value[k].owner.Valid() &&
                                                 list.value[k].id in list.value[k].owner.store.nodes))
    }

    /** isEmpty. */
    predicate IsEmpty()
      reads this
    {
      doc == null
    }

    /** getCurrentNode of a non-empty cursor: the selected node, or the Document node. */
    function Current(): NodeId
      reads this
    {
      if list.Some? && 0 <= index < |list.value| then list.value[index].id else DocNode
    }

    /** The current node of a non-empty valid cursor is a node of its document. */
    lemma CurrentLive()
      requires Valid() && doc != null
      ensures Current() in doc.store.nodes
      ensures list.Some? ==> doc.store.nodes[Current()].kind != DocumentNode
      ensures list.None? ==> Current() == DocNode
    {
    }

    /** The empty cursor (the shared `empty` instance is modelled as a fresh one). */
    constructor Empty()
      ensures doc == null && list == None && index == 0 && Valid()
    {
      doc := null;
      root := 0;
      list := None;
      index := 0;
    }

    /** new XDoc(tag): a new document whose element is the root and the selection. */
    constructor (tag: string)
      requires IsXmlName(tag)
      ensures Valid() && fresh(doc) && doc.store == NewDocument(tag)
      ensures list == Some([NodeRef(doc, 1)]) && index == 0 && root == 1
    {
      var d := new Document(tag);
      doc := d;
      list := Some([NodeRef(d, 1)]);
      index := 0;
      root := 1;
    }

    /**
     * initialize(list, i, rt): root is rt, or the selected node when rt is null, and
     * the cursor is empty exactly when that root is a Document node.
     */
    constructor Select(l: seq<NodeRef>, i: nat, rt: Option<NodeId>)
      requires i < |l| && Live(l[i]) && forall k :: 0 <= k < |l| ==> Live(l[k])
      requires rt.Some? ==> rt.value in l[i].owner.store.nodes &&
                            (l[i].owner.store.nodes[rt.value].kind != DocumentNode ==>
                               l[i].owner.store.nodes[l[i].id].kind != DocumentNode)
      ensures Valid() && list == Some(l) && index == i
      ensures root == (if rt.Some? then rt.value else l[i].id)
      ensures doc == (if l[i].owner.store.nodes[root].kind == DocumentNode then null else l[i].owner)
    {
      list := Some(l);
      index := i;
      var rn := if rt.Some? then rt.value else l[i].id;
      root := rn;
      doc := if l[i].owner.store.nodes[rn].kind == DocumentNode then null else l[i].owner;
    }

    /** new XDoc(Document): IllegalArgument for null or a document without an element. */
    static method OfDocument(d: Document?) returns (r: Result<XDoc>)
      requires d != null ==> d.Valid()
      ensures d == null ==> r == Err(IllegalArgument)
      ensures d != null && d.DocumentElement().None? ==> r == Err(IllegalArgument)
      ensures d != null && d.DocumentElement().Some? ==>
        r.Ok? && fresh(r.value) && r.value.Valid() && r.value.doc == d &&
        r.value.list == Some([NodeRef(d, d.DocumentElement().value)]) && r.value.index == 0 &&
        r.value.root == d.DocumentElement().value
    {
      if d == null {
        return Err(IllegalArgument);
      }
      var e := d.DocumentElement();
      if e.None? {
        return Err(IllegalArgument);
      }
      var x := new XDoc.Select([NodeRef(d, e.value)], 0, Some(e.value));
      return Ok(x);
    }

    /** new XDoc(XDoc): a cursor rooted at the other cursor's current node. */
    static method OfCursor(x: XDoc?) returns (r: Result<XDoc>)
      requires x != null ==> x.Valid()
      ensures x == null || x.doc == null ==> r == Err(IllegalArgument)
      ensures x != null && x.doc != null ==>
        r.Ok? && fresh(r.value) && r.value.Valid() &&
        r.value.list == Some([NodeRef(x.doc, x.Current())]) && r.value.index == 0 &&
        r.value.root == x.Current() &&
        r.value.doc == (if x.list.None? then null else x.doc)
    {
      if x == null || x.doc == null {
        return Err(IllegalArgument);
      }
      x.CurrentLive();
      var c := new XDoc.Select([NodeRef(x.doc, x.Current())], 0, Some(x.Current()));
      return Ok(c);
    }

    // ------------------------------------------------------------ navigation

    /** at(int): the i-th child of root as the start of a selection of root's children. */
    method AtIndex(i: int) returns (r: XDoc)
      requires Valid()
      ensures fresh(r) && r.Valid()
      ensures doc != null && 0 <= i < |doc.store.nodes[root].children| ==>
        var cs := doc.store.nodes[root].children;
        r.doc == doc && r.list == Some(Refs(doc, cs)) && r.index == i && r.root == cs[i]
      ensures !(doc != null && 0 <= i < |doc.store.nodes[root].children|) ==> r.doc == null
    {
      if doc != null && 0 <= i < |doc.store.nodes[root].children| {
        var cs := doc.store.nodes[root].children;
        ToTreeParts(doc.store, root);
        assert NodeWf(doc.store, root);
        r := new XDoc.Select(Refs(doc, cs), i, None);
      } else {
        r := new XDoc.Empty();
      }
    }

    /**
     * at(Node): IllegalArgument for null; the shared empty cursor unless the node
     * belongs to this document. A Document node has no owner document, so this
     * document's own Document node also gives the empty cursor.
     */
    method AtNode(n: Option<NodeRef>) returns (r: Result<XDoc>)
      requires Valid() && (n.Some? ==> Live(n.value))
      ensures n.None? ==> r == Err(IllegalArgument)
      ensures n.Some? ==> r.Ok? && fresh(r.value) && r.value.Valid()
      ensures n.Some? && doc != null && n.value.owner == doc &&
              doc.store.nodes[n.value.id].kind != DocumentNode ==>
        r.value.doc == doc && r.value.list == Some([n.value]) && r.value.index == 0 &&
        r.value.root == n.value.id
      ensures n.Some? && !(doc != null && n.value.owner == doc && doc.store.nodes[n.value.id].kind != DocumentNode) ==>
        r.value.doc == null && r.value.list == None
    {
      if n.None? {
        return Err(IllegalArgument);
      }
      if doc == null || n.value.owner != doc || doc.store.nodes[n.value.id].kind == DocumentNode {
        var e := new XDoc.Empty();
        return Ok(e);
      }
      var x := new XDoc.Select([n.value], 0, None);
      return Ok(x);
    }

    /** getFirst: the first node of the selection. */
    method GetFirst() returns (r: XDoc)
      requires Valid()
      ensures fresh(r) && r.Valid()
      ensures doc != null && list.Some? ==>
        r.list == list && r.index == 0 && r.root == list.value[0].id &&
        r.doc == (if list.value[0].owner.store.nodes[list.value[0].id].kind == DocumentNode
                  then null else list.value[0].owner)
      ensures doc == null || list.None? ==> r.doc == null
    {
      if doc != null && list.Some? {
        r := new XDoc.Select(list.value, 0, None);
      } else {
        r := new XDoc.Empty();
      }
    }

    /** getNext: the following node of the selection, or empty after the last one. */
    method GetNext() returns (r: XDoc)
      requires Valid()
      ensures fresh(r) && r.Valid()
      ensures doc != null && list.Some? && index < |list.value| - 1 ==>
        r.list == list && r.index == index + 1 && r.root == list.value[index + 1].id &&
        r.doc == (if list.value[index + 1].owner.store.nodes[list.value[index + 1].id].kind == DocumentNode
                  then null else list.value[index + 1].owner)
      ensures !(doc != null && list.Some? && index < |list.value| - 1) ==> r.doc == null
    {
      if doc != null && list.Some? && index < |list.value| - 1 {
        r := new XDoc.Select(list.value, index + 1, None);
      } else {
        r := new XDoc.Empty();
      }
    }

    /** length: 0 when empty, 1 on the Document node, else the selection's size. */
    method Length() returns (n: int)
      requires Valid()
      ensures doc == null ==> n == 0
      ensures doc != null && list.None? ==> n == 1
      ensures doc != null && list.Some? ==> n == |list.value| && n > index
    {
      if doc == null {
        return 0;
      }
      if list.None? {
        return 1;
      }
      return |list.value|;
    }

    /** getName: IndexOutOfBounds on the empty cursor, else the current node's name. */
    method GetName() returns (r: Result<string>)
      requires Valid()
      ensures doc == null ==> r == Err(IndexOutOfBounds)
      ensures doc != null ==> r == Ok(doc.store.nodes[Current()].name)
    {
      if doc == null {
        return Err(IndexOutOfBounds);
      }
      CurrentLive();
      return Ok(doc.store.nodes[Current()].name);
    }

    /** copy: the same selection and root in a new cursor; empty cursors return themselves. */
    method Copy() returns (r: Result<XDoc>)
      requires Valid()
      ensures doc == null ==> r == Ok(this)
      ensures doc != null && list.None? ==> r == Err(IllegalArgument)
      ensures doc != null && list.Some? ==>
        r.Ok? && fresh(r.value) && r.value.Valid() && r.value.doc == doc &&
        r.value.list == list && r.value.index == index && r.value.root == root
    {
      if doc == null {
        return Ok(this);
      }
      if list.None? {
        return Err(IllegalArgument);
      }
      var x := new XDoc.Select(list.value, index, Some(root));
      return Ok(x);
    }

    // ------------------------------------------------------------ builder

    /** The node `marker` names inside this cursor's document, if any. */
    function MarkerIn(marker: Option<NodeRef>): Option<NodeId>
      reads this
    {
      if marker.Some? && marker.value.owner == doc then Some(marker.value.id) else None
    }

    /** What appendChild of a new element accepts: an element, or a Document without one. */
    ghost predicate AcceptsElement()
      reads this, doc, Owners()
      requires Valid() && doc != null
    {
      doc.store.nodes[Current()].kind == ElementNode ||
      (list.None? && doc.DocumentElement().None?)
    }

    /**
     * start(tag): IllegalState when empty, IllegalArgument for a null tag,
     * InvalidCharacter when tag is not an XML name; otherwise a new element named
     * tag becomes the last child of the current node and the only selected node,
     * with root unchanged.
     */
    method Start(tag: Option<string>) returns (o: Outcome)
      requires Valid()
      requires doc != null && tag.Some? && IsXmlName(tag.value) ==> AcceptsElement()
      modifies this, doc
      ensures Valid() && doc == old(doc) && root == old(root)
      ensures old(doc) == null ==> o == Fail(IllegalState) && unchanged(this)
      ensures old(doc) != null && tag.None? ==> o == Fail(IllegalArgument) && unchanged(this) && unchanged(doc)
      ensures old(doc) != null && tag.Some? && !IsXmlName(tag.value) ==>
        o == Fail(InvalidCharacter) && unchanged(this) && unchanged(doc)
      ensures old(doc) != null && tag.Some? && IsXmlName(tag.value) ==>
        var r := AppendNew(old(doc.store), old(Current()), ElementNode, tag.value, "");
        o == Pass && doc.store == r.0 && list == Some([NodeRef(doc, r.1)]) && index == 0
      ensures old(doc) != null && tag.Some? && IsXmlName(tag.value) ==>
        ToTree(doc.store, old(Current())) ==
          var t := old(ToTree(doc.store, Current()));
          t.(children := t.children + [Tree(ElementNode, tag.value, "", [], [])])
    {
      if doc == null {
        return Fail(IllegalState);
      }
      if tag.None? {
        return Fail(IllegalArgument);
      }
      if !IsXmlName(tag.value) {
        return Fail(InvalidCharacter);
      }
      CurrentLive();
      var c := Current();
      var r := AppendNew(doc.store, c, ElementNode, tag.value, "");
      AppendNewTree(doc.store, c, ElementNode, tag.value, "");
      doc.store := r.0;
      list := Some([NodeRef(doc, r.1)]);
      index := 0;
      return Pass;
    }

    /**
     * end(): IllegalState when empty or standing on root; otherwise the cursor
     * moves to the parent node, and onto the Document (no selection, index -1)
     * when that parent is the Document.
     */
    method End() returns (o: Outcome)
      requires Valid()
      requires doc != null && Current() != root ==> Up(doc.store, Current()).Some?
      modifies this
      ensures Valid() && doc == old(doc) && root == old(root)
      ensures old(doc) == null || old(Current()) == root ==>
        o == Fail(IllegalState) && list == old(list) && index == old(index)
      ensures old(doc) != null && old(Current()) != root ==>
        o == Pass && Some(Current()) == Up(doc.store, old(Current())) &&
        (list.None? <==> Current() == DocNode) &&
        (list.Some? ==> list == Some([NodeRef(doc, Current())]) && index == 0)
    {
      if doc == null {
        return Fail(IllegalState);
      }
      if Current() == root {
        return Fail(IllegalState);
      }
      CurrentLive();
      var p := ParentNode(doc.store, Current()).value;
      if doc.store.nodes[p].kind == DocumentNode {
        list := None;
        index := -1;
      } else {
        list := Some([NodeRef(doc, p)]);
        index := 0;
      }
      return Pass;
    }

    /**
     * end(marker): repeats end() until the current node is the marker; lands on it
     * when the climb reaches it, else fails with IllegalState at root.
     */
    method EndAt(marker: Option<NodeRef>) returns (o: Outcome)
      requires Valid()
      requires doc != null ==> Climbable(doc.store, Current(), root, MarkerIn(marker))
      modifies this
      ensures Valid() && doc == old(doc) && root == old(root)
      ensures old(doc) == null ==> o == Fail(IllegalState) && unchanged(this)
      ensures old(doc) != null ==>
        var c := Climb(doc.store, old(Current()), root, MarkerIn(marker));
        (c.Ok? ==> o == Pass && Current() == c.value) &&
        (c.Err? ==> o == Fail(IllegalState) && Current() == root)
    {
      if doc == null {
        return Fail(IllegalState);
      }
      var m := MarkerIn(marker);
      ghost var goal := Climb(doc.store, Current(), root, m);
      CurrentLive();
      while Some(Current()) != m
        invariant Valid() && doc == old(doc) && root == old(root) && doc.store == old(doc.store)
        invariant Current() in doc.store.nodes && MarkerIn(marker) == m
        invariant Climbable(doc.store, Current(), root, m)
        invariant Climb(doc.store, Current(), root, m) == goal
        decreases Height(doc.store, Current())
      {
        var e := End();
        if e.Fail? {
          return e;
        }
      }
      return Pass;
    }

    /** endAll: repeats end() until the cursor stands on root. */
    method EndAll() returns (o: Outcome)
      requires Valid()
      requires doc != null ==> Climbable(doc.store, Current(), root, None)
      modifies this
      ensures Valid() && doc == old(doc) && root == old(root)
      ensures old(doc) == null ==> o == Fail(IllegalState) && unchanged(this)
      ensures old(doc) != null ==> o == Pass && Current() == root
      ensures old(doc) != null && old(Current()) == root ==> list == old(list) && index == old(index)
      ensures old(doc) != null && old(Current()) != root ==> list == Some([NodeRef(doc, root)]) && index == 0
    {
      if doc == null {
        return Fail(IllegalState);
      }
      CurrentLive();
      while Current() != root
        invariant Valid() && doc == old(doc) && root == old(root) && doc.store == old(doc.store)
        invariant Current() in doc.store.nodes
        invariant Climbable(doc.store, Current(), root, None)
        invariant old(Current()) == root ==> list == old(list) && index == old(index)
        invariant Current() == old(Current()) || (list.None? && Current() == DocNode) ||
                  (list == Some([NodeRef(doc, Current())]) && index == 0)
        decreases Height(doc.store, Current())
      {
        var e := End();
      }
      return Pass;
    }

    /**
     * attr(tag, value): IllegalState when empty, IllegalArgument for a null tag, no
     * change for a null value, InvalidCharacter when tag is not an XML name;
     * otherwise the current element's attribute tag is set to value, replacing an
     * attribute of that name or adding one at the end.
     */
    method Attr(tag: Option<string>, value: Option<string>) returns (o: Outcome)
      requires Valid()
      requires doc != null && tag.Some? && value.Some? && IsXmlName(tag.value) ==>
        doc.store.nodes[Current()].kind == ElementNode
      modifies doc
      ensures Valid() && unchanged(this)
      ensures doc == null ==> o == Fail(IllegalState)
      ensures doc != null && tag.None? ==> o == Fail(IllegalArgument) && unchanged(doc)
      ensures doc != null && tag.Some? && value.None? ==> o == Pass && unchanged(doc)
      ensures doc != null && tag.Some? && value.Some? && !IsXmlName(tag.value) ==>
        o == Fail(InvalidCharacter) && unchanged(doc)
      ensures doc != null && tag.Some? && value.Some? && IsXmlName(tag.value) ==>
        o == Pass && doc.store == SetAttr(old(doc.store), Current(), tag.value, value.value) &&
        AttrPairs(doc.store, Current()) == Put(old(AttrPairs(doc.store, Current())), tag.value, value.value) &&
        Get(AttrPairs(doc.store, Current()), tag.value) == value
      ensures doc != null && tag.Some? && value.Some? && IsXmlName(tag.value) ==>
        ToTree(doc.store, Current()) ==
          old(ToTree(doc.store, Current())).(attrs := AttrLeaves(AttrPairs(doc.store, Current())))
    {
      if doc == null {
        return Fail(IllegalState);
      }
      if tag.None? {
        return Fail(IllegalArgument);
      }
      if value.None? {
        return Pass;
      }
      if !IsXmlName(tag.value) {
        return Fail(InvalidCharacter);
      }
      CurrentLive();
      var c := Current();
      SetAttrTree(doc.store, c, tag.value, value.value);
      AttrEditKinds(doc.store, SetAttr(doc.store, c, tag.value, value.value), c);
      Commit(SetAttr(doc.store, c, tag.value, value.value));
      return Pass;
    }

    /** Replaces the document's store by an edit that keeps every node and its kind. */
    method Commit(t: Store)
      requires Valid() && doc != null && Wf(t) && KindsKept(doc.store, t)
      modifies doc
      ensures Valid() && unchanged(this) && doc.store == t
    {
      doc.store := t;
    }

    /**
     * value(v): IllegalState when empty, no change for a null value; otherwise a
     * text node holding v becomes the last child of the current element. On an
     * attribute the appended text joins its text child, so v is added to the end
     * of the attribute's value.
     */
    method Value(v: Option<string>) returns (o: Outcome)
      requires Valid()
      requires doc != null && v.Some? ==>
        doc.store.nodes[Current()].kind == ElementNode || doc.store.nodes[Current()].kind == AttributeNode
      modifies doc
      ensures Valid() && unchanged(this)
      ensures doc == null ==> o == Fail(IllegalState)
      ensures doc != null && v.None? ==> o == Pass && unchanged(doc)
      ensures doc != null && v.Some? && old(doc.store.nodes[Current()].kind) == ElementNode ==>
        o == Pass && doc.store == AppendNew(old(doc.store), Current(), TextNode, "#text", v.value).0 &&
        ToTree(doc.store, Current()) ==
          var t := old(ToTree(doc.store, Current()));
          t.(children := t.children + [Tree(TextNode, "#text", v.value, [], [])])
      ensures doc != null && v.Some? && old(doc.store.nodes[Current()].kind) == AttributeNode ==>
        o == Pass && doc.store == SetValue(old(doc.store), Current(), old(doc.store.nodes[Current()].value) + v.value) &&
        ToTree(doc.store, Current()) == old(ToTree(doc.store, Current())).(value := old(doc.store.nodes[Current()].value) + v.value)
    {
      if doc == null {
        return Fail(IllegalState);
      }
      if v.None? {
        return Pass;
      }
      CurrentLive();
      var c := Current();
      if doc.store.nodes[c].kind == AttributeNode {
        var joined := doc.store.nodes[c].value + v.value;
        SetValueTree(doc.store, c, joined);
        Commit(SetValue(doc.store, c, joined));
        return Pass;
      }
      AppendText(v.value);
      return Pass;
    }

    /** value(v)'s step on an element: a text node holding v becomes its last child. */
    method AppendText(v: string)
      requires Valid() && doc != null && doc.store.nodes[Current()].kind == ElementNode
      modifies doc
      ensures Valid() && unchanged(this)
      ensures doc.store == AppendNew(old(doc.store), Current(), TextNode, "#text", v).0
      ensures ToTree(doc.store, Current()) ==
        var t := old(ToTree(doc.store, Current()));
        t.(children := t.children + [Tree(TextNode, "#text", v, [], [])])
    {
      CurrentLive();
      var c := Current();
      AppendNewTree(doc.store, c, TextNode, "#text", v);
      Commit(AppendNew(doc.store, c, TextNode, "#text", v).0);
    }

    /**
     * cDataSection(v): as value(v), with a CDATA section in place of the text node.
     */
    method CDataSection(v: Option<string>) returns (o: Outcome)
      requires Valid()
      requires doc != null && v.Some? ==> doc.store.nodes[Current()].kind == ElementNode
      modifies doc
      ensures Valid() && unchanged(this)
      ensures doc == null ==> o == Fail(IllegalState)
      ensures doc != null && v.None? ==> o == Pass && unchanged(doc)
      ensures doc != null && v.Some? ==>
        o == Pass && doc.store == AppendNew(old(doc.store), Current(), CDataNode, "#cdata-section", v.value).0
      ensures doc != null && v.Some? ==>
        ToTree(doc.store, Current()) ==
          var t := old(ToTree(doc.store, Current()));
          t.(children := t.children + [Tree(CDataNode, "#cdata-section", v.value, [], [])])
    {
      if doc == null {
        return Fail(IllegalState);
      }
      if v.None? {
        return Pass;
      }
      CurrentLive();
      var c := Current();
      AppendNewTree(doc.store, c, CDataNode, "#cdata-section", v.value);
      Commit(AppendNew(doc.store, c, CDataNode, "#cdata-section", v.value).0);
      return Pass;
    }

    /**
     * elem(tag): start(tag) then end(): a new empty element is appended to the
     * current node, which stays current, now as the only selected node; start's
     * failures leave everything as it was.
     */
    method Elem(tag: Option<string>) returns (o: Outcome)
      requires Valid()
      requires doc != null && tag.Some? && IsXmlName(tag.value) ==> AcceptsElement()
      modifies this, doc
      ensures Valid() && doc == old(doc) && root == old(root)
      ensures old(doc) == null ==> o == Fail(IllegalState) && unchanged(this)
      ensures old(doc) != null && tag.None? ==> o == Fail(IllegalArgument) && unchanged(this) && unchanged(doc)
      ensures old(doc) != null && tag.Some? && !IsXmlName(tag.value) ==>
        o == Fail(InvalidCharacter) && unchanged(this) && unchanged(doc)
      ensures old(doc) != null && tag.Some? && IsXmlName(tag.value) ==>
        o == Pass && Current() == old(Current()) &&
        doc.store == AppendNew(old(doc.store), Current(), ElementNode, tag.value, "").0 &&
        (list.None? <==> Current() == DocNode) &&
        (list.Some? ==> list == Some([NodeRef(doc, Current())]) && index == 0)
      ensures old(doc) != null && tag.Some? && IsXmlName(tag.value) ==>
        ToTree(doc.store, Current()) ==
          var t := old(ToTree(doc.store, Current()));
          t.(children := t.children + [Tree(ElementNode, tag.value, "", [], [])])
    {
      if doc == null {
        return Fail(IllegalState);
      }
      if tag.None? {
        return Fail(IllegalArgument);
      }
      CurrentLive();
      ghost var c := Current();
      o := Start(tag);
      if o.Fail? {
        return;
      }
      CurrentLive();
      o := End();
      assert Current() == c;
    }

    /**
     * elem(tag, value): no change for a null value (even on the empty cursor);
     * otherwise start(tag), value(value), end(): the current node gains a last
     * child element named tag holding one text node, and stays current; start's
     * failures leave everything as it was.
     */
    method ElemValue(tag: Option<string>, value: Option<string>) returns (o: Outcome)
      requires Valid()
      requires doc != null && tag.Some? && value.Some? && IsXmlName(tag.value) ==> AcceptsElement()
      modifies this, doc
      ensures Valid() && doc == old(doc) && root == old(root)
      ensures value.None? ==> o == Pass && unchanged(this) && (old(doc) != null ==> unchanged(doc))
      ensures value.Some? && old(doc) == null ==> o == Fail(IllegalState) && unchanged(this)
      ensures value.Some? && old(doc) != null && tag.None? ==>
        o == Fail(IllegalArgument) && unchanged(this) && unchanged(doc)
      ensures value.Some? && old(doc) != null && tag.Some? && !IsXmlName(tag.value) ==>
        o == Fail(InvalidCharacter) && unchanged(this) && unchanged(doc)
      ensures value.Some? && old(doc) != null && tag.Some? && IsXmlName(tag.value) ==>
        var a := AppendNew(old(doc.store), old(Current()), ElementNode, tag.value, "");
        o == Pass && Current() == old(Current()) &&
        doc.store == AppendNew(a.0, a.1, TextNode, "#text", value.value).0 &&
        a.1 in doc.store.nodes &&
        ToTree(doc.store, a.1) == Tree(ElementNode, tag.value, "", [], [Tree(TextNode, "#text", value.value, [], [])]) &&
        (list.None? <==> Current() == DocNode) &&
        (list.Some? ==> list == Some([NodeRef(doc, Current())]) && index == 0)
    {
      if value.None? {
        return Pass;
      }
      if doc == null {
        return Fail(IllegalState);
      }
      if tag.None? {
        return Fail(IllegalArgument);
      }
      CurrentLive();
      ghost var c := Current();
      o := Start(tag);
      if o.Fail? {
        return;
      }
      CurrentLive();
      ghost var e := Current();
      ghost var s1 := doc.store;
      assert s1.nodes[e] == NodeData(ElementNode, tag.value, "", [], [], Some(c), s1.nodes[e].rank);
      LeafTree(s1, e);
      assert ParentNode(s1, e) == Some(c);
      o := CloseWithText(value.value);
      assert Current() == c;
    }

    /** value(v) and then end() on a new element: it gains the text child, and the cursor steps up. */
    method CloseWithText(v: string) returns (o: Outcome)
      requires Valid() && doc != null && doc.store.nodes[Current()].kind == ElementNode
      requires Current() != root && Up(doc.store, Current()).Some?
      modifies this, doc
      ensures Valid() && doc == old(doc) && root == old(root)
      ensures doc.store == AppendNew(old(doc.store), old(Current()), TextNode, "#text", v).0
      ensures old(Current()) in doc.store.nodes && ToTree(doc.store, old(Current())) ==
        var t := old(ToTree(doc.store, Current()));
        t.(children := t.children + [Tree(TextNode, "#text", v, [], [])])
      ensures o == Pass && Some(Current()) == Up(old(doc.store), old(Current()))
      ensures (list.None? <==> Current() == DocNode) && (list.Some? ==> list == Some([NodeRef(doc, Current())]) && index == 0)
    {
      CurrentLive();
      UpAfterText(doc.store, Current(), v);
      AppendText(v);
      o := End();
    }

    /**
     * getRoot: IllegalArgument without a selection; otherwise a new cursor with the
     * same selection and root.
     */
    method GetRoot() returns (r: Result<XDoc>)
      requires Valid()
      ensures list.None? ==> r == Err(IllegalArgument)
      ensures list.Some? ==> r.Ok? && fresh(r.value) && r.value.Valid()
      ensures list.Some? ==>
        r.value.doc == doc && r.value.list == list && r.value.index == index && r.value.root == root
    {
      if list.None? {
        return Err(IllegalArgument);
      }
      var x := new XDoc.Select(list.value, index, Some(root));
      return Ok(x);
    }

    /**
     * The documents insertValueAt may edit: this cursor's own, or, for a cursor rooted
     * at a Document node, the document that Document node belongs to.
     */
    ghost function InsertTarget(): set<Document>
      reads this
    {
      if doc != null then {doc}
      else if list.Some? && 0 <= index < |list.value| then {list.value[index].owner}
      else {}
    }

    /**
     * insertValueAt(xpath, value): IllegalArgument for a null path, no change for a
     * null value; a working copy of the cursor walks the path's segments, creating
     * the elements the path names but does not find, and deposits the value at the
     * end. On the shared empty cursor only a '#' deposit of "" can succeed; on a cursor
     * rooted at a Document node only the `name[last()]` lookup reaches the tree; on the
     * Document node of a non-empty cursor the copy fails with IllegalArgument.
     */
    method InsertValueAt(xpath: Option<string>, value: Option<string>) returns (o: Outcome)
      requires Valid()
      requires doc != null && list.Some? && xpath.Some? && value.Some? ==>
        doc.store.nodes[Current()].kind == ElementNode && StepNames(Segments(xpath.value))
      requires doc == null && list.Some? && xpath.Some? && value.Some? ==> StepNames(Segments(xpath.value))
      modifies InsertTarget()
      ensures Valid() && unchanged(this)
      ensures xpath.None? ==> o == Fail(IllegalArgument) && unchanged(InsertTarget())
      ensures xpath.Some? && value.None? ==> o == Pass && unchanged(InsertTarget())
      ensures xpath.Some? && value.Some? && doc == null && list.None? ==> o == EmptyInsert(xpath.value, value.value)
      ensures xpath.Some? && value.Some? && doc == null && list.Some? ==>
        var d := list.value[index].owner;
        (d.store, o) == DocRootedInsert(old(d.store), root, xpath.value, value.value)
      ensures xpath.Some? && value.Some? && doc != null && list.None? ==>
        o == Fail(IllegalArgument) && unchanged(doc)
      ensures xpath.Some? && value.Some? && doc != null && list.Some? ==>
        (doc.store, o) == Inserts.InsertValueAt(old(doc.store), Pos(root, old(Current())), xpath.value, value.value)
    {
      if xpath.None? {
        return Fail(IllegalArgument);
      }
      if value.None? {
        return Pass;
      }
      var v := value.value;
      if doc == null {
        if list.None? {
          return EmptyInsert(xpath.value, v);
        }
        o := DocRootedAt(xpath.value, v);
        return;
      }
      if list.None? {
        return Fail(IllegalArgument);
      }
      o := InsertAt(xpath.value, v);
    }

    /**
     * insertValueAt on a cursor rooted at a Document node, past the null checks: the
     * cursor is its own working copy; a first unindexed segment that the XPath lookup
     * finds below the Document node hands the walk to a cursor on the found element.
     */
    method DocRootedAt(xpath: string, v: string) returns (o: Outcome)
      requires Valid() && doc == null && list.Some? && StepNames(Segments(xpath))
      modifies list.value[index].owner
      ensures Valid() && unchanged(this)
      ensures var d := list.value[index].owner; (d.store, o) == DocRootedInsert(old(d.store), root, xpath, v)
    {
      var d := list.value[index].owner;
      var segs := Segments(xpath);
      if xpath == [] || |segs| == 1 {
        return EmptyInsert(xpath, v);
      }
      var parsed := ParseSegment(segs[0]);
      if parsed.Err? || parsed.value.index >= 0 {
        return EmptyInsert(xpath, v);
      }
      var found := LastNamed(d.store, root, parsed.value.token);
      if found.None? {
        return EmptyInsert(xpath, v);
      }
      DocRootedFound(d.store, root, xpath, v, found.value);
      o := WalkFromFound(found.value, segs[1..], v);
    }

    /** The rest of the walk on a Document-rooted cursor, by a cursor on the element x the lookup found. */
    method WalkFromFound(x: NodeId, segs: seq<string>, v: string) returns (o: Outcome)
      requires Valid() && doc == null && list.Some?
      requires Usable(list.value[index].owner.store, Pos(x, x)) && |segs| >= 1 && StepNames(segs)
      modifies list.value[index].owner
      ensures Valid() && unchanged(this)
      ensures var d := list.value[index].owner; (d.store, o) == Walk(old(d.store), Pos(x, x), segs, v)
    {
      var d := list.value[index].owner;
      ghost var s0 := d.store;
      var c := new XDoc.Select([NodeRef(d, x)], 0, None);
      o := c.WalkSegments(Pos(x, x), segs, v);
      assert Additive(s0, d.store);
      assert root in d.store.nodes && d.store.nodes[root].kind == DocumentNode;
    }

    /** insertValueAt on a selection, past the null checks: the copy stands where this cursor does. */
    method InsertAt(xpath: string, v: string) returns (o: Outcome)
      requires Valid() && doc != null && list.Some?
      requires doc.store.nodes[Current()].kind == ElementNode && StepNames(Segments(xpath))
      modifies doc
      ensures Valid() && unchanged(this)
      ensures (doc.store, o) == Inserts.InsertValueAt(old(doc.store), Pos(root, old(Current())), xpath, v)
    {
      CurrentLive();
      var p := Pos(root, Current());
      ghost var s0 := doc.store;
      ghost var r := Inserts.InsertValueAt(s0, p, xpath, v);
      if xpath == [] {
        assert r == (Deposit(s0, p.at, v), Pass);
        DepositHere(v);
        return Pass;
      }
      assert r == Walk(s0, p, Segments(xpath), v);
      o := WalkSegments(p, Segments(xpath), v);
      assert (doc.store, o) == r;
    }

    /** The final value(v) of insertValueAt when the path is empty: text only for non-empty v. */
    method DepositHere(v: string)
      requires Valid() && doc != null && doc.store.nodes[Current()].kind == ElementNode
      modifies doc
      ensures Valid() && unchanged(this) && doc.store == Deposit(old(doc.store), Current(), v)
    {
      Commit(Deposit(doc.store, Current(), v));
    }

    /** The segment loop of insertValueAt, from the working position p. */
    method WalkSegments(p: Pos, segs: seq<string>, v: string) returns (o: Outcome)
      requires Valid() && doc != null && Usable(doc.store, p) && |segs| >= 1 && StepNames(segs)
      modifies doc
      ensures Valid() && unchanged(this)
      ensures (doc.store, o) == Walk(old(doc.store), p, segs, v)
    {
      ghost var goal := Walk(doc.store, p, segs, v);
      var at := p;
      var i := 0;
      while true
        invariant 0 <= i < |segs| && Valid() && unchanged(this) && doc != null && Usable(doc.store, at)
        invariant StepNames(segs[i..]) && Walk(doc.store, at, segs[i..], v) == goal
        decreases |segs| - i
      {
        var parsed := ParseSegment(segs[i]);
        if parsed.Err? {
          return Fail(parsed.error);
        }
        var seg := parsed.value;
        if i == |segs| - 1 {
          Commit(Finish(doc.store, at.at, seg.token, v));
          return Pass;
        }
        WalkNext(doc.store, at, segs[i..], v);
        assert segs[i..][1..] == segs[i + 1..];
        var n := Step(doc.store, at, seg);
        Commit(n.0);
        at := n.1;
        i := i + 1;
      }
    }

    // ------------------------------------------------------------ removal

    /**
     * remove(): on a non-empty cursor the current node leaves its parent (an
     * attribute its owner element) and the selection is dropped, so the cursor
     * stands on the Document node; the result is the empty cursor.
     */
    method Remove() returns (r: XDoc)
      requires Valid()
      modifies this, doc
      ensures fresh(r) && r.doc == null && Valid()
      ensures doc == old(doc) && root == old(root) && index == old(index)
      ensures old(doc) == null ==> unchanged(this)
      ensures old(doc) != null ==>
        list == None && old(Current()) in doc.store.nodes &&
        doc.store == Detach(old(doc.store), old(Current())) &&
        doc.store.nodes[old(Current())].parent == None &&
        ToTree(doc.store, old(Current())) == old(ToTree(doc.store, Current()))
    {
      r := new XDoc.Empty();
      if doc == null {
        return;
      }
      CurrentLive();
      var c := Current();
      DetachKeepsSubtree(doc.store, c);
      Commit(Detach(doc.store, c));
      list := None;
    }

    /**
     * removeAll: remove() on a cursor over each selected node in turn, so every
     * selected node leaves its parent or owner in its own document; a selected
     * Document node gives an empty cursor and stays as it is.
     */
    method RemoveAll()
      requires Valid()
      modifies Owners()
      ensures Valid() && unchanged(this)
      ensures doc != null && list.Some? ==>
        forall d :: d in Owners() ==> d.store == DetachAll(old(d.store), IdsIn(list.value, d))
      ensures doc == null || list.None? ==> forall d :: d in Owners() ==> unchanged(d)
    {
      if doc == null || list.None? {
        return;
      }
      var l := list.value;
      ghost var ds := Owners();
      ghost var olds := map d | d in ds :: d.store;
      assert Covers(olds, l) && forall d :: d in ds ==> Wf(olds[d]) && HasDocNode(olds[d]);
      DetachEach(l, ds, olds);
      assert l[..|l|] == l;
      forall d | d in ds
        ensures d.Valid() && KindsKept(olds[d], d.store) && d.store == DetachAll(olds[d], IdsIn(l, d))
      {
        RemovedValid(olds, l, |l|, d, d.store);
      }
      forall k | 0 <= k < |l|
        ensures l[k].owner.Valid() && l[k].id in l[k].owner.store.nodes
      {
        assert l[k].owner in ds;
      }
      assert doc in ds && olds[doc] == old(doc.store);
      ghost var c := l[index].id;
      assert root in olds[doc].nodes && c in olds[doc].nodes;
      assert doc.store.nodes[root].kind == olds[doc].nodes[root].kind;
      assert doc.store.nodes[c].kind == olds[doc].nodes[c].kind;
    }

    /**
     * removeAttr(name): no change on the empty cursor, IllegalArgument for a null
     * name; otherwise the current element loses its attribute of that name, or the
     * call fails with NotFound when it has none.
     */
    method RemoveAttr(name: Option<string>) returns (o: Outcome)
      requires Valid()
      requires doc != null && name.Some? ==> doc.store.nodes[Current()].kind == ElementNode
      modifies doc
      ensures Valid() && unchanged(this)
      ensures doc == null ==> o == Pass
      ensures doc != null && name.None? ==> o == Fail(IllegalArgument) && unchanged(doc)
      ensures doc != null && name.Some? ==>
        var e := Edits.RemoveAttr(old(doc.store), Current(), name.value);
        (e.Err? ==> o == Fail(NotFound) && unchanged(doc)) &&
        (e.Ok? ==> o == Pass && doc.store == e.value &&
                   AttrPairs(doc.store, Current()) == Drop(old(AttrPairs(doc.store, Current())), name.value))
    {
      if doc == null {
        return Pass;
      }
      if name.None? {
        return Fail(IllegalArgument);
      }
      CurrentLive();
      var c := Current();
      var e := Edits.RemoveAttr(doc.store, c, name.value);
      if e.Err? {
        return Fail(NotFound);
      }
      AttrEditKinds(doc.store, e.value, c);
      Commit(e.value);
      return Pass;
    }

    /**
     * removeNodes: no change when empty; otherwise removes the current node's first
     * child until none is left. An attribute keeps its value as a text child, so
     * removing that child leaves the attribute's value empty.
     */
    method RemoveNodes()
      requires Valid()
      modifies doc
      ensures Valid() && unchanged(this)
      ensures doc != null ==> Current() in doc.store.nodes && Current() in old(doc.store.nodes)
      ensures doc != null && old(doc.store.nodes[Current()].kind) == AttributeNode ==>
        doc.store == SetValue(old(doc.store), Current(), "") &&
        ToTree(doc.store, Current()) == old(ToTree(doc.store, Current())).(value := "")
      ensures doc != null && old(doc.store.nodes[Current()].kind) != AttributeNode ==>
        doc.store == RemoveChildren(old(doc.store), Current()) &&
        ToTree(doc.store, Current()) == old(ToTree(doc.store, Current())).(children := [])
    {
      if doc == null {
        return;
      }
      CurrentLive();
      var c := Current();
      if doc.store.nodes[c].kind == AttributeNode {
        SetValueTree(doc.store, c, "");
        Commit(SetValue(doc.store, c, ""));
        return;
      }
      RemoveChildrenTree(doc.store, c);
      doc.RemoveChildNodes(c);
    }

    /**
     * replaceValue(v): IllegalState when empty, IllegalArgument for null; an element
     * loses its text and CDATA children and gains one text node holding v; a text,
     * CDATA or attribute node takes v as its value; any other node fails with
     * IllegalState.
     */
    method ReplaceValue(v: Option<string>) returns (o: Outcome)
      requires Valid()
      modifies doc
      ensures Valid() && unchanged(this)
      ensures doc == null ==> o == Fail(IllegalState)
      ensures doc != null && v.None? ==> o == Fail(IllegalArgument) && unchanged(doc)
      ensures doc != null && v.Some? ==> Current() in old(doc.store.nodes)
      ensures doc != null && v.Some? && old(doc.store.nodes[Current()].kind) == ElementNode ==>
        o == Pass &&
        doc.store == AppendNew(RemoveTexts(old(doc.store), Current(), [], old(doc.store.nodes[Current()].children)),
                               Current(), TextNode, "#text", v.value).0 &&
        ToTree(doc.store, Current()) ==
          var t := old(ToTree(doc.store, Current()));
          t.(children := NonTextTrees(t.children) + [Tree(TextNode, "#text", v.value, [], [])])
      ensures doc != null && v.Some? && old(doc.store.nodes[Current()].kind) in {TextNode, CDataNode, AttributeNode} ==>
        o == Pass && doc.store == SetValue(old(doc.store), Current(), v.value) &&
        ToTree(doc.store, Current()) == old(ToTree(doc.store, Current())).(value := v.value)
      ensures doc != null && v.Some? && old(doc.store.nodes[Current()].kind) in {DocumentNode, CommentNode} ==>
        o == Fail(IllegalState) && unchanged(doc)
    {
      if doc == null {
        return Fail(IllegalState);
      }
      if v.None? {
        return Fail(IllegalArgument);
      }
      CurrentLive();
      var c := Current();
      var k := doc.store.nodes[c].kind;
      if k == ElementNode {
        RemoveTextsTree(doc.store, c);
        doc.RemoveTextChildren(c);
        o := Value(v);
        return Pass;
      }
      if k == TextNode || k == CDataNode || k == AttributeNode {
        SetValueTree(doc.store, c, v.value);
        Commit(SetValue(doc.store, c, v.value));
        return Pass;
      }
      return Fail(IllegalState);
    }

    /** The current node is a selected node that hangs below a parent. */
    ghost predicate Replaceable()
      reads this, doc, Owners()
    {
      Valid() && doc != null && list.Some? && Current() in doc.store.nodes &&
      ParentNode(doc.store, Current()).Some?
    }

    /**
     * replaceCurrentNode: node n of t (the document's store with n made) takes the
     * current node's place below its parent and in the selection, and becomes the
     * root when the current node was the root.
     */
    method ReplaceCurrentNode(t: Store, n: NodeId)
      requires Valid() && doc != null && list.Some?
      requires Wf(t) && KindsKept(doc.store, t) && Current() in t.nodes
      requires ParentNode(t, Current()).Some? && CanLink(t, ParentNode(t, Current()).value, n)
      modifies this, doc
      ensures Valid() && doc == old(doc) && index == old(index)
      ensures doc.store == ReplaceChild(t, old(Current()), n)
      ensures list == Some(old(list.value)[old(index) := NodeRef(doc, n)])
      ensures root == if old(Current()) == old(root) then n else old(root)
    {
      var c := Current();
      ReplaceChildKinds(doc.store, t, c, n);
      Commit(ReplaceChild(t, c, n));
      list := Some(list.value[index := NodeRef(doc, n)]);
      if c == root {
        root := n;
      }
    }

    /**
     * replace(String): IllegalState when empty, remove() (and the empty cursor it
     * returns) for a null value; otherwise a new text node holding the value takes
     * the current node's place, and the result is this cursor.
     */
    method ReplaceText(value: Option<string>) returns (r: Result<XDoc>)
      requires Valid()
      requires doc != null && value.Some? ==> Replaceable() && ParentIsElement()
      modifies this, doc
      ensures Valid() && doc == old(doc)
      ensures old(doc) == null ==> r == Err(IllegalState) && unchanged(this)
      ensures old(doc) != null && value.None? ==>
        r.Ok? && fresh(r.value) && r.value.doc == null &&
        list == None && root == old(root) && doc.store == Detach(old(doc.store), old(Current()))
      ensures old(doc) != null && value.Some? ==>
        r == Ok(this) &&
        var c := old(Current());
        var q := old(ParentNode(doc.store, c).value);
        var a := NewLeaf(old(doc.store), q, TextNode, "#text", value.value);
        doc.store == ReplaceChild(a.0, c, a.1) &&
        list == Some(old(list.value)[old(index) := NodeRef(doc, a.1)]) &&
        root == (if c == old(root) then a.1 else old(root)) &&
        ToTree(doc.store, q) == old(ToTree(doc.store, q)).(children := Replaced(old(doc.store), c, Tree(TextNode, "#text", value.value, [], [])))
    {
      if doc == null {
        return Err(IllegalState);
      }
      if value.None? {
        var gone := Remove();
        return Ok(gone);
      }
      ReplaceWithLeaf(value.value);
      r := Ok(this);
    }

    /** The parent of the current node is an element (a Document takes no text child). */
    ghost predicate ParentIsElement()
      reads this, doc, Owners()
      requires Replaceable()
    {
      doc.store.nodes[ParentNode(doc.store, Current()).value].kind == ElementNode
    }

    /** replace(String) for a non-null value. */
    method ReplaceWithLeaf(v: string)
      requires Replaceable() && ParentIsElement()
      modifies this, doc
      ensures Valid() && doc == old(doc)
      ensures var c := old(Current());
        var q := old(ParentNode(doc.store, c).value);
        var a := NewLeaf(old(doc.store), q, TextNode, "#text", v);
        doc.store == ReplaceChild(a.0, c, a.1) &&
        list == Some(old(list.value)[old(index) := NodeRef(doc, a.1)]) &&
        root == (if c == old(root) then a.1 else old(root)) &&
        ToTree(doc.store, q) == old(ToTree(doc.store, q)).(children := Replaced(old(doc.store), c, Tree(TextNode, "#text", v, [], [])))
    {
      var c := Current();
      var q := ParentNode(doc.store, c).value;
      var a := NewLeaf(doc.store, q, TextNode, "#text", v);
      ReplacedByNew(doc.store, a.0, c, a.1);
      ReplaceCurrentNode(a.0, a.1);
    }

    /**
     * replace(XDoc): IllegalState when empty, remove() (and the empty cursor it
     * returns) when the other cursor is null or empty; NullPointer when this
     * document has no document element, whose namespace the source reads;
     * otherwise a deep copy of the other cursor's root element takes the current
     * node's place, and the result is this cursor.
     */
    method ReplaceWith(other: XDoc?) returns (r: Result<XDoc>)
      requires Valid() && (other != null ==> other.Valid())
      requires doc != null && other != null && other.doc != null ==>
        other.doc.store.nodes[other.root].kind == ElementNode &&
        (doc.DocumentElement().Some? ==> Replaceable())
      modifies this, doc
      ensures Valid() && doc == old(doc)
      ensures old(doc) == null ==> r == Err(IllegalState) && unchanged(this)
      ensures old(doc) != null && (other == null || old(other.doc) == null) ==>
        r.Ok? && fresh(r.value) && r.value.doc == null &&
        list == None && root == old(root) && doc.store == Detach(old(doc.store), old(Current()))
      ensures old(doc) != null && other != null && old(other.doc) != null && old(doc.DocumentElement()).None? ==>
        r == Err(NullPointer) && unchanged(this) && unchanged(doc)
      ensures old(doc) != null && other != null && old(other.doc) != null && old(doc.DocumentElement()).Some? ==>
        r == Ok(this) &&
        var c := old(Current());
        var q := old(ParentNode(doc.store, c).value);
        var m := ImportFor(old(doc.store), c, old(other.doc.store), old(other.root));
        doc.store == ReplaceChild(m.0, c, m.1) &&
        list == Some(old(list.value)[old(index) := NodeRef(doc, m.1)]) &&
        root == (if c == old(root) then m.1 else old(root)) &&
        ToTree(doc.store, q) == old(ToTree(doc.store, q)).(children := Replaced(old(doc.store), c, old(ToTree(other.doc.store, other.root))))
    {
      if doc == null {
        return Err(IllegalState);
      }
      if other == null || other.doc == null {
        var gone := Remove();
        return Ok(gone);
      }
      if doc.DocumentElement().None? {
        return Err(NullPointer);
      }
      ReplaceWithCopy(other.doc.store, other.root);
      r := Ok(this);
    }

    /** replace(XDoc) for a non-empty other cursor whose root element x of src is copied. */
    method ReplaceWithCopy(src: Store, x: NodeId)
      requires Replaceable() && Wf(src) && x in src.nodes && src.nodes[x].kind == ElementNode
      modifies this, doc
      ensures Valid() && doc == old(doc)
      ensures var c := old(Current());
        var q := old(ParentNode(doc.store, c).value);
        var m := ImportFor(old(doc.store), c, src, x);
        doc.store == ReplaceChild(m.0, c, m.1) &&
        list == Some(old(list.value)[old(index) := NodeRef(doc, m.1)]) &&
        root == (if c == old(root) then m.1 else old(root)) &&
        ToTree(doc.store, q) == old(ToTree(doc.store, q)).(children := Replaced(old(doc.store), c, ToTree(src, x)))
    {
      var c := Current();
      var q := ParentNode(doc.store, c).value;
      var m := ImportFor(doc.store, c, src, x);
      ReplacedByNew(doc.store, m.0, c, m.1);
      ReplaceCurrentNode(m.0, m.1);
    }

    /**
     * replaceWithNodes(other): IllegalState when empty; remove() when other is
     * null or empty or its current node has no first child; otherwise copies of
     * the children of other's root element go in, in order, right after the
     * current node, the current node leaves its parent, and the result is a
     * cursor on the last copy (on the removed node when there was none to
     * copy). Without a parent the first insertAfter fails with IllegalState,
     * and when there is nothing to copy the removeChild on the missing parent
     * fails with NullPointer instead.
     */
    method ReplaceWithNodes(other: XDoc?) returns (r: Result<XDoc>)
      requires Valid() && (other != null ==> other.Valid())
      requires doc != null && other != null && other.doc != null &&
               other.Current() in other.doc.store.nodes && HasFirstChild(other.doc.store, other.Current()) ==>
        Current() in doc.store.nodes && other.doc.store.nodes[other.root].kind == ElementNode &&
        (ParentNode(doc.store, Current()).Some? && other.doc.store.nodes[other.root].children != [] ==>
           doc.store.nodes[ParentNode(doc.store, Current()).value].kind == ElementNode &&
           !(other.doc == doc && other.root == ParentNode(doc.store, Current()).value))
      modifies this, doc
      ensures Valid() && doc == old(doc)
      ensures old(doc) == null ==> r == Err(IllegalState) && unchanged(this)
      ensures old(doc) != null && (other == null || old(other.doc) == null ||
                                   (old(other.Current()) in old(other.doc.store.nodes) &&
                                    !old(HasFirstChild(other.doc.store, other.Current())))) ==>
        r.Ok? && fresh(r.value) && r.value.doc == null &&
        list == None && root == old(root) && doc.store == Detach(old(doc.store), old(Current()))
      ensures old(doc) != null && other != null && old(other.doc) != null &&
              old(other.Current()) in old(other.doc.store.nodes) &&
              old(HasFirstChild(other.doc.store, other.Current())) &&
              old(ParentNode(doc.store, Current())).None? ==>
        r == Err(if old(other.doc.store.nodes[other.root].children) == [] then NullPointer else IllegalState) &&
        unchanged(this) && unchanged(doc)
      ensures old(doc) != null && other != null && old(other.doc) != null &&
              old(other.Current()) in old(other.doc.store.nodes) &&
              old(HasFirstChild(other.doc.store, other.Current())) &&
              old(ParentNode(doc.store, Current())).Some? &&
              old(other.doc.store.nodes[other.root].children) == [] ==>
        unchanged(this) && doc.store == Detach(old(doc.store), old(Current())) &&
        r.Ok? && fresh(r.value) && r.value.Valid() && r.value.doc == doc &&
        r.value.list == Some([NodeRef(doc, old(Current()))]) && r.value.index == 0 && r.value.root == old(Current())
      ensures old(doc) != null && other != null && old(other.doc) != null &&
              old(other.Current()) in old(other.doc.store.nodes) &&
              old(HasFirstChild(other.doc.store, other.Current())) &&
              old(ParentNode(doc.store, Current())).Some? &&
              old(other.doc.store.nodes[other.root].children) != [] ==>
        var n := old(NodesReplaced(doc.store, Current(), SourceFor(other), other.root));
        unchanged(this) && doc.store == n.0 &&
        r.Ok? && fresh(r.value) && r.value.Valid() && r.value.doc == doc &&
        r.value.list == Some([NodeRef(doc, n.1)]) && r.value.index == 0 && r.value.root == n.1
    {
      if doc == null {
        return Err(IllegalState);
      }
      if other == null || other.doc == null {
        var gone := Remove();
        return Ok(gone);
      }
      other.CurrentLive();
      if !HasFirstChild(other.doc.store, other.Current()) {
        var gone := Remove();
        return Ok(gone);
      }
      var s, c := doc.store, Current();
      assert NodeWf(s, c) by { CurrentLive(); }
      var copies := other.doc.store.nodes[other.root].children != [];
      if ParentNode(s, c).None? {
        return Err(if copies then IllegalState else NullPointer);
      }
      if !copies {
        var cursor := DetachedOn(c);
        return Ok(cursor);
      }
      var src, x := SourceFor(other), other.root;
      ghost var os := Owners();
      var t, n := ReplacedLoop(s, c, src, x);
      assert unchanged(this) && unchanged(doc) && unchanged(os);
      NodesReplacedLands(s, c, src, x);
      var cursor := CommitOn(t, n);
      r := Ok(cursor);
    }

    /**
     * replaceWithNodes when there is nothing to copy: the parent's removeChild
     * detaches c, and the result is a cursor on the removed node.
     */
    method DetachedOn(c: NodeId) returns (x: XDoc)
      requires Valid() && doc != null && c in doc.store.nodes && ParentNode(doc.store, c).Some?
      modifies doc
      ensures Valid() && unchanged(this) && doc.store == Detach(old(doc.store), c)
      ensures fresh(x) && x.Valid() && x.doc == doc
      ensures x.list == Some([NodeRef(doc, c)]) && x.index == 0 && x.root == c
    {
      var s := doc.store;
      assert NodeWf(s, ParentNode(s, c).value);
      DetachKinds(s, s, s, c);
      x := CommitOn(Detach(s, c), c);
    }

    /** Commit followed by a fresh cursor whose selection, and root, is node n. */
    method CommitOn(t: Store, n: NodeId) returns (x: XDoc)
      requires Valid() && doc != null && Wf(t) && KindsKept(doc.store, t)
      requires n in t.nodes && IsChildKind(t.nodes[n].kind)
      modifies doc
      ensures Valid() && unchanged(this) && doc.store == t
      ensures fresh(x) && x.Valid() && x.doc == doc
      ensures x.list == Some([NodeRef(doc, n)]) && x.index == 0 && x.root == n
    {
      Commit(t);
      x := new XDoc.Select([NodeRef(doc, n)], 0, None);
    }

    /**
     * rename(name): IllegalState when empty, IllegalArgument for a null name, no
     * change when the current node already has that name, InvalidCharacter when
     * name is not an XML name; otherwise a new element of that name, holding the
     * current element's attributes and children, takes its place.
     */
    method Rename(name: Option<string>) returns (o: Outcome)
      requires Valid()
      requires doc != null && name.Some? && Current() in doc.store.nodes &&
               name.value != doc.store.nodes[Current()].name && IsXmlName(name.value) ==>
        Replaceable() && doc.store.nodes[Current()].kind == ElementNode
      modifies this, doc
      ensures Valid() && doc == old(doc)
      ensures old(doc) == null ==> o == Fail(IllegalState) && unchanged(this)
      ensures old(doc) != null && name.None? ==> o == Fail(IllegalArgument) && unchanged(this) && unchanged(doc)
      ensures old(doc) != null && name.Some? && old(Current()) in old(doc.store.nodes) &&
              name.value == old(doc.store.nodes[Current()].name) ==>
        o == Pass && unchanged(this) && unchanged(doc)
      ensures old(doc) != null && name.Some? && old(Current()) in old(doc.store.nodes) &&
              name.value != old(doc.store.nodes[Current()].name) && !IsXmlName(name.value) ==>
        o == Fail(InvalidCharacter) && unchanged(this) && unchanged(doc)
      ensures old(doc) != null && name.Some? && old(Current()) in old(doc.store.nodes) &&
              name.value != old(doc.store.nodes[Current()].name) && IsXmlName(name.value) ==>
        o == Pass &&
        var r := Renames.Rename(old(doc.store), old(Current()), name.value);
        doc.store == r.0 &&
        list == Some(old(list.value)[old(index) := NodeRef(doc, r.1)]) &&
        root == (if old(Current()) == old(root) then r.1 else old(root))
    {
      if doc == null {
        return Fail(IllegalState);
      }
      if name.None? {
        return Fail(IllegalArgument);
      }
      CurrentLive();
      if name.value == doc.store.nodes[Current()].name {
        return Pass;
      }
      if !IsXmlName(name.value) {
        return Fail(InvalidCharacter);
      }
      RenameCurrent(name.value);
      o := Pass;
    }

    /** rename for a new name: the staged element replaces the current one. */
    method RenameCurrent(name: string)
      requires Replaceable() && doc.store.nodes[Current()].kind == ElementNode
      modifies this, doc
      ensures Valid() && doc == old(doc)
      ensures var r := Renames.Rename(old(doc.store), old(Current()), name);
        doc.store == r.0 &&
        list == Some(old(list.value)[old(index) := NodeRef(doc, r.1)]) &&
        root == (if old(Current()) == old(root) then r.1 else old(root))
    {
      var c := Current();
      var t := Staged(doc.store, c, name);
      StagedKinds(doc.store, c, name);
      ghost var r := Renames.Rename(doc.store, c, name);
      assert r.0 == ReplaceChild(t, c, doc.store.next);
      ReplaceCurrentNode(t, doc.store.next);
    }

    // ------------------------------------------------------------ adding

    /** Where copies of the other cursor's nodes are read from: None when it shares this document. */
    function SourceFor(other: XDoc): (r: Option<Store>)
      reads this, other, other.doc
      requires other.doc != null
      ensures r.None? <==> other.doc == doc
    {
      if other.doc == doc then None else Some(other.doc.store)
    }

    /**
     * insertAfter(p, importNode(c, true), marker) for each child c of node x of the
     * source, the marker moving on to each copy; returns the last copy (ref when none).
     */
    method ChainChildren(p: NodeId, ref: Option<NodeId>, src: Option<Store>, x: NodeId) returns (last: Option<NodeId>)
      requires Valid() && doc != null && p in doc.store.nodes && doc.store.nodes[p].kind == ElementNode
      requires ref.Some? ==> ref.value in doc.store.nodes[p].children
      requires Wf(Base(doc.store, src)) && x in Base(doc.store, src).nodes
      modifies doc
      ensures Valid() && unchanged(this)
      ensures var ids := Base(old(doc.store), src).nodes[x].children;
        (ChildSources(old(doc.store), src, x);
         var r := ChainCopies(old(doc.store), Repeat(src, |ids|), p, ids, ref);
         doc.store == r.0 && last == LastPlaced(r.1, ref))
    {
      var ids := Base(doc.store, src).nodes[x].children;
      ChildSources(doc.store, src, x);
      ghost var os := Owners();
      var t, l := ChainLoop(doc.store, Repeat(src, |ids|), p, ids, ref);
      assert unchanged(this) && unchanged(doc) && unchanged(os);
      Commit(t);
      last := l;
    }

    /** p.appendChild(importNode(c, true)) for each child c of node x of the source. */
    method AppendChildren(p: NodeId, src: Option<Store>, x: NodeId)
      requires Valid() && doc != null && p in doc.store.nodes && doc.store.nodes[p].kind == ElementNode
      requires Wf(Base(doc.store, src)) && x in Base(doc.store, src).nodes
      modifies doc
      ensures Valid() && unchanged(this)
      ensures var ids := Base(old(doc.store), src).nodes[x].children;
        (ChildSources(old(doc.store), src, x);
         doc.store == AppendCopies(old(doc.store), Repeat(src, |ids|), p, ids).0)
    {
      var ids := Base(doc.store, src).nodes[x].children;
      ChildSources(doc.store, src, x);
      ghost var os := Owners();
      var t := AppendLoop(doc.store, Repeat(src, |ids|), p, ids);
      assert unchanged(this) && unchanged(doc) && unchanged(os);
      Commit(t);
    }

    /**
     * addNodesInFront(other): IllegalState when empty or when the root is not an
     * element, no change for a null or empty other or when the other cursor's
     * root element has no children; otherwise copies of those children go in, in
     * order, before the current element's first child.
     */
    method AddNodesInFront(other: XDoc?) returns (o: Outcome)
      requires Valid() && (other != null ==> other.Valid())
      requires doc != null && other != null && doc.store.nodes[root].kind == ElementNode && other.doc != null ==>
        other.doc.store.nodes[other.root].kind == ElementNode &&
        (other.doc.store.nodes[other.root].children != [] ==>
           Current() in doc.store.nodes && doc.store.nodes[Current()].kind == ElementNode &&
           !(other.doc == doc && other.root == Current()))
      modifies doc
      ensures Valid() && unchanged(this)
      ensures doc == null ==> o == Fail(IllegalState)
      ensures doc != null && other == null ==> o == Pass && unchanged(doc)
      ensures doc != null && other != null && old(doc.store.nodes[root].kind) != ElementNode ==>
        o == Fail(IllegalState) && unchanged(doc)
      ensures doc != null && other != null && old(doc.store.nodes[root].kind) == ElementNode && old(other.doc) == null ==>
        o == Pass && unchanged(doc)
      ensures doc != null && other != null && old(doc.store.nodes[root].kind) == ElementNode && old(other.doc) != null &&
              old(other.doc.store.nodes[other.root].children) == [] ==>
        o == Pass && unchanged(doc)
      ensures doc != null && other != null && old(doc.store.nodes[root].kind) == ElementNode && old(other.doc) != null &&
              old(other.doc.store.nodes[other.root].children) != [] ==>
        o == Pass &&
        var ids := old(other.doc.store.nodes[other.root].children);
        (ChildSources(old(doc.store), old(SourceFor(other)), old(other.root));
         doc.store == ChainCopies(old(doc.store), Repeat(old(SourceFor(other)), |ids|), Current(), ids, None).0)
    {
      if doc == null {
        return Fail(IllegalState);
      }
      if other == null {
        return Pass;
      }
      if doc.store.nodes[root].kind != ElementNode {
        return Fail(IllegalState);
      }
      if other.doc != null && other.doc.store.nodes[other.root].children != [] {
        var last := ChainChildren(Current(), None, SourceFor(other), other.root);
      }
      o := Pass;
    }

    /**
     * addNodesAfter(other): IllegalState when empty or when the root is not an
     * element, no change for a null or empty other, IllegalState when the current
     * node has no parent, no change when the other cursor's root element has no
     * children; otherwise copies of those children go in, in order, right after
     * the current node.
     */
    method AddNodesAfter(other: XDoc?) returns (o: Outcome)
      requires Valid() && (other != null ==> other.Valid())
      requires doc != null && other != null && doc.store.nodes[root].kind == ElementNode && other.doc != null ==>
        Current() in doc.store.nodes &&
        (ParentNode(doc.store, Current()).Some? ==>
           other.doc.store.nodes[other.root].kind == ElementNode &&
           (other.doc.store.nodes[other.root].children != [] ==>
              doc.store.nodes[ParentNode(doc.store, Current()).value].kind == ElementNode))
      modifies doc
      ensures Valid() && unchanged(this)
      ensures doc == null ==> o == Fail(IllegalState)
      ensures doc != null && other == null ==> o == Pass && unchanged(doc)
      ensures doc != null && other != null && old(doc.store.nodes[root].kind) != ElementNode ==>
        o == Fail(IllegalState) && unchanged(doc)
      ensures doc != null && other != null && old(doc.store.nodes[root].kind) == ElementNode && old(other.doc) == null ==>
        o == Pass && unchanged(doc)
      ensures doc != null && other != null && old(doc.store.nodes[root].kind) == ElementNode && old(other.doc) != null &&
              old(ParentNode(doc.store, Current())).None? ==>
        o == Fail(IllegalState) && unchanged(doc)
      ensures doc != null && other != null && old(doc.store.nodes[root].kind) == ElementNode && old(other.doc) != null &&
              old(ParentNode(doc.store, Current())).Some? && old(other.doc.store.nodes[other.root].children) == [] ==>
        o == Pass && unchanged(doc)
      ensures doc != null && other != null && old(doc.store.nodes[root].kind) == ElementNode && old(other.doc) != null &&
              old(ParentNode(doc.store, Current())).Some? && old(other.doc.store.nodes[other.root].children) != [] ==>
        o == Pass &&
        var ids := old(other.doc.store.nodes[other.root].children);
        var q := old(ParentNode(doc.store, Current())).value;
        (ChildSources(old(doc.store), old(SourceFor(other)), old(other.root));
         doc.store == ChainCopies(old(doc.store), Repeat(old(SourceFor(other)), |ids|), q, ids, Some(Current())).0)
    {
      if doc == null {
        return Fail(IllegalState);
      }
      if other == null {
        return Pass;
      }
      if doc.store.nodes[root].kind != ElementNode || other.doc == null {
        return if doc.store.nodes[root].kind != ElementNode then Fail(IllegalState) else Pass;
      }
      CurrentLive();
      var q := ParentNode(doc.store, Current());
      if q.None? {
        return Fail(IllegalState);
      }
      if other.doc.store.nodes[other.root].children != [] {
        var last := ChainChildren(q.value, Some(Current()), SourceFor(other), other.root);
      }
      o := Pass;
    }

    /**
     * addNodes(other): IllegalState when empty, no change for a null or empty
     * other or when the other cursor's root element has no children; otherwise
     * copies of those children are appended, in order, to the current element.
     */
    method AddNodes(other: XDoc?) returns (o: Outcome)
      requires Valid() && (other != null ==> other.Valid())
      requires doc != null && other != null && other.doc != null ==>
        other.doc.store.nodes[other.root].kind == ElementNode &&
        (other.doc.store.nodes[other.root].children != [] ==>
           Current() in doc.store.nodes && doc.store.nodes[Current()].kind == ElementNode)
      modifies doc
      ensures Valid() && unchanged(this)
      ensures doc == null ==> o == Fail(IllegalState)
      ensures doc != null && (other == null || old(other.doc) == null) ==> o == Pass && unchanged(doc)
      ensures doc != null && other != null && old(other.doc) != null && old(other.doc.store.nodes[other.root].children) == [] ==>
        o == Pass && unchanged(doc)
      ensures doc != null && other != null && old(other.doc) != null && old(other.doc.store.nodes[other.root].children) != [] ==>
        o == Pass &&
        var ids := old(other.doc.store.nodes[other.root].children);
        (ChildSources(old(doc.store), old(SourceFor(other)), old(other.root));
         doc.store == AppendCopies(old(doc.store), Repeat(old(SourceFor(other)), |ids|), Current(), ids).0)
    {
      if doc == null {
        return Fail(IllegalState);
      }
      if other == null || other.doc == null || other.doc.store.nodes[other.root].children == [] {
        return Pass;
      }
      AppendChildren(Current(), SourceFor(other), other.root);
      o := Pass;
    }

    /**
     * addNodesBefore(other): IllegalState when empty or when the root is not an
     * element, no change for a null or empty other, IllegalState when the current
     * node has no parent; otherwise a "#" marker text goes in right before the
     * current node, copies of the other cursor's root element's children (read
     * with the marker in place) are chained after the marker, and the marker is
     * removed again.
     */
    method AddNodesBefore(other: XDoc?) returns (o: Outcome)
      requires Valid() && (other != null ==> other.Valid())
      requires doc != null && other != null && doc.store.nodes[root].kind == ElementNode && other.doc != null ==>
        other.doc.store.nodes[other.root].kind == ElementNode && Current() in doc.store.nodes &&
        (ParentNode(doc.store, Current()).Some? ==> doc.store.nodes[ParentNode(doc.store, Current()).value].kind == ElementNode)
      modifies doc
      ensures Valid() && unchanged(this)
      ensures doc == null ==> o == Fail(IllegalState)
      ensures doc != null && other == null ==> o == Pass && unchanged(doc)
      ensures doc != null && other != null && old(doc.store.nodes[root].kind) != ElementNode ==>
        o == Fail(IllegalState) && unchanged(doc)
      ensures doc != null && other != null && old(doc.store.nodes[root].kind) == ElementNode && old(other.doc) == null ==>
        o == Pass && unchanged(doc)
      ensures doc != null && other != null && old(doc.store.nodes[root].kind) == ElementNode && old(other.doc) != null &&
              old(ParentNode(doc.store, Current())).None? ==>
        o == Fail(IllegalState) && unchanged(doc)
      ensures doc != null && other != null && old(doc.store.nodes[root].kind) == ElementNode && old(other.doc) != null &&
              old(ParentNode(doc.store, Current())).Some? ==>
        o == Pass &&
        var q := old(ParentNode(doc.store, Current())).value;
        doc.store == MarkedCopies(old(doc.store), q, Current(), old(SourceFor(other)), old(other.root))
    {
      if doc == null {
        return Fail(IllegalState);
      }
      if other == null {
        return Pass;
      }
      if doc.store.nodes[root].kind != ElementNode || other.doc == null {
        return if doc.store.nodes[root].kind != ElementNode then Fail(IllegalState) else Pass;
      }
      CurrentLive();
      var q := ParentNode(doc.store, Current());
      if q.None? {
        return Fail(IllegalState);
      }
      MarkedChain(q.value, Current(), SourceFor(other), other.root);
      o := Pass;
    }

    /** addNodesBefore below parent q of c once the checks have passed. */
    method MarkedChain(q: NodeId, c: NodeId, src: Option<Store>, x: NodeId)
      requires Valid() && doc != null && q in doc.store.nodes && doc.store.nodes[q].kind == ElementNode
      requires c in doc.store.nodes[q].children
      requires Wf(Base(doc.store, src)) && x in Base(doc.store, src).nodes
      modifies doc
      ensures Valid() && unchanged(this)
      ensures doc.store == MarkedCopies(old(doc.store), q, c, src, x)
    {
      var mk := WithMarker(doc.store, q, c);
      Commit(mk.0);
      var last := ChainChildren(q, Some(mk.1), src, x);
      DetachKinds(doc.store, doc.store, doc.store, mk.1);
      Commit(Detach(doc.store, mk.1));
    }

    /**
     * add(other): IllegalState when empty, no change for a null or empty other;
     * otherwise a copy of the other cursor's root becomes the current element's
     * last child.
     */
    method Add(other: XDoc?) returns (o: Outcome)
      requires Valid() && (other != null ==> other.Valid())
      requires doc != null && other != null && other.doc != null ==>
        Current() in doc.store.nodes && doc.store.nodes[Current()].kind == ElementNode &&
        IsChildKind(other.doc.store.nodes[other.root].kind)
      modifies doc
      ensures Valid() && unchanged(this)
      ensures doc == null ==> o == Fail(IllegalState)
      ensures doc != null && (other == null || old(other.doc) == null) ==> o == Pass && unchanged(doc)
      ensures doc != null && other != null && old(other.doc) != null ==>
        o == Pass &&
        doc.store == CopyPlaced(old(doc.store), Current(), |old(doc.store.nodes[Current()].children)|,
                                old(other.doc.store), old(other.root))
    {
      if doc == null {
        return Fail(IllegalState);
      }
      if other == null || other.doc == null {
        return Pass;
      }
      var c := Current();
      Commit(CopyPlaced(doc.store, c, |doc.store.nodes[c].children|, other.doc.store, other.root));
      o := Pass;
    }

    /**
     * addAfter(other): IllegalState when empty or when the current node has no
     * parent, no change for a null or empty other; otherwise a copy of the other
     * cursor's root goes in right after the current node.
     */
    method AddAfter(other: XDoc?) returns (o: Outcome)
      requires Valid() && (other != null ==> other.Valid())
      requires doc != null && Current() in doc.store.nodes && ParentNode(doc.store, Current()).Some? &&
               other != null && other.doc != null ==>
        doc.store.nodes[ParentNode(doc.store, Current()).value].kind == ElementNode &&
        IsChildKind(other.doc.store.nodes[other.root].kind)
      modifies doc
      ensures Valid() && unchanged(this)
      ensures doc == null ==> o == Fail(IllegalState)
      ensures doc != null && old(ParentNode(doc.store, Current())).None? ==> o == Fail(IllegalState) && unchanged(doc)
      ensures doc != null && old(ParentNode(doc.store, Current())).Some? && (other == null || old(other.doc) == null) ==>
        o == Pass && unchanged(doc)
      ensures doc != null && old(ParentNode(doc.store, Current())).Some? && other != null && old(other.doc) != null ==>
        o == Pass &&
        doc.store == CopyBeside(old(doc.store), old(Current()), true, old(other.doc.store), old(other.root))
    {
      if doc == null {
        return Fail(IllegalState);
      }
      var s, c := doc.store, Current();
      assert NodeWf(s, c) by { CurrentLive(); }
      if ParentNode(s, c).None? {
        return Fail(IllegalState);
      }
      if other == null || other.doc == null {
        return Pass;
      }
      Commit(CopyBeside(s, c, true, other.doc.store, other.root));
      o := Pass;
    }

    /**
     * addBefore(other): IllegalState when empty, no change for a null other,
     * IllegalState when the current node has no parent; otherwise a copy of the
     * other cursor's root goes in right before the current node.
     */
    method AddBefore(other: XDoc?) returns (o: Outcome)
      requires Valid() && (other != null ==> other.Valid())
      requires doc != null && other != null && Current() in doc.store.nodes && ParentNode(doc.store, Current()).Some? ==>
        other.doc != null && doc.store.nodes[ParentNode(doc.store, Current()).value].kind == ElementNode &&
        IsChildKind(other.doc.store.nodes[other.root].kind)
      modifies doc
      ensures Valid() && unchanged(this)
      ensures doc == null ==> o == Fail(IllegalState)
      ensures doc != null && other == null ==> o == Pass && unchanged(doc)
      ensures doc != null && other != null && old(ParentNode(doc.store, Current())).None? ==>
        o == Fail(IllegalState) && unchanged(doc)
      ensures doc != null && other != null && old(ParentNode(doc.store, Current())).Some? ==>
        o == Pass &&
        doc.store == CopyBeside(old(doc.store), old(Current()), false, old(other.doc.store), old(other.root))
    {
      if doc == null {
        return Fail(IllegalState);
      }
      if other == null {
        return Pass;
      }
      var s, c := doc.store, Current();
      assert NodeWf(s, c) by { CurrentLive(); }
      if ParentNode(s, c).None? {
        return Fail(IllegalState);
      }
      Commit(CopyBeside(s, c, false, other.doc.store, other.root));
      o := Pass;
    }

    /**
     * addAfter(value): IllegalState when empty, no change for a null or empty
     * value, IllegalState when the current node has no parent; otherwise a text
     * node holding the value goes in right after the current node.
     */
    method AddTextAfter(value: Option<string>) returns (o: Outcome)
      requires Valid()
      requires doc != null && value.Some? && value.value != "" && Current() in doc.store.nodes &&
               ParentNode(doc.store, Current()).Some? ==>
        doc.store.nodes[ParentNode(doc.store, Current()).value].kind == ElementNode
      modifies doc
      ensures Valid() && unchanged(this)
      ensures doc == null ==> o == Fail(IllegalState)
      ensures doc != null && (value.None? || value.value == "") ==> o == Pass && unchanged(doc)
      ensures doc != null && value.Some? && value.value != "" && old(ParentNode(doc.store, Current())).None? ==>
        o == Fail(IllegalState) && unchanged(doc)
      ensures doc != null && value.Some? && value.value != "" && old(ParentNode(doc.store, Current())).Some? ==>
        o == Pass &&
        doc.store == TextBeside(old(doc.store), old(Current()), true, value.value)
    {
      if doc == null {
        return Fail(IllegalState);
      }
      if value.None? || value.value == "" {
        return Pass;
      }
      var s, c := doc.store, Current();
      assert NodeWf(s, c) by { CurrentLive(); }
      if ParentNode(s, c).None? {
        return Fail(IllegalState);
      }
      Commit(TextBeside(s, c, true, value.value));
      o := Pass;
    }

    /**
     * addBefore(value): IllegalState when empty, no change for a null or empty
     * value, IllegalState when the current node has no parent; otherwise a text
     * node holding the value goes in right before the current node.
     */
    method AddTextBefore(value: Option<string>) returns (o: Outcome)
      requires Valid()
      requires doc != null && value.Some? && value.value != "" && Current() in doc.store.nodes &&
               ParentNode(doc.store, Current()).Some? ==>
        doc.store.nodes[ParentNode(doc.store, Current()).value].kind == ElementNode
      modifies doc
      ensures Valid() && unchanged(this)
      ensures doc == null ==> o == Fail(IllegalState)
      ensures doc != null && (value.None? || value.value == "") ==> o == Pass && unchanged(doc)
      ensures doc != null && value.Some? && value.value != "" && old(ParentNode(doc.store, Current())).None? ==>
        o == Fail(IllegalState) && unchanged(doc)
      ensures doc != null && value.Some? && value.value != "" && old(ParentNode(doc.store, Current())).Some? ==>
        o == Pass &&
        doc.store == TextBeside(old(doc.store), old(Current()), false, value.value)
    {
      if doc == null {
        return Fail(IllegalState);
      }
      if value.None? || value.value == "" {
        return Pass;
      }
      var s, c := doc.store, Current();
      assert NodeWf(s, c) by { CurrentLive(); }
      if ParentNode(s, c).None? {
        return Fail(IllegalState);
      }
      Commit(TextBeside(s, c, false, value.value));
      o := Pass;
    }

    /**
     * addAll(other): IllegalState when empty; otherwise add is applied to each
     * cursor of other's toList in turn: the Document-node entries give empty
     * cursors and are skipped, every other entry is copied below the current
     * element as its new last child.
     */
    method AddAll(other: XDoc?) returns (o: Outcome)
      requires Valid() && (other != null ==> other.Valid())
      requires doc != null && other != null && other.doc != null && other.list.Some? &&
               Copyable(other.list.value) != [] ==>
        doc.store.nodes[Current()].kind == ElementNode && Placeable(Copyable(other.list.value))
      modifies doc
      ensures Valid() && unchanged(this)
      ensures doc == null ==> o == Fail(IllegalState)
      ensures doc != null && (other == null || old(other.doc) == null || old(other.list).None? ||
                              old(Copyable(other.list.value)) == []) ==>
        o == Pass && unchanged(doc)
      ensures doc != null && other != null && old(other.doc) != null && old(other.list).Some? &&
              old(Copyable(other.list.value)) != [] ==>
        o == Pass && doc.store == old(AppendEntries(doc, Copyable(other.list.value), Current()))
    {
      if doc == null {
        return Fail(IllegalState);
      }
      if other == null || other.doc == null || other.list.None? {
        return Pass;
      }
      var es := Copyable(other.list.value);
      if es == [] {
        return Pass;
      }
      EntrySources(doc.store, doc, es);
      ghost var os := Owners();
      var t := AppendLoop(doc.store, SourcesOf(es, doc), Current(), IdsOf(es));
      assert unchanged(this) && unchanged(doc) && unchanged(os);
      Commit(t);
      o := Pass;
    }

    /**
     * addAllBefore(other): IllegalState when empty; otherwise addBefore is
     * applied to each cursor of other's toList in turn, so a non-empty list
     * fails with IllegalState when the current node has no parent, and
     * otherwise copies of the entries end up in order right before the
     * current node.
     */
    method AddAllBefore(other: XDoc?) returns (o: Outcome)
      requires Valid() && (other != null ==> other.Valid())
      requires doc != null && other != null && other.doc != null && other.list.Some? && other.list.value != [] &&
               Current() in doc.store.nodes && ParentNode(doc.store, Current()).Some? ==>
        doc.store.nodes[ParentNode(doc.store, Current()).value].kind == ElementNode && Placeable(other.list.value)
      modifies doc
      ensures Valid() && unchanged(this)
      ensures doc == null ==> o == Fail(IllegalState)
      ensures doc != null && (other == null || old(other.doc) == null || old(other.list).None? ||
                              old(other.list).value == []) ==>
        o == Pass && unchanged(doc)
      ensures doc != null && other != null && old(other.doc) != null && old(other.list).Some? &&
              old(other.list).value != [] && old(ParentNode(doc.store, Current())).None? ==>
        o == Fail(IllegalState) && unchanged(doc)
      ensures doc != null && other != null && old(other.doc) != null && old(other.list).Some? &&
              old(other.list).value != [] && old(ParentNode(doc.store, Current())).Some? ==>
        o == Pass && doc.store == old(BeforeEntries(doc, other.list.value, Current()))
    {
      if doc == null {
        return Fail(IllegalState);
      }
      if other == null || other.doc == null || other.list.None? || other.list.value == [] {
        return Pass;
      }
      var s, c, es := doc.store, Current(), other.list.value;
      assert NodeWf(s, c) by { CurrentLive(); }
      var q := ParentNode(s, c);
      if q.None? {
        return Fail(IllegalState);
      }
      EntrySources(s, doc, es);
      ghost var os := Owners();
      var t := BeforeLoop(s, SourcesOf(es, doc), q.value, IdsOf(es), c);
      assert unchanged(this) && unchanged(doc) && unchanged(os);
      Commit(t);
      o := Pass;
    }

    /**
     * addAllAfter(other): IllegalState when empty; otherwise addAfter is
     * applied to the cursors of other's toList last first, so a non-empty list
     * fails with IllegalState when the current node has no parent, the
     * Document-node entries are skipped, and copies of the other entries end
     * up in their original order right after the current node.
     */
    method AddAllAfter(other: XDoc?) returns (o: Outcome)
      requires Valid() && (other != null ==> other.Valid())
      requires doc != null && other != null && other.doc != null && other.list.Some? &&
               Current() in doc.store.nodes && ParentNode(doc.store, Current()).Some? &&
               Copyable(other.list.value) != [] ==>
        doc.store.nodes[ParentNode(doc.store, Current()).value].kind == ElementNode &&
        Placeable(Copyable(other.list.value))
      modifies doc
      ensures Valid() && unchanged(this)
      ensures doc == null ==> o == Fail(IllegalState)
      ensures doc != null && (other == null || old(other.doc) == null || old(other.list).None? ||
                              old(other.list).value == [] ||
                              (old(ParentNode(doc.store, Current())).Some? && old(Copyable(other.list.value)) == [])) ==>
        o == Pass && unchanged(doc)
      ensures doc != null && other != null && old(other.doc) != null && old(other.list).Some? &&
              old(other.list).value != [] && old(ParentNode(doc.store, Current())).None? ==>
        o == Fail(IllegalState) && unchanged(doc)
      ensures doc != null && other != null && old(other.doc) != null && old(other.list).Some? &&
              old(ParentNode(doc.store, Current())).Some? && old(Copyable(other.list.value)) != [] ==>
        o == Pass && doc.store == old(AfterEntries(doc, Copyable(other.list.value), Current()))
    {
      if doc == null {
        return Fail(IllegalState);
      }
      if other == null || other.doc == null || other.list.None? || other.list.value == [] {
        return Pass;
      }
      var s, c := doc.store, Current();
      assert NodeWf(s, c) by { CurrentLive(); }
      var q := ParentNode(s, c);
      if q.None? {
        return Fail(IllegalState);
      }
      var es := Copyable(other.list.value);
      if es == [] {
        return Pass;
      }
      ghost var os := Owners();
      var t := AfterLoop(doc, es, c);
      assert unchanged(this) && unchanged(doc) && unchanged(os);
      Commit(t);
      o := Pass;
    }

    /**
     * getParent: the owner element of an attribute, the parent node otherwise; empty
     * when there is none or it is the Document node, else a cursor on it.
     */
    method GetParent() returns (r: XDoc)
      requires Valid()
      ensures fresh(r) && r.Valid()
      ensures doc != null ==>
                Current() in doc.store.nodes &&
                (doc.store.nodes[Current()].parent.Some? ==> doc.store.nodes[Current()].parent.value in doc.store.nodes)
      ensures r.doc != null <==>
        doc != null && doc.store.nodes[Current()].parent.Some? &&
        doc.store.nodes[doc.store.nodes[Current()].parent.value].kind != DocumentNode
      ensures r.doc != null ==>
        r.doc == doc && r.index == 0 && r.list == Some([NodeRef(doc, r.root)]) &&
        doc.store.nodes[Current()].parent == Some(r.root) &&
        Current() in doc.store.nodes[r.root].children + doc.store.nodes[r.root].attrs
    {
      if doc == null {
        r := new XDoc.Empty();
        return;
      }
      CurrentLive();
      var c := Current();
      assert NodeWf(doc.store, c);
      var p := doc.store.nodes[c].parent;
      if p.None? || doc.store.nodes[p.value].kind == DocumentNode {
        r := new XDoc.Empty();
        return;
      }
      r := new XDoc.Select([NodeRef(doc, p.value)], 0, None);
    }

    /** toList: one cursor per selected node, each rooted at its own node. */
    method ToList() returns (r: seq<XDoc>)
      requires Valid()
      ensures doc == null || list.None? ==> r == []
      ensures doc != null && list.Some? ==> |r| == |list.value|
      ensures forall k :: 0 <= k < |r| ==>
        fresh(r[k]) && r[k].Valid() && r[k].list == list && r[k].index == k && r[k].root == list.value[k].id &&
        r[k].doc == (if list.value[k].owner.store.nodes[list.value[k].id].kind == DocumentNode
                     then null else list.value[k].owner)
    {
      if doc == null || list.None? {
        return [];
      }
      var l := list.value;
      r := [];
      var i := 0;
      while i < |l|
        invariant 0 <= i <= |l| && |r| == i
        invariant forall k :: 0 <= k < i ==>
          fresh(r[k]) && r[k].Valid() && r[k].list == list && r[k].index == k && r[k].root == l[k].id &&
          r[k].doc == (if l[k].owner.store.nodes[l[k].id].kind == DocumentNode then null else l[k].owner)
      {
        var x := new XDoc.Select(l, i, None);
        r := r + [x];
        i := i + 1;
      }
    }

    /** The nodes a selection built from ds holds: asNode of each non-empty cursor, in order. */
    static ghost function Selected(ds: seq<XDoc>): (r: seq<NodeRef>)
      reads set k | 0 <= k < |ds| :: ds[k]
      ensures |r| <= |ds|
    {
      if ds == [] then []
      else
        var init := Selected(ds[..|ds| - 1]);
        var d := ds[|ds| - 1];
        if d.doc == null then init else init + [NodeRef(d.doc, d.Current())]
    }

    static lemma SelectedSnoc(d: seq<XDoc>, i: nat)
      requires i < |d|
      ensures Selected(d[..i + 1]) ==
        Selected(d[..i]) + if d[i].doc == null then [] else [NodeRef(d[i].doc, d[i].Current())]
    {
      assert d[..i + 1][..i] == d[..i];
    }

    /** Appending a live reference keeps every reference live. */
    static lemma LiveSnoc(l: seq<NodeRef>, x: NodeRef)
      requires forall k :: 0 <= k < |l| ==> Live(l[k])
      requires Live(x)
      ensures forall k :: 0 <= k < |l + [x]| ==> Live((l + [x])[k])
    {
    }

    /** The loop of createSelection: asNode of every non-empty cursor, in order. */
    static method SelectedNodes(d: seq<XDoc>) returns (l: seq<NodeRef>)
      requires forall k :: 0 <= k < |d| ==> d[k].Valid()
      ensures l == Selected(d) && forall k :: 0 <= k < |l| ==> Live(l[k])
    {
      l := [];
      var i := 0;
      while i < |d|
        invariant 0 <= i <= |d|
        invariant l == Selected(d[..i])
        invariant forall k :: 0 <= k < |l| ==> Live(l[k])
      {
        SelectedSnoc(d, i);
        if d[i].doc != null {
          d[i].CurrentLive();
          var x := NodeRef(d[i].doc, d[i].Current());
          LiveSnoc(l, x);
          l := l + [x];
        }
        i := i + 1;
      }
      assert d[..|d|] == d;
    }

    /** createSelection: IllegalArgument for null; empty when no cursor is non-empty. */
    static method CreateSelection(ds: Option<seq<XDoc>>) returns (r: Result<XDoc>)
      requires ds.Some? ==> forall k :: 0 <= k < |ds.value| ==> ds.value[k].Valid()
      ensures ds.None? ==> r == Err(IllegalArgument)
      ensures ds.Some? ==> r.Ok? && fresh(r.value) && r.value.Valid()
      ensures ds.Some? ==> forall k :: 0 <= k < |Selected(ds.value)| ==> Live(Selected(ds.value)[k])
      ensures ds.Some? && Selected(ds.value) != [] ==> Live(Selected(ds.value)[0])
      ensures ds.Some? && Selected(ds.value) == [] ==> r.value.doc == null
      ensures ds.Some? && Selected(ds.value) != [] ==>
        var l := Selected(ds.value);
        r.value.list == Some(l) && r.value.index == 0 && r.value.root == l[0].id &&
        r.value.doc == (if l[0].owner.store.nodes[l[0].id].kind == DocumentNode then null else l[0].owner)
    {
      if ds.None? {
        return Err(IllegalArgument);
      }
      var l := SelectedNodes(ds.value);
      if l == [] {
        var e := new XDoc.Empty();
        return Ok(e);
      }
      var x := new XDoc.Select(l, 0, None);
      return Ok(x);
    }

    /**
     * at(String) for a simple path: on a non-empty cursor "@name" selects that
     * attribute node of the current element, any other name the element children
     * with exactly that name in document order; empty when nothing matches.
     */
    method At(path: string) returns (r: XDoc)
      requires Valid() && IsSimplePath(path)
      requires doc != null ==> path != [] && doc.store.nodes[Current()].kind == ElementNode
      ensures fresh(r) && r.Valid()
      ensures doc == null ==> r.doc == null
      ensures doc != null && path[0] == '@' ==>
        var a := AttributeNamed(doc.store, Current(), path[1..]);
        (a.None? ==> r.doc == null) &&
        (a.Some? ==> r.doc == doc && r.list == Some([NodeRef(doc, a.value)]) && r.index == 0 && r.root == a.value)
      ensures doc != null && path[0] != '@' ==>
        var m := ChildrenNamed(doc.store, Current(), path);
        (m == [] ==> r.doc == null) &&
        (m != [] ==> r.doc == doc && r.list == Some(Refs(doc, m)) && r.index == 0 && r.root == m[0])
    {
      if doc == null {
        r := new XDoc.Empty();
        return;
      }
      var s := doc.store;
      var e := Current();
      if path[0] == '@' {
        var a := AttributeNamed(s, e, path[1..]);
        if a.Some? {
          r := new XDoc.Select([NodeRef(doc, a.value)], 0, None);
        } else {
          r := new XDoc.Empty();
        }
        return;
      }
      ToTreeParts(s, e);
      var m := CollectNamed(s, e, path);
      if m == [] {
        r := new XDoc.Empty();
      } else {
        assert m[0] in m;
        r := new XDoc.Select(Refs(doc, m), 0, None);
      }
    }

    /**
     * asText: null when empty; for an element "" without children, its only
     * child's text, or the concatenated leading text children; otherwise the
     * current node's own text.
     */
    method AsText() returns (r: Option<string>)
      requires Valid()
      ensures doc == null ==> r == None
      ensures doc != null ==> Current() in doc.store.nodes && r == Views.AsText(doc.store, Current())
      ensures doc != null ==> r == TreeAsText(ToTree(doc.store, Current()))
    {
      if doc == null {
        return None;
      }
      CurrentLive();
      var s := doc.store;
      var c := Current();
      AsTextOfTree(s, c);
      assert NodeWf(s, c);
      var n := s.nodes[c];
      if n.kind != ElementNode {
        return NodeText(s, c);
      }
      if n.children == [] {
        return Some("");
      }
      var cs := n.children;
      if |cs| == 1 {
        return NodeText(s, cs[0]);
      }
      var acc := LeadingLoop(s, cs);
      return Some(acc);
    }

    /** The cursor has a root node: it is non-empty, or it is rooted at a Document node. */
    predicate HasRoot()
      reads this
    {
      doc != null || (list.Some? && 0 <= index < |list.value|)
    }

    /** The document whose store holds root. */
    function RootDoc(): Document
      reads this
      requires HasRoot()
    {
      if doc != null then doc else list.value[index].owner
    }

    /**
     * equals: false for null, true for the same cursor, otherwise compareNode of
     * the two roots, which holds exactly when the roots are equal subtrees once
     * the parts compareNode ignores are cleared.
     */
    method Equals(other: XDoc?) returns (b: bool)
      requires Valid() && (other != null ==> other.Valid())
      requires other != null && other != this ==> HasRoot() && other.HasRoot()
      ensures other == null ==> !b
      ensures other == this ==> b
      ensures other != null && other != this ==>
        (b <==> Normal(ToTree(RootDoc().store, root)) == Normal(ToTree(other.RootDoc().store, other.root)))
    {
      if other == null {
        return false;
      }
      if other == this {
        return true;
      }
      var t := ToTree(RootDoc().store, root);
      var u := ToTree(other.RootDoc().store, other.root);
      CompareNodeIsNormalEquality(t, u);
      return CompareNode(t, u);
    }

    /**
     * clone of an element root: a cursor on a new document whose element is a deep
     * copy of root, equal to it under compareNode; the empty cursor returns itself.
     */
    method Clone() returns (r: XDoc)
      requires Valid() && (doc != null ==> doc.store.nodes[root].kind == ElementNode)
      ensures doc == null ==> r == this
      ensures doc != null ==>
        fresh(r) && fresh(r.doc) && r.Valid() && r.doc.store == CloneDocument(doc.store, root) &&
        r.root == 1 && r.list == Some([NodeRef(r.doc, 1)]) && r.index == 0
      ensures doc != null ==> ToTree(r.doc.store, r.root) == ToTree(doc.store, root)
      ensures doc != null ==> CompareNode(ToTree(r.doc.store, r.root), ToTree(doc.store, root))
    {
      if doc == null {
        return this;
      }
      var d := new Document.Clone(doc.store, root);
      CloneDocumentTree(doc.store, root);
      assert d.DocumentElement() == Some(1);
      var x := OfDocument(d);
      r := x.value;
    }
  }
}
