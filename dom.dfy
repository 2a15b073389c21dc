/**
 * The DOM tree the cursor works on, as a node store: node id -> node data, with
 * the edits the cursor asks of the DOM (create, append/insert, remove, replace,
 * attribute set/remove, value set, deep import) as functions on the store.
 *
 * Every node records a `rank`, a depth bound that is not in the DOM: a child's
 * rank exceeds its parent's, and every rank is below `next`. It is what makes
 * the climb along parent links and the descent into children terminate.
 */
module Dom {
  import opened Wrappers
  import opened Trees

  type NodeId = nat

  /** One DOM node. For an attribute, `parent` is its owner element. */
  datatype NodeData = NodeData(kind: Kind, name: string, value: string,
                               children: seq<NodeId>, attrs: seq<NodeId>,
                               parent: Option<NodeId>, rank: nat)

  /** All nodes ever created in one document; `next` is the id the next new node gets. */
  datatype Store = Store(nodes: map<NodeId, NodeData>, next: NodeId)

  predicate NoDup(xs: seq<NodeId>) {
    forall i, j :: 0 <= i < j < |xs| ==> xs[i] != xs[j]
  }

  /** The links of node `id` agree with the nodes they point to. */
  ghost predicate NodeWf(s: Store, id: NodeId)
    requires id in s.nodes
  {
    var n := s.nodes[id];
    id < s.next && n.rank < s.next &&
    NoDup(n.children) && NoDup(n.attrs) &&
    (forall c :: c in n.children ==>
       c in s.nodes && s.nodes[c].parent == Some(id) && s.nodes[c].rank > n.rank &&
       IsChildKind(s.nodes[c].kind)) &&
    (forall a :: a in n.attrs ==>
       a in s.nodes && s.nodes[a].parent == Some(id) && s.nodes[a].rank > n.rank &&
       s.nodes[a].kind == AttributeNode) &&
    (n.children != [] ==> HasChildren(n.kind)) &&
    (n.attrs != [] ==> n.kind == ElementNode) &&
    (n.parent.Some? ==>
       n.parent.value in s.nodes &&
       (if n.kind == AttributeNode then id in s.nodes[n.parent.value].attrs
        else id in s.nodes[n.parent.value].children))
  }

  /** Well-formed store: parent and child/attribute links agree, ranks rule out cycles. */
  ghost predicate Wf(s: Store) {
    (forall id :: id in s.nodes ==> id < s.next) &&
    (forall id {:trigger NodeWf(s, id)} :: id in s.nodes ==> NodeWf(s, id))
  }

  /** DOM getParentNode: attributes and detached nodes have none. */
  function ParentNode(s: Store, id: NodeId): (r: Option<NodeId>)
    requires Wf(s) && id in s.nodes
    ensures r.Some? ==> r.value in s.nodes && id in s.nodes[r.value].children &&
                        s.nodes[r.value].rank < s.nodes[id].rank
  {
    assert NodeWf(s, id);
    if s.nodes[id].kind == AttributeNode then None
    else if s.nodes[id].parent == None then None
    else
      assert NodeWf(s, s.nodes[id].parent.value);
      s.nodes[id].parent
  }

  /** A parent node is a node that takes children. */
  lemma ParentHasChildren(s: Store, id: NodeId)
    requires Wf(s) && id in s.nodes && ParentNode(s, id).Some?
    ensures HasChildren(s.nodes[ParentNode(s, id).value].kind)
  {
    assert NodeWf(s, ParentNode(s, id).value);
  }

  /** The node ids of a store never go away and stay below `next`. */
  ghost predicate Grows(s: Store, t: Store) {
    s.nodes.Keys <= t.nodes.Keys && s.next <= t.next
  }

  /** t only adds nodes to s. */
  ghost predicate Extends(s: Store, t: Store) {
    Grows(s, t) && forall y :: y in s.nodes ==> t.nodes[y] == s.nodes[y]
  }

  /** A node's data apart from its parent link. */
  function Shape(n: NodeData): NodeData {
    n.(parent := None)
  }

  // ---------------------------------------------------------------- sequences

  /** The list without x (removeChild on a list that holds x at most once). */
  function Without(xs: seq<NodeId>, x: NodeId): (r: seq<NodeId>)
    ensures forall y :: y in r <==> y in xs && y != x
    ensures NoDup(xs) ==> NoDup(r)
    ensures x !in xs ==> r == xs
  {
    if xs == [] then []
    else if xs[0] == x then Without(xs[1..], x)
    else
      var rest := Without(xs[1..], x);
      assert NoDup(xs) ==> xs[0] !in xs[1..] by {
        if NoDup(xs) {
          forall k | 0 <= k < |xs[1..]| ensures xs[1..][k] != xs[0] {
            assert xs[1..][k] == xs[k + 1];
          }
        }
      }
      assert NoDup(xs) ==> NoDup(xs[1..]) by {
        if NoDup(xs) {
          forall i, j | 0 <= i < j < |xs[1..]| ensures xs[1..][i] != xs[1..][j] {
            assert xs[1..][i] == xs[i + 1] && xs[1..][j] == xs[j + 1];
          }
        }
      }
      var r := [xs[0]] + rest;
      assert NoDup(xs) ==> NoDup(r) by {
        if NoDup(xs) {
          forall i, j | 0 <= i < j < |r| ensures r[i] != r[j] {
            if i == 0 { assert r[j] in rest; }
            else { assert r[i] == rest[i - 1] && r[j] == rest[j - 1]; }
          }
        }
      }
      r
  }

  lemma {:induction false} WithoutAt(xs: seq<NodeId>, i: nat)
    requires NoDup(xs) && i < |xs|
    ensures Without(xs, xs[i]) == xs[..i] + xs[i + 1..]
  {
    NoDupTail(xs);
    if i == 0 {
      assert xs[1..] == xs[i + 1..];
    } else {
      assert xs[0] != xs[i];
      WithoutAt(xs[1..], i - 1);
      assert xs[1..][i - 1] == xs[i];
      assert xs[..i] + xs[i + 1..] == [xs[0]] + (xs[1..][..i - 1] + xs[1..][i..]);
    }
  }

  /** Without duplicates, the head is not in the tail and the tail has none either. */
  lemma NoDupTail(xs: seq<NodeId>)
    requires NoDup(xs) && xs != []
    ensures xs[0] !in xs[1..] && NoDup(xs[1..])
  {
    forall k | 0 <= k < |xs[1..]| ensures xs[1..][k] != xs[0] {
      assert xs[1..][k] == xs[k + 1];
    }
    forall a, b | 0 <= a < b < |xs[1..]| ensures xs[1..][a] != xs[1..][b] {
      assert xs[1..][a] == xs[a + 1] && xs[1..][b] == xs[b + 1];
    }
  }

  /** Position of the first occurrence of x. */
  function IndexOf(xs: seq<NodeId>, x: NodeId): (i: nat)
    requires x in xs
    ensures i < |xs| && xs[i] == x && x !in xs[..i]
  {
    if xs[0] == x then 0
    else
      var k := IndexOf(xs[1..], x);
      assert xs[..k + 1] == [xs[0]] + xs[1..][..k];
      k + 1
  }

  function Insert(xs: seq<NodeId>, pos: nat, x: NodeId): (r: seq<NodeId>)
    requires pos <= |xs|
  {
    xs[..pos] + [x] + xs[pos..]
  }

  lemma InsertFacts(xs: seq<NodeId>, pos: nat, x: NodeId)
    requires pos <= |xs| && NoDup(xs) && x !in xs
    ensures NoDup(Insert(xs, pos, x))
    ensures forall y :: y in Insert(xs, pos, x) <==> y in xs || y == x
  {
    var r := Insert(xs, pos, x);
    assert |r| == |xs| + 1;
    assert forall k :: 0 <= k < |r| ==> r[k] == (if k < pos then xs[k] else if k == pos then x else xs[k - 1]);
    forall y | y in xs ensures y in r {
      var k :| 0 <= k < |xs| && xs[k] == y;
      if k < pos { assert r[k] == y; } else { assert r[k + 1] == y; }
    }
    forall i, j | 0 <= i < j < |r| ensures r[i] != r[j] {
      if i == pos { assert r[j] in xs; }
      else if j == pos { assert r[i] in xs; }
    }
  }

  // ---------------------------------------------------------------- primitives

  /** The link-relevant part of a node as its neighbours see it. */
  predicate SameLinkInfo(a: NodeData, b: NodeData) {
    a.parent == b.parent && a.rank == b.rank && a.kind == b.kind
  }

  /** A node whose own data is unchanged stays well formed if its neighbours still agree with it. */
  lemma Transfer(s: Store, t: Store, y: NodeId)
    requires y in s.nodes && NodeWf(s, y) && y in t.nodes && t.nodes[y] == s.nodes[y] && t.next >= s.next
    requires forall z :: z in s.nodes[y].children ==> z in t.nodes && SameLinkInfo(t.nodes[z], s.nodes[z])
    requires forall z :: z in s.nodes[y].attrs ==> z in t.nodes && SameLinkInfo(t.nodes[z], s.nodes[z])
    requires s.nodes[y].parent.Some? ==>
      var q := s.nodes[y].parent.value;
      q in t.nodes &&
      (y in s.nodes[q].children ==> y in t.nodes[q].children) &&
      (y in s.nodes[q].attrs ==> y in t.nodes[q].attrs)
    ensures NodeWf(t, y)
  {
  }

  /** Creates a detached node (createElement, createTextNode, ...); its id is `next`. */
  function Alloc(s: Store, kind: Kind, name: string, value: string, rank: nat): (r: (Store, NodeId))
    requires Wf(s) && rank <= s.next
    ensures Wf(r.0) && r.1 == s.next && r.0.next == s.next + 1
    ensures r.0.nodes == s.nodes[r.1 := NodeData(kind, name, value, [], [], None, rank)]
    ensures r.1 !in s.nodes
  {
    var id := s.next;
    var t := Store(s.nodes[id := NodeData(kind, name, value, [], [], None, rank)], s.next + 1);
    AllocWf(s, t, id);
    (t, id)
  }

  lemma AllocWf(s: Store, t: Store, id: NodeId)
    requires Wf(s) && id == s.next && t.next == s.next + 1
    requires exists n :: t.nodes == s.nodes[id := n] && n.children == [] && n.attrs == [] &&
                         n.parent == None && n.rank <= s.next
    ensures Wf(t)
  {
    var n :| t.nodes == s.nodes[id := n] && n.children == [] && n.attrs == [] && n.parent == None && n.rank <= s.next;
    forall y | y in t.nodes ensures NodeWf(t, y) {
      if y != id {
        assert NodeWf(s, y);
        assert id !in s.nodes[y].children && id !in s.nodes[y].attrs;
        Transfer(s, t, y);
      }
    }
  }

  /** What linking c below p at a position needs: c detached, kinds and ranks compatible. */
  ghost predicate CanLink(s: Store, p: NodeId, c: NodeId) {
    p in s.nodes && c in s.nodes && p != c &&
    HasChildren(s.nodes[p].kind) && IsChildKind(s.nodes[c].kind) &&
    s.nodes[c].parent == None && s.nodes[c].rank > s.nodes[p].rank
  }

  /** A detached node is in no child or attribute list. */
  lemma DetachedUnlisted(s: Store, c: NodeId)
    requires Wf(s) && c in s.nodes && s.nodes[c].parent == None
    ensures forall y :: y in s.nodes ==> c !in s.nodes[y].children && c !in s.nodes[y].attrs
  {
    forall y | y in s.nodes ensures c !in s.nodes[y].children && c !in s.nodes[y].attrs {
      assert NodeWf(s, y);
    }
  }

  /** insertBefore/appendChild of a detached node: c enters p's child list at `pos`. */
  function Link(s: Store, p: NodeId, c: NodeId, pos: nat): (r: Store)
    requires Wf(s) && CanLink(s, p, c) && pos <= |s.nodes[p].children|
    ensures Wf(r) && r.next == s.next && r.nodes.Keys == s.nodes.Keys
    ensures r.nodes[p] == s.nodes[p].(children := Insert(s.nodes[p].children, pos, c))
    ensures r.nodes[c] == s.nodes[c].(parent := Some(p))
    ensures forall y :: y in s.nodes && y != p && y != c ==> r.nodes[y] == s.nodes[y]
  {
    var np := s.nodes[p];
    var t := Store(s.nodes[p := np.(children := Insert(np.children, pos, c))][c := s.nodes[c].(parent := Some(p))], s.next);
    LinkWf(s, p, c, pos, t);
    t
  }

  lemma LinkWf(s: Store, p: NodeId, c: NodeId, pos: nat, t: Store)
    requires Wf(s) && CanLink(s, p, c) && pos <= |s.nodes[p].children|
    requires t == Store(s.nodes[p := s.nodes[p].(children := Insert(s.nodes[p].children, pos, c))]
                                [c := s.nodes[c].(parent := Some(p))], s.next)
    ensures Wf(t)
  {
    DetachedUnlisted(s, c);
    assert NodeWf(s, p) && NodeWf(s, c);
    InsertFacts(s.nodes[p].children, pos, c);
    forall y | y in t.nodes ensures NodeWf(t, y) {
      assert NodeWf(s, y);
      if y != p && y != c {
        Transfer(s, t, y);
      } else if y == c {
        forall z | z in s.nodes[c].children ensures z != p {
          assert s.nodes[z].rank > s.nodes[c].rank;
        }
      }
    }
  }

  /** removeChild: c leaves p's child list and becomes detached. */
  function Unlink(s: Store, p: NodeId, c: NodeId): (r: Store)
    requires Wf(s) && p in s.nodes && c in s.nodes[p].children
    ensures Wf(r) && r.next == s.next && r.nodes.Keys == s.nodes.Keys
    ensures r.nodes[p] == s.nodes[p].(children := Without(s.nodes[p].children, c))
    ensures c in s.nodes && r.nodes[c] == s.nodes[c].(parent := None)
    ensures forall y :: y in s.nodes && y != p && y != c ==> r.nodes[y] == s.nodes[y]
  {
    assert NodeWf(s, p);
    var t := Store(s.nodes[p := s.nodes[p].(children := Without(s.nodes[p].children, c))]
                          [c := s.nodes[c].(parent := None)], s.next);
    UnlinkWf(s, p, c, t);
    t
  }

  lemma UnlinkWf(s: Store, p: NodeId, c: NodeId, t: Store)
    requires Wf(s) && p in s.nodes && c in s.nodes[p].children && c in s.nodes
    requires t == Store(s.nodes[p := s.nodes[p].(children := Without(s.nodes[p].children, c))]
                                [c := s.nodes[c].(parent := None)], s.next)
    ensures Wf(t)
  {
    assert NodeWf(s, p);
    assert NodeWf(s, c);
    forall y | y in t.nodes ensures NodeWf(t, y) {
      assert NodeWf(s, y);
      if y != p && y != c {
        assert c !in s.nodes[y].children && c !in s.nodes[y].attrs;
        Transfer(s, t, y);
      } else if y == c {
        forall z | z in s.nodes[c].children ensures z != p {
          assert s.nodes[z].rank > s.nodes[c].rank;
        }
      }
    }
  }

  /** What attaching attribute node a to element e needs. */
  ghost predicate CanLinkAttr(s: Store, e: NodeId, a: NodeId) {
    e in s.nodes && a in s.nodes && e != a &&
    s.nodes[e].kind == ElementNode && s.nodes[a].kind == AttributeNode &&
    s.nodes[a].parent == None && s.nodes[a].rank > s.nodes[e].rank
  }

  /** The attribute map takes a detached attribute node at position `pos`. */
  function LinkAttr(s: Store, e: NodeId, a: NodeId, pos: nat): (r: Store)
    requires Wf(s) && CanLinkAttr(s, e, a) && pos <= |s.nodes[e].attrs|
    ensures Wf(r) && r.next == s.next && r.nodes.Keys == s.nodes.Keys
    ensures r.nodes[e] == s.nodes[e].(attrs := Insert(s.nodes[e].attrs, pos, a))
    ensures r.nodes[a] == s.nodes[a].(parent := Some(e))
    ensures forall y :: y in s.nodes && y != e && y != a ==> r.nodes[y] == s.nodes[y]
  {
    var t := Store(s.nodes[e := s.nodes[e].(attrs := Insert(s.nodes[e].attrs, pos, a))]
                          [a := s.nodes[a].(parent := Some(e))], s.next);
    LinkAttrWf(s, e, a, pos, t);
    t
  }

  lemma LinkAttrWf(s: Store, e: NodeId, a: NodeId, pos: nat, t: Store)
    requires Wf(s) && CanLinkAttr(s, e, a) && pos <= |s.nodes[e].attrs|
    requires t == Store(s.nodes[e := s.nodes[e].(attrs := Insert(s.nodes[e].attrs, pos, a))]
                                [a := s.nodes[a].(parent := Some(e))], s.next)
    ensures Wf(t)
  {
    DetachedUnlisted(s, a);
    assert NodeWf(s, e) && NodeWf(s, a);
    InsertFacts(s.nodes[e].attrs, pos, a);
    forall y | y in t.nodes ensures NodeWf(t, y) {
      assert NodeWf(s, y);
      if y != e && y != a {
        Transfer(s, t, y);
      }
    }
  }

  /** The attribute map drops attribute node a of element e. */
  function UnlinkAttr(s: Store, e: NodeId, a: NodeId): (r: Store)
    requires Wf(s) && e in s.nodes && a in s.nodes[e].attrs
    ensures Wf(r) && r.next == s.next && r.nodes.Keys == s.nodes.Keys
    ensures r.nodes[e] == s.nodes[e].(attrs := Without(s.nodes[e].attrs, a))
    ensures a in s.nodes && r.nodes[a] == s.nodes[a].(parent := None)
    ensures forall y :: y in s.nodes && y != e && y != a ==> r.nodes[y] == s.nodes[y]
  {
    assert NodeWf(s, e);
    var t := Store(s.nodes[e := s.nodes[e].(attrs := Without(s.nodes[e].attrs, a))]
                          [a := s.nodes[a].(parent := None)], s.next);
    UnlinkAttrWf(s, e, a, t);
    t
  }

  lemma UnlinkAttrWf(s: Store, e: NodeId, a: NodeId, t: Store)
    requires Wf(s) && e in s.nodes && a in s.nodes[e].attrs && a in s.nodes
    requires t == Store(s.nodes[e := s.nodes[e].(attrs := Without(s.nodes[e].attrs, a))]
                                [a := s.nodes[a].(parent := None)], s.next)
    ensures Wf(t)
  {
    assert NodeWf(s, e);
    assert NodeWf(s, a);
    forall y | y in t.nodes ensures NodeWf(t, y) {
      assert NodeWf(s, y);
      if y != e && y != a {
        assert a !in s.nodes[y].children && a !in s.nodes[y].attrs;
        Transfer(s, t, y);
      }
    }
  }

  /** setNodeValue on a text, CDATA or attribute node. */
  function SetValue(s: Store, id: NodeId, v: string): (r: Store)
    requires Wf(s) && id in s.nodes
    ensures Wf(r) && r.next == s.next && r.nodes.Keys == s.nodes.Keys
    ensures r.nodes[id] == s.nodes[id].(value := v)
    ensures forall y :: y in s.nodes && y != id ==> r.nodes[y] == s.nodes[y]
  {
    var t := Store(s.nodes[id := s.nodes[id].(value := v)], s.next);
    assert forall y :: y in t.nodes ==> NodeWf(t, y) by {
      forall y | y in t.nodes ensures NodeWf(t, y) {
        assert NodeWf(s, y);
        if y != id { Transfer(s, t, y); }
      }
    }
    t
  }

  // ---------------------------------------------------------------- abstraction

  /** The subtree at `id` as a value (attributes, then children, each in list order). */
  function ToTree(s: Store, id: NodeId): Tree
    requires Wf(s) && id in s.nodes
    decreases s.next - s.nodes[id].rank
  {
    var n := s.nodes[id];
    assert NodeWf(s, id);
    Tree(n.kind, n.name, n.value,
         seq(|n.attrs|, i requires 0 <= i < |n.attrs| => assert n.attrs[i] in n.attrs; ToTree(s, n.attrs[i])),
         seq(|n.children|, i requires 0 <= i < |n.children| => assert n.children[i] in n.children; ToTree(s, n.children[i])))
  }

  /** Trees the DOM can hold: attributes are leaves, children only below elements and documents. */
  predicate WellKinded(t: Tree)
    decreases t
  {
    (t.attrs != [] ==> t.kind == ElementNode) &&
    (t.children != [] ==> HasChildren(t.kind)) &&
    (forall i :: 0 <= i < |t.attrs| ==>
       t.attrs[i].kind == AttributeNode && t.attrs[i].attrs == [] && t.attrs[i].children == []) &&
    (forall i :: 0 <= i < |t.children| ==> IsChildKind(t.children[i].kind) && WellKinded(t.children[i]))
  }

  lemma {:induction false} ToTreeWellKinded(s: Store, id: NodeId)
    requires Wf(s) && id in s.nodes
    ensures WellKinded(ToTree(s, id))
    decreases s.next - s.nodes[id].rank
  {
    var n := s.nodes[id];
    assert NodeWf(s, id);
    var t := ToTree(s, id);
    forall i | 0 <= i < |n.attrs|
      ensures t.attrs[i].kind == AttributeNode && t.attrs[i].attrs == [] && t.attrs[i].children == []
    {
      var a := n.attrs[i];
      assert a in n.attrs;
      assert NodeWf(s, a);
      assert t.attrs[i] == ToTree(s, a);
      assert s.nodes[a].attrs == [] && s.nodes[a].children == [];
    }
    forall i | 0 <= i < |n.children|
      ensures IsChildKind(t.children[i].kind) && WellKinded(t.children[i])
    {
      assert n.children[i] in n.children;
      ToTreeWellKinded(s, n.children[i]);
    }
  }

  /** t keeps, with their shape, all nodes of s of rank at least `lo`. */
  ghost predicate KeepsFrom(s: Store, t: Store, lo: nat) {
    forall y :: y in s.nodes && s.nodes[y].rank >= lo ==>
      y in t.nodes && Shape(t.nodes[y]) == Shape(s.nodes[y])
  }

  /** Edits that leave a subtree's nodes (apart from the root's parent link) alone leave its value alone. */
  lemma {:induction false} ToTreeFrame(s: Store, t: Store, id: NodeId)
    requires Wf(s) && Wf(t) && id in s.nodes && KeepsFrom(s, t, s.nodes[id].rank)
    ensures id in t.nodes && ToTree(t, id) == ToTree(s, id)
    decreases s.next - s.nodes[id].rank
  {
    var n := s.nodes[id];
    assert NodeWf(s, id);
    assert Shape(t.nodes[id]) == Shape(n);
    var m := t.nodes[id];
    assert m.attrs == n.attrs && m.children == n.children && m.kind == n.kind;
    forall i | 0 <= i < |n.attrs| ensures ToTree(t, n.attrs[i]) == ToTree(s, n.attrs[i]) {
      assert n.attrs[i] in n.attrs;
      assert NodeWf(t, id);
      assert n.attrs[i] in m.attrs;
      ToTreeFrame(s, t, n.attrs[i]);
    }
    forall i | 0 <= i < |n.children| ensures ToTree(t, n.children[i]) == ToTree(s, n.children[i]) {
      assert n.children[i] in n.children;
      assert NodeWf(t, id);
      assert n.children[i] in m.children;
      ToTreeFrame(s, t, n.children[i]);
    }
  }

  /** Nothing of rank above p's changes when only p does. */
  lemma UnchangedKeeps(s: Store, t: Store, p: NodeId, lo: nat)
    requires p in s.nodes && s.nodes[p].rank < lo
    requires forall y :: y in s.nodes && y != p ==> y in t.nodes && t.nodes[y] == s.nodes[y]
    ensures KeepsFrom(s, t, lo)
  {
  }

  // ---------------------------------------------------------------- deep copy

  /**
   * importNode(node, true) of a subtree given by value: the nodes are created in
   * pre-order (the node, its attributes, then each child subtree), and the copy
   * stays detached. `rank` is the rank its future parent's children get.
   */
  function Materialize(s: Store, t: Tree, rank: nat): (r: (Store, NodeId))
    requires Wf(s) && WellKinded(t) && IsChildKind(t.kind) && rank <= s.next
    ensures Wf(r.0) && Extends(s, r.0) && r.1 == s.next && r.1 in r.0.nodes
    ensures r.0.nodes[r.1].parent == None && r.0.nodes[r.1].rank == rank
    ensures ToTree(r.0, r.1) == t
    decreases t, 1
  {
    var a := Shell(s, t, rank);
    assert ChildTrees(t.children);
    var c := MaterializeChildren(a.0, a.1, t.children);
    MaterializeShape(t, a.0, a.1, c.0, c.1);
    (c.0, a.1)
  }

  /** The copied node with its attributes but no children yet; its attribute nodes are leaves. */
  ghost predicate ShellOf(s: Store, id: NodeId, t: Tree)
    requires id in s.nodes
  {
    var n := s.nodes[id];
    n.kind == t.kind && n.name == t.name && n.value == t.value && n.children == [] &&
    |n.attrs| == |t.attrs| &&
    forall j :: 0 <= j < |t.attrs| ==>
      n.attrs[j] in s.nodes &&
      s.nodes[n.attrs[j]] == NodeData(AttributeNode, t.attrs[j].name, t.attrs[j].value, [], [], Some(id), n.rank + 1)
  }

  /** createElement/createTextNode/... for t's root, then its attributes, detached. */
  function Shell(s: Store, t: Tree, rank: nat): (r: (Store, NodeId))
    requires Wf(s) && WellKinded(t) && IsChildKind(t.kind) && rank <= s.next
    ensures Wf(r.0) && Extends(s, r.0) && r.1 == s.next && r.1 in r.0.nodes
    ensures r.0.nodes[r.1].parent == None && r.0.nodes[r.1].rank == rank
    ensures ShellOf(r.0, r.1, t)
  {
    var a := Alloc(s, t.kind, t.name, t.value, rank);
    var b := MaterializeAttrs(a.0, a.1, t.attrs);
    ShellIsShellOf(t, a.0.nodes[a.1], b.0, a.1, b.1);
    (b.0, a.1)
  }

  lemma ShellIsShellOf(t: Tree, n: NodeData, s: Store, id: NodeId, ats: seq<NodeId>)
    requires n.kind == t.kind && n.name == t.name && n.value == t.value && n.children == [] && n.attrs == []
    requires id in s.nodes && s.nodes[id] == n.(attrs := n.attrs + ats) && |ats| == |t.attrs|
    requires forall j :: 0 <= j < |t.attrs| ==>
      ats[j] in s.nodes &&
      s.nodes[ats[j]] == NodeData(AttributeNode, t.attrs[j].name, t.attrs[j].value, [], [], Some(id), n.rank + 1)
    ensures ShellOf(s, id, t)
  {
    assert s.nodes[id].attrs == ats;
  }

  /** The shell with t's children appended is t. */
  lemma MaterializeShape(t: Tree, s2: Store, id: NodeId, s3: Store, cs: seq<NodeId>)
    requires WellKinded(t) && Wf(s2) && Wf(s3) && id in s2.nodes && ShellOf(s2, id, t)
    requires FrameBut(s2, s3, id)
    requires id in s3.nodes && s3.nodes[id] == s2.nodes[id].(children := s2.nodes[id].children + cs)
    requires Copies(s3, cs, t.children)
    ensures ToTree(s3, id) == t
  {
    ShellAttrTrees(t, s2, id, s3, cs);
    ShellChildTrees(t, s2, id, s3, cs);
    var tr := ToTree(s3, id);
    assert tr.kind == t.kind && tr.name == t.name && tr.value == t.value;
  }

  /** The child subtrees of the filled shell are t's children. */
  lemma ShellChildTrees(t: Tree, s2: Store, id: NodeId, s3: Store, cs: seq<NodeId>)
    requires Wf(s3) && id in s2.nodes && ShellOf(s2, id, t)
    requires id in s3.nodes && s3.nodes[id] == s2.nodes[id].(children := s2.nodes[id].children + cs)
    requires Copies(s3, cs, t.children)
    ensures ToTree(s3, id).children == t.children
  {
    var tr := ToTree(s3, id);
    assert s3.nodes[id].children == cs;
    forall j | 0 <= j < |cs| ensures tr.children[j] == t.children[j] {
      assert tr.children[j] == ToTree(s3, cs[j]);
    }
  }

  /** The attribute subtrees of the filled shell are t's attributes. */
  lemma ShellAttrTrees(t: Tree, s2: Store, id: NodeId, s3: Store, cs: seq<NodeId>)
    requires WellKinded(t) && Wf(s2) && Wf(s3) && id in s2.nodes && ShellOf(s2, id, t)
    requires FrameBut(s2, s3, id)
    requires id in s3.nodes && s3.nodes[id] == s2.nodes[id].(children := s2.nodes[id].children + cs)
    ensures ToTree(s3, id).attrs == t.attrs
  {
    var tr := ToTree(s3, id);
    var ats := s2.nodes[id].attrs;
    assert NodeWf(s2, id);
    forall j | 0 <= j < |t.attrs| ensures tr.attrs[j] == t.attrs[j] {
      var a := ats[j];
      assert a in ats && a != id;
      assert tr.attrs[j] == ToTree(s3, a);
      assert s3.nodes[a] == s2.nodes[a];
      assert ToTree(s3, a) == Tree(AttributeNode, t.attrs[j].name, t.attrs[j].value, [], []);
      assert t.attrs[j].kind == AttributeNode && t.attrs[j].attrs == [] && t.attrs[j].children == [];
    }
  }

  /** Creates attribute nodes for ats and attaches them, in order, after e's current attributes. */
  function MaterializeAttrs(s: Store, e: NodeId, ats: seq<Tree>): (r: (Store, seq<NodeId>))
    requires Wf(s) && e in s.nodes && (ats != [] ==> s.nodes[e].kind == ElementNode)
    requires forall j :: 0 <= j < |ats| ==> ats[j].kind == AttributeNode
    ensures Wf(r.0) && Grows(s, r.0)
    ensures forall y :: y in s.nodes && y != e ==> y in r.0.nodes && r.0.nodes[y] == s.nodes[y]
    ensures r.0.nodes[e] == s.nodes[e].(attrs := s.nodes[e].attrs + r.1) && |r.1| == |ats|
    ensures forall j :: 0 <= j < |ats| ==>
      r.1[j] in r.0.nodes &&
      r.0.nodes[r.1[j]] == NodeData(AttributeNode, ats[j].name, ats[j].value, [], [], Some(e), s.nodes[e].rank + 1)
    decreases |ats|
  {
    if ats == [] then
      assert s.nodes[e].attrs + [] == s.nodes[e].attrs;
      (s, [])
    else
      assert NodeWf(s, e);
      var a := Alloc(s, AttributeNode, ats[0].name, ats[0].value, s.nodes[e].rank + 1);
      var s2 := LinkAttr(a.0, e, a.1, |a.0.nodes[e].attrs|);
      var rest := MaterializeAttrs(s2, e, ats[1..]);
      MaterializeAttrsStep(s, e, ats, rest.0, rest.1);
      (rest.0, [a.1] + rest.1)
  }

  /** One attribute allocated and linked, then the rest: the whole list is in place. */
  lemma MaterializeAttrsStep(s: Store, e: NodeId, ats: seq<Tree>, r: Store, ids: seq<NodeId>)
    requires Wf(s) && e in s.nodes && ats != [] && s.nodes[e].rank + 1 <= s.next
    requires var a := Alloc(s, AttributeNode, ats[0].name, ats[0].value, s.nodes[e].rank + 1);
      CanLinkAttr(a.0, e, a.1) &&
      var s2 := LinkAttr(a.0, e, a.1, |a.0.nodes[e].attrs|);
      Grows(s2, r) &&
      (forall y :: y in s2.nodes && y != e ==> y in r.nodes && r.nodes[y] == s2.nodes[y]) &&
      r.nodes[e] == s2.nodes[e].(attrs := s2.nodes[e].attrs + ids) && |ids| == |ats[1..]| &&
      forall j :: 0 <= j < |ats[1..]| ==>
        ids[j] in r.nodes &&
        r.nodes[ids[j]] == NodeData(AttributeNode, ats[1..][j].name, ats[1..][j].value, [], [], Some(e), s2.nodes[e].rank + 1)
    ensures var a := Alloc(s, AttributeNode, ats[0].name, ats[0].value, s.nodes[e].rank + 1).1;
      Grows(s, r) &&
      (forall y :: y in s.nodes && y != e ==> y in r.nodes && r.nodes[y] == s.nodes[y]) &&
      r.nodes[e] == s.nodes[e].(attrs := s.nodes[e].attrs + ([a] + ids)) && |[a] + ids| == |ats| &&
      forall j :: 0 <= j < |ats| ==>
        ([a] + ids)[j] in r.nodes &&
        r.nodes[([a] + ids)[j]] == NodeData(AttributeNode, ats[j].name, ats[j].value, [], [], Some(e), s.nodes[e].rank + 1)
  {
    var m := Alloc(s, AttributeNode, ats[0].name, ats[0].value, s.nodes[e].rank + 1);
    var a := m.1;
    var s2 := LinkAttr(m.0, e, a, |m.0.nodes[e].attrs|);
    assert a !in s.nodes;
    assert m.0.nodes[e] == s.nodes[e];
    assert s2.nodes[e].rank == s.nodes[e].rank;
    assert s.nodes[e].attrs + ([a] + ids) == Insert(s.nodes[e].attrs, |s.nodes[e].attrs|, a) + ids;
    forall j | 0 <= j < |ats|
      ensures ([a] + ids)[j] in r.nodes &&
        r.nodes[([a] + ids)[j]] == NodeData(AttributeNode, ats[j].name, ats[j].value, [], [], Some(e), s.nodes[e].rank + 1)
    {
      if j > 0 { assert ats[1..][j - 1] == ats[j]; }
    }
  }

  /** Every node of s other than p is still in t, unchanged. */
  ghost predicate FrameBut(s: Store, t: Store, p: NodeId) {
    forall y :: y in s.nodes && y != p ==> y in t.nodes && t.nodes[y] == s.nodes[y]
  }

  /** ids are nodes of r whose subtrees are cs, position by position. */
  ghost predicate Copies(r: Store, ids: seq<NodeId>, cs: seq<Tree>) {
    Wf(r) && |ids| == |cs| &&
    forall j :: 0 <= j < |cs| ==> ids[j] in r.nodes && ToTree(r, ids[j]) == cs[j]
  }

  /** Subtrees the store can hold below an element. */
  predicate ChildTrees(cs: seq<Tree>) {
    forall j :: 0 <= j < |cs| ==> WellKinded(cs[j]) && IsChildKind(cs[j].kind)
  }

  lemma ChildTreesTail(cs: seq<Tree>)
    requires cs != [] && ChildTrees(cs)
    ensures ChildTrees(cs[1..])
  {
    forall j | 0 <= j < |cs[1..]| ensures WellKinded(cs[1..][j]) && IsChildKind(cs[1..][j].kind) {
      assert cs[1..][j] == cs[j + 1];
    }
  }

  /** Deep-copies cs and appends the copies, in order, after p's current children. */
  function MaterializeChildren(s: Store, p: NodeId, cs: seq<Tree>): (r: (Store, seq<NodeId>))
    requires Wf(s) && p in s.nodes && (cs != [] ==> HasChildren(s.nodes[p].kind)) && ChildTrees(cs)
    ensures Wf(r.0) && Grows(s, r.0) && FrameBut(s, r.0, p)
    ensures p in r.0.nodes && r.0.nodes[p] == s.nodes[p].(children := s.nodes[p].children + r.1)
    ensures Copies(r.0, r.1, cs)
    decreases cs
  {
    if cs == [] then
      assert s.nodes[p].children + [] == s.nodes[p].children;
      (s, [])
    else
      assert NodeWf(s, p);
      var m := Materialize(s, cs[0], s.nodes[p].rank + 1);
      var s2 := Link(m.0, p, m.1, |m.0.nodes[p].children|);
      ChildTreesTail(cs);
      var rest := MaterializeChildren(s2, p, cs[1..]);
      MaterializeChildrenStep(s, p, cs, m.0, m.1, s2, rest.0, rest.1);
      (rest.0, [m.1] + rest.1)
  }

  lemma MaterializeChildrenStep(s: Store, p: NodeId, cs: seq<Tree>, s1: Store, c: NodeId, s2: Store, r: Store, ids: seq<NodeId>)
    requires Wf(s) && p in s.nodes && cs != []
    requires Wf(s1) && Extends(s, s1) && c == s.next && c in s1.nodes
    requires s1.nodes[c].rank == s.nodes[p].rank + 1
    requires ToTree(s1, c) == cs[0]
    requires Wf(s2) && s2.nodes.Keys == s1.nodes.Keys
    requires s2.nodes[p] == s1.nodes[p].(children := Insert(s1.nodes[p].children, |s1.nodes[p].children|, c))
    requires s2.nodes[c] == s1.nodes[c].(parent := Some(p))
    requires forall y :: y in s1.nodes && y != p && y != c ==> s2.nodes[y] == s1.nodes[y]
    requires Wf(r) && FrameBut(s2, r, p)
    requires p in r.nodes && r.nodes[p] == s2.nodes[p].(children := s2.nodes[p].children + ids)
    requires Copies(r, ids, cs[1..])
    ensures FrameBut(s, r, p)
    ensures r.nodes[p] == s.nodes[p].(children := s.nodes[p].children + ([c] + ids))
    ensures Copies(r, [c] + ids, cs)
  {
    assert c !in s.nodes;
    assert s.nodes[p].children + ([c] + ids) == Insert(s.nodes[p].children, |s.nodes[p].children|, c) + ids;
    LinkedCopyKept(s1, p, c, s2, r);
    forall j | 0 <= j < |cs| ensures ([c] + ids)[j] in r.nodes && ToTree(r, ([c] + ids)[j]) == cs[j] {
      if j > 0 { assert cs[1..][j - 1] == cs[j]; }
    }
  }

  /** The copy linked below p keeps its tree through the link and through later edits outside it. */
  lemma LinkedCopyKept(s1: Store, p: NodeId, c: NodeId, s2: Store, r: Store)
    requires Wf(s1) && p in s1.nodes && c in s1.nodes && s1.nodes[c].rank > s1.nodes[p].rank
    requires Wf(s2) && s2.nodes.Keys == s1.nodes.Keys
    requires s2.nodes[c] == s1.nodes[c].(parent := Some(p)) && s2.nodes[p].rank == s1.nodes[p].rank
    requires forall y :: y in s1.nodes && y != p && y != c ==> s2.nodes[y] == s1.nodes[y]
    requires Wf(r) && FrameBut(s2, r, p)
    ensures c in r.nodes && ToTree(r, c) == ToTree(s1, c)
  {
    assert KeepsFrom(s1, s2, s1.nodes[c].rank) by {
      forall y | y in s1.nodes && s1.nodes[y].rank >= s1.nodes[c].rank
        ensures y in s2.nodes && Shape(s2.nodes[y]) == Shape(s1.nodes[y])
      {
        assert y != p;
      }
    }
    ToTreeFrame(s1, s2, c);
    UnchangedKeeps(s2, r, p, s2.nodes[c].rank);
    ToTreeFrame(s2, r, c);
  }

  /** importNode(src node, true) into the store `dst`: a detached deep copy of the same tree value. */
  function Import(dst: Store, src: Store, id: NodeId, rank: nat): (r: (Store, NodeId))
    requires Wf(dst) && Wf(src) && id in src.nodes && IsChildKind(src.nodes[id].kind) && rank <= dst.next
    ensures Wf(r.0) && Extends(dst, r.0) && r.1 == dst.next && r.1 in r.0.nodes
    ensures r.0.nodes[r.1].parent == None && r.0.nodes[r.1].rank == rank
    ensures ToTree(r.0, r.1) == ToTree(src, id)
  {
    ToTreeWellKinded(src, id);
    Materialize(dst, ToTree(src, id), rank)
  }
}
