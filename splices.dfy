/**
 * The import loops of the add* family: each source node is deep-copied with
 * importNode into this document and linked below a parent, either appended,
 * chained with insertAfter, or put before or right after the current node.
 * A source is either another document's store or (None) this document itself,
 * read as it is at the step that copies from it.
 */
module Splices {
  import opened Wrappers
  import opened Trees
  import opened Dom
  import opened Edits

  /** The store a copy is read from. */
  function Base(s: Store, src: Option<Store>): Store {
    if src.Some? then src.value else s
  }

  /** Every source node exists in its store and may be placed below an element. */
  ghost predicate SourcesOk(s: Store, srcs: seq<Option<Store>>, ids: seq<NodeId>) {
    |srcs| == |ids| &&
    forall k :: 0 <= k < |ids| ==>
      Wf(Base(s, srcs[k])) && ids[k] in Base(s, srcs[k]).nodes && IsChildKind(Base(s, srcs[k]).nodes[ids[k]].kind)
  }

  /** Every source is another document's store. */
  ghost predicate ForeignOk(srcs: seq<Option<Store>>, ids: seq<NodeId>) {
    |srcs| == |ids| &&
    forall k :: 0 <= k < |ids| ==>
      srcs[k].Some? && Wf(srcs[k].value) && ids[k] in srcs[k].value.nodes &&
      IsChildKind(srcs[k].value.nodes[ids[k]].kind)
  }

  /** The same source for every node. */
  function Repeat(src: Option<Store>, n: nat): (r: seq<Option<Store>>)
    ensures |r| == n && forall k :: 0 <= k < n ==> r[k] == src
  {
    seq(n, k => src)
  }

  /** The subtrees foreign sources hold, in order. */
  function SourceTrees(srcs: seq<Option<Store>>, ids: seq<NodeId>): (r: seq<Tree>)
    requires ForeignOk(srcs, ids)
    ensures |r| == |ids| && forall k :: 0 <= k < |ids| ==> r[k] == ToTree(srcs[k].value, ids[k])
  {
    seq(|ids|, k requires 0 <= k < |ids| && ForeignOk(srcs, ids) => ToTree(srcs[k].value, ids[k]))
  }

  lemma ForeignTail(s: Store, srcs: seq<Option<Store>>, ids: seq<NodeId>)
    requires ForeignOk(srcs, ids) && ids != []
    ensures ForeignOk(srcs[1..], ids[1..]) && SourcesOk(s, srcs, ids)
    ensures SourceTrees(srcs, ids) == [ToTree(srcs[0].value, ids[0])] + SourceTrees(srcs[1..], ids[1..])
  {
  }

  /** Node kinds never change. */
  ghost predicate KindsKept(s: Store, t: Store) {
    forall y :: y in s.nodes ==> y in t.nodes && t.nodes[y].kind == s.nodes[y].kind
  }

  lemma SourcesStep(s: Store, t: Store, srcs: seq<Option<Store>>, ids: seq<NodeId>)
    requires Wf(t) && SourcesOk(s, srcs, ids) && ids != [] && KindsKept(s, t)
    ensures SourcesOk(t, srcs[1..], ids[1..])
  {
    forall k | 0 <= k < |ids| - 1
      ensures Wf(Base(t, srcs[1..][k])) && ids[1..][k] in Base(t, srcs[1..][k]).nodes &&
              IsChildKind(Base(t, srcs[1..][k]).nodes[ids[1..][k]].kind)
    {
      assert srcs[1..][k] == srcs[k + 1] && ids[1..][k] == ids[k + 1];
    }
  }

  /**
   * One step of a loop: a copy c made in s1 and linked below p in s2 keeps its
   * subtree through the later steps, and the frame composes.
   */
  lemma ChainStep(s: Store, p: NodeId, s1: Store, c: NodeId, s2: Store, r: Store)
    requires Wf(s) && p in s.nodes
    requires Wf(s1) && Extends(s, s1) && c == s.next && c in s1.nodes && s1.nodes[c].rank > s1.nodes[p].rank
    requires Wf(s2) && s2.nodes.Keys == s1.nodes.Keys && s2.nodes[c] == s1.nodes[c].(parent := Some(p))
    requires s2.nodes[p] == s1.nodes[p].(children := s2.nodes[p].children)
    requires forall y :: y in s1.nodes && y != p && y != c ==> s2.nodes[y] == s1.nodes[y]
    requires Wf(r) && FrameBut(s2, r, p) && Grows(s2, r) && KindsKept(s2, r)
    ensures FrameBut(s, r, p) && Grows(s, r) && KindsKept(s, r)
    ensures c in r.nodes && ToTree(r, c) == ToTree(s1, c)
  {
    assert c !in s.nodes;
    LinkedCopyKept(s1, p, c, s2, r);
  }

  lemma CopiesCons(r: Store, c: NodeId, ids: seq<NodeId>, t: Tree, ts: seq<Tree>)
    requires Copies(r, ids, ts) && c in r.nodes && ToTree(r, c) == t
    ensures Copies(r, [c] + ids, [t] + ts)
  {
    forall j | 0 <= j < |ts| + 1 ensures ([c] + ids)[j] in r.nodes && ToTree(r, ([c] + ids)[j]) == ([t] + ts)[j] {
      if j > 0 { assert ([c] + ids)[j] == ids[j - 1]; }
    }
  }

  lemma CopiesSnoc(r: Store, ids: seq<NodeId>, c: NodeId, ts: seq<Tree>, t: Tree)
    requires Copies(r, ids, ts) && c in r.nodes && ToTree(r, c) == t
    ensures Copies(r, ids + [c], ts + [t])
  {
  }

  // ---------------------------------------------------------------- appended copies

  /** addNodes / add / addAll: each copy is appended, in order, to p's children. */
  function AppendCopies(s: Store, srcs: seq<Option<Store>>, p: NodeId, ids: seq<NodeId>): (r: (Store, seq<NodeId>))
    requires Wf(s) && p in s.nodes && s.nodes[p].kind == ElementNode && SourcesOk(s, srcs, ids)
    ensures Wf(r.0) && Grows(s, r.0) && FrameBut(s, r.0, p) && KindsKept(s, r.0)
    ensures r.0.nodes[p] == s.nodes[p].(children := s.nodes[p].children + r.1)
    ensures ForeignOk(srcs, ids) ==> Copies(r.0, r.1, SourceTrees(srcs, ids))
    decreases |ids|
  {
    if ids == [] then
      assert s.nodes[p].children + [] == s.nodes[p].children;
      (s, [])
    else
      assert NodeWf(s, p);
      var m := Import(s, Base(s, srcs[0]), ids[0], s.nodes[p].rank + 1);
      var s2 := Link(m.0, p, m.1, |m.0.nodes[p].children|);
      LinkedSources(s, srcs, ids, p, m.0, m.1, s2);
      var rest := AppendCopies(s2, srcs[1..], p, ids[1..]);
      AppendStep(s, srcs, ids, p, m.0, m.1, s2, rest.0, rest.1);
      (rest.0, [m.1] + rest.1)
  }

  /** After one copy is linked below p, the remaining sources are still usable. */
  lemma LinkedSources(s: Store, srcs: seq<Option<Store>>, ids: seq<NodeId>, p: NodeId, s1: Store, c: NodeId, s2: Store)
    requires Wf(s) && p in s.nodes && SourcesOk(s, srcs, ids) && ids != []
    requires Wf(s1) && Extends(s, s1) && c == s.next && c in s1.nodes
    requires Wf(s2) && s2.nodes.Keys == s1.nodes.Keys && s2.nodes[c] == s1.nodes[c].(parent := Some(p))
    requires s2.nodes[p] == s1.nodes[p].(children := s2.nodes[p].children)
    requires forall y :: y in s1.nodes && y != p && y != c ==> s2.nodes[y] == s1.nodes[y]
    ensures KindsKept(s, s2) && SourcesOk(s2, srcs[1..], ids[1..])
  {
    SourcesStep(s, s2, srcs, ids);
  }

  /** One appending step composes with the appends that follow it. */
  lemma AppendStep(s: Store, srcs: seq<Option<Store>>, ids: seq<NodeId>, p: NodeId, s1: Store, c: NodeId, s2: Store,
                   r: Store, rest: seq<NodeId>)
    requires Wf(s) && p in s.nodes && SourcesOk(s, srcs, ids) && ids != []
    requires Wf(s1) && Extends(s, s1) && c == s.next && c in s1.nodes && s1.nodes[c].rank > s1.nodes[p].rank
    requires ToTree(s1, c) == ToTree(Base(s, srcs[0]), ids[0])
    requires Wf(s2) && s2.nodes.Keys == s1.nodes.Keys && s2.nodes[c] == s1.nodes[c].(parent := Some(p))
    requires s2.nodes[p] == s1.nodes[p].(children := Insert(s1.nodes[p].children, |s1.nodes[p].children|, c))
    requires forall y :: y in s1.nodes && y != p && y != c ==> s2.nodes[y] == s1.nodes[y]
    requires Wf(r) && Grows(s2, r) && FrameBut(s2, r, p) && KindsKept(s2, r)
    requires r.nodes[p] == s2.nodes[p].(children := s2.nodes[p].children + rest)
    requires ForeignOk(srcs[1..], ids[1..]) ==> Copies(r, rest, SourceTrees(srcs[1..], ids[1..]))
    ensures Grows(s, r) && FrameBut(s, r, p) && KindsKept(s, r)
    ensures r.nodes[p] == s.nodes[p].(children := s.nodes[p].children + ([c] + rest))
    ensures ForeignOk(srcs, ids) ==> Copies(r, [c] + rest, SourceTrees(srcs, ids))
  {
    assert s1.nodes[p] == s.nodes[p];
    NodeAppended(s.nodes[p], s2.nodes[p], r.nodes[p], c, rest);
    ChainStep(s, p, s1, c, s2, r);
    CopiesStep(s, srcs, ids, s1, c, r, rest);
  }

  /** A node that gains c at the end of its children and then rest has gained [c] + rest. */
  lemma NodeAppended(a: NodeData, b: NodeData, d: NodeData, c: NodeId, rest: seq<NodeId>)
    requires b == a.(children := Insert(a.children, |a.children|, c)) && d == b.(children := b.children + rest)
    ensures d == a.(children := a.children + ([c] + rest))
  {
    assert Insert(a.children, |a.children|, c) == a.children + [c];
    assert a.children + [c] + rest == a.children + ([c] + rest);
  }

  /** The first copy of a chain step leads the copies of the rest. */
  lemma CopiesStep(s: Store, srcs: seq<Option<Store>>, ids: seq<NodeId>, s1: Store, c: NodeId, r: Store, rest: seq<NodeId>)
    requires |srcs| == |ids| && ids != [] && Wf(Base(s, srcs[0])) && ids[0] in Base(s, srcs[0]).nodes
    requires Wf(r) && c in r.nodes && Wf(s1) && c in s1.nodes && ToTree(r, c) == ToTree(s1, c)
    requires ToTree(s1, c) == ToTree(Base(s, srcs[0]), ids[0])
    requires ForeignOk(srcs[1..], ids[1..]) ==> Copies(r, rest, SourceTrees(srcs[1..], ids[1..]))
    ensures ForeignOk(srcs, ids) ==> Copies(r, [c] + rest, SourceTrees(srcs, ids))
  {
    if ForeignOk(srcs, ids) {
      ForeignTail(s, srcs, ids);
      CopiesCons(r, c, rest, ToTree(srcs[0].value, ids[0]), SourceTrees(srcs[1..], ids[1..]));
    }
  }

  /** The same, for a copy that follows the copies of the rest. */
  lemma CopiesStepLast(s: Store, srcs: seq<Option<Store>>, ids: seq<NodeId>, s1: Store, c: NodeId, r: Store, rest: seq<NodeId>)
    requires |srcs| == |ids| && ids != [] && Wf(Base(s, srcs[0])) && ids[0] in Base(s, srcs[0]).nodes
    requires Wf(r) && c in r.nodes && Wf(s1) && c in s1.nodes && ToTree(r, c) == ToTree(s1, c)
    requires ToTree(s1, c) == ToTree(Base(s, srcs[0]), ids[0])
    requires ForeignOk(srcs[1..], ids[1..]) ==> Copies(r, rest, Reversed(SourceTrees(srcs[1..], ids[1..])))
    ensures ForeignOk(srcs, ids) ==> Copies(r, rest + [c], Reversed(SourceTrees(srcs, ids)))
  {
    if ForeignOk(srcs, ids) {
      ForeignTail(s, srcs, ids);
      var t := ToTree(srcs[0].value, ids[0]);
      var ts := SourceTrees(srcs[1..], ids[1..]);
      CopiesSnoc(r, rest, c, Reversed(ts), t);
      ReversedCons(t, ts);
    }
  }

  function Reversed<T>(xs: seq<T>): (r: seq<T>)
    ensures |r| == |xs| && forall k :: 0 <= k < |xs| ==> r[k] == xs[|xs| - 1 - k]
  {
    if xs == [] then [] else Reversed(xs[1..]) + [xs[0]]
  }

  lemma ReversedCons<T>(x: T, xs: seq<T>)
    ensures Reversed([x] + xs) == Reversed(xs) + [x]
  {
    assert ([x] + xs)[1..] == xs;
  }

  lemma ReversedReversed<T>(xs: seq<T>)
    ensures Reversed(Reversed(xs)) == xs
  {
  }

  /** Appending copies of foreign nodes appends exactly their subtrees, in order. */
  lemma AppendCopiesTree(s: Store, srcs: seq<Option<Store>>, p: NodeId, ids: seq<NodeId>)
    requires Wf(s) && p in s.nodes && s.nodes[p].kind == ElementNode && ForeignOk(srcs, ids)
    ensures SourcesOk(s, srcs, ids)
    ensures ToTree(AppendCopies(s, srcs, p, ids).0, p) ==
            ToTree(s, p).(children := ToTree(s, p).children + SourceTrees(srcs, ids))
  {
    assert SourcesOk(s, srcs, ids);
    var r := AppendCopies(s, srcs, p, ids);
    var cs := s.nodes[p].children;
    UnchangedKeeps(s, r.0, p, s.nodes[p].rank + 1);
    assert cs + r.1 + [] == cs + r.1 && cs + [] == cs;
    SplicedChildTree(s, r.0, p, cs, r.1, []);
    ToTreeParts(s, p);
    assert TreesOf(r.0, r.1) == SourceTrees(srcs, ids);
  }

  /** Copies spliced into p's child list at pos put their subtrees at pos of p's subtree. */
  lemma SplicedCopiesTree(s: Store, r: Store, p: NodeId, pos: nat, mid: seq<NodeId>, ts: seq<Tree>)
    requires Wf(s) && p in s.nodes && pos <= |s.nodes[p].children| && FrameBut(s, r, p)
    requires Wf(r) && p in r.nodes && Copies(r, mid, ts)
    requires r.nodes[p] == s.nodes[p].(children := s.nodes[p].children[..pos] + mid + s.nodes[p].children[pos..])
    ensures pos <= |ToTree(s, p).children|
    ensures ToTree(r, p) == ToTree(s, p).(children := ToTree(s, p).children[..pos] + ts + ToTree(s, p).children[pos..])
  {
    var cs := s.nodes[p].children;
    assert cs == cs[..pos] + cs[pos..];
    UnchangedKeeps(s, r, p, s.nodes[p].rank + 1);
    SplicedChildTree(s, r, p, cs[..pos], mid, cs[pos..]);
    assert NodeWf(s, p);
    TreesOfSlices(s, cs, pos);
    ToTreeParts(s, p);
    assert TreesOf(r, mid) == ts;
  }

  // ---------------------------------------------------------------- inserted copies

  /** The first occurrence of x is at i when x is at i and not before it. */
  lemma IndexOfAt(xs: seq<NodeId>, x: NodeId, i: nat)
    requires i < |xs| && xs[i] == x && x !in xs[..i]
    ensures IndexOf(xs, x) == i
  {
  }

  /** Where a listed node y sits once a fresh node is inserted at pos. */
  lemma IndexOfInsert(xs: seq<NodeId>, pos: nat, c: NodeId, y: NodeId)
    requires pos <= |xs| && c !in xs && (y in xs || y == c)
    ensures IndexOf(Insert(xs, pos, c), c) == pos
    ensures y in xs ==> IndexOf(Insert(xs, pos, c), y) == if IndexOf(xs, y) < pos then IndexOf(xs, y) else IndexOf(xs, y) + 1
  {
    var ys := Insert(xs, pos, c);
    assert ys[..pos] == xs[..pos];
    IndexOfAt(ys, c, pos);
    if y == c { return; }
    var i := IndexOf(xs, y);
    if i < pos {
      assert ys[..i] == xs[..i];
      IndexOfAt(ys, y, i);
    } else {
      assert ys[..i + 1] == xs[..pos] + [c] + xs[pos..i] && xs[..i] == xs[..pos] + xs[pos..i];
      IndexOfAt(ys, y, i + 1);
    }
  }

  /** A child of p has p as its parent node. */
  lemma ChildParent(s: Store, p: NodeId, x: NodeId)
    requires Wf(s) && p in s.nodes && x in s.nodes[p].children
    ensures x in s.nodes && ParentNode(s, x) == Some(p)
  {
    assert NodeWf(s, p);
  }

  /** A fresh copy made in s1 may be inserted below the element p, after any child of p. */
  lemma CopyInsertable(s: Store, p: NodeId, s1: Store, c: NodeId)
    requires Wf(s) && p in s.nodes && s.nodes[p].kind == ElementNode
    requires Wf(s1) && Extends(s, s1) && c == s.next && c in s1.nodes && s1.nodes[c].parent == None
    requires s1.nodes[c].rank == s.nodes[p].rank + 1 && IsChildKind(s1.nodes[c].kind)
    ensures Insertable(s1, p, c) && c !in s1.nodes[p].children
    ensures forall x :: x in s.nodes[p].children ==> x in s1.nodes && ParentNode(s1, x) == Some(p)
  {
    assert NodeWf(s, p);
    forall x | x in s.nodes[p].children ensures x in s1.nodes && ParentNode(s1, x) == Some(p) {
      ChildParent(s1, p, x);
    }
  }

  lemma SpliceAfterList(cs: seq<NodeId>, pos: nat, c: NodeId, rest: seq<NodeId>)
    requires pos <= |cs|
    ensures Insert(cs, pos, c)[..pos + 1] + rest + Insert(cs, pos, c)[pos + 1..] == cs[..pos] + ([c] + rest) + cs[pos..]
  {
    var ds := Insert(cs, pos, c);
    assert ds[..pos + 1] == cs[..pos] + [c] && ds[pos + 1..] == cs[pos..];
  }

  lemma SpliceBeforeList(cs: seq<NodeId>, pos: nat, c: NodeId, rest: seq<NodeId>)
    requires pos <= |cs|
    ensures Insert(cs, pos, c)[..pos] + rest + Insert(cs, pos, c)[pos..] == cs[..pos] + (rest + [c]) + cs[pos..]
  {
    var ds := Insert(cs, pos, c);
    assert ds[..pos] == cs[..pos] && ds[pos..] == [c] + cs[pos..];
  }

  /** One inserting step composes with the steps that insert right behind its copy. */
  lemma SpliceStep(s: Store, srcs: seq<Option<Store>>, ids: seq<NodeId>, p: NodeId, pos: nat, s1: Store, c: NodeId,
                   s2: Store, r: Store, rest: seq<NodeId>, k: nat)
    requires Wf(s) && p in s.nodes && SourcesOk(s, srcs, ids) && ids != [] && pos <= |s.nodes[p].children|
    requires Wf(s1) && Extends(s, s1) && c == s.next && c in s1.nodes && s1.nodes[c].rank > s1.nodes[p].rank
    requires ToTree(s1, c) == ToTree(Base(s, srcs[0]), ids[0])
    requires Wf(s2) && s2.nodes.Keys == s1.nodes.Keys && s2.nodes[c] == s1.nodes[c].(parent := Some(p))
    requires s2.nodes[p] == s1.nodes[p].(children := Insert(s1.nodes[p].children, pos, c))
    requires forall y :: y in s1.nodes && y != p && y != c ==> s2.nodes[y] == s1.nodes[y]
    requires Wf(r) && Grows(s2, r) && FrameBut(s2, r, p) && KindsKept(s2, r)
    requires k == pos + 1 && r.nodes[p] == s2.nodes[p].(children := s2.nodes[p].children[..k] + rest + s2.nodes[p].children[k..])
    requires ForeignOk(srcs[1..], ids[1..]) ==> Copies(r, rest, SourceTrees(srcs[1..], ids[1..]))
    ensures Grows(s, r) && FrameBut(s, r, p) && KindsKept(s, r)
    ensures r.nodes[p] == s.nodes[p].(children := s.nodes[p].children[..pos] + ([c] + rest) + s.nodes[p].children[pos..])
    ensures ForeignOk(srcs, ids) ==> Copies(r, [c] + rest, SourceTrees(srcs, ids))
  {
    SpliceAfterList(s.nodes[p].children, pos, c, rest);
    ChainStep(s, p, s1, c, s2, r);
    CopiesStep(s, srcs, ids, s1, c, r, rest);
  }

  /** One inserting step composes with the steps that insert right in front of its copy. */
  lemma SpliceStepLast(s: Store, srcs: seq<Option<Store>>, ids: seq<NodeId>, p: NodeId, pos: nat, s1: Store, c: NodeId,
                       s2: Store, r: Store, rest: seq<NodeId>)
    requires Wf(s) && p in s.nodes && SourcesOk(s, srcs, ids) && ids != [] && pos <= |s.nodes[p].children|
    requires Wf(s1) && Extends(s, s1) && c == s.next && c in s1.nodes && s1.nodes[c].rank > s1.nodes[p].rank
    requires ToTree(s1, c) == ToTree(Base(s, srcs[0]), ids[0])
    requires Wf(s2) && s2.nodes.Keys == s1.nodes.Keys && s2.nodes[c] == s1.nodes[c].(parent := Some(p))
    requires s2.nodes[p] == s1.nodes[p].(children := Insert(s1.nodes[p].children, pos, c))
    requires forall y :: y in s1.nodes && y != p && y != c ==> s2.nodes[y] == s1.nodes[y]
    requires Wf(r) && Grows(s2, r) && FrameBut(s2, r, p) && KindsKept(s2, r)
    requires r.nodes[p] == s2.nodes[p].(children := s2.nodes[p].children[..pos] + rest + s2.nodes[p].children[pos..])
    requires ForeignOk(srcs[1..], ids[1..]) ==> Copies(r, rest, Reversed(SourceTrees(srcs[1..], ids[1..])))
    ensures Grows(s, r) && FrameBut(s, r, p) && KindsKept(s, r)
    ensures r.nodes[p] == s.nodes[p].(children := s.nodes[p].children[..pos] + (rest + [c]) + s.nodes[p].children[pos..])
    ensures ForeignOk(srcs, ids) ==> Copies(r, rest + [c], Reversed(SourceTrees(srcs, ids)))
  {
    SpliceBeforeList(s.nodes[p].children, pos, c, rest);
    ChainStep(s, p, s1, c, s2, r);
    CopiesStepLast(s, srcs, ids, s1, c, r, rest);
  }

  /**
   * A chain of insertAfter calls (addNodesInFront, addNodesAfter, addNodesBefore,
   * replaceWithNodes, addAfter): the first copy goes right after ref, or first when
   * there is no ref, and every later copy right after the one before it.
   */
  function ChainCopies(s: Store, srcs: seq<Option<Store>>, p: NodeId, ids: seq<NodeId>, ref: Option<NodeId>): (r: (Store, seq<NodeId>))
    requires Wf(s) && p in s.nodes && s.nodes[p].kind == ElementNode && SourcesOk(s, srcs, ids)
    requires ref.Some? ==> ref.value in s.nodes[p].children
    ensures Wf(r.0) && Grows(s, r.0) && FrameBut(s, r.0, p) && KindsKept(s, r.0)
    ensures r.0.nodes[p] == s.nodes[p].(children := s.nodes[p].children[..InsertPos(s, p, ref)] + r.1 +
                                                    s.nodes[p].children[InsertPos(s, p, ref)..])
    ensures ForeignOk(srcs, ids) ==> Copies(r.0, r.1, SourceTrees(srcs, ids))
    decreases |ids|
  {
    var cs := s.nodes[p].children;
    var pos := InsertPos(s, p, ref);
    if ids == [] then
      NothingSpliced(s.nodes[p], pos);
      (s, [])
    else
      assert NodeWf(s, p);
      var m := Import(s, Base(s, srcs[0]), ids[0], s.nodes[p].rank + 1);
      CopyInsertable(s, p, m.0, m.1);
      var s2 := Link(m.0, p, m.1, pos);
      LinkedSources(s, srcs, ids, p, m.0, m.1, s2);
      NextInsertPos(s2, p, cs, pos, m.1);
      var rest := ChainCopies(s2, srcs[1..], p, ids[1..], Some(m.1));
      SpliceStep(s, srcs, ids, p, pos, m.0, m.1, s2, rest.0, rest.1, InsertPos(s2, p, Some(m.1)));
      (rest.0, [m.1] + rest.1)
  }

  /** A listed node keeps its place when a fresh node goes in after it, and moves up by one otherwise. */
  lemma ShiftedIndex(s: Store, p: NodeId, cs: seq<NodeId>, pos: nat, c: NodeId, y: NodeId)
    requires p in s.nodes && pos <= |cs| && c !in cs && y in cs && s.nodes[p].children == Insert(cs, pos, c)
    ensures y in s.nodes[p].children
    ensures IndexOf(s.nodes[p].children, y) == if IndexOf(cs, y) < pos then IndexOf(cs, y) else IndexOf(cs, y) + 1
  {
    IndexOfInsert(cs, pos, c, y);
  }

  /** A fresh node c put in right after cur leaves the place after cur where it was. */
  lemma ShiftedBehind(s: Store, p: NodeId, cs: seq<NodeId>, pos: nat, c: NodeId, cur: NodeId)
    requires p in s.nodes && c !in cs && cur in cs && pos == IndexOf(cs, cur) + 1 && s.nodes[p].children == Insert(cs, pos, c)
    ensures cur in s.nodes[p].children && InsertPos(s, p, Some(cur)) == pos
  {
    ShiftedIndex(s, p, cs, pos, c, cur);
  }

  /** A fresh node c put in at cur's own position moves cur one place on. */
  lemma ShiftedPast(s: Store, p: NodeId, cs: seq<NodeId>, pos: nat, c: NodeId, cur: NodeId)
    requires p in s.nodes && c !in cs && cur in cs && pos == IndexOf(cs, cur) && s.nodes[p].children == Insert(cs, pos, c)
    ensures cur in s.nodes[p].children && IndexOf(s.nodes[p].children, cur) == pos + 1
  {
    ShiftedIndex(s, p, cs, pos, c, cur);
  }

  /** After a fresh node c went in at pos, the next insertAfter(c) goes in at pos + 1. */
  lemma NextInsertPos(s: Store, p: NodeId, cs: seq<NodeId>, pos: nat, c: NodeId)
    requires p in s.nodes && pos <= |cs| && c !in cs && s.nodes[p].children == Insert(cs, pos, c)
    ensures c in s.nodes[p].children && InsertPos(s, p, Some(c)) == pos + 1
  {
    IndexOfInsert(cs, pos, c, c);
  }

  /** Splicing no nodes in leaves a node as it was. */
  lemma NothingSpliced(n: NodeData, pos: nat)
    requires pos <= |n.children|
    ensures n == n.(children := n.children[..pos] + [] + n.children[pos..])
  {
    assert n.children[..pos] + [] + n.children[pos..] == n.children;
  }

  /** One step of CopiesBefore: the copy lands right before cur and the later copies between it and cur. */
  lemma BeforeStep(s: Store, srcs: seq<Option<Store>>, p: NodeId, ids: seq<NodeId>, cur: NodeId, r: Store, rest: seq<NodeId>)
    requires Wf(s) && p in s.nodes && s.nodes[p].kind == ElementNode && SourcesOk(s, srcs, ids) && ids != []
    requires cur in s.nodes[p].children
    requires s.nodes[p].rank + 1 <= s.next && Wf(Base(s, srcs[0])) && ids[0] in Base(s, srcs[0]).nodes
    requires IsChildKind(Base(s, srcs[0]).nodes[ids[0]].kind)
    requires var m := Import(s, Base(s, srcs[0]), ids[0], s.nodes[p].rank + 1);
      CanLink(m.0, p, m.1) && m.0.nodes[p] == s.nodes[p] &&
      var s2 := Link(m.0, p, m.1, IndexOf(s.nodes[p].children, cur));
      cur in s2.nodes[p].children && Wf(r) && Grows(s2, r) && FrameBut(s2, r, p) && KindsKept(s2, r) &&
      r.nodes[p] == s2.nodes[p].(children := s2.nodes[p].children[..IndexOf(s2.nodes[p].children, cur)] + rest +
                                             s2.nodes[p].children[IndexOf(s2.nodes[p].children, cur)..]) &&
      (ForeignOk(srcs[1..], ids[1..]) ==> Copies(r, rest, SourceTrees(srcs[1..], ids[1..])))
    ensures Grows(s, r) && FrameBut(s, r, p) && KindsKept(s, r)
    ensures var c := Import(s, Base(s, srcs[0]), ids[0], s.nodes[p].rank + 1).1;
      r.nodes[p] == s.nodes[p].(children := s.nodes[p].children[..IndexOf(s.nodes[p].children, cur)] + ([c] + rest) +
                                            s.nodes[p].children[IndexOf(s.nodes[p].children, cur)..]) &&
      (ForeignOk(srcs, ids) ==> Copies(r, [c] + rest, SourceTrees(srcs, ids)))
  {
    var cs := s.nodes[p].children;
    var pos := IndexOf(cs, cur);
    assert NodeWf(s, p);
    var m := Import(s, Base(s, srcs[0]), ids[0], s.nodes[p].rank + 1);
    CopyInsertable(s, p, m.0, m.1);
    var s2 := Link(m.0, p, m.1, pos);
    ShiftedPast(s2, p, cs, pos, m.1, cur);
    SpliceStep(s, srcs, ids, p, pos, m.0, m.1, s2, r, rest, IndexOf(s2.nodes[p].children, cur));
  }

  /** addBefore / addAllBefore: every copy goes right before cur, so the copies keep their order. */
  function CopiesBefore(s: Store, srcs: seq<Option<Store>>, p: NodeId, ids: seq<NodeId>, cur: NodeId): (r: (Store, seq<NodeId>))
    requires Wf(s) && p in s.nodes && s.nodes[p].kind == ElementNode && SourcesOk(s, srcs, ids)
    requires cur in s.nodes[p].children
    ensures Wf(r.0) && Grows(s, r.0) && FrameBut(s, r.0, p) && KindsKept(s, r.0)
    ensures r.0.nodes[p] == s.nodes[p].(children := s.nodes[p].children[..IndexOf(s.nodes[p].children, cur)] + r.1 +
                                                    s.nodes[p].children[IndexOf(s.nodes[p].children, cur)..])
    ensures ForeignOk(srcs, ids) ==> Copies(r.0, r.1, SourceTrees(srcs, ids))
    decreases |ids|
  {
    var cs := s.nodes[p].children;
    var pos := IndexOf(cs, cur);
    if ids == [] then
      NothingSpliced(s.nodes[p], pos);
      (s, [])
    else
      BeforeNext(s, srcs, p, ids, cur);
      var m := Import(s, Base(s, srcs[0]), ids[0], s.nodes[p].rank + 1);
      var s2 := Link(m.0, p, m.1, pos);
      var rest := CopiesBefore(s2, srcs[1..], p, ids[1..], cur);
      BeforeStep(s, srcs, p, ids, cur, rest.0, rest.1);
      (rest.0, [m.1] + rest.1)
  }

  /** One step of CopiesRightAfter: the copy lands right after cur, behind the later copies. */
  lemma RightAfterStep(s: Store, srcs: seq<Option<Store>>, p: NodeId, ids: seq<NodeId>, cur: NodeId, r: Store, rest: seq<NodeId>)
    requires Wf(s) && p in s.nodes && s.nodes[p].kind == ElementNode && SourcesOk(s, srcs, ids) && ids != []
    requires cur in s.nodes[p].children
    requires s.nodes[p].rank + 1 <= s.next && Wf(Base(s, srcs[0])) && ids[0] in Base(s, srcs[0]).nodes
    requires IsChildKind(Base(s, srcs[0]).nodes[ids[0]].kind)
    requires var m := Import(s, Base(s, srcs[0]), ids[0], s.nodes[p].rank + 1);
      CanLink(m.0, p, m.1) && m.0.nodes[p] == s.nodes[p] &&
      var s2 := Link(m.0, p, m.1, InsertPos(s, p, Some(cur)));
      cur in s2.nodes[p].children && Wf(r) && Grows(s2, r) && FrameBut(s2, r, p) && KindsKept(s2, r) &&
      r.nodes[p] == s2.nodes[p].(children := s2.nodes[p].children[..InsertPos(s2, p, Some(cur))] + rest +
                                             s2.nodes[p].children[InsertPos(s2, p, Some(cur))..]) &&
      (ForeignOk(srcs[1..], ids[1..]) ==> Copies(r, rest, Reversed(SourceTrees(srcs[1..], ids[1..]))))
    ensures Grows(s, r) && FrameBut(s, r, p) && KindsKept(s, r)
    ensures var c := Import(s, Base(s, srcs[0]), ids[0], s.nodes[p].rank + 1).1;
      r.nodes[p] == s.nodes[p].(children := s.nodes[p].children[..InsertPos(s, p, Some(cur))] + (rest + [c]) +
                                            s.nodes[p].children[InsertPos(s, p, Some(cur))..]) &&
      (ForeignOk(srcs, ids) ==> Copies(r, rest + [c], Reversed(SourceTrees(srcs, ids))))
  {
    var cs := s.nodes[p].children;
    var pos := InsertPos(s, p, Some(cur));
    assert NodeWf(s, p);
    var m := Import(s, Base(s, srcs[0]), ids[0], s.nodes[p].rank + 1);
    CopyInsertable(s, p, m.0, m.1);
    var s2 := Link(m.0, p, m.1, pos);
    ShiftedBehind(s2, p, cs, pos, m.1, cur);
    SpliceStepLast(s, srcs, ids, p, pos, m.0, m.1, s2, r, rest);
  }

  /**
   * addAllAfter's loop: every copy goes right after cur, so the last one made ends up
   * first; the copies, read in list order, hold the sources in reverse.
   */
  function CopiesRightAfter(s: Store, srcs: seq<Option<Store>>, p: NodeId, ids: seq<NodeId>, cur: NodeId): (r: (Store, seq<NodeId>))
    requires Wf(s) && p in s.nodes && s.nodes[p].kind == ElementNode && SourcesOk(s, srcs, ids)
    requires cur in s.nodes[p].children
    ensures Wf(r.0) && Grows(s, r.0) && FrameBut(s, r.0, p) && KindsKept(s, r.0)
    ensures r.0.nodes[p] == s.nodes[p].(children := s.nodes[p].children[..InsertPos(s, p, Some(cur))] + r.1 +
                                                    s.nodes[p].children[InsertPos(s, p, Some(cur))..])
    ensures ForeignOk(srcs, ids) ==> Copies(r.0, r.1, Reversed(SourceTrees(srcs, ids)))
    decreases |ids|
  {
    var cs := s.nodes[p].children;
    var pos := InsertPos(s, p, Some(cur));
    if ids == [] then
      NothingSpliced(s.nodes[p], pos);
      (s, [])
    else
      RightAfterNext(s, srcs, p, ids, cur);
      var m := Import(s, Base(s, srcs[0]), ids[0], s.nodes[p].rank + 1);
      var s2 := Link(m.0, p, m.1, pos);
      var rest := CopiesRightAfter(s2, srcs[1..], p, ids[1..], cur);
      RightAfterStep(s, srcs, p, ids, cur, rest.0, rest.1);
      (rest.0, rest.1 + [m.1])
  }
  /** A chain of foreign copies puts the source subtrees, in order, at the insertion point. */
  lemma ChainCopiesTree(s: Store, srcs: seq<Option<Store>>, p: NodeId, ids: seq<NodeId>, ref: Option<NodeId>)
    requires Wf(s) && p in s.nodes && s.nodes[p].kind == ElementNode && ForeignOk(srcs, ids)
    requires ref.Some? ==> ref.value in s.nodes[p].children
    ensures SourcesOk(s, srcs, ids)
    ensures var pos := InsertPos(s, p, ref); var kids := ToTree(s, p).children;
      pos <= |kids| &&
      ToTree(ChainCopies(s, srcs, p, ids, ref).0, p) == ToTree(s, p).(children := kids[..pos] + SourceTrees(srcs, ids) + kids[pos..])
  {
    assert SourcesOk(s, srcs, ids);
    var r := ChainCopies(s, srcs, p, ids, ref);
    SplicedCopiesTree(s, r.0, p, InsertPos(s, p, ref), r.1, SourceTrees(srcs, ids));
  }

  /** Foreign copies put before cur appear, in source order, right before cur's subtree. */
  lemma CopiesBeforeTree(s: Store, srcs: seq<Option<Store>>, p: NodeId, ids: seq<NodeId>, cur: NodeId)
    requires Wf(s) && p in s.nodes && s.nodes[p].kind == ElementNode && ForeignOk(srcs, ids)
    requires cur in s.nodes[p].children
    ensures SourcesOk(s, srcs, ids)
    ensures cur in s.nodes
    ensures var i := IndexOf(s.nodes[p].children, cur); var kids := ToTree(s, p).children;
      i < |kids| && kids[i] == ToTree(s, cur) &&
      ToTree(CopiesBefore(s, srcs, p, ids, cur).0, p) == ToTree(s, p).(children := kids[..i] + SourceTrees(srcs, ids) + kids[i..])
  {
    assert SourcesOk(s, srcs, ids);
    assert NodeWf(s, p);
    var r := CopiesBefore(s, srcs, p, ids, cur);
    SplicedCopiesTree(s, r.0, p, IndexOf(s.nodes[p].children, cur), r.1, SourceTrees(srcs, ids));
    ToTreeParts(s, p);
  }

  /** The subtree of a child sits at the child's index among its parent's subtrees. */
  lemma ChildTreeAt(s: Store, q: NodeId, c: NodeId)
    requires Wf(s) && q in s.nodes && c in s.nodes[q].children
    ensures c in s.nodes
    ensures var i := IndexOf(s.nodes[q].children, c);
      i < |ToTree(s, q).children| && ToTree(s, q).children[i] == ToTree(s, c)
  {
    ToTreeParts(s, q);
  }

  /** addAllAfter's loop, run over the sources in reverse, leaves them in order right after cur's subtree. */
  lemma CopiesRightAfterTree(s: Store, srcs: seq<Option<Store>>, p: NodeId, ids: seq<NodeId>, cur: NodeId)
    requires Wf(s) && p in s.nodes && s.nodes[p].kind == ElementNode && ForeignOk(srcs, ids)
    requires cur in s.nodes[p].children
    ensures ForeignOk(Reversed(srcs), Reversed(ids)) && SourcesOk(s, Reversed(srcs), Reversed(ids))
    ensures cur in s.nodes
    ensures var i := InsertPos(s, p, Some(cur)); var kids := ToTree(s, p).children;
      0 < i <= |kids| && kids[i - 1] == ToTree(s, cur) &&
      ToTree(CopiesRightAfter(s, Reversed(srcs), p, Reversed(ids), cur).0, p) ==
        ToTree(s, p).(children := kids[..i] + SourceTrees(srcs, ids) + kids[i..])
  {
    var rs := Reversed(srcs);
    var rids := Reversed(ids);
    ReversedSources(srcs, ids);
    assert NodeWf(s, p);
    assert SourcesOk(s, rs, rids);
    var r := CopiesRightAfter(s, rs, p, rids, cur);
    SplicedCopiesTree(s, r.0, p, InsertPos(s, p, Some(cur)), r.1, SourceTrees(srcs, ids));
    RightAfterSlot(s, p, cur);
  }

  /** The slot right after cur comes just behind cur's subtree. */
  lemma RightAfterSlot(s: Store, p: NodeId, cur: NodeId)
    requires Wf(s) && p in s.nodes && cur in s.nodes[p].children
    ensures cur in s.nodes
    ensures var i := InsertPos(s, p, Some(cur)); var kids := ToTree(s, p).children;
      0 < i <= |kids| && kids[i - 1] == ToTree(s, cur)
  {
    ChildTreeAt(s, p, cur);
    assert InsertPos(s, p, Some(cur)) - 1 == IndexOf(s.nodes[p].children, cur);
  }

  /** Reading the sources backwards reads their subtrees backwards. */
  lemma ReversedSources(srcs: seq<Option<Store>>, ids: seq<NodeId>)
    requires ForeignOk(srcs, ids)
    ensures ForeignOk(Reversed(srcs), Reversed(ids))
    ensures Reversed(SourceTrees(Reversed(srcs), Reversed(ids))) == SourceTrees(srcs, ids)
  {
    var rs := Reversed(srcs);
    var rids := Reversed(ids);
    forall k | 0 <= k < |rids|
      ensures rs[k].Some? && Wf(rs[k].value) && rids[k] in rs[k].value.nodes && IsChildKind(rs[k].value.nodes[rids[k]].kind)
    {
      assert rs[k] == srcs[|ids| - 1 - k] && rids[k] == ids[|ids| - 1 - k];
    }
  }

  // ---------------------------------------------------------------- loop steps

  /** What one turn of the insertAfter chain needs and leaves: a usable copy, a store the rest can continue from. */
  lemma ChainNext(s: Store, srcs: seq<Option<Store>>, p: NodeId, ids: seq<NodeId>, ref: Option<NodeId>)
    requires Wf(s) && p in s.nodes && s.nodes[p].kind == ElementNode && SourcesOk(s, srcs, ids) && ids != []
    requires ref.Some? ==> ref.value in s.nodes[p].children
    ensures s.nodes[p].rank + 1 <= s.next && Wf(Base(s, srcs[0])) && ids[0] in Base(s, srcs[0]).nodes
    ensures IsChildKind(Base(s, srcs[0]).nodes[ids[0]].kind)
    ensures var m := Import(s, Base(s, srcs[0]), ids[0], s.nodes[p].rank + 1);
      Insertable(m.0, p, m.1) && m.0.nodes[p] == s.nodes[p] &&
      (ref.Some? ==> ref.value in m.0.nodes && ParentNode(m.0, ref.value) == Some(p)) &&
      var r := Link(m.0, p, m.1, InsertPos(s, p, ref));
      KindsKept(s, r) && p in r.nodes && r.nodes[p].kind == ElementNode &&
      SourcesOk(r, srcs[1..], ids[1..]) && m.1 in r.nodes[p].children
  {
    assert NodeWf(s, p);
    var m := Import(s, Base(s, srcs[0]), ids[0], s.nodes[p].rank + 1);
    CopyInsertable(s, p, m.0, m.1);
    var pos := InsertPos(s, p, ref);
    var s2 := Link(m.0, p, m.1, pos);
    LinkedSources(s, srcs, ids, p, m.0, m.1, s2);
    NextInsertPos(s2, p, s.nodes[p].children, pos, m.1);
  }

  /** The chain is its first turn followed by the chain of the rest behind the first copy. */
  lemma ChainUnfold(s: Store, srcs: seq<Option<Store>>, p: NodeId, ids: seq<NodeId>, ref: Option<NodeId>)
    requires Wf(s) && p in s.nodes && s.nodes[p].kind == ElementNode && SourcesOk(s, srcs, ids) && ids != []
    requires ref.Some? ==> ref.value in s.nodes[p].children
    requires s.nodes[p].rank + 1 <= s.next && Wf(Base(s, srcs[0])) && ids[0] in Base(s, srcs[0]).nodes
    requires IsChildKind(Base(s, srcs[0]).nodes[ids[0]].kind)
    requires var m := Import(s, Base(s, srcs[0]), ids[0], s.nodes[p].rank + 1);
      CanLink(m.0, p, m.1) && m.0.nodes[p] == s.nodes[p] &&
      var r := Link(m.0, p, m.1, InsertPos(s, p, ref));
      p in r.nodes && r.nodes[p].kind == ElementNode && SourcesOk(r, srcs[1..], ids[1..]) && m.1 in r.nodes[p].children
    ensures var m := Import(s, Base(s, srcs[0]), ids[0], s.nodes[p].rank + 1);
      var r := Link(m.0, p, m.1, InsertPos(s, p, ref));
      ChainCopies(s, srcs, p, ids, ref) ==
        var rest := ChainCopies(r, srcs[1..], p, ids[1..], Some(m.1)); (rest.0, [m.1] + rest.1)
  {
  }

  /** What one turn of the appendChild loop needs and leaves. */
  lemma AppendNext(s: Store, srcs: seq<Option<Store>>, p: NodeId, ids: seq<NodeId>)
    requires Wf(s) && p in s.nodes && s.nodes[p].kind == ElementNode && SourcesOk(s, srcs, ids) && ids != []
    ensures s.nodes[p].rank + 1 <= s.next && Wf(Base(s, srcs[0])) && ids[0] in Base(s, srcs[0]).nodes
    ensures IsChildKind(Base(s, srcs[0]).nodes[ids[0]].kind)
    ensures var m := Import(s, Base(s, srcs[0]), ids[0], s.nodes[p].rank + 1);
      CanLink(m.0, p, m.1) &&
      var r := Link(m.0, p, m.1, |m.0.nodes[p].children|);
      KindsKept(s, r) && p in r.nodes && r.nodes[p].kind == ElementNode && SourcesOk(r, srcs[1..], ids[1..])
  {
    assert NodeWf(s, p);
    var m := Import(s, Base(s, srcs[0]), ids[0], s.nodes[p].rank + 1);
    var s2 := Link(m.0, p, m.1, |m.0.nodes[p].children|);
    LinkedSources(s, srcs, ids, p, m.0, m.1, s2);
  }

  /** The appends are the first append followed by the appends of the rest. */
  lemma AppendUnfold(s: Store, srcs: seq<Option<Store>>, p: NodeId, ids: seq<NodeId>)
    requires Wf(s) && p in s.nodes && s.nodes[p].kind == ElementNode && SourcesOk(s, srcs, ids) && ids != []
    requires s.nodes[p].rank + 1 <= s.next && Wf(Base(s, srcs[0])) && ids[0] in Base(s, srcs[0]).nodes
    requires IsChildKind(Base(s, srcs[0]).nodes[ids[0]].kind)
    requires var m := Import(s, Base(s, srcs[0]), ids[0], s.nodes[p].rank + 1);
      CanLink(m.0, p, m.1) &&
      var r := Link(m.0, p, m.1, |m.0.nodes[p].children|);
      p in r.nodes && r.nodes[p].kind == ElementNode && SourcesOk(r, srcs[1..], ids[1..])
    ensures var m := Import(s, Base(s, srcs[0]), ids[0], s.nodes[p].rank + 1);
      var r := Link(m.0, p, m.1, |m.0.nodes[p].children|);
      AppendCopies(s, srcs, p, ids) ==
        var rest := AppendCopies(r, srcs[1..], p, ids[1..]); (rest.0, [m.1] + rest.1)
  {
  }

  /** What one turn of the insertBefore loop needs and leaves. */
  lemma BeforeNext(s: Store, srcs: seq<Option<Store>>, p: NodeId, ids: seq<NodeId>, cur: NodeId)
    requires Wf(s) && p in s.nodes && s.nodes[p].kind == ElementNode && SourcesOk(s, srcs, ids) && ids != []
    requires cur in s.nodes[p].children
    ensures s.nodes[p].rank + 1 <= s.next && Wf(Base(s, srcs[0])) && ids[0] in Base(s, srcs[0]).nodes
    ensures IsChildKind(Base(s, srcs[0]).nodes[ids[0]].kind)
    ensures var m := Import(s, Base(s, srcs[0]), ids[0], s.nodes[p].rank + 1);
      CanLink(m.0, p, m.1) && m.0.nodes[p] == s.nodes[p] &&
      var r := Link(m.0, p, m.1, IndexOf(s.nodes[p].children, cur));
      KindsKept(s, r) && p in r.nodes && r.nodes[p].kind == ElementNode && SourcesOk(r, srcs[1..], ids[1..]) &&
      cur in r.nodes[p].children
  {
    assert NodeWf(s, p);
    var m := Import(s, Base(s, srcs[0]), ids[0], s.nodes[p].rank + 1);
    CopyInsertable(s, p, m.0, m.1);
    var pos := IndexOf(s.nodes[p].children, cur);
    var s2 := Link(m.0, p, m.1, pos);
    LinkedSources(s, srcs, ids, p, m.0, m.1, s2);
    ShiftedIndex(s2, p, s.nodes[p].children, pos, m.1, cur);
  }

  /** The copies before cur are the first copy followed by the copies of the rest, all before cur. */
  lemma BeforeUnfold(s: Store, srcs: seq<Option<Store>>, p: NodeId, ids: seq<NodeId>, cur: NodeId)
    requires Wf(s) && p in s.nodes && s.nodes[p].kind == ElementNode && SourcesOk(s, srcs, ids) && ids != []
    requires cur in s.nodes[p].children
    requires s.nodes[p].rank + 1 <= s.next && Wf(Base(s, srcs[0])) && ids[0] in Base(s, srcs[0]).nodes
    requires IsChildKind(Base(s, srcs[0]).nodes[ids[0]].kind)
    requires var m := Import(s, Base(s, srcs[0]), ids[0], s.nodes[p].rank + 1);
      CanLink(m.0, p, m.1) && m.0.nodes[p] == s.nodes[p] &&
      var r := Link(m.0, p, m.1, IndexOf(s.nodes[p].children, cur));
      p in r.nodes && r.nodes[p].kind == ElementNode && SourcesOk(r, srcs[1..], ids[1..]) && cur in r.nodes[p].children
    ensures var m := Import(s, Base(s, srcs[0]), ids[0], s.nodes[p].rank + 1);
      var r := Link(m.0, p, m.1, IndexOf(s.nodes[p].children, cur));
      CopiesBefore(s, srcs, p, ids, cur) ==
        var rest := CopiesBefore(r, srcs[1..], p, ids[1..], cur); (rest.0, [m.1] + rest.1)
  {
  }

  /** What one turn of the addAfter loop needs and leaves. */
  lemma RightAfterNext(s: Store, srcs: seq<Option<Store>>, p: NodeId, ids: seq<NodeId>, cur: NodeId)
    requires Wf(s) && p in s.nodes && s.nodes[p].kind == ElementNode && SourcesOk(s, srcs, ids) && ids != []
    requires cur in s.nodes[p].children
    ensures s.nodes[p].rank + 1 <= s.next && Wf(Base(s, srcs[0])) && ids[0] in Base(s, srcs[0]).nodes
    ensures IsChildKind(Base(s, srcs[0]).nodes[ids[0]].kind)
    ensures var m := Import(s, Base(s, srcs[0]), ids[0], s.nodes[p].rank + 1);
      Insertable(m.0, p, m.1) && m.0.nodes[p] == s.nodes[p] && cur in m.0.nodes && ParentNode(m.0, cur) == Some(p) &&
      var r := Link(m.0, p, m.1, InsertPos(s, p, Some(cur)));
      KindsKept(s, r) && p in r.nodes && r.nodes[p].kind == ElementNode && SourcesOk(r, srcs[1..], ids[1..]) &&
      cur in r.nodes[p].children
  {
    assert NodeWf(s, p);
    var m := Import(s, Base(s, srcs[0]), ids[0], s.nodes[p].rank + 1);
    CopyInsertable(s, p, m.0, m.1);
    assert ParentNode(m.0, cur) == Some(p);
    var pos := InsertPos(s, p, Some(cur));
    var s2 := Link(m.0, p, m.1, pos);
    LinkedSources(s, srcs, ids, p, m.0, m.1, s2);
    ShiftedIndex(s2, p, s.nodes[p].children, pos, m.1, cur);
    assert KindsKept(s, s2) && SourcesOk(s2, srcs[1..], ids[1..]);
    assert cur in s2.nodes[p].children;
    assert p in s2.nodes && s2.nodes[p].kind == ElementNode;
  }

  /** The copies right after cur are the copies of the rest followed by the first copy. */
  lemma RightAfterUnfold(s: Store, srcs: seq<Option<Store>>, p: NodeId, ids: seq<NodeId>, cur: NodeId)
    requires Wf(s) && p in s.nodes && s.nodes[p].kind == ElementNode && SourcesOk(s, srcs, ids) && ids != []
    requires cur in s.nodes[p].children
    requires s.nodes[p].rank + 1 <= s.next && Wf(Base(s, srcs[0])) && ids[0] in Base(s, srcs[0]).nodes
    requires IsChildKind(Base(s, srcs[0]).nodes[ids[0]].kind)
    requires var m := Import(s, Base(s, srcs[0]), ids[0], s.nodes[p].rank + 1);
      CanLink(m.0, p, m.1) && m.0.nodes[p] == s.nodes[p] &&
      var r := Link(m.0, p, m.1, InsertPos(s, p, Some(cur)));
      p in r.nodes && r.nodes[p].kind == ElementNode && SourcesOk(r, srcs[1..], ids[1..]) && cur in r.nodes[p].children
    ensures var m := Import(s, Base(s, srcs[0]), ids[0], s.nodes[p].rank + 1);
      var r := Link(m.0, p, m.1, InsertPos(s, p, Some(cur)));
      CopiesRightAfter(s, srcs, p, ids, cur) ==
        var rest := CopiesRightAfter(r, srcs[1..], p, ids[1..], cur); (rest.0, rest.1 + [m.1])
  {
  }

  // ---------------------------------------------------------------- the loops

  /** A run of p.appendChild(importNode(source)) calls: the copies are appended in order. */
  method AppendLoop(s: Store, srcs: seq<Option<Store>>, p: NodeId, ids: seq<NodeId>) returns (t: Store)
    requires Wf(s) && p in s.nodes && s.nodes[p].kind == ElementNode && SourcesOk(s, srcs, ids)
    ensures t == AppendCopies(s, srcs, p, ids).0
  {
    t := s;
    var rest, from := ids, srcs;
    while rest != []
      decreases |rest|
      invariant Wf(t) && p in t.nodes && t.nodes[p].kind == ElementNode
      invariant SourcesOk(t, from, rest)
      invariant AppendCopies(s, srcs, p, ids).0 == AppendCopies(t, from, p, rest).0
    {
      AppendNext(t, from, p, rest);
      AppendUnfold(t, from, p, rest);
      var m := Import(t, Base(t, from[0]), rest[0], t.nodes[p].rank + 1);
      t := Link(m.0, p, m.1, |m.0.nodes[p].children|);
      rest, from := rest[1..], from[1..];
    }
  }

  /** The marker after a run that placed ids, starting from ref. */
  function LastPlaced(ids: seq<NodeId>, ref: Option<NodeId>): (r: Option<NodeId>)
    ensures ids != [] ==> r == Some(ids[|ids| - 1])
    ensures ids == [] ==> r == ref
  {
    if ids == [] then ref else Some(ids[|ids| - 1])
  }

  lemma LastPlacedCons(x: NodeId, ids: seq<NodeId>, ref: Option<NodeId>)
    ensures LastPlaced([x] + ids, ref) == LastPlaced(ids, Some(x))
  {
    if ids != [] { assert ([x] + ids)[|ids|] == ids[|ids| - 1]; }
  }

  /**
   * A run of insertAfter(p, importNode(source), marker) calls, the marker moving
   * to each new copy: the copies go in, in order, after ref (first when None).
   * Returns the last node placed (ref when nothing was).
   */
  method ChainLoop(s: Store, srcs: seq<Option<Store>>, p: NodeId, ids: seq<NodeId>, ref: Option<NodeId>)
    returns (t: Store, last: Option<NodeId>)
    requires Wf(s) && p in s.nodes && s.nodes[p].kind == ElementNode && SourcesOk(s, srcs, ids)
    requires ref.Some? ==> ref.value in s.nodes[p].children
    ensures var r := ChainCopies(s, srcs, p, ids, ref); t == r.0 && last == LastPlaced(r.1, ref)
  {
    t, last := s, ref;
    var rest, from := ids, srcs;
    while rest != []
      decreases |rest|
      invariant Wf(t) && p in t.nodes && t.nodes[p].kind == ElementNode
      invariant SourcesOk(t, from, rest)
      invariant last.Some? ==> last.value in t.nodes[p].children
      invariant ChainCopies(s, srcs, p, ids, ref).0 == ChainCopies(t, from, p, rest, last).0
      invariant LastPlaced(ChainCopies(s, srcs, p, ids, ref).1, ref) == LastPlaced(ChainCopies(t, from, p, rest, last).1, last)
    {
      ChainNext(t, from, p, rest, last);
      ChainUnfold(t, from, p, rest, last);
      var m := Import(t, Base(t, from[0]), rest[0], t.nodes[p].rank + 1);
      ghost var pos := InsertPos(t, p, last);
      assert InsertPos(m.0, p, last) == pos;
      t := InsertAfter(m.0, Some(p), m.1, last).value;
      assert t == Link(m.0, p, m.1, pos);
      LastPlacedCons(m.1, ChainCopies(t, from[1..], p, rest[1..], Some(m.1)).1, last);
      last := Some(m.1);
      rest, from := rest[1..], from[1..];
    }
  }

  /** A run of p.insertBefore(importNode(source), cur) calls: the copies go in, in order, right before cur. */
  method BeforeLoop(s: Store, srcs: seq<Option<Store>>, p: NodeId, ids: seq<NodeId>, cur: NodeId) returns (t: Store)
    requires Wf(s) && p in s.nodes && s.nodes[p].kind == ElementNode && SourcesOk(s, srcs, ids)
    requires cur in s.nodes[p].children
    ensures t == CopiesBefore(s, srcs, p, ids, cur).0
  {
    t := s;
    var rest, from := ids, srcs;
    while rest != []
      decreases |rest|
      invariant Wf(t) && p in t.nodes && t.nodes[p].kind == ElementNode
      invariant SourcesOk(t, from, rest) && cur in t.nodes[p].children
      invariant CopiesBefore(s, srcs, p, ids, cur).0 == CopiesBefore(t, from, p, rest, cur).0
    {
      BeforeNext(t, from, p, rest, cur);
      BeforeUnfold(t, from, p, rest, cur);
      var pos := IndexOf(t.nodes[p].children, cur);
      var m := Import(t, Base(t, from[0]), rest[0], t.nodes[p].rank + 1);
      t := Link(m.0, p, m.1, pos);
      rest, from := rest[1..], from[1..];
    }
  }

  /** A run of insertAfter(p, importNode(source), cur) calls: each copy goes in right after cur. */
  method RightAfterLoop(s: Store, srcs: seq<Option<Store>>, p: NodeId, ids: seq<NodeId>, cur: NodeId) returns (t: Store)
    requires Wf(s) && p in s.nodes && s.nodes[p].kind == ElementNode && SourcesOk(s, srcs, ids)
    requires cur in s.nodes[p].children
    ensures t == CopiesRightAfter(s, srcs, p, ids, cur).0
  {
    t := s;
    var rest, from := ids, srcs;
    while rest != []
      decreases |rest|
      invariant Wf(t) && p in t.nodes && t.nodes[p].kind == ElementNode
      invariant SourcesOk(t, from, rest) && cur in t.nodes[p].children
      invariant CopiesRightAfter(s, srcs, p, ids, cur).0 == CopiesRightAfter(t, from, p, rest, cur).0
    {
      RightAfterNext(t, from, p, rest, cur);
      RightAfterUnfold(t, from, p, rest, cur);
      var m := Import(t, Base(t, from[0]), rest[0], t.nodes[p].rank + 1);
      ghost var pos := InsertPos(t, p, Some(cur));
      assert InsertPos(m.0, p, Some(cur)) == pos;
      t := InsertAfter(m.0, Some(p), m.1, Some(cur)).value;
      assert t == Link(m.0, p, m.1, pos);
      rest, from := rest[1..], from[1..];
    }
  }
}
