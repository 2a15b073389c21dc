/**
 * The abstract value of a DOM subtree, and the recursive structural comparison
 * that XDoc.equals performs on two subtrees (compareNode).
 */
module Trees {

  /** The node kinds the cursor creates or inspects. */
  datatype Kind = DocumentNode | ElementNode | AttributeNode | TextNode | CDataNode | CommentNode

  /** A subtree by value: kind, name, value, attributes in map order, children in document order. */
  datatype Tree = Tree(kind: Kind, name: string, value: string, attrs: seq<Tree>, children: seq<Tree>)

  /** Kinds whose node value compareNode compares (the processing-instruction kind is not modelled). */
  predicate HasValue(k: Kind) {
    k == AttributeNode || k == CDataNode || k == CommentNode || k == TextNode
  }

  /** Kinds whose name compareNode compares (the DTD-related kinds are not modelled). */
  predicate HasName(k: Kind) {
    k == AttributeNode || k == ElementNode
  }

  /** Kinds whose child lists compareNode compares (the fragment kind is not modelled). */
  predicate HasChildren(k: Kind) {
    k == ElementNode || k == DocumentNode
  }

  /** Kinds that may appear in a child list below an element. */
  predicate IsChildKind(k: Kind) {
    k == ElementNode || k == TextNode || k == CDataNode || k == CommentNode
  }

  /** Text-valued kinds as getNodeText sees them. */
  predicate IsTextual(k: Kind) {
    k == TextNode || k == CDataNode || k == AttributeNode
  }

  /**
   * compareNode: false at the first difference in kind, value (value-bearing kinds),
   * name (name-bearing kinds), attribute list (elements) or child list (elements and
   * documents); the lists are compared by length and then pairwise, in order.
   */
  function CompareNode(a: Tree, b: Tree): bool
    decreases a
  {
    if a.kind != b.kind then false
    else if HasValue(a.kind) && a.value != b.value then false
    else if HasName(a.kind) && a.name != b.name then false
    else if a.kind == ElementNode && !CompareLists(a.attrs, b.attrs) then false
    else if HasChildren(a.kind) && !CompareLists(a.children, b.children) then false
    else true
  }

  /** The length test followed by the index loop over two node lists. */
  function CompareLists(xs: seq<Tree>, ys: seq<Tree>): bool
    decreases xs, |xs| + 1
  {
    |xs| == |ys| && CompareFrom(xs, ys, 0)
  }

  /** The index loop: compares positions i, i+1, ... and stops at the first mismatch. */
  function CompareFrom(xs: seq<Tree>, ys: seq<Tree>, i: nat): bool
    requires |xs| == |ys| && i <= |xs|
    decreases xs, |xs| - i
  {
    if i == |xs| then true
    else if !CompareNode(xs[i], ys[i]) then false
    else CompareFrom(xs, ys, i + 1)
  }

  /** A tree with every field that compareNode ignores for its kind blanked out. */
  function Normal(t: Tree): Tree
    decreases t
  {
    Tree(t.kind,
         if HasName(t.kind) then t.name else "",
         if HasValue(t.kind) then t.value else "",
         if t.kind == ElementNode then NormalList(t.attrs) else [],
         if HasChildren(t.kind) then NormalList(t.children) else [])
  }

  function NormalList(ts: seq<Tree>): (r: seq<Tree>)
    decreases ts
    ensures |r| == |ts|
    ensures forall i :: 0 <= i < |ts| ==> r[i] == Normal(ts[i])
  {
    if ts == [] then [] else [Normal(ts[0])] + NormalList(ts[1..])
  }

  /** compareNode holds exactly when the two trees agree on every field it inspects. */
  lemma {:induction false} CompareNodeIsNormalEquality(a: Tree, b: Tree)
    ensures CompareNode(a, b) == (Normal(a) == Normal(b))
    decreases a
  {
    CompareListsIsNormalEquality(a.attrs, b.attrs);
    CompareListsIsNormalEquality(a.children, b.children);
  }

  lemma {:induction false} CompareListsIsNormalEquality(xs: seq<Tree>, ys: seq<Tree>)
    ensures CompareLists(xs, ys) == (NormalList(xs) == NormalList(ys))
    decreases xs, |xs| + 1
  {
    if |xs| == |ys| {
      CompareFromIsNormalEquality(xs, ys, 0);
      if NormalList(xs) == NormalList(ys) {
        assert forall j :: 0 <= j < |xs| ==> Normal(xs[j]) == NormalList(xs)[j];
      }
    }
  }

  lemma {:induction false} CompareFromIsNormalEquality(xs: seq<Tree>, ys: seq<Tree>, i: nat)
    requires |xs| == |ys| && i <= |xs|
    ensures CompareFrom(xs, ys, i) == (forall j :: i <= j < |xs| ==> Normal(xs[j]) == Normal(ys[j]))
    decreases xs, |xs| - i
  {
    if i < |xs| {
      CompareNodeIsNormalEquality(xs[i], ys[i]);
      CompareFromIsNormalEquality(xs, ys, i + 1);
    }
  }

  /** Every tree equals itself (x.equals(x) by structure, not only by identity). */
  lemma CompareNodeReflexive(a: Tree)
    ensures CompareNode(a, a)
  {
    CompareNodeIsNormalEquality(a, a);
  }

  /** compareNode does not depend on which side is the receiver. */
  lemma CompareNodeSymmetric(a: Tree, b: Tree)
    ensures CompareNode(a, b) == CompareNode(b, a)
  {
    CompareNodeIsNormalEquality(a, b);
    CompareNodeIsNormalEquality(b, a);
  }

  lemma CompareNodeTransitive(a: Tree, b: Tree, c: Tree)
    requires CompareNode(a, b) && CompareNode(b, c)
    ensures CompareNode(a, c)
  {
    CompareNodeIsNormalEquality(a, b);
    CompareNodeIsNormalEquality(b, c);
    CompareNodeIsNormalEquality(a, c);
  }

  /** Changing one child's text makes two otherwise equal elements unequal. */
  lemma CompareNodeSeesChildValue(name: string, pre: seq<Tree>, post: seq<Tree>, v: string, w: string)
    requires v != w
    ensures !CompareNode(Tree(ElementNode, name, "", [], pre + [Tree(TextNode, "#text", v, [], [])] + post),
                         Tree(ElementNode, name, "", [], pre + [Tree(TextNode, "#text", w, [], [])] + post))
  {
    var x := Tree(ElementNode, name, "", [], pre + [Tree(TextNode, "#text", v, [], [])] + post);
    var y := Tree(ElementNode, name, "", [], pre + [Tree(TextNode, "#text", w, [], [])] + post);
    CompareNodeIsNormalEquality(x, y);
    assert NormalList(x.children)[|pre|] != NormalList(y.children)[|pre|];
  }
}
