/**
 * insertValueAt(xpath, value): a working cursor walks the path's segments,
 * creating elements where the path asks for ones that do not exist yet, and
 * finally deposits the value as an attribute, a new element's text, or text
 * at the working node. The working cursor is modelled by the two nodes that
 * matter to the walk: the node it stands on and its root (the context node
 * of the `name[last()]` query).
 */
module Inserts {
  import opened Wrappers
  import opened Trees
  import opened Dom
  import opened Edits
  import opened Paths
  import opened Views

  /** The working cursor: the root its queries run against and the node it stands on. */
  datatype Pos = Pos(root: NodeId, at: NodeId)

  /** The walk can use pos in s: both nodes exist and the working node is an element. */
  predicate Usable(s: Store, p: Pos) {
    p.root in s.nodes && p.at in s.nodes && s.nodes[p.at].kind == ElementNode
  }

  /** A non-final token the model walks: a name of the fast-lookup alphabet, not an attribute. */
  predicate StepName(tok: string) {
    tok != [] && IsSimplePath(tok) && tok[0] != '@'
  }

  /** A step name is a plain final token too: not an attribute, not a '#' deposit. */
  lemma StepNamePlain(tok: string)
    requires StepName(tok)
    ensures tok != [] && tok[0] != '@' && tok[0] != '#'
  {
    assert SimpleChar(tok[0], 0);
  }

  /** Every non-final segment that parses carries a StepName token. */
  predicate StepNames(segs: seq<string>) {
    forall i :: 0 <= i < |segs| - 1 && ParseSegment(segs[i]).Ok? ==> StepName(ParseSegment(segs[i]).value.token)
  }

  // ---------------------------------------------------------------- structure only grows

  /**
   * t keeps every node of s with its kind, every non-attribute node with its name,
   * value, parent and rank, and its child list only grows at the end.
   */
  ghost predicate Additive(s: Store, t: Store) {
    s.nodes.Keys <= t.nodes.Keys &&
    (forall y :: y in s.nodes ==> t.nodes[y].kind == s.nodes[y].kind) &&
    forall y :: y in s.nodes && s.nodes[y].kind != AttributeNode ==>
      var a := s.nodes[y]; var b := t.nodes[y];
      b.kind == a.kind && b.name == a.name && b.value == a.value && b.parent == a.parent &&
      b.rank == a.rank && a.children <= b.children
  }

  lemma AdditiveTrans(s: Store, t: Store, u: Store)
    requires Additive(s, t) && Additive(t, u)
    ensures Additive(s, u)
  {
    forall y | y in s.nodes && s.nodes[y].kind != AttributeNode
      ensures s.nodes[y].children <= u.nodes[y].children
    {
      assert t.nodes[y].kind != AttributeNode;
    }
  }

  lemma AppendNewAdditive(s: Store, p: NodeId, kind: Kind, name: string, value: string)
    requires Wf(s) && p in s.nodes && HasChildren(s.nodes[p].kind) && IsChildKind(kind)
    ensures Additive(s, AppendNew(s, p, kind, name, value).0)
  {
  }

  lemma SetAttrAdditive(s: Store, e: NodeId, name: string, value: string)
    requires Wf(s) && e in s.nodes && s.nodes[e].kind == ElementNode
    ensures Additive(s, SetAttr(s, e, name, value))
  {
    var r := SetAttr(s, e, name, value);
    assert NodeWf(s, e);
    forall y | y in s.nodes
      ensures r.nodes[y].kind == s.nodes[y].kind
    {
      if y in s.nodes[e].attrs {
        assert Shape(r.nodes[y]) == Shape(s.nodes[y]);
      }
    }
  }

  // ---------------------------------------------------------------- deposit

  /** value(v) at c: a text child is appended only when v is non-empty. */
  function Deposit(s: Store, c: NodeId, v: string): (r: Store)
    requires Wf(s) && c in s.nodes && s.nodes[c].kind == ElementNode
    ensures Wf(r) && c in r.nodes && r.nodes[c].kind == ElementNode && Additive(s, r)
    ensures v == [] ==> r == s
    ensures v != [] ==>
              FrameBut(s, r, c) && r.nodes.Keys == s.nodes.Keys + {s.next} && s.next !in s.nodes &&
              r.nodes[c] == s.nodes[c].(children := s.nodes[c].children + [s.next]) &&
              r.nodes[s.next] == NodeData(TextNode, "#text", v, [], [], Some(c), s.nodes[c].rank + 1)
  {
    if v == [] then s
    else
      AppendNewAdditive(s, c, TextNode, "#text", v);
      AppendNew(s, c, TextNode, "#text", v).0
  }

  /** The deposit's effect on c's subtree: one text leaf at the end, or nothing. */
  lemma DepositTree(s: Store, c: NodeId, v: string)
    requires Wf(s) && c in s.nodes && s.nodes[c].kind == ElementNode
    ensures ToTree(Deposit(s, c, v), c) ==
      ToTree(s, c).(children := ToTree(s, c).children + TextLeaves(v))
  {
    if v == [] {
      assert ToTree(s, c).children + [] == ToTree(s, c).children;
    } else {
      AppendNewTree(s, c, TextNode, "#text", v);
    }
  }

  // ---------------------------------------------------------------- name[N]

  /** k new empty elements named tok appended to c, in creation order. */
  function AppendElements(s: Store, c: NodeId, tok: string, k: nat): (r: (Store, seq<NodeId>))
    requires Wf(s) && c in s.nodes && s.nodes[c].kind == ElementNode
    ensures Appended(s, c, tok, r.0, r.1) && |r.1| == k
    decreases k
  {
    if k == 0 then
      assert s.nodes[c].children + [] == s.nodes[c].children;
      (s, [])
    else
      var a := AppendNew(s, c, ElementNode, tok, "");
      AppendNewAdditive(s, c, ElementNode, tok, "");
      var b := AppendElements(a.0, c, tok, k - 1);
      ElementsStep(s, c, tok, a.0, a.1, b.0, b.1);
      (b.0, [a.1] + b.1)
  }

  /** r is s with the fresh empty elements ns, all named tok, appended to c's child list. */
  ghost predicate Appended(s: Store, c: NodeId, tok: string, r: Store, ns: seq<NodeId>)
    requires c in s.nodes
  {
    Wf(r) && Additive(s, r) && FrameBut(s, r, c) &&
    r.nodes.Keys == s.nodes.Keys + (set x | x in ns) &&
    r.nodes[c] == s.nodes[c].(children := s.nodes[c].children + ns) &&
    forall x :: x in ns ==>
      x !in s.nodes && IsNamedElement(r, x, tok) && r.nodes[x].value == "" &&
      r.nodes[x].children == [] && r.nodes[x].attrs == []
  }

  lemma ElementsStep(s: Store, c: NodeId, tok: string, t: Store, n: NodeId, u: Store, ns: seq<NodeId>)
    requires c in s.nodes && n !in s.nodes && n != c
    requires Wf(t) && t.nodes.Keys == s.nodes.Keys + {n} && Additive(s, t) && FrameBut(s, t, c)
    requires t.nodes[c] == s.nodes[c].(children := s.nodes[c].children + [n])
    requires t.nodes[n] == NodeData(ElementNode, tok, "", [], [], Some(c), s.nodes[c].rank + 1)
    requires Appended(t, c, tok, u, ns)
    ensures Appended(s, c, tok, u, [n] + ns)
  {
    AdditiveTrans(s, t, u);
    assert s.nodes[c].children + [n] + ns == s.nodes[c].children + ([n] + ns);
    assert u.nodes[n] == t.nodes[n];
  }

  /** Nodes whose kind and name an edit keeps are filtered the same way. */
  lemma {:induction false} NamedAmongKept(s: Store, t: Store, xs: seq<NodeId>, name: string)
    requires Additive(s, t)
    requires forall x :: x in xs ==> x in s.nodes && s.nodes[x].kind != AttributeNode
    ensures NamedAmong(t, xs, name) == NamedAmong(s, xs, name)
    decreases |xs|
  {
    if xs != [] {
      var init := xs[..|xs| - 1];
      assert forall x :: x in init ==> x in xs;
      assert xs[|xs| - 1] in xs;
      NamedAmongKept(s, t, init, name);
    }
  }

  /** Appending only elements named `name` appends them to the filtered list too. */
  lemma {:induction false} NamedAmongAllNamed(s: Store, xs: seq<NodeId>, ys: seq<NodeId>, name: string)
    requires forall y :: y in ys ==> IsNamedElement(s, y, name)
    ensures NamedAmong(s, xs + ys, name) == NamedAmong(s, xs, name) + ys
    decreases |ys|
  {
    if ys == [] {
      assert xs + ys == xs;
    } else {
      var init := ys[..|ys| - 1];
      assert forall y :: y in init ==> y in ys;
      NamedAmongAllNamed(s, xs, init, name);
      NamedAllStep(s, xs, ys, name);
    }
  }

  lemma NamedAllStep(s: Store, xs: seq<NodeId>, ys: seq<NodeId>, name: string)
    requires |ys| > 0 && IsNamedElement(s, ys[|ys| - 1], name)
    requires NamedAmong(s, xs + ys[..|ys| - 1], name) == NamedAmong(s, xs, name) + ys[..|ys| - 1]
    ensures NamedAmong(s, xs + ys, name) == NamedAmong(s, xs, name) + ys
  {
    var init, l := ys[..|ys| - 1], ys[|ys| - 1];
    ConcatLast(xs, ys);
    NamedAmongAppend(s, xs + init, l, name);
    Glue(NamedAmong(s, xs + init + [l], name), NamedAmong(s, xs + init, name), NamedAmong(s, xs, name), init, l, ys);
  }

  lemma ConcatLast(xs: seq<NodeId>, ys: seq<NodeId>)
    requires |ys| > 0
    ensures xs + ys == xs + ys[..|ys| - 1] + [ys[|ys| - 1]]
  {
    assert ys == ys[..|ys| - 1] + [ys[|ys| - 1]];
  }

  lemma Glue(a: seq<NodeId>, b: seq<NodeId>, c: seq<NodeId>, init: seq<NodeId>, l: NodeId, ys: seq<NodeId>)
    requires b == c + init && a == b + [l] && |ys| > 0 && init == ys[..|ys| - 1] && l == ys[|ys| - 1]
    ensures a == c + ys
  {
    assert ys == init + [l];
  }

  /**
   * The `name[N]` step (idx = N - 1): the idx-th element child of the working node
   * named tok, after appending as many new ones as are missing. A match found is also
   * the new root (it comes from a fresh query result); a created one keeps the old root.
   */
  function Indexed(s: Store, p: Pos, tok: string, idx: nat): (r: (Store, Pos))
    requires Wf(s) && Usable(s, p)
    ensures Wf(r.0) && Usable(r.0, r.1) && Additive(s, r.0)
  {
    var m := ChildrenNamed(s, p.at, tok);
    if idx < |m| then
      assert m[idx] in m;
      (s, Pos(m[idx], m[idx]))
    else
      var a := AppendElements(s, p.at, tok, idx + 1 - |m|);
      var n := a.1[|a.1| - 1];
      assert n in a.1;
      (a.0, Pos(p.root, n))
  }

  /**
   * name[N] leaves at least N such children, keeps the existing ones first, creates
   * only the missing ones (appended at the end of the child list), and stands on the N-th.
   */
  lemma IndexedChildren(s: Store, p: Pos, tok: string, idx: nat)
    requires Wf(s) && Usable(s, p)
    ensures var r := Indexed(s, p, tok, idx);
      var before := ChildrenNamed(s, p.at, tok); var after := ChildrenNamed(r.0, p.at, tok);
      |after| == (if idx < |before| then |before| else idx + 1) &&
      before <= after && r.1.at == after[idx] &&
      r.0.nodes[p.at] == s.nodes[p.at].(children := s.nodes[p.at].children + after[|before|..])
    ensures var r := Indexed(s, p, tok, idx);
      if idx < |ChildrenNamed(s, p.at, tok)| then r.0 == s && r.1.root == r.1.at else r.1.root == p.root
  {
    var m := ChildrenNamed(s, p.at, tok);
    if idx >= |m| {
      var a := AppendElements(s, p.at, tok, idx + 1 - |m|);
      AppendedNamed(s, p.at, tok, idx + 1 - |m|);
      assert ChildrenNamed(a.0, p.at, tok)[|m|..] == a.1;
    }
  }

  /** The elements AppendElements creates are exactly the new same-named children. */
  lemma AppendedNamed(s: Store, c: NodeId, tok: string, k: nat)
    requires Wf(s) && c in s.nodes && s.nodes[c].kind == ElementNode
    ensures var a := AppendElements(s, c, tok, k);
      ChildrenNamed(a.0, c, tok) == ChildrenNamed(s, c, tok) + a.1
  {
    var a := AppendElements(s, c, tok, k);
    var cs := s.nodes[c].children;
    assert forall x :: x in cs ==> x in s.nodes && s.nodes[x].kind != AttributeNode by {
      assert NodeWf(s, c);
    }
    NamedAmongKept(s, a.0, cs, tok);
    NamedAmongAllNamed(a.0, cs, a.1, tok);
  }

  // ---------------------------------------------------------------- one segment

  /**
   * A non-final segment: `name[N]` goes through Indexed; a bare name queries
   * `name[last()]` against the working cursor's root, moves onto the match (which
   * becomes the root), or else appends one new element to the working node.
   */
  function Step(s: Store, p: Pos, seg: Segment): (r: (Store, Pos))
    requires Wf(s) && Usable(s, p) && StepName(seg.token)
    ensures Wf(r.0) && Usable(r.0, r.1) && Additive(s, r.0)
  {
    if seg.index >= 0 then Indexed(s, p, seg.token, seg.index)
    else
      match LastNamed(s, p.root, seg.token)
      case Some(x) => (s, Pos(x, x))
      case None =>
        AppendNewAdditive(s, p.at, ElementNode, seg.token, "");
        var a := AppendNew(s, p.at, ElementNode, seg.token, "");
        (a.0, Pos(p.root, a.1))
  }

  /**
   * A bare name reuses the last match under the root or creates exactly one element,
   * appended to the working node; when the root is the working node, the cursor ends
   * on the last same-named child of it.
   */
  lemma StepUnindexed(s: Store, p: Pos, seg: Segment)
    requires Wf(s) && Usable(s, p) && StepName(seg.token) && seg.index < 0
    ensures var r := Step(s, p, seg); var tok := seg.token;
      IsNamedElement(r.0, r.1.at, tok) &&
      (LastNamed(s, p.root, tok).Some? ==> r.0 == s && r.1.at == r.1.root == LastNamed(s, p.root, tok).value) &&
      (LastNamed(s, p.root, tok).None? ==>
         r.1.root == p.root && r.1.at !in s.nodes &&
         r.0.nodes[p.at] == s.nodes[p.at].(children := s.nodes[p.at].children + [r.1.at]) &&
         ChildrenNamed(r.0, p.at, tok) == ChildrenNamed(s, p.at, tok) + [r.1.at])
    ensures var r := Step(s, p, seg); p.root == p.at ==> LastNamed(r.0, p.at, seg.token) == Some(r.1.at)
  {
    var tok := seg.token;
    if LastNamed(s, p.root, tok).None? {
      var r := Step(s, p, seg);
      var cs := s.nodes[p.at].children;
      assert forall x :: x in cs ==> x in s.nodes && s.nodes[x].kind != AttributeNode by {
        assert NodeWf(s, p.at);
      }
      NamedAmongKept(s, r.0, cs, tok);
      NamedAmongAppend(r.0, cs, r.1.at, tok);
    }
  }

  /**
   * The final segment: `@name` sets that attribute on the working node; a token
   * starting with '#' creates nothing; any other token (its index ignored) appends
   * a new element. The value then goes to the node reached as text, if non-empty.
   */
  function Finish(s: Store, c: NodeId, tok: string, v: string): (r: Store)
    requires Wf(s) && c in s.nodes && s.nodes[c].kind == ElementNode && tok != []
    ensures Wf(r) && Additive(s, r)
  {
    if tok[0] == '@' then
      SetAttrAdditive(s, c, tok[1..], v);
      SetAttr(s, c, tok[1..], v)
    else if tok[0] != '#' then
      AppendNewAdditive(s, c, ElementNode, tok, "");
      var a := AppendNew(s, c, ElementNode, tok, "");
      var r := Deposit(a.0, a.1, v);
      AdditiveTrans(s, a.0, r);
      r
    else Deposit(s, c, v)
  }

  /** The value as a text leaf, or nothing when it is empty. */
  function TextLeaves(v: string): (r: seq<Tree>)
    ensures |r| == (if v == [] then 0 else 1)
  {
    if v == [] then [] else [Tree(TextNode, "#text", v, [], [])]
  }

  /** What the final segment does to the working node's subtree. */
  lemma FinishTree(s: Store, c: NodeId, tok: string, v: string)
    requires Wf(s) && c in s.nodes && s.nodes[c].kind == ElementNode && tok != []
    ensures var r := Finish(s, c, tok, v); var t := ToTree(s, c);
      if tok[0] == '@' then
        ToTree(r, c) == t.(attrs := AttrLeaves(Put(AttrPairs(s, c), tok[1..], v))) &&
        Get(AttrPairs(r, c), tok[1..]) == Some(v)
      else if tok[0] == '#' then
        ToTree(r, c) == t.(children := t.children + TextLeaves(v))
      else
        ToTree(r, c) == t.(children := t.children + [Tree(ElementNode, tok, "", [], TextLeaves(v))])
  {
    if tok[0] == '@' {
      SetAttrTree(s, c, tok[1..], v);
    } else if tok[0] == '#' {
      DepositTree(s, c, v);
    } else {
      NewChildTree(s, c, tok, v);
    }
  }

  lemma NewChildTree(s: Store, c: NodeId, tok: string, v: string)
    requires Wf(s) && c in s.nodes && s.nodes[c].kind == ElementNode
    ensures var a := AppendNew(s, c, ElementNode, tok, ""); var r := Deposit(a.0, a.1, v); var t := ToTree(s, c);
      ToTree(r, c) == t.(children := t.children + [Tree(ElementNode, tok, "", [], TextLeaves(v))])
  {
    var a := AppendNew(s, c, ElementNode, tok, "");
    var r := Deposit(a.0, a.1, v);
    NewChildKeeps(s, c, tok, v);
    AppendedChildTree(s, r, c, a.1);
    NewLeafDeposit(s, c, tok, v);
  }

  lemma NewLeafDeposit(s: Store, c: NodeId, tok: string, v: string)
    requires Wf(s) && c in s.nodes && s.nodes[c].kind == ElementNode
    ensures var a := AppendNew(s, c, ElementNode, tok, ""); var r := Deposit(a.0, a.1, v);
      ToTree(r, a.1) == Tree(ElementNode, tok, "", [], TextLeaves(v))
  {
    var a := AppendNew(s, c, ElementNode, tok, "");
    LeafTree(a.0, a.1);
    DepositTree(a.0, a.1, v);
    assert [] + TextLeaves(v) == TextLeaves(v);
  }

  lemma NewChildKeeps(s: Store, c: NodeId, tok: string, v: string)
    requires Wf(s) && c in s.nodes && s.nodes[c].kind == ElementNode
    ensures var a := AppendNew(s, c, ElementNode, tok, ""); var r := Deposit(a.0, a.1, v);
      r.nodes[c] == s.nodes[c].(children := s.nodes[c].children + [a.1]) && KeepsFrom(s, r, s.nodes[c].rank + 1)
  {
    var a := AppendNew(s, c, ElementNode, tok, "");
    assert NodeWf(s, c);
  }

  // ---------------------------------------------------------------- the walk

  /** The error of the first segment that does not parse, if any. */
  function FirstError(segs: seq<string>): (r: Option<Error>)
    ensures r.None? <==> forall i :: 0 <= i < |segs| ==> ParseSegment(segs[i]).Ok?
  {
    if segs == [] then None
    else if ParseSegment(segs[0]).Err? then Some(ParseSegment(segs[0]).error)
    else
      var r := FirstError(segs[1..]);
      assert forall i :: 1 <= i < |segs| ==> segs[i] == segs[1..][i - 1];
      r
  }

  lemma StepNamesTail(segs: seq<string>)
    requires |segs| >= 1 && StepNames(segs)
    ensures StepNames(segs[1..])
  {
    forall i | 0 <= i < |segs[1..]| - 1 && ParseSegment(segs[1..][i]).Ok?
      ensures StepName(ParseSegment(segs[1..][i]).value.token)
    {
      assert segs[1..][i] == segs[i + 1];
    }
  }

  /**
   * The segment loop: parse each segment in turn (a parse failure ends the walk,
   * keeping what earlier segments created), step through the non-final ones and
   * finish with the last.
   */
  function Walk(s: Store, p: Pos, segs: seq<string>, v: string): (r: (Store, Outcome))
    requires Wf(s) && Usable(s, p) && |segs| >= 1 && StepNames(segs)
    ensures Wf(r.0) && Additive(s, r.0)
    decreases |segs|
  {
    match ParseSegment(segs[0])
    case Err(e) => (s, Fail(e))
    case Ok(seg) =>
      if |segs| == 1 then (Finish(s, p.at, seg.token, v), Pass)
      else
        var n := Step(s, p, seg);
        StepNamesTail(segs);
        var r := Walk(n.0, n.1, segs[1..], v);
        AdditiveTrans(s, n.0, r.0);
        r
  }

  /** The walk fails exactly with the error of the first segment that does not parse. */
  lemma {:induction false} WalkOutcome(s: Store, p: Pos, segs: seq<string>, v: string)
    requires Wf(s) && Usable(s, p) && |segs| >= 1 && StepNames(segs)
    ensures Walk(s, p, segs, v).1 == if FirstError(segs).None? then Pass else Fail(FirstError(segs).value)
    decreases |segs|
  {
    match ParseSegment(segs[0])
    case Err(e) =>
    case Ok(seg) =>
      if |segs| > 1 {
        var n := Step(s, p, seg);
        StepNamesTail(segs);
        WalkOutcome(n.0, n.1, segs[1..], v);
      }
  }

  /** One turn of the segment loop: a parsed non-final segment steps, the rest of the walk follows. */
  lemma WalkNext(s: Store, p: Pos, segs: seq<string>, v: string)
    requires Wf(s) && Usable(s, p) && |segs| > 1 && StepNames(segs) && ParseSegment(segs[0]).Ok?
    ensures StepName(ParseSegment(segs[0]).value.token) && StepNames(segs[1..])
    ensures var n := Step(s, p, ParseSegment(segs[0]).value);
      Walk(s, p, segs, v) == Walk(n.0, n.1, segs[1..], v)
  {
    StepNamesTail(segs);
  }

  /** insertValueAt on a non-empty cursor, once the null checks have passed. */
  function InsertValueAt(s: Store, p: Pos, xpath: string, v: string): (r: (Store, Outcome))
    requires Wf(s) && Usable(s, p) && StepNames(Segments(xpath))
    ensures Wf(r.0) && Additive(s, r.0)
    ensures xpath == [] ==> r.1 == Pass && ToTree(r.0, p.at) == ToTree(s, p.at).(children := ToTree(s, p.at).children + TextLeaves(v))
  {
    if xpath == [] then
      DepositTree(s, p.at, v);
      (Deposit(s, p.at, v), Pass)
    else Walk(s, p, Segments(xpath), v)
  }

  /**
   * insertValueAt on an empty cursor: nothing is created; the first segment that does not
   * parse fails first, any step or attribute or element creation on the empty cursor fails
   * as an illegal state, and only a bare '#' deposit of an empty value succeeds.
   */
  function EmptyWalk(segs: seq<string>, v: string): (r: Outcome)
    requires |segs| >= 1
    ensures r == Pass ==> |segs| == 1 && v == []
  {
    match ParseSegment(segs[0])
    case Err(e) => Fail(e)
    case Ok(seg) =>
      if |segs| == 1 && seg.token[0] == '#' && v == [] then Pass else Fail(IllegalState)
  }

  function EmptyInsert(xpath: string, v: string): (r: Outcome)
    ensures r == Pass ==> v == []
  {
    if xpath == [] then (if v == [] then Pass else Fail(IllegalState))
    else EmptyWalk(Segments(xpath), v)
  }

  /**
   * insertValueAt on a cursor rooted at a Document node d, as new XDoc(x) makes one from a
   * cursor that end() took to the Document: getOwnerDocument of d is null, so the cursor
   * is empty, copy() returns it and every creation on it fails as on the empty cursor. Only
   * the `name[last()]` lookup of an unindexed non-final segment sees the tree, since the
   * XPath engine evaluates it against d, whose element child is the document element. When
   * that lookup finds it, the walk goes on from the found element as a cursor of its own.
   */
  function DocRootedInsert(s: Store, d: NodeId, xpath: string, v: string): (r: (Store, Outcome))
    requires Wf(s) && d in s.nodes && StepNames(Segments(xpath))
    ensures Wf(r.0) && Additive(s, r.0)
    ensures r != (s, EmptyInsert(xpath, v)) ==>
      var segs := Segments(xpath);
      xpath != [] && |segs| > 1 && ParseSegment(segs[0]).Ok? && ParseSegment(segs[0]).value.index < 0 &&
      LastNamed(s, d, ParseSegment(segs[0]).value.token).Some?
  {
    var segs := Segments(xpath);
    if xpath == [] || |segs| == 1 then (s, EmptyInsert(xpath, v))
    else
      match ParseSegment(segs[0])
      case Err(_) => (s, EmptyInsert(xpath, v))
      case Ok(seg) =>
        if seg.index < 0 && LastNamed(s, d, seg.token).Some? then
          StepNamesTail(segs);
          var x := LastNamed(s, d, seg.token).value;
          Walk(s, Pos(x, x), segs[1..], v)
        else (s, EmptyInsert(xpath, v))
  }

  /** When the first lookup finds x, the Document-rooted insert is the walk of the remaining segments from x. */
  lemma DocRootedFound(s: Store, d: NodeId, xpath: string, v: string, x: NodeId)
    requires Wf(s) && d in s.nodes && StepNames(Segments(xpath)) && xpath != [] && |Segments(xpath)| > 1
    requires ParseSegment(Segments(xpath)[0]).Ok? && ParseSegment(Segments(xpath)[0]).value.index < 0
    requires LastNamed(s, d, ParseSegment(Segments(xpath)[0]).value.token) == Some(x)
    ensures Usable(s, Pos(x, x)) && StepNames(Segments(xpath)[1..])
    ensures DocRootedInsert(s, d, xpath, v) == Walk(s, Pos(x, x), Segments(xpath)[1..], v)
  {
    StepNamesTail(Segments(xpath));
  }

  /** Two step names as the segments of a path: both parse without an index, and a may be stepped through. */
  lemma PlainPairParse(a: string, b: string)
    requires StepName(a) && StepName(b)
    ensures StepNames([a, b])
    ensures ParseSegment(a) == Ok(Segment(a, -1)) && ParseSegment(b) == Ok(Segment(b, -1))
  {
    PlainTokens(a, b);
    forall i | 0 <= i < |[a, b]| - 1 && ParseSegment([a, b][i]).Ok?
      ensures StepName(ParseSegment([a, b][i]).value.token)
    {
      assert [a, b][i] == a;
    }
  }

  /** The path `a/b` of two step names has the segments a and b. */
  lemma PlainSegments(a: string, b: string)
    requires StepName(a) && StepName(b)
    ensures Segments(a + "/" + b) == [a, b]
  {
    SimplePathsHaveNoSyntax(a);
    SimplePathsHaveNoSyntax(b);
    TwoSegments(a, b);
  }

  /** A step name has no bracket, so it parses as itself without an index. */
  lemma PlainTokens(a: string, b: string)
    requires StepName(a) && StepName(b)
    ensures ParseSegment(a) == Ok(Segment(a, -1)) && ParseSegment(b) == Ok(Segment(b, -1))
  {
    SimplePathsHaveNoSyntax(a);
    SimplePathsHaveNoSyntax(b);
    ParsePlain(a);
    ParsePlain(b);
  }

  /**
   * On a Document-rooted cursor the path `a/b` of step names: when the `a[last()]`
   * lookup against d finds x, x gets the final segment b; when it finds nothing, the
   * call fails as on the empty cursor and changes nothing.
   */
  lemma DocRootedPair(s: Store, d: NodeId, xpath: string, a: string, b: string, v: string)
    requires Wf(s) && d in s.nodes && StepName(a) && StepName(b) && xpath == a + "/" + b
    ensures StepNames(Segments(xpath))
    ensures LastNamed(s, d, a).Some? ==>
      Usable(s, Pos(LastNamed(s, d, a).value, LastNamed(s, d, a).value)) &&
      DocRootedInsert(s, d, xpath, v) == (Finish(s, LastNamed(s, d, a).value, b, v), Pass)
    ensures LastNamed(s, d, a).None? ==> DocRootedInsert(s, d, xpath, v) == (s, Fail(IllegalState))
  {
    PlainSegments(a, b);
    PlainPairParse(a, b);
    DocRootedSegments(s, d, xpath, a, b, v);
  }

  lemma DocRootedSegments(s: Store, d: NodeId, xpath: string, a: string, b: string, v: string)
    requires Wf(s) && d in s.nodes && StepName(b) && xpath != []
    requires Segments(xpath) == [a, b] && StepNames([a, b])
    requires ParseSegment(a) == Ok(Segment(a, -1)) && ParseSegment(b) == Ok(Segment(b, -1))
    ensures LastNamed(s, d, a).Some? ==>
      Usable(s, Pos(LastNamed(s, d, a).value, LastNamed(s, d, a).value)) &&
      DocRootedInsert(s, d, xpath, v) == (Finish(s, LastNamed(s, d, a).value, b, v), Pass)
    ensures LastNamed(s, d, a).None? ==> DocRootedInsert(s, d, xpath, v) == (s, Fail(IllegalState))
  {
    assert [a, b][1..] == [b];
    if LastNamed(s, d, a).Some? {
      var x := LastNamed(s, d, a).value;
      assert Walk(s, Pos(x, x), [b], v) == (Finish(s, x, b, v), Pass);
    }
  }

  /**
   * On the cursor rooted at the Document node of a new document `<a/>`, the path `a/b`
   * reaches the document element through the `a[last()]` lookup and gives it a new `b`
   * child holding v, although the same call on the shared empty cursor fails.
   */
  lemma DocRootedFindsElement(s: Store, xpath: string, a: string, b: string, v: string)
    requires StepName(a) && StepName(b) && s == NewDocument(a) && xpath == a + "/" + b
    ensures StepNames(Segments(xpath)) && EmptyInsert(xpath, v) == Fail(IllegalState)
    ensures var r := DocRootedInsert(s, DocNode, xpath, v);
      r.1 == Pass && ToTree(r.0, 1) == Tree(ElementNode, a, "", [], [Tree(ElementNode, b, "", [], TextLeaves(v))])
  {
    PlainSegments(a, b);
    PlainPairParse(a, b);
    assert EmptyWalk([a, b], v) == Fail(IllegalState);
    DocumentElementNamed(s, a);
    DocRootedPair(s, DocNode, xpath, a, b, v);
    NewDocumentFinish(s, a, b, v);
  }

  /** In `<a/>` the `a[last()]` lookup against the Document node finds the document element. */
  lemma DocumentElementNamed(s: Store, a: string)
    requires s == NewDocument(a)
    ensures LastNamed(s, DocNode, a) == Some(1)
  {
    assert ChildrenNamed(s, DocNode, a) == [1];
  }

  /** A plain final segment b on the element of `<a/>` gives it one `b` child holding v. */
  lemma NewDocumentFinish(s: Store, a: string, b: string, v: string)
    requires s == NewDocument(a) && StepName(b)
    ensures Usable(s, Pos(1, 1))
    ensures ToTree(Finish(s, 1, b, v), 1) == Tree(ElementNode, a, "", [], [Tree(ElementNode, b, "", [], TextLeaves(v))])
  {
    StepNamePlain(b);
    FinishTree(s, 1, b, v);
    NewDocumentTree(a);
  }

  /** When the document element of `<a/>` is not named c, the path `c/b` fails as on the empty cursor and changes nothing. */
  lemma DocRootedMisses(s: Store, xpath: string, a: string, c: string, b: string, v: string)
    requires StepName(a) && StepName(b) && StepName(c) && c != a && s == NewDocument(a) && xpath == c + "/" + b
    ensures StepNames(Segments(xpath)) && DocRootedInsert(s, DocNode, xpath, v) == (s, Fail(IllegalState))
  {
    assert ChildrenNamed(s, DocNode, c) == [];
    DocRootedPair(s, DocNode, xpath, c, b, v);
  }

  // ---------------------------------------------------------------- name[N]/tag

  /** An element named tok as createElement makes it: no attributes, no children. */
  function EmptyElement(tok: string): Tree {
    Tree(ElementNode, tok, "", [], [])
  }

  /** k elements named tok as createElement makes them, as the `name[N]` step leaves them. */
  function Empties(tok: string, k: int): (r: seq<Tree>)
    requires k >= 0
    ensures |r| == k && forall i :: 0 <= i < k ==> r[i] == EmptyElement(tok)
  {
    seq(k, _ => EmptyElement(tok))
  }

  /** Two slash-free pieces joined by '/' are the two segments of the path. */
  lemma TwoSegments(a: string, b: string)
    requires a != [] && b != [] && '/' !in a && '/' !in b
    ensures Segments(a + "/" + b) == [a, b]
  {
    var xpath := a + "/" + b;
    assert a[0] in a && b[|b| - 1] in b;
    assert xpath[0] == a[0] && xpath[|xpath| - 1] == b[|b| - 1];
    assert DropLeadingSlashes(xpath) == xpath;
    assert DropTrailingSlashes(xpath) == xpath;
    assert Join([a, b]) == xpath;
    SplitJoin([a, b]);
  }

  /** A simple name followed by a bracketed numeral has no '/'. */
  lemma IndexedTokenNoSlash(name: string, n: nat)
    requires IsSimplePath(name)
    ensures '/' !in name + "[" + Decimal(n) + "]"
  {
    SimplePathsHaveNoSyntax(name);
    forall i | 0 <= i < |Decimal(n)| ensures Decimal(n)[i] != '/' {
      assert IsDigit(Decimal(n)[i]);
    }
  }

  /** A simple name holds no line terminator, so the regex `.` matches all of it. */
  lemma SimpleNoLineTerminator(name: string)
    requires IsSimplePath(name)
    ensures forall k :: 0 <= k < |name| ==> !LineTerminator(name[k])
  {
    forall k | 0 <= k < |name| ensures !LineTerminator(name[k]) {
      assert SimpleChar(name[k], k);
    }
  }

  /** `name[n]/tag` reads as the segments (name, n - 1) and (tag, no index). */
  lemma IndexedPathParse(name: string, n: nat, tag: string)
    requires StepName(name) && StepName(tag) && 1 <= n <= MaxInt
    ensures var seg := name + "[" + Decimal(n) + "]";
      Segments(name + "[" + Decimal(n) + "]/" + tag) == [seg, tag] &&
      ParseSegment(seg) == Ok(Segment(name, n - 1)) && ParseSegment(tag) == Ok(Segment(tag, -1))
  {
    var seg := name + "[" + Decimal(n) + "]";
    assert name + "[" + Decimal(n) + "]/" + tag == seg + "/" + tag;
    SimplePathsHaveNoSyntax(tag);
    IndexedTokenNoSlash(name, n);
    TwoSegments(seg, tag);
    SimpleNoLineTerminator(name);
    ParseIndexed(name, n);
    ParsePlain(tag);
  }

  /** A walk over two segments, an indexed step and a plain final name, is one Indexed and one Finish. */
  lemma WalkIndexedThenPlain(s: Store, p: Pos, seg: string, name: string, idx: nat, tag: string, v: string)
    requires Wf(s) && Usable(s, p) && StepName(name) && StepName(tag)
    requires ParseSegment(seg) == Ok(Segment(name, idx)) && ParseSegment(tag) == Ok(Segment(tag, -1))
    ensures StepNames([seg, tag])
    ensures var m := Indexed(s, p, name, idx);
      Walk(s, p, [seg, tag], v) == (Finish(m.0, m.1.at, tag, v), Pass)
  {
    assert StepNames([seg, tag]);
    WalkNext(s, p, [seg, tag], v);
    assert [seg, tag][1..] == [tag];
    assert Step(s, p, Segment(name, idx)) == Indexed(s, p, name, idx);
  }

  /** When fewer than idx + 1 such children exist, `name[N]` appends the missing ones and stands on the last. */
  lemma IndexedCreates(s: Store, p: Pos, name: string, idx: nat)
    requires Wf(s) && Usable(s, p) && idx >= |ChildrenNamed(s, p.at, name)|
    ensures var a := AppendElements(s, p.at, name, idx + 1 - |ChildrenNamed(s, p.at, name)|);
      |a.1| >= 1 && Indexed(s, p, name, idx) == (a.0, Pos(p.root, a.1[|a.1| - 1]))
  {
  }

  /**
   * Step and final segment of `name[N]/tag` when fewer than N elements named `name`
   * are children of the working node: the missing ones are appended empty, the
   * last of them gets a new `tag` child holding the value, and nothing else of the
   * working node's subtree changes.
   */
  lemma CreatedPathTree(s: Store, p: Pos, name: string, idx: nat, tag: string, v: string)
    requires Wf(s) && Usable(s, p) && idx >= |ChildrenNamed(s, p.at, name)|
    requires tag != [] && tag[0] != '@' && tag[0] != '#'
    ensures var m := Indexed(s, p, name, idx); var f := Finish(m.0, m.1.at, tag, v); var t := ToTree(s, p.at);
      ToTree(f, p.at) == t.(children := t.children +
        Empties(name, idx - |ChildrenNamed(s, p.at, name)|) +
        [EmptyElement(name).(children := [Tree(ElementNode, tag, "", [], TextLeaves(v))])])
  {
    var a := AppendElements(s, p.at, name, idx + 1 - |ChildrenNamed(s, p.at, name)|);
    IndexedCreates(s, p, name, idx);
    AppendedFinishTree(s, p.at, name, a.0, a.1, tag, v);
  }

  /** Finishing with a plain name on the last of the appended elements ns, seen from their parent c. */
  lemma AppendedFinishTree(s: Store, c: NodeId, name: string, r: Store, ns: seq<NodeId>, tag: string, v: string)
    requires Wf(s) && c in s.nodes && Appended(s, c, name, r, ns) && |ns| >= 1
    requires tag != [] && tag[0] != '@' && tag[0] != '#'
    ensures ns[|ns| - 1] in r.nodes && r.nodes[ns[|ns| - 1]].kind == ElementNode
    ensures var f := Finish(r, ns[|ns| - 1], tag, v); var t := ToTree(s, c);
      ToTree(f, c) == t.(children := t.children + Empties(name, |ns| - 1) +
        [EmptyElement(name).(children := [Tree(ElementNode, tag, "", [], TextLeaves(v))])])
  {
    AppendedEmpty(s, c, name, r, ns);
    assert ns[|ns| - 1] in ns;
    EmptiesFinishTree(s, c, name, r, ns, tag, v);
  }

  /** AppendedFinishTree, from the facts about the appended elements that it needs. */
  lemma EmptiesFinishTree(s: Store, c: NodeId, name: string, r: Store, ns: seq<NodeId>, tag: string, v: string)
    requires Wf(s) && Wf(r) && c in s.nodes && c in r.nodes && |ns| >= 1
    requires r.nodes[c] == s.nodes[c].(children := s.nodes[c].children + ns)
    requires FrameBut(s, r, c) && ns[|ns| - 1] !in s.nodes
    requires ns == r.nodes[c].children[|r.nodes[c].children| - |ns|..]
    requires forall i {:trigger ns[i]} :: 0 <= i < |ns| ==>
      IsNamedElement(r, ns[i], name) && r.nodes[ns[i]].value == "" &&
      r.nodes[ns[i]].children == [] && r.nodes[ns[i]].attrs == []
    requires tag != [] && tag[0] != '@' && tag[0] != '#'
    ensures ns[|ns| - 1] in r.nodes && r.nodes[ns[|ns| - 1]].kind == ElementNode
    ensures var f := Finish(r, ns[|ns| - 1], tag, v); var t := ToTree(s, c);
      ToTree(f, c) == t.(children := t.children + Empties(name, |ns| - 1) +
        [EmptyElement(name).(children := [Tree(ElementNode, tag, "", [], TextLeaves(v))])])
  {
    var nn := ns[|ns| - 1];
    var last := EmptyElement(name).(children := [Tree(ElementNode, tag, "", [], TextLeaves(v))]);
    FinishLastCreated(r, c, ns, name, tag, v);
    var f := Finish(r, nn, tag, v);
    FramesCompose(s, r, f, c, ns, nn);
    var empties := Empties(name, |ns| - 1);
    AppendedTrees(s, f, c, ns, empties + [last]);
    Regrouped(ToTree(s, c), ToTree(f, c), empties, last);
  }

  /** Appending b and then last is appending b + [last]. */
  lemma Regrouped(t: Tree, u: Tree, b: seq<Tree>, last: Tree)
    requires u == t.(children := t.children + (b + [last]))
    ensures u == t.(children := t.children + b + [last])
  {
    assert t.children + b + [last] == t.children + (b + [last]);
  }

  /**
   * An edit that appended ns to c's child list and touched nothing else, followed by
   * an edit touching only n, a node the first created, appended ns and touched only c.
   */
  lemma FramesCompose(s: Store, r: Store, f: Store, c: NodeId, ns: seq<NodeId>, n: NodeId)
    requires c in s.nodes && c in r.nodes && r.nodes[c] == s.nodes[c].(children := s.nodes[c].children + ns)
    requires FrameBut(s, r, c) && FrameBut(r, f, n) && n !in s.nodes && c != n
    ensures FrameBut(s, f, c) && c in f.nodes && f.nodes[c] == s.nodes[c].(children := s.nodes[c].children + ns)
  {
  }

  /**
   * The plain final segment on the last of the empty elements ns that end c's child
   * list: that one gets a `tag` child holding v, the others stay empty, and no other
   * node changes.
   */
  lemma FinishLastCreated(r: Store, c: NodeId, ns: seq<NodeId>, name: string, tag: string, v: string)
    requires Wf(r) && c in r.nodes && 1 <= |ns| <= |r.nodes[c].children|
    requires ns == r.nodes[c].children[|r.nodes[c].children| - |ns|..]
    requires forall i {:trigger ns[i]} :: 0 <= i < |ns| ==>
      IsNamedElement(r, ns[i], name) && r.nodes[ns[i]].value == "" &&
      r.nodes[ns[i]].children == [] && r.nodes[ns[i]].attrs == []
    requires tag != [] && tag[0] != '@' && tag[0] != '#'
    ensures IsNamedElement(r, ns[|ns| - 1], name)
    ensures var f := Finish(r, ns[|ns| - 1], tag, v);
      Wf(f) && FrameBut(r, f, ns[|ns| - 1]) && (forall x :: x in ns ==> x in f.nodes) &&
      TreesOf(f, ns) == Empties(name, |ns| - 1) +
        [EmptyElement(name).(children := [Tree(ElementNode, tag, "", [], TextLeaves(v))])]
  {
    var nn := ns[|ns| - 1];
    var last := EmptyElement(name).(children := [Tree(ElementNode, tag, "", [], TextLeaves(v))]);
    FinishElsewhere(r, nn, tag, v);
    NewLeafFinish(r, nn, name, tag, v);
    CreatedTrees(r, Finish(r, nn, tag, v), c, ns, name, last);
  }

  /** After `name[N]/tag` the working node has exactly N children named `name`. */
  lemma CreatedPathCount(s: Store, p: Pos, name: string, idx: nat, tag: string, v: string)
    requires Wf(s) && Usable(s, p) && idx >= |ChildrenNamed(s, p.at, name)|
    requires tag != [] && tag[0] != '@' && tag[0] != '#'
    ensures var m := Indexed(s, p, name, idx); var f := Finish(m.0, m.1.at, tag, v);
      Wf(f) && Usable(f, p) && |ChildrenNamed(f, p.at, name)| == idx + 1
  {
    var m := Indexed(s, p, name, idx);
    IndexedChildren(s, p, name, idx);
    IndexedCreates(s, p, name, idx);
    FinishKeepsNamed(m.0, p.at, m.1.at, tag, v, name);
  }

  /** A plain final segment at c leaves the named children of any other node d as they were. */
  lemma FinishKeepsNamed(s: Store, d: NodeId, c: NodeId, tag: string, v: string, name: string)
    requires Wf(s) && c in s.nodes && s.nodes[c].kind == ElementNode && d in s.nodes && d != c
    requires tag != [] && tag[0] != '@' && tag[0] != '#'
    ensures var f := Finish(s, c, tag, v); d in f.nodes && ChildrenNamed(f, d, name) == ChildrenNamed(s, d, name)
  {
    var f := Finish(s, c, tag, v);
    FinishElsewhere(s, c, tag, v);
    assert NodeWf(s, d);
    NamedAmongKept(s, f, s.nodes[d].children, name);
  }

  /** The elements AppendElements created end c's child list, each empty and named tok. */
  lemma AppendedEmpty(s: Store, c: NodeId, tok: string, r: Store, ns: seq<NodeId>)
    requires c in s.nodes && Appended(s, c, tok, r, ns)
    ensures Wf(r) && c in r.nodes && FrameBut(s, r, c) && (forall x :: x in ns ==> x !in s.nodes)
    ensures r.nodes[c] == s.nodes[c].(children := s.nodes[c].children + ns)
    ensures |ns| <= |r.nodes[c].children| && ns == r.nodes[c].children[|r.nodes[c].children| - |ns|..]
    ensures forall i {:trigger ns[i]} :: 0 <= i < |ns| ==>
      IsNamedElement(r, ns[i], tok) && r.nodes[ns[i]].value == "" &&
      r.nodes[ns[i]].children == [] && r.nodes[ns[i]].attrs == []
  {
    var cs := r.nodes[c].children;
    assert cs[|cs| - |ns|..] == ns;
    forall i | 0 <= i < |ns| ensures IsNamedElement(r, ns[i], tok) {
      assert ns[i] in ns;
    }
  }

  /**
   * An edit that appends the nodes ns to c's child list and leaves every other
   * node of s alone appends their subtrees to c's.
   */
  lemma AppendedTrees(s: Store, f: Store, c: NodeId, ns: seq<NodeId>, ts: seq<Tree>)
    requires Wf(s) && Wf(f) && c in s.nodes && c in f.nodes
    requires f.nodes[c] == s.nodes[c].(children := s.nodes[c].children + ns)
    requires forall y :: y in s.nodes && y != c ==> y in f.nodes && f.nodes[y] == s.nodes[y]
    requires (forall x :: x in ns ==> x in f.nodes) && TreesOf(f, ns) == ts
    ensures ToTree(f, c) == ToTree(s, c).(children := ToTree(s, c).children + ts)
  {
    UnchangedKeeps(s, f, c, s.nodes[c].rank + 1);
    assert NodeWf(s, c);
    ToTreeParts(s, c);
    ToTreeParts(f, c);
    TreesKept(s, f, s.nodes[c].attrs, s.nodes[c].rank + 1);
    TreesKept(s, f, s.nodes[c].children, s.nodes[c].rank + 1);
    TreesOfAppend(f, s.nodes[c].children, ns);
  }

  /** A plain final segment changes only its working node among existing nodes. */
  lemma FinishElsewhere(s: Store, c: NodeId, tag: string, v: string)
    requires Wf(s) && c in s.nodes && s.nodes[c].kind == ElementNode && tag != [] && tag[0] != '@' && tag[0] != '#'
    ensures FrameBut(s, Finish(s, c, tag, v), c)
  {
  }

  /**
   * The subtrees of the created elements ns once an edit f has given the last one
   * the subtree `last` and left every other node alone: the others are still empty.
   */
  lemma CreatedTrees(s: Store, f: Store, c: NodeId, ns: seq<NodeId>, name: string, last: Tree)
    requires Wf(s) && Wf(f) && c in s.nodes && 1 <= |ns| <= |s.nodes[c].children|
    requires ns == s.nodes[c].children[|s.nodes[c].children| - |ns|..]
    requires forall i {:trigger ns[i]} :: 0 <= i < |ns| ==>
      IsNamedElement(s, ns[i], name) && s.nodes[ns[i]].value == "" &&
      s.nodes[ns[i]].children == [] && s.nodes[ns[i]].attrs == []
    requires FrameBut(s, f, ns[|ns| - 1]) && ns[|ns| - 1] in f.nodes && ToTree(f, ns[|ns| - 1]) == last
    ensures forall x :: x in ns ==> x in f.nodes
    ensures TreesOf(f, ns) == Empties(name, |ns| - 1) + [last]
  {
    var nn := ns[|ns| - 1];
    assert NodeWf(s, c);
    var cs := s.nodes[c].children;
    var want := Empties(name, |ns| - 1) + [last];
    forall i | 0 <= i < |ns| ensures ns[i] in f.nodes && ToTree(f, ns[i]) == want[i] {
      if i < |ns| - 1 {
        assert ns[i] == cs[|cs| - |ns| + i] && nn == cs[|cs| - 1];
        LeafTree(f, ns[i]);
      }
    }
    assert TreesOf(f, ns) == want;
  }

  /** The plain final segment on an empty element: it gets one `tag` child holding v. */
  lemma NewLeafFinish(s: Store, c: NodeId, name: string, tag: string, v: string)
    requires Wf(s) && IsNamedElement(s, c, name) && s.nodes[c].value == ""
    requires s.nodes[c].children == [] && s.nodes[c].attrs == []
    requires tag != [] && tag[0] != '@' && tag[0] != '#'
    ensures ToTree(Finish(s, c, tag, v), c) ==
      EmptyElement(name).(children := [Tree(ElementNode, tag, "", [], TextLeaves(v))])
  {
    NewChildTree(s, c, tag, v);
    LeafTree(s, c);
  }

  /** insertValueAt over a path whose segments are `name[N]` and a plain tag is one Indexed step and one Finish. */
  lemma TwoSegmentInsert(s: Store, p: Pos, xpath: string, seg: string, name: string, idx: nat, tag: string, v: string)
    requires Wf(s) && Usable(s, p) && StepName(name) && StepName(tag) && xpath != []
    requires Segments(xpath) == [seg, tag] && ParseSegment(seg) == Ok(Segment(name, idx))
    requires ParseSegment(tag) == Ok(Segment(tag, -1))
    ensures StepNames(Segments(xpath))
    ensures var m := Indexed(s, p, name, idx);
      InsertValueAt(s, p, xpath, v) == (Finish(m.0, m.1.at, tag, v), Pass)
  {
    WalkIndexedThenPlain(s, p, seg, name, idx, tag, v);
  }

  /**
   * The store f after one Indexed step `name[N]` and a plain final segment, where fewer than N
   * elements named `name` are children of the working node: exactly the missing ones
   * are appended, the last of them holding a new `tag` element with the value, leaves
   * the existing children in place and first, and the working node then has exactly N
   * children named `name`.
   */
  lemma CreatedPath(f: Store, s: Store, p: Pos, name: string, idx: nat, tag: string, v: string)
    requires Wf(s) && Usable(s, p) && idx >= |ChildrenNamed(s, p.at, name)|
    requires tag != [] && tag[0] != '@' && tag[0] != '#'
    requires var m := Indexed(s, p, name, idx); f == Finish(m.0, m.1.at, tag, v)
    ensures Wf(f) && Usable(f, p) && |ChildrenNamed(f, p.at, name)| == idx + 1
    ensures var t := ToTree(s, p.at);
      ToTree(f, p.at) == t.(children := t.children + Empties(name, idx - |ChildrenNamed(s, p.at, name)|) +
        [EmptyElement(name).(children := [Tree(ElementNode, tag, "", [], TextLeaves(v))])])
  {
    CreatedPathTree(s, p, name, idx, tag, v);
    CreatedPathCount(s, p, name, idx, tag, v);
  }

  /** `name[n]/tag` as insertValueAt is given it. */
  function IndexedPathText(name: string, n: nat, tag: string): string {
    name + "[" + Decimal(n) + "]/" + tag
  }

  /**
   * insertValueAt(`name[N]/tag`, v) where fewer than N elements named `name` are
   * children of the working node, stated on the path text; idx is N - 1, as the
   * segment parser computes it.
   */
  lemma IndexedPathTextCreates(s: Store, p: Pos, name: string, idx: nat, tag: string, v: string)
    requires Wf(s) && Usable(s, p) && StepName(name) && StepName(tag)
    requires |ChildrenNamed(s, p.at, name)| <= idx < MaxInt
    ensures StepNames(Segments(IndexedPathText(name, idx + 1, tag)))
    ensures var r := InsertValueAt(s, p, IndexedPathText(name, idx + 1, tag), v); var t := ToTree(s, p.at);
      r.1 == Pass && Usable(r.0, p) && |ChildrenNamed(r.0, p.at, name)| == idx + 1 &&
      ToTree(r.0, p.at) == t.(children := t.children + Empties(name, idx - |ChildrenNamed(s, p.at, name)|) +
        [EmptyElement(name).(children := [Tree(ElementNode, tag, "", [], TextLeaves(v))])])
  {
    var seg := name + "[" + Decimal(idx + 1) + "]";
    IndexedPathParse(name, idx + 1, tag);
    TwoSegmentInsert(s, p, IndexedPathText(name, idx + 1, tag), seg, name, idx, tag, v);
    StepNamePlain(tag);
    CreatedPath(InsertValueAt(s, p, IndexedPathText(name, idx + 1, tag), v).0, s, p, name, idx, tag, v);
  }

  /** The new document `<root/>` as insertValueAt starts from it: a usable root with no children. */
  lemma NewDocumentStart(root: string, name: string)
    ensures var s0 := NewDocument(root);
      Wf(s0) && Usable(s0, Pos(1, 1)) && ChildrenNamed(s0, 1, name) == [] &&
      ToTree(s0, 1) == Tree(ElementNode, root, "", [], [])
  {
    NewDocumentTree(root);
  }

  /** Appending only nodes that are not elements named `name` leaves the filtered list as it was. */
  lemma {:induction false} NamedAmongNoneNamed(s: Store, xs: seq<NodeId>, ys: seq<NodeId>, name: string)
    requires forall y :: y in ys ==> !IsNamedElement(s, y, name)
    ensures NamedAmong(s, xs + ys, name) == NamedAmong(s, xs, name)
    decreases |ys|
  {
    if ys == [] {
      assert xs + ys == xs;
    } else {
      var init := ys[..|ys| - 1];
      assert forall y :: y in init ==> y in ys;
      assert ys[|ys| - 1] in ys;
      NamedAmongNoneNamed(s, xs, init, name);
      NoneNamedStep(s, xs, ys, name);
    }
  }

  lemma NoneNamedStep(s: Store, xs: seq<NodeId>, ys: seq<NodeId>, name: string)
    requires |ys| > 0 && !IsNamedElement(s, ys[|ys| - 1], name)
    requires NamedAmong(s, xs + ys[..|ys| - 1], name) == NamedAmong(s, xs, name)
    ensures NamedAmong(s, xs + ys, name) == NamedAmong(s, xs, name)
  {
    ConcatLast(xs, ys);
    NamedAmongAppend(s, xs + ys[..|ys| - 1], ys[|ys| - 1], name);
  }

  /** The elements AppendElements creates leave the children named anything else as they were. */
  lemma AppendedKeepsOthers(s: Store, c: NodeId, tok: string, k: nat, other: string)
    requires Wf(s) && c in s.nodes && s.nodes[c].kind == ElementNode && other != tok
    ensures var a := AppendElements(s, c, tok, k);
      c in a.0.nodes && ChildrenNamed(a.0, c, other) == ChildrenNamed(s, c, other)
  {
    var a := AppendElements(s, c, tok, k);
    var cs := s.nodes[c].children;
    assert forall x :: x in cs ==> x in s.nodes && s.nodes[x].kind != AttributeNode by {
      assert NodeWf(s, c);
    }
    NamedAmongKept(s, a.0, cs, other);
    NamedAmongNoneNamed(a.0, cs, a.1, other);
  }

  /** An Indexed step that creates elements, then a plain final segment, keep the children named anything else. */
  lemma IndexedKeepsOthers(s: Store, p: Pos, name: string, idx: nat, tag: string, v: string, other: string)
    requires Wf(s) && Usable(s, p) && other != name && idx >= |ChildrenNamed(s, p.at, name)|
    requires tag != [] && tag[0] != '@' && tag[0] != '#'
    ensures var m := Indexed(s, p, name, idx); var f := Finish(m.0, m.1.at, tag, v);
      p.at in f.nodes && ChildrenNamed(f, p.at, other) == ChildrenNamed(s, p.at, other)
  {
    var a := AppendElements(s, p.at, name, idx + 1 - |ChildrenNamed(s, p.at, name)|);
    IndexedCreates(s, p, name, idx);
    var nn := a.1[|a.1| - 1];
    assert nn in a.1;
    AppendedKeepsOthers(s, p.at, name, idx + 1 - |ChildrenNamed(s, p.at, name)|, other);
    FinishKeepsNamed(a.0, p.at, nn, tag, v, other);
  }

  /**
   * insertValueAt(`name[N]/tag`, v) where fewer than N elements named `name` exist
   * leaves the working node's children named anything else as they were.
   */
  lemma CreatedPathKeepsOthers(s: Store, p: Pos, name: string, idx: nat, tag: string, v: string, other: string)
    requires Wf(s) && Usable(s, p) && StepName(name) && StepName(tag) && other != name
    requires |ChildrenNamed(s, p.at, name)| <= idx < MaxInt
    ensures StepNames(Segments(IndexedPathText(name, idx + 1, tag)))
    ensures var r := InsertValueAt(s, p, IndexedPathText(name, idx + 1, tag), v);
      p.at in r.0.nodes && ChildrenNamed(r.0, p.at, other) == ChildrenNamed(s, p.at, other)
  {
    var seg := name + "[" + Decimal(idx + 1) + "]";
    IndexedPathParse(name, idx + 1, tag);
    TwoSegmentInsert(s, p, IndexedPathText(name, idx + 1, tag), seg, name, idx, tag, v);
    StepNamePlain(tag);
    IndexedKeepsOthers(s, p, name, idx, tag, v, other);
  }

  /**
   * insertValueAt(`name[N]/tag`, v) where at least N elements named `name` exist:
   * nothing is created on the way, the N-th of them gains a new `tag` element
   * holding v at the end of its children, and no other existing node changes.
   */
  lemma ReusedIndexedWrite(s: Store, p: Pos, name: string, idx: nat, tag: string, v: string)
    requires Wf(s) && Usable(s, p) && StepName(name) && StepName(tag)
    requires idx < |ChildrenNamed(s, p.at, name)| && idx < MaxInt
    ensures StepNames(Segments(IndexedPathText(name, idx + 1, tag)))
    ensures var c := ChildrenNamed(s, p.at, name)[idx]; var r := InsertValueAt(s, p, IndexedPathText(name, idx + 1, tag), v);
      IsNamedElement(s, c, name) && c != p.at && r == (Finish(s, c, tag, v), Pass) && FrameBut(s, r.0, c) && Wf(r.0) &&
      p.at in r.0.nodes && ChildrenNamed(r.0, p.at, name) == ChildrenNamed(s, p.at, name) &&
      ToTree(r.0, c) == ToTree(s, c).(children := ToTree(s, c).children + [Tree(ElementNode, tag, "", [], TextLeaves(v))])
  {
    var c := ChildrenNamed(s, p.at, name)[idx];
    assert c in ChildrenNamed(s, p.at, name);
    assert c in s.nodes[p.at].children && NodeWf(s, p.at);
    var seg := name + "[" + Decimal(idx + 1) + "]";
    IndexedPathParse(name, idx + 1, tag);
    TwoSegmentInsert(s, p, IndexedPathText(name, idx + 1, tag), seg, name, idx, tag, v);
    StepNamePlain(tag);
    IndexedChildren(s, p, name, idx);
    FinishElsewhere(s, c, tag, v);
    FinishTree(s, c, tag, v);
    FinishKeepsNamed(s, p.at, c, tag, v, name);
  }

  /**
   * Two plain final segments, `a` and then `b`, on the last of the empty elements ns
   * that end c's child list: that one gets an `a` child holding x and a `b` child
   * holding y, the others stay empty, and no other node changes.
   */
  lemma TwiceLastCreated(r: Store, c: NodeId, ns: seq<NodeId>, name: string, a: string, x: string, b: string, y: string)
    requires Wf(r) && c in r.nodes && 1 <= |ns| <= |r.nodes[c].children|
    requires ns == r.nodes[c].children[|r.nodes[c].children| - |ns|..]
    requires forall i {:trigger ns[i]} :: 0 <= i < |ns| ==>
      IsNamedElement(r, ns[i], name) && r.nodes[ns[i]].value == "" &&
      r.nodes[ns[i]].children == [] && r.nodes[ns[i]].attrs == []
    requires a != [] && a[0] != '@' && a[0] != '#' && b != [] && b[0] != '@' && b[0] != '#'
    ensures IsNamedElement(r, ns[|ns| - 1], name)
    ensures var f1 := Finish(r, ns[|ns| - 1], a, x); IsNamedElement(f1, ns[|ns| - 1], name)
    ensures var f2 := Finish(Finish(r, ns[|ns| - 1], a, x), ns[|ns| - 1], b, y);
      Wf(f2) && FrameBut(r, f2, ns[|ns| - 1]) && (forall n :: n in ns ==> n in f2.nodes) &&
      TreesOf(f2, ns) == Empties(name, |ns| - 1) +
        [EmptyElement(name).(children := [Tree(ElementNode, a, "", [], TextLeaves(x)), Tree(ElementNode, b, "", [], TextLeaves(y))])]
  {
    var nn := ns[|ns| - 1];
    var last := EmptyElement(name).(children := [Tree(ElementNode, a, "", [], TextLeaves(x)), Tree(ElementNode, b, "", [], TextLeaves(y))]);
    TwoLeavesFinish(r, nn, name, a, x, b, y);
    CreatedTrees(r, Finish(Finish(r, nn, a, x), nn, b, y), c, ns, name, last);
  }

  /** Two plain final segments on an empty element: it gets an `a` child holding x, then a `b` child holding y. */
  lemma TwoLeavesFinish(r: Store, nn: NodeId, name: string, a: string, x: string, b: string, y: string)
    requires Wf(r) && IsNamedElement(r, nn, name) && r.nodes[nn].value == ""
    requires r.nodes[nn].children == [] && r.nodes[nn].attrs == []
    requires a != [] && a[0] != '@' && a[0] != '#' && b != [] && b[0] != '@' && b[0] != '#'
    ensures var f1 := Finish(r, nn, a, x); IsNamedElement(f1, nn, name) && FrameBut(r, f1, nn)
    ensures var f2 := Finish(Finish(r, nn, a, x), nn, b, y);
      Wf(f2) && FrameBut(r, f2, nn) && nn in f2.nodes &&
      ToTree(f2, nn) == EmptyElement(name).(children := [Tree(ElementNode, a, "", [], TextLeaves(x)), Tree(ElementNode, b, "", [], TextLeaves(y))])
  {
    var f1 := Finish(r, nn, a, x);
    FinishElsewhere(r, nn, a, x);
    NewLeafFinish(r, nn, name, a, x);
    FinishKind(r, nn, a, x);
    var f2 := Finish(f1, nn, b, y);
    FinishElsewhere(f1, nn, b, y);
    FinishTree(f1, nn, b, y);
    SecondLeaf(ToTree(f1, nn), ToTree(f2, nn), name, Tree(ElementNode, a, "", [], TextLeaves(x)), Tree(ElementNode, b, "", [], TextLeaves(y)));
  }

  /** A plain final segment keeps its working node an element of the same name. */
  lemma FinishKind(s: Store, c: NodeId, tok: string, v: string)
    requires Wf(s) && c in s.nodes && s.nodes[c].kind == ElementNode && tok != [] && tok[0] != '@' && tok[0] != '#'
    ensures var f := Finish(s, c, tok, v); c in f.nodes && f.nodes[c].kind == ElementNode && f.nodes[c].name == s.nodes[c].name
  {
  }

  /** Tree bookkeeping: a second leaf appended after the first. */
  lemma SecondLeaf(t1: Tree, t2: Tree, name: string, la: Tree, lb: Tree)
    requires t1 == EmptyElement(name).(children := [la]) && t2 == t1.(children := t1.children + [lb])
    ensures t2 == EmptyElement(name).(children := [la, lb])
  {
    assert [la] + [lb] == [la, lb];
  }

  /** EmptiesFinishTree with the two plain final segments of TwiceLastCreated. */
  lemma EmptiesTwiceTree(s: Store, c: NodeId, name: string, r: Store, ns: seq<NodeId>, a: string, x: string, b: string, y: string)
    requires Wf(s) && Wf(r) && c in s.nodes && c in r.nodes && |ns| >= 1
    requires r.nodes[c] == s.nodes[c].(children := s.nodes[c].children + ns)
    requires FrameBut(s, r, c) && ns[|ns| - 1] !in s.nodes
    requires ns == r.nodes[c].children[|r.nodes[c].children| - |ns|..]
    requires forall i {:trigger ns[i]} :: 0 <= i < |ns| ==>
      IsNamedElement(r, ns[i], name) && r.nodes[ns[i]].value == "" &&
      r.nodes[ns[i]].children == [] && r.nodes[ns[i]].attrs == []
    requires a != [] && a[0] != '@' && a[0] != '#' && b != [] && b[0] != '@' && b[0] != '#'
    ensures IsNamedElement(r, ns[|ns| - 1], name)
    ensures var f1 := Finish(r, ns[|ns| - 1], a, x); IsNamedElement(f1, ns[|ns| - 1], name)
    ensures var f2 := Finish(Finish(r, ns[|ns| - 1], a, x), ns[|ns| - 1], b, y); var t := ToTree(s, c);
      ToTree(f2, c) == t.(children := t.children + Empties(name, |ns| - 1) +
        [EmptyElement(name).(children := [Tree(ElementNode, a, "", [], TextLeaves(x)), Tree(ElementNode, b, "", [], TextLeaves(y))])])
  {
    var nn := ns[|ns| - 1];
    var last := EmptyElement(name).(children := [Tree(ElementNode, a, "", [], TextLeaves(x)), Tree(ElementNode, b, "", [], TextLeaves(y))]);
    TwiceLastCreated(r, c, ns, name, a, x, b, y);
    var f2 := Finish(Finish(r, nn, a, x), nn, b, y);
    FramesCompose(s, r, f2, c, ns, nn);
    var empties := Empties(name, |ns| - 1);
    AppendedTrees(s, f2, c, ns, empties + [last]);
    Regrouped(ToTree(s, c), ToTree(f2, c), empties, last);
  }

  /**
   * An Indexed step that creates elements, a plain final segment `a` on the last of
   * them, and a second plain final segment `b` on the same node: the working node's
   * subtree gains the empty elements and one holding `<a>x</a><b>y</b>`.
   */
  lemma IndexedTwiceTree(s: Store, p: Pos, name: string, idx: nat, a: string, x: string, b: string, y: string)
    requires Wf(s) && Usable(s, p) && idx >= |ChildrenNamed(s, p.at, name)|
    requires a != [] && a[0] != '@' && a[0] != '#' && b != [] && b[0] != '@' && b[0] != '#'
    ensures var m := Indexed(s, p, name, idx); var f1 := Finish(m.0, m.1.at, a, x);
      p.at in f1.nodes && IsNamedElement(f1, m.1.at, name) &&
      idx < |ChildrenNamed(f1, p.at, name)| && ChildrenNamed(f1, p.at, name)[idx] == m.1.at
    ensures var m := Indexed(s, p, name, idx); var f1 := Finish(m.0, m.1.at, a, x);
      var f2 := Finish(f1, m.1.at, b, y); var t := ToTree(s, p.at);
      ToTree(f2, p.at) == t.(children := t.children + Empties(name, idx - |ChildrenNamed(s, p.at, name)|) +
        [EmptyElement(name).(children := [Tree(ElementNode, a, "", [], TextLeaves(x)), Tree(ElementNode, b, "", [], TextLeaves(y))])])
  {
    var ap := AppendElements(s, p.at, name, idx + 1 - |ChildrenNamed(s, p.at, name)|);
    IndexedCreates(s, p, name, idx);
    IndexedChildren(s, p, name, idx);
    var ns := ap.1;
    var nn := ns[|ns| - 1];
    assert nn in ns;
    AppendedEmpty(s, p.at, name, ap.0, ns);
    FinishKeepsNamed(ap.0, p.at, nn, a, x, name);
    EmptiesTwiceTree(s, p.at, name, ap.0, ns, a, x, b, y);
  }

  /**
   * insertValueAt(`name[idx+1]/a`, x) and then insertValueAt(`name[idx+1]/b`, y)
   * where at most idx elements named `name` exist: the first creates the missing
   * ones and the second finds the last of them and adds to it, so the working
   * node's subtree ends with the empty ones and one holding `<a>x</a><b>y</b>`.
   */
  lemma IndexedWriteTwice(s: Store, p: Pos, name: string, idx: nat, a: string, x: string, b: string, y: string)
    requires Wf(s) && Usable(s, p) && StepName(name) && StepName(a) && StepName(b)
    requires |ChildrenNamed(s, p.at, name)| <= idx < MaxInt
    ensures StepNames(Segments(IndexedPathText(name, idx + 1, a)))
    ensures var r1 := InsertValueAt(s, p, IndexedPathText(name, idx + 1, a), x);
      r1.1 == Pass && Usable(r1.0, p) && StepNames(Segments(IndexedPathText(name, idx + 1, b))) &&
      var r2 := InsertValueAt(r1.0, p, IndexedPathText(name, idx + 1, b), y); var t := ToTree(s, p.at);
      r2.1 == Pass && Usable(r2.0, p) && |ChildrenNamed(r2.0, p.at, name)| == idx + 1 &&
      ToTree(r2.0, p.at) == t.(children := t.children + Empties(name, idx - |ChildrenNamed(s, p.at, name)|) +
        [EmptyElement(name).(children := [Tree(ElementNode, a, "", [], TextLeaves(x)), Tree(ElementNode, b, "", [], TextLeaves(y))])])
  {
    var seg := name + "[" + Decimal(idx + 1) + "]";
    IndexedPathParse(name, idx + 1, a);
    TwoSegmentInsert(s, p, IndexedPathText(name, idx + 1, a), seg, name, idx, a, x);
    StepNamePlain(a);
    StepNamePlain(b);
    IndexedPathTextCreates(s, p, name, idx, a, x);
    IndexedTwiceTree(s, p, name, idx, a, x, b, y);
    var m := Indexed(s, p, name, idx);
    var f1 := Finish(m.0, m.1.at, a, x);
    ReusedIndexedWrite(f1, p, name, idx, b, y);
  }

  /**
   * The same two writes stated with the 1-based index N the path carries and the
   * number k of empty `name` elements the first one appends.
   */
  lemma SameIndexTwice(s: Store, p: Pos, name: string, n: nat, k: nat, a: string, x: string, b: string, y: string)
    requires Wf(s) && Usable(s, p) && StepName(name) && StepName(a) && StepName(b)
    requires |ChildrenNamed(s, p.at, name)| < n <= MaxInt && k == n - 1 - |ChildrenNamed(s, p.at, name)|
    ensures StepNames(Segments(IndexedPathText(name, n, a)))
    ensures var r1 := InsertValueAt(s, p, IndexedPathText(name, n, a), x);
      r1.1 == Pass && Usable(r1.0, p) && StepNames(Segments(IndexedPathText(name, n, b))) &&
      var r2 := InsertValueAt(r1.0, p, IndexedPathText(name, n, b), y); var t := ToTree(s, p.at);
      r2.1 == Pass && Usable(r2.0, p) && |ChildrenNamed(r2.0, p.at, name)| == n &&
      ToTree(r2.0, p.at) == t.(children := t.children + Empties(name, k) +
        [EmptyElement(name).(children := [Tree(ElementNode, a, "", [], TextLeaves(x)), Tree(ElementNode, b, "", [], TextLeaves(y))])])
  {
    var idx := n - 1;
    assert IndexedPathText(name, idx + 1, a) == IndexedPathText(name, n, a);
    assert IndexedPathText(name, idx + 1, b) == IndexedPathText(name, n, b);
    IndexedWriteTwice(s, p, name, idx, a, x, b, y);
  }

  /** An indexed path of two step names passes the walk's name check. */
  lemma IndexedPathSteps(name: string, n: nat, tag: string)
    requires StepName(name) && StepName(tag) && 1 <= n <= MaxInt
    ensures StepNames(Segments(IndexedPathText(name, n, tag)))
  {
    IndexedPathParse(name, n, tag);
    StepNamePlain(tag);
  }

  /**
   * One write `name[n]/tag` that has to create its element, with its result r
   * named: it passes, appends k empty `name` elements and then the holder of the
   * value, and leaves the children named `other` as they were.
   */
  lemma CreatingWrite(s: Store, p: Pos, name: string, n: nat, k: nat, tag: string, v: string, other: string,
                      r: (Store, Outcome))
    requires Wf(s) && Usable(s, p) && StepName(name) && StepName(tag) && other != name
    requires |ChildrenNamed(s, p.at, name)| < n <= MaxInt && k == n - 1 - |ChildrenNamed(s, p.at, name)|
    requires StepNames(Segments(IndexedPathText(name, n, tag)))
    requires r == InsertValueAt(s, p, IndexedPathText(name, n, tag), v)
    ensures r.1 == Pass && Wf(r.0) && Usable(r.0, p) && |ChildrenNamed(r.0, p.at, name)| == n
    ensures ChildrenNamed(r.0, p.at, other) == ChildrenNamed(s, p.at, other)
    ensures ToTree(r.0, p.at) == ToTree(s, p.at).(children := ToTree(s, p.at).children + Empties(name, k) +
      [EmptyElement(name).(children := [Tree(ElementNode, tag, "", [], TextLeaves(v))])])
  {
    var idx := n - 1;
    assert IndexedPathText(name, idx + 1, tag) == IndexedPathText(name, n, tag);
    IndexedPathTextCreates(s, p, name, idx, tag, v);
    CreatedPathKeepsOthers(s, p, name, idx, tag, v, other);
  }

  /** Children appended in two rounds are the two runs appended at once. */
  lemma ChildrenGrown(t: Tree, t1: Tree, t2: Tree, e1: seq<Tree>, h1: Tree, e2: seq<Tree>, h2: Tree, run: seq<Tree>)
    requires t1 == t.(children := t.children + e1 + [h1]) && t2 == t1.(children := t1.children + e2 + [h2])
    requires run == e1 + [h1] + e2 + [h2]
    ensures t2 == t.(children := t.children + run)
  {
    assert t.children + e1 + [h1] + e2 + [h2] == t.children + (e1 + [h1] + e2 + [h2]);
  }

  /** The children the test's `foo[3]/c` and `bar[3]/d` append, in order. */
  lemma XPostThirdRun(foo: string, bar: string, hc: Tree, hd: Tree)
    ensures Empties(foo, 1) + [hc] + Empties(bar, 2) + [hd] ==
      [EmptyElement(foo), hc, EmptyElement(bar), EmptyElement(bar), hd]
  {
    EmptiesOne(foo);
    EmptiesTwo(bar);
  }

  /** The example's document: `<root/>` grown by two runs of children, each ending in a holder. */
  lemma ExampleRun(t0: Tree, t1: Tree, t2: Tree, root: string, name: string, ea: Tree, eb: Tree)
    requires t0 == Tree(ElementNode, root, "", [], [])
    requires t1 == t0.(children := t0.children + Empties(name, 2) + [ea])
    requires t2 == t1.(children := t1.children + Empties(name, 1) + [eb])
    ensures var e := EmptyElement(name); t2 == Tree(ElementNode, root, "", [], [e, e, ea, e, eb])
  {
    var e := EmptyElement(name);
    EmptiesOne(name);
    EmptiesTwo(name);
    assert [] + [e, e] + [ea] + [e] + [eb] == [e, e, ea, e, eb];
  }

  /** The test's five children, then one empty `foo` and one holder, make its run of seven. */
  lemma XPostFifthRun(t: Tree, t2: Tree, t4: Tree, foo: string, ef: Tree, hc: Tree, eb: Tree, hd: Tree, hef: Tree)
    requires ef == EmptyElement(foo)
    requires t2 == t.(children := t.children + [ef, hc, eb, eb, hd])
    requires t4 == t2.(children := t2.children + Empties(foo, 1) + [hef])
    ensures t4 == t.(children := t.children + [ef, hc, eb, eb, hd, ef, hef])
  {
    EmptiesOne(foo);
    assert t.children + [ef, hc, eb, eb, hd] + [ef] + [hef] == t.children + [ef, hc, eb, eb, hd, ef, hef];
  }

  /**
   * The first two indexed writes of the insertValueAt test, `foo[3]/c` and then
   * `bar[3]/d`, on a working node holding one `foo` child and no `bar` child: both
   * succeed, the node then holds three `foo` children, and its subtree gains
   * `<foo/><foo><c>vc</c></foo><bar/><bar/><bar><d>vd</d></bar>`.
   */
  lemma XPostThirdWrites(s: Store, p: Pos, foo: string, bar: string, c: string, d: string, vc: string, vd: string)
    requires Wf(s) && Usable(s, p) && foo != bar
    requires StepName(foo) && StepName(bar) && StepName(c) && StepName(d)
    requires |ChildrenNamed(s, p.at, foo)| == 1 && ChildrenNamed(s, p.at, bar) == []
    ensures StepNames(Segments(IndexedPathText(foo, 3, c)))
    ensures var r1 := InsertValueAt(s, p, IndexedPathText(foo, 3, c), vc);
      r1.1 == Pass && Usable(r1.0, p) && StepNames(Segments(IndexedPathText(bar, 3, d))) &&
      var r2 := InsertValueAt(r1.0, p, IndexedPathText(bar, 3, d), vd);
      var t := ToTree(s, p.at); var ef := EmptyElement(foo); var eb := EmptyElement(bar);
      r2.1 == Pass && Usable(r2.0, p) && Wf(r2.0) && |ChildrenNamed(r2.0, p.at, foo)| == 3 &&
      ToTree(r2.0, p.at) == t.(children := t.children + [
        ef, ef.(children := [Tree(ElementNode, c, "", [], TextLeaves(vc))]),
        eb, eb, eb.(children := [Tree(ElementNode, d, "", [], TextLeaves(vd))])])
  {
    var ef := EmptyElement(foo);
    var eb := EmptyElement(bar);
    var hc := ef.(children := [Tree(ElementNode, c, "", [], TextLeaves(vc))]);
    var hd := eb.(children := [Tree(ElementNode, d, "", [], TextLeaves(vd))]);
    IndexedPathSteps(foo, 3, c);
    var r1 := InsertValueAt(s, p, IndexedPathText(foo, 3, c), vc);
    CreatingWrite(s, p, foo, 3, 1, c, vc, bar, r1);
    IndexedPathSteps(bar, 3, d);
    var r2 := InsertValueAt(r1.0, p, IndexedPathText(bar, 3, d), vd);
    CreatingWrite(r1.0, p, bar, 3, 2, d, vd, foo, r2);
    var t, t1, t2 := ToTree(s, p.at), ToTree(r1.0, p.at), ToTree(r2.0, p.at);
    XPostThirdRun(foo, bar, hc, hd);
    ChildrenGrown(t, t1, t2, Empties(foo, 1), hc, Empties(bar, 2), hd, [ef, hc, eb, eb, hd]);
  }

  /**
   * The indexed writes of the insertValueAt test, `foo[3]/c`, `bar[3]/d`, `foo[5]/e`
   * and `foo[5]/f` (with foo, bar, c, d, e, f any step names, foo and bar distinct,
   * and any values), run on a working node that holds one `foo` child and no `bar`
   * child, as the test's earlier writes leave it: all four succeed, and the working
   * node's subtree gains, after what it held, `<foo/><foo><c>vc</c></foo><bar/><bar/>
   * <bar><d>vd</d></bar><foo/><foo><e>ve</e><f>vf</f></foo>`.
   */
  lemma XPostIndexedWrites(s: Store, p: Pos, foo: string, bar: string, c: string, d: string, e: string, f: string,
                           vc: string, vd: string, ve: string, vf: string)
    requires Wf(s) && Usable(s, p) && foo != bar
    requires StepName(foo) && StepName(bar) && StepName(c) && StepName(d) && StepName(e) && StepName(f)
    requires |ChildrenNamed(s, p.at, foo)| == 1 && ChildrenNamed(s, p.at, bar) == []
    ensures StepNames(Segments(IndexedPathText(foo, 3, c)))
    ensures var r1 := InsertValueAt(s, p, IndexedPathText(foo, 3, c), vc);
      r1.1 == Pass && Usable(r1.0, p) && StepNames(Segments(IndexedPathText(bar, 3, d))) &&
      var r2 := InsertValueAt(r1.0, p, IndexedPathText(bar, 3, d), vd);
      r2.1 == Pass && Usable(r2.0, p) && StepNames(Segments(IndexedPathText(foo, 5, e))) &&
      var r3 := InsertValueAt(r2.0, p, IndexedPathText(foo, 5, e), ve);
      r3.1 == Pass && Usable(r3.0, p) && StepNames(Segments(IndexedPathText(foo, 5, f))) &&
      var r4 := InsertValueAt(r3.0, p, IndexedPathText(foo, 5, f), vf);
      var t := ToTree(s, p.at); var ef := EmptyElement(foo); var eb := EmptyElement(bar);
      r4.1 == Pass &&
      ToTree(r4.0, p.at) == t.(children := t.children + [
        ef, ef.(children := [Tree(ElementNode, c, "", [], TextLeaves(vc))]),
        eb, eb, eb.(children := [Tree(ElementNode, d, "", [], TextLeaves(vd))]),
        ef, ef.(children := [Tree(ElementNode, e, "", [], TextLeaves(ve)), Tree(ElementNode, f, "", [], TextLeaves(vf))])])
  {
    var ef := EmptyElement(foo);
    var eb := EmptyElement(bar);
    var hc := ef.(children := [Tree(ElementNode, c, "", [], TextLeaves(vc))]);
    var hd := eb.(children := [Tree(ElementNode, d, "", [], TextLeaves(vd))]);
    var hef := ef.(children := [Tree(ElementNode, e, "", [], TextLeaves(ve)), Tree(ElementNode, f, "", [], TextLeaves(vf))]);
    XPostThirdWrites(s, p, foo, bar, c, d, vc, vd);
    var r1 := InsertValueAt(s, p, IndexedPathText(foo, 3, c), vc);
    var r2 := InsertValueAt(r1.0, p, IndexedPathText(bar, 3, d), vd);
    SameIndexTwice(r2.0, p, foo, 5, 1, e, ve, f, vf);
    var r3 := InsertValueAt(r2.0, p, IndexedPathText(foo, 5, e), ve);
    var r4 := InsertValueAt(r3.0, p, IndexedPathText(foo, 5, f), vf);
    XPostFifthRun(ToTree(s, p.at), ToTree(r2.0, p.at), ToTree(r4.0, p.at), foo, ef, hc, eb, hd, hef);
  }

  /**
   * Two insertValueAt writes on a new document `<root/>`, in the manner of
   * XDocTest.java:167-170: `name[3]/a` with x and then `name[5]/b` with y both succeed and leave
   * `<root><name/><name/><name><a>x</a></name><name/><name><b>y</b></name></root>`.
   */
  lemma IndexedPathsExample(root: string, name: string, a: string, b: string, x: string, y: string)
    requires StepName(name) && StepName(a) && StepName(b)
    ensures var s0 := NewDocument(root); var p := Pos(1, 1);
      StepNames(Segments(IndexedPathText(name, 3, a))) &&
      var r1 := InsertValueAt(s0, p, IndexedPathText(name, 3, a), x);
      r1.1 == Pass && Usable(r1.0, p) && StepNames(Segments(IndexedPathText(name, 5, b))) &&
      var r2 := InsertValueAt(r1.0, p, IndexedPathText(name, 5, b), y);
      var e := EmptyElement(name);
      r2.1 == Pass &&
      ToTree(r2.0, 1) == Tree(ElementNode, root, "", [], [
        e, e, e.(children := [Tree(ElementNode, a, "", [], TextLeaves(x))]),
        e, e.(children := [Tree(ElementNode, b, "", [], TextLeaves(y))])])
  {
    var e := EmptyElement(name);
    var ea := e.(children := [Tree(ElementNode, a, "", [], TextLeaves(x))]);
    var eb := e.(children := [Tree(ElementNode, b, "", [], TextLeaves(y))]);
    var s0 := NewDocument(root);
    var p := Pos(1, 1);
    NewDocumentStart(root, name);
    IndexedPathSteps(name, 3, a);
    var r1 := InsertValueAt(s0, p, IndexedPathText(name, 3, a), x);
    CreatingWrite(s0, p, name, 3, 2, a, x, name + "-", r1);
    IndexedPathSteps(name, 5, b);
    var r2 := InsertValueAt(r1.0, p, IndexedPathText(name, 5, b), y);
    CreatingWrite(r1.0, p, name, 5, 1, b, y, name + "-", r2);
    ExampleRun(ToTree(s0, 1), ToTree(r1.0, 1), ToTree(r2.0, 1), root, name, ea, eb);
  }

  lemma EmptiesOne(tok: string)
    ensures Empties(tok, 1) == [EmptyElement(tok)]
  {
  }

  lemma EmptiesTwo(tok: string)
    ensures Empties(tok, 2) == [EmptyElement(tok), EmptyElement(tok)]
  {
  }
}
