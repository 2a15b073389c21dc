/**
 * The DOM edits the cursor performs, as functions on the node store: the
 * child-name queries of the fast lookup and of `name[last()]`, appending a new
 * node, the relative insertion primitive (insertAfter), removal, replaceChild,
 * and the attribute map edits. Each edit comes with what it does to the
 * subtree of the node it edits.
 */
module Edits {
  import opened Wrappers
  import opened Trees
  import opened Dom

  // ---------------------------------------------------------------- subtrees

  /** The subtrees of a list of nodes. */
  function TreesOf(s: Store, xs: seq<NodeId>): (r: seq<Tree>)
    requires Wf(s) && forall x :: x in xs ==> x in s.nodes
    ensures |r| == |xs| && forall i :: 0 <= i < |xs| ==> r[i] == ToTree(s, xs[i])
  {
    seq(|xs|, i requires 0 <= i < |xs| => assert xs[i] in xs; ToTree(s, xs[i]))
  }

  lemma TreesOfAppend(s: Store, xs: seq<NodeId>, ys: seq<NodeId>)
    requires Wf(s) && forall x :: x in xs + ys ==> x in s.nodes
    ensures TreesOf(s, xs + ys) == TreesOf(s, xs) + TreesOf(s, ys)
  {
    assert forall x :: x in xs ==> x in xs + ys;
    assert forall x :: x in ys ==> x in xs + ys;
  }

  /** A node's subtree is made of its own fields and the subtrees of its attribute and child lists. */
  lemma ToTreeParts(s: Store, p: NodeId)
    requires Wf(s) && p in s.nodes
    ensures forall x :: x in s.nodes[p].children ==> x in s.nodes
    ensures forall x :: x in s.nodes[p].attrs ==> x in s.nodes
    ensures ToTree(s, p) == Tree(s.nodes[p].kind, s.nodes[p].name, s.nodes[p].value,
                                 TreesOf(s, s.nodes[p].attrs), TreesOf(s, s.nodes[p].children))
  {
    assert NodeWf(s, p);
  }

  /** Subtrees below rank `lo` that an edit leaves alone keep their value. */
  lemma TreesKept(s: Store, t: Store, xs: seq<NodeId>, lo: nat)
    requires Wf(s) && Wf(t) && KeepsFrom(s, t, lo)
    requires forall x :: x in xs ==> x in s.nodes && s.nodes[x].rank >= lo
    ensures forall x :: x in xs ==> x in t.nodes
    ensures TreesOf(t, xs) == TreesOf(s, xs)
  {
    forall x | x in xs ensures x in t.nodes && ToTree(t, x) == ToTree(s, x) {
      ToTreeFrame(s, t, x);
    }
  }

  /**
   * An edit that changes only p's child list (and parent links of nodes that
   * enter or leave it) gives p the subtrees of its new child list.
   */
  lemma ChildListEdit(s: Store, t: Store, p: NodeId)
    requires Wf(s) && Wf(t) && p in s.nodes && p in t.nodes
    requires t.nodes[p] == s.nodes[p].(children := t.nodes[p].children)
    requires KeepsFrom(s, t, s.nodes[p].rank + 1)
    ensures forall x :: x in t.nodes[p].children ==> x in t.nodes
    ensures ToTree(t, p) == ToTree(s, p).(children := TreesOf(t, t.nodes[p].children))
  {
    ToTreeParts(s, p);
    ToTreeParts(t, p);
    assert NodeWf(s, p);
    TreesKept(s, t, s.nodes[p].attrs, s.nodes[p].rank + 1);
  }

  // ---------------------------------------------------------------- queries

  /** x is an Element node named `name`. */
  predicate IsNamedElement(s: Store, x: NodeId, name: string) {
    x in s.nodes && s.nodes[x].kind == ElementNode && s.nodes[x].name == name
  }

  /** The Element nodes named `name` among xs, in list order. */
  function NamedAmong(s: Store, xs: seq<NodeId>, name: string): (r: seq<NodeId>)
    ensures forall x :: x in r <==> x in xs && IsNamedElement(s, x, name)
    ensures |r| <= |xs|
    decreases |xs|
  {
    if xs == [] then []
    else
      var init := xs[..|xs| - 1];
      assert forall x :: x in xs <==> x in init || x == xs[|xs| - 1];
      NamedAmong(s, init, name) + if IsNamedElement(s, xs[|xs| - 1], name) then [xs[|xs| - 1]] else []
  }

  lemma NamedAmongAppend(s: Store, xs: seq<NodeId>, x: NodeId, name: string)
    ensures NamedAmong(s, xs + [x], name) ==
            NamedAmong(s, xs, name) + if IsNamedElement(s, x, name) then [x] else []
  {
    assert (xs + [x])[..|xs|] == xs;
  }

  /** The direct Element children of p named `name`, in document order. */
  function ChildrenNamed(s: Store, p: NodeId, name: string): seq<NodeId>
    requires p in s.nodes
  {
    NamedAmong(s, s.nodes[p].children, name)
  }

  /** XPath `name[last()]` from context p: the last Element child named `name`. */
  function LastNamed(s: Store, p: NodeId, name: string): (r: Option<NodeId>)
    requires p in s.nodes
    ensures r.None? <==> ChildrenNamed(s, p, name) == []
    ensures r.Some? ==> r.value in s.nodes[p].children && IsNamedElement(s, r.value, name)
    ensures r.Some? ==> r.value == ChildrenNamed(s, p, name)[|ChildrenNamed(s, p, name)| - 1]
  {
    var l := ChildrenNamed(s, p, name);
    if l == [] then None else Some(l[|l| - 1])
  }

  // ---------------------------------------------------------------- attribute maps

  /** An attribute map as (name, value) pairs in map order. */
  type Pairs = seq<(string, string)>

  /** The attribute map of e. */
  function AttrPairs(s: Store, e: NodeId): (r: Pairs)
    requires Wf(s) && e in s.nodes
    ensures |r| == |s.nodes[e].attrs|
    ensures forall i :: 0 <= i < |r| ==>
      (s.nodes[e].attrs[i] in s.nodes &&
       r[i] == (s.nodes[s.nodes[e].attrs[i]].name, s.nodes[s.nodes[e].attrs[i]].value))
  {
    var ats := s.nodes[e].attrs;
    assert NodeWf(s, e);
    seq(|ats|, i requires 0 <= i < |ats| => assert ats[i] in ats; (s.nodes[ats[i]].name, s.nodes[ats[i]].value))
  }

  /** Position of the first pair named n. */
  function FirstNamed(ps: Pairs, n: string): (r: Option<nat>)
    ensures r.Some? ==> r.value < |ps| && ps[r.value].0 == n && forall j :: 0 <= j < r.value ==> ps[j].0 != n
    ensures r.None? ==> forall j :: 0 <= j < |ps| ==> ps[j].0 != n
    decreases |ps|
  {
    if ps == [] then None
    else if ps[0].0 == n then Some(0)
    else match FirstNamed(ps[1..], n)
      case None => None
      case Some(k) => Some(k + 1)
  }

  /** getAttribute: the value of the first attribute named n. */
  function Get(ps: Pairs, n: string): (r: Option<string>)
    ensures r.Some? <==> exists j :: 0 <= j < |ps| && ps[j].0 == n
  {
    match FirstNamed(ps, n)
    case None => None
    case Some(k) => Some(ps[k].1)
  }

  /**
   * Where String.compareTo places a character among the others. Java compares UTF-16
   * code units, and a character above U+FFFF starts with a high surrogate
   * (0xD800-0xDBFF), so it sorts after U+0000-U+D7FF but before U+E000-U+FFFF.
   */
  function UnitRank(c: char): int {
    if 0xE000 <= c as int <= 0xFFFF then c as int + 0x20_0000 else c as int
  }

  /**
   * The order String.compareTo gives names: the first differing character
   * decides, by UnitRank, and a proper prefix comes first.
   */
  predicate NameLess(a: string, b: string)
    decreases |a|
  {
    if a == [] then b != []
    else if b == [] then false
    else if a[0] != b[0] then UnitRank(a[0]) < UnitRank(b[0])
    else NameLess(a[1..], b[1..])
  }

  /** The UTF-16 code units a Java string holds for one character. */
  function Utf16Units(c: char): seq<int> {
    if c as int <= 0xFFFF then [c as int]
    else [0xD800 + (c as int - 0x1_0000) / 0x400, 0xDC00 + (c as int - 0x1_0000) % 0x400]
  }

  /** A name as Java stores it: the UTF-16 code units of its characters, in order. */
  function Utf16(s: string): seq<int> {
    if s == [] then [] else Utf16Units(s[0]) + Utf16(s[1..])
  }

  /** String.compareTo(a, b) < 0: the first differing code unit decides, and a proper prefix comes first. */
  predicate UnitsLess(a: seq<int>, b: seq<int>)
    decreases |a|
  {
    if a == [] then b != []
    else if b == [] then false
    else if a[0] != b[0] then a[0] < b[0]
    else UnitsLess(a[1..], b[1..])
  }

  /** A common prefix of code units does not decide the comparison. */
  lemma {:induction false} UnitsLessPrefix(p: seq<int>, x: seq<int>, y: seq<int>)
    ensures UnitsLess(p + x, p + y) == UnitsLess(x, y)
    decreases |p|
  {
    if p != [] {
      assert (p + x)[1..] == p[1..] + x && (p + y)[1..] == p[1..] + y;
      UnitsLessPrefix(p[1..], x, y);
    } else {
      assert p + x == x && p + y == y;
    }
  }

  /** Two different characters: their code units decide as their ranks do, whatever follows. */
  lemma UnitsLessHead(c: char, d: char, x: seq<int>, y: seq<int>)
    requires c != d
    ensures UnitsLess(Utf16Units(c) + x, Utf16Units(d) + y) == (UnitRank(c) < UnitRank(d))
  {
    var u, w := Utf16Units(c) + x, Utf16Units(d) + y;
    var m, n := c as int - 0x1_0000, d as int - 0x1_0000;
    if c as int > 0xFFFF && d as int > 0xFFFF && m / 0x400 == n / 0x400 {
      assert m == 0x400 * (m / 0x400) + m % 0x400 && n == 0x400 * (n / 0x400) + n % 0x400;
      assert u[1..] == [0xDC00 + m % 0x400] + x && w[1..] == [0xDC00 + n % 0x400] + y;
    } else if c as int > 0xFFFF && d as int > 0xFFFF {
      assert m / 0x400 < n / 0x400 <==> m < n;
    }
  }

  /** NameLess is String.compareTo's order: it compares the names' UTF-16 code units. */
  lemma {:induction false} NameLessUtf16(a: string, b: string)
    ensures NameLess(a, b) == UnitsLess(Utf16(a), Utf16(b))
    decreases |a|
  {
    if a != [] && b != [] {
      if a[0] == b[0] {
        UnitsLessPrefix(Utf16Units(a[0]), Utf16(a[1..]), Utf16(b[1..]));
        NameLessUtf16(a[1..], b[1..]);
      } else {
        UnitsLessHead(a[0], b[0], Utf16(a[1..]), Utf16(b[1..]));
      }
    }
  }

  lemma {:induction false} NameLessIrreflexive(a: string)
    ensures !NameLess(a, a)
    decreases |a|
  {
    if a != [] {
      NameLessIrreflexive(a[1..]);
    }
  }

  lemma {:induction false} NameLessTransitive(a: string, b: string, c: string)
    requires NameLess(a, b) && NameLess(b, c)
    ensures NameLess(a, c)
    decreases |a|
  {
    if a != [] && b != [] && c != [] && a[0] == b[0] && b[0] == c[0] {
      NameLessTransitive(a[1..], b[1..], c[1..]);
    }
  }

  lemma {:induction false} NameLessTotal(a: string, b: string)
    requires a != b
    ensures NameLess(a, b) || NameLess(b, a)
    decreases |a|
  {
    if a != [] && b != [] && a[0] == b[0] {
      assert a == [a[0]] + a[1..] && b == [b[0]] + b[1..];
      NameLessTotal(a[1..], b[1..]);
    }
  }

  /** The names of a DOM attribute map are kept in strictly increasing order. */
  predicate SortedNames(ps: Pairs) {
    forall i, j :: 0 <= i < j < |ps| ==> NameLess(ps[i].0, ps[j].0)
  }

  /** The insertion point of the map's name search: the first pair whose name does not sort before n. */
  function NamePoint(ps: Pairs, n: string): (i: nat)
    ensures i <= |ps| && forall j :: 0 <= j < i ==> NameLess(ps[j].0, n)
    ensures i < |ps| ==> !NameLess(ps[i].0, n)
    decreases |ps|
  {
    if ps == [] || !NameLess(ps[0].0, n) then 0 else NamePoint(ps[1..], n) + 1
  }

  /** setNamedItemNS as attr means it: overwrite the attribute named n in place, or insert it at its place in name order. */
  function Put(ps: Pairs, n: string, v: string): (r: Pairs)
  {
    match FirstNamed(ps, n)
    case None => var i := NamePoint(ps, n); ps[..i] + [(n, v)] + ps[i..]
    case Some(k) => ps[k := (n, v)]
  }

  /** removeNamedItem on a map that holds n: the attribute named n goes away. */
  function Drop(ps: Pairs, n: string): (r: Pairs)
    ensures |r| == if Get(ps, n).Some? then |ps| - 1 else |ps|
  {
    match FirstNamed(ps, n)
    case None => ps
    case Some(k) => ps[..k] + ps[k + 1..]
  }

  /** No two attributes share a name, as in a DOM attribute map. */
  predicate UniqueNames(ps: Pairs) {
    forall i, j :: 0 <= i < j < |ps| ==> ps[i].0 != ps[j].0
  }

  lemma FirstNamedIs(ps: Pairs, n: string, k: nat)
    requires k < |ps| && ps[k].0 == n && forall j :: 0 <= j < k ==> ps[j].0 != n
    ensures FirstNamed(ps, n) == Some(k)
  {
  }

  /** After setting n to v, n reads back as v. */
  lemma GetPut(ps: Pairs, n: string, v: string)
    ensures Get(Put(ps, n, v), n) == Some(v)
  {
    var r := Put(ps, n, v);
    match FirstNamed(ps, n)
    case None =>
      var i := NamePoint(ps, n);
      assert forall j :: 0 <= j < i ==> r[j] == ps[j];
      FirstNamedIs(r, n, i);
    case Some(k) => FirstNamedIs(r, n, k);
  }

  /** Setting n leaves every other name's value alone. */
  lemma GetPutOther(ps: Pairs, n: string, m: string, v: string)
    requires m != n
    ensures Get(Put(ps, n, v), m) == Get(ps, m)
  {
    if FirstNamed(ps, n).None? {
      GetInsertOther(ps, n, m, v);
    } else {
      GetOverwriteOther(ps, n, m, v, FirstNamed(ps, n).value);
    }
  }

  /** A new name n inserted at its place in the order leaves the first pair named m where it reads. */
  lemma GetInsertOther(ps: Pairs, n: string, m: string, v: string)
    requires m != n && FirstNamed(ps, n).None?
    ensures Get(Put(ps, n, v), m) == Get(ps, m)
  {
    GetSpliceOther(ps, NamePoint(ps, n), (n, v), m);
  }

  /** A pair not named m spliced in at i leaves the first pair named m where it reads. */
  lemma GetSpliceOther(ps: Pairs, i: nat, p: (string, string), m: string)
    requires i <= |ps| && p.0 != m
    ensures Get(ps[..i] + [p] + ps[i..], m) == Get(ps, m)
  {
    var r := ps[..i] + [p] + ps[i..];
    assert forall j :: 0 <= j < |r| ==> r[j] == if j < i then ps[j] else if j == i then p else ps[j - 1];
    match FirstNamed(ps, m) {
      case None =>
        assert forall j :: 0 <= j < |r| ==> r[j].0 != m;
      case Some(k) =>
        if k < i {
          FirstNamedIs(r, m, k);
        } else {
          FirstNamedIs(r, m, k + 1);
        }
    }
  }

  /** Overwriting the pair at k, named n, leaves the first pair named m where it reads. */
  lemma GetOverwriteOther(ps: Pairs, n: string, m: string, v: string, k: nat)
    requires m != n && FirstNamed(ps, n) == Some(k)
    ensures Get(Put(ps, n, v), m) == Get(ps, m)
  {
    var r := ps[k := (n, v)];
    assert Put(ps, n, v) == r;
    match FirstNamed(ps, m) {
      case None =>
        assert forall j :: 0 <= j < |r| ==> r[j].0 != m;
      case Some(i) =>
        FirstNamedIs(r, m, i);
    }
  }

  /** The pairs of a map with n set: the old pairs not named n, and (n, v). */
  lemma PutMembers(ps: Pairs, n: string, v: string)
    requires UniqueNames(ps)
    ensures forall q :: q in Put(ps, n, v) <==> (q in ps && q.0 != n) || q == (n, v)
  {
    var r := Put(ps, n, v);
    match FirstNamed(ps, n)
    case None =>
      var i := NamePoint(ps, n);
      assert forall j :: 0 <= j < |r| ==> r[j] == if j < i then ps[j] else if j == i then (n, v) else ps[j - 1];
      forall q | q in ps ensures q in r && q.0 != n {
        var j :| 0 <= j < |ps| && ps[j] == q;
        if j < i { assert r[j] == q; } else { assert r[j + 1] == q; }
      }
      forall q | q in r && q != (n, v) ensures q in ps {
        var j :| 0 <= j < |r| && r[j] == q;
        if j < i { assert ps[j] == q; } else { assert ps[j - 1] == q; }
      }
      assert r[i] == (n, v);
    case Some(k) =>
      forall q | q in ps && q.0 != n ensures q in r {
        var j :| 0 <= j < |ps| && ps[j] == q;
        assert j != k && r[j] == q;
      }
      forall q | q in r && q != (n, v) ensures q in ps && q.0 != n {
        var j :| 0 <= j < |r| && r[j] == q;
        assert j != k && ps[j] == q;
        assert ps[j].0 != ps[k].0;
      }
      assert r[k] == (n, v);
  }

  /** Setting keeps names unique. */
  lemma PutUnique(ps: Pairs, n: string, v: string)
    requires UniqueNames(ps)
    ensures UniqueNames(Put(ps, n, v))
  {
    var r := Put(ps, n, v);
    match FirstNamed(ps, n)
    case None =>
      var i := NamePoint(ps, n);
      assert forall j :: 0 <= j < |r| ==> r[j] == if j < i then ps[j] else if j == i then (n, v) else ps[j - 1];
    case Some(k) =>
  }

  /** Sorted names are unique names. */
  lemma SortedUnique(ps: Pairs)
    requires SortedNames(ps)
    ensures UniqueNames(ps)
  {
    forall i, j | 0 <= i < j < |ps| ensures ps[i].0 != ps[j].0 {
      NameLessIrreflexive(ps[i].0);
    }
  }

  /**
   * attr's setNamedItemNS as the JDK's DOM carries it out on a node from createAttribute:
   * such a node has no local name, so the search by namespace and local name finds
   * nothing, and the node is inserted at the name search's point even when an
   * attribute of that name is already there.
   */
  function PutAsWritten(ps: Pairs, n: string, v: string): (r: Pairs)
    ensures |r| == |ps| + 1
  {
    var i := NamePoint(ps, n);
    ps[..i] + [(n, v)] + ps[i..]
  }

  /**
   * Setting a name the map already holds: PutAsWritten leaves two attributes of that
   * name (the new one reads first), where Put keeps the names unique.
   */
  lemma PutAsWrittenDuplicates(ps: Pairs, n: string, v: string)
    requires UniqueNames(ps) && Get(ps, n).Some?
    ensures Get(PutAsWritten(ps, n, v), n) == Some(v)
    ensures !UniqueNames(PutAsWritten(ps, n, v)) && UniqueNames(Put(ps, n, v))
  {
    var r := PutAsWritten(ps, n, v);
    var i := NamePoint(ps, n);
    var k := FirstNamed(ps, n).value;
    forall j | 0 <= j < i ensures ps[j].0 != n {
      NameLessIrreflexive(n);
    }
    assert i <= k && r[i] == (n, v) && r[k + 1] == ps[k];
    FirstNamedIs(r, n, i);
    PutUnique(ps, n, v);
  }

  /** setNamedItemNS keeps a name-ordered map in name order. */
  lemma PutSorted(ps: Pairs, n: string, v: string)
    requires SortedNames(ps)
    ensures SortedNames(Put(ps, n, v))
  {
    var r := Put(ps, n, v);
    match FirstNamed(ps, n)
    case None =>
      var i := NamePoint(ps, n);
      assert forall j :: 0 <= j < |r| ==> r[j] == if j < i then ps[j] else if j == i then (n, v) else ps[j - 1];
      forall j | i <= j < |ps| ensures NameLess(n, ps[j].0) {
        NameLessTotal(n, ps[j].0);
        if NameLess(ps[j].0, n) {
          if j > i {
            NameLessTransitive(ps[i].0, ps[j].0, n);
          }
        }
      }
      forall a, b | 0 <= a < b < |r| ensures NameLess(r[a].0, r[b].0) {
        if a < i && b > i {
          NameLessTransitive(ps[a].0, n, ps[b - 1].0);
        }
      }
    case Some(k) =>
  }

  /** Two name-ordered maps holding the same pairs are the same map. */
  lemma {:induction false} SortedSame(xs: Pairs, ys: Pairs)
    requires SortedNames(xs) && SortedNames(ys)
    requires forall q :: q in xs <==> q in ys
    ensures xs == ys
    decreases |xs|
  {
    if xs == [] {
      HeadIn(ys);
    } else {
      assert xs[0] in ys;
      assert ys != [];
      assert ys[0] in xs;
      var i :| 0 <= i < |xs| && xs[i] == ys[0];
      var j :| 0 <= j < |ys| && ys[j] == xs[0];
      if i != 0 {
        NameLessIrreflexive(xs[0].0);
        if j != 0 {
          NameLessTransitive(xs[0].0, ys[0].0, xs[0].0);
        }
        assert false;
      }
      forall q ensures q in xs[1..] <==> q in ys[1..] {
        if q in xs[1..] {
          var a :| 0 <= a < |xs[1..]| && xs[1..][a] == q;
          assert NameLess(xs[0].0, q.0);
          NameLessIrreflexive(q.0);
          assert q in ys && q != ys[0];
        }
        if q in ys[1..] {
          var a :| 0 <= a < |ys[1..]| && ys[1..][a] == q;
          assert NameLess(ys[0].0, q.0);
          NameLessIrreflexive(q.0);
          assert q in xs && q != xs[0];
        }
      }
      SortedSame(xs[1..], ys[1..]);
      assert xs == [xs[0]] + xs[1..] && ys == [ys[0]] + ys[1..];
    }
  }

  /** A non-empty map holds its first pair. */
  lemma HeadIn(ps: Pairs)
    ensures ps != [] ==> ps[0] in ps
  {
  }

  /** Setting two different names in either order gives the same name-ordered map. */
  lemma PutCommutes(ps: Pairs, n: string, v: string, m: string, w: string)
    requires SortedNames(ps) && n != m
    ensures Put(Put(ps, n, v), m, w) == Put(Put(ps, m, w), n, v)
  {
    PutSorted(ps, n, v);
    PutSorted(ps, m, w);
    PutSorted(Put(ps, n, v), m, w);
    PutSorted(Put(ps, m, w), n, v);
    SortedUnique(ps);
    SortedUnique(Put(ps, n, v));
    SortedUnique(Put(ps, m, w));
    PutMembers(ps, n, v);
    PutMembers(ps, m, w);
    PutMembers(Put(ps, n, v), m, w);
    PutMembers(Put(ps, m, w), n, v);
    SortedSame(Put(Put(ps, n, v), m, w), Put(Put(ps, m, w), n, v));
  }

  /** Removing n from a map with unique names leaves no n behind. */
  lemma GetDrop(ps: Pairs, n: string)
    requires UniqueNames(ps)
    ensures Get(Drop(ps, n), n) == None
  {
    var r := Drop(ps, n);
    match FirstNamed(ps, n)
    case None =>
    case Some(k) =>
      forall j | 0 <= j < |r| ensures r[j].0 != n {
        if j >= k { assert r[j] == ps[j + 1]; }
      }
  }

  /** Removing n leaves every other name's value alone. */
  lemma GetDropOther(ps: Pairs, n: string, m: string)
    requires m != n
    ensures Get(Drop(ps, n), m) == Get(ps, m)
  {
    var r := Drop(ps, n);
    match FirstNamed(ps, n)
    case None =>
    case Some(k) =>
      match FirstNamed(ps, m)
      case None =>
        forall j | 0 <= j < |r| ensures r[j].0 != m {
          if j >= k { assert r[j] == ps[j + 1]; }
        }
      case Some(i) =>
        assert i != k;
        if i < k {
          FirstNamedIs(r, m, i);
        } else {
          forall j | 0 <= j < i - 1 ensures r[j].0 != m {
            if j >= k { assert r[j] == ps[j + 1]; }
          }
          FirstNamedIs(r, m, i - 1);
        }
  }

  /** getAttributeNode(name): the attribute node of e named `name`, if any. */
  function AttributeNamed(s: Store, e: NodeId, name: string): (r: Option<NodeId>)
    requires Wf(s) && e in s.nodes
    ensures r.Some? <==> Get(AttrPairs(s, e), name).Some?
    ensures r.Some? ==> r.value in s.nodes[e].attrs && r.value in s.nodes &&
                        s.nodes[r.value].kind == AttributeNode && s.nodes[r.value].name == name &&
                        Get(AttrPairs(s, e), name) == Some(s.nodes[r.value].value)
  {
    assert NodeWf(s, e);
    match FirstNamed(AttrPairs(s, e), name)
    case None => None
    case Some(k) => Some(s.nodes[e].attrs[k])
  }

  /** The attribute subtrees an attribute map stands for. */
  function AttrLeaves(ps: Pairs): (r: seq<Tree>)
    ensures |r| == |ps| && forall i :: 0 <= i < |ps| ==> r[i] == Tree(AttributeNode, ps[i].0, ps[i].1, [], [])
  {
    seq(|ps|, i requires 0 <= i < |ps| => Tree(AttributeNode, ps[i].0, ps[i].1, [], []))
  }

  /** An element's attribute subtrees are exactly the leaves of its attribute map. */
  lemma AttrTrees(s: Store, e: NodeId)
    requires Wf(s) && e in s.nodes
    ensures ToTree(s, e).attrs == AttrLeaves(AttrPairs(s, e))
  {
    var ats := s.nodes[e].attrs;
    ToTreeParts(s, e);
    assert NodeWf(s, e);
    forall i | 0 <= i < |ats|
      ensures ToTree(s, ats[i]) == Tree(AttributeNode, s.nodes[ats[i]].name, s.nodes[ats[i]].value, [], [])
    {
      assert ats[i] in ats;
      assert NodeWf(s, ats[i]);
      LeafTree(s, ats[i]);
    }
  }

  /** An edit of e's attribute map that keeps everything below e changes only e's attribute subtrees. */
  lemma AttrListEdit(s: Store, t: Store, e: NodeId)
    requires Wf(s) && Wf(t) && e in s.nodes && e in t.nodes
    requires t.nodes[e] == s.nodes[e].(attrs := t.nodes[e].attrs)
    requires KeepsFrom(s, t, s.nodes[e].rank + 1)
    ensures ToTree(t, e) == ToTree(s, e).(attrs := AttrLeaves(AttrPairs(t, e)))
  {
    ToTreeParts(s, e);
    ToTreeParts(t, e);
    assert NodeWf(s, e);
    TreesKept(s, t, s.nodes[e].children, s.nodes[e].rank + 1);
    AttrTrees(t, e);
  }

  /** createAttribute + setNamedItemNS, read as overwriting: e's attribute named `name` now holds `value`. */
  function SetAttr(s: Store, e: NodeId, name: string, value: string): (r: Store)
    requires Wf(s) && e in s.nodes && s.nodes[e].kind == ElementNode
    ensures Wf(r) && r.nodes.Keys == s.nodes.Keys + {s.next} && r.next == s.next + 1
    ensures r.nodes[e] == s.nodes[e].(attrs := r.nodes[e].attrs)
    ensures AttrPairs(r, e) == Put(AttrPairs(s, e), name, value)
    ensures KeepsFrom(s, r, s.nodes[e].rank + 1)
    ensures forall y :: y in s.nodes && y != e && y !in s.nodes[e].attrs ==> r.nodes[y] == s.nodes[y]
  {
    match FirstNamed(AttrPairs(s, e), name)
    case None => AddAttr(s, e, name, value)
    case Some(k) => OverwriteAttr(s, e, k, name, value)
  }

  /** setNamedItemNS of a new name: the attribute joins the map at its place in name order. */
  function AddAttr(s: Store, e: NodeId, name: string, value: string): (r: Store)
    requires Wf(s) && e in s.nodes && s.nodes[e].kind == ElementNode
    ensures Wf(r) && r.nodes.Keys == s.nodes.Keys + {s.next} && r.next == s.next + 1
    ensures r.nodes[e] == s.nodes[e].(attrs := r.nodes[e].attrs)
    ensures var ps := AttrPairs(s, e); var i := NamePoint(ps, name);
      AttrPairs(r, e) == ps[..i] + [(name, value)] + ps[i..]
    ensures KeepsFrom(s, r, s.nodes[e].rank + 1)
    ensures forall y :: y in s.nodes && y != e ==> r.nodes[y] == s.nodes[y]
  {
    assert NodeWf(s, e);
    var i := NamePoint(AttrPairs(s, e), name);
    var a := Alloc(s, AttributeNode, name, value, s.nodes[e].rank + 1);
    var r := LinkAttr(a.0, e, a.1, i);
    PairsAfterInsert(s, r, e, i, a.1, name, value);
    r
  }

  /** setNamedItemNS of a name held at position k: a new attribute node takes that position. */
  function OverwriteAttr(s: Store, e: NodeId, k: nat, name: string, value: string): (r: Store)
    requires Wf(s) && e in s.nodes && s.nodes[e].kind == ElementNode && k < |s.nodes[e].attrs|
    ensures Wf(r) && r.nodes.Keys == s.nodes.Keys + {s.next} && r.next == s.next + 1
    ensures r.nodes[e] == s.nodes[e].(attrs := r.nodes[e].attrs)
    ensures AttrPairs(r, e) == AttrPairs(s, e)[k := (name, value)]
    ensures KeepsFrom(s, r, s.nodes[e].rank + 1)
    ensures forall y :: y in s.nodes && y != e && y !in s.nodes[e].attrs ==> r.nodes[y] == s.nodes[y]
  {
    assert NodeWf(s, e);
    var ats := s.nodes[e].attrs;
    var a := Alloc(s, AttributeNode, name, value, s.nodes[e].rank + 1);
    var u := UnlinkAttr(a.0, e, ats[k]);
    WithoutAt(ats, k);
    var r := LinkAttr(u, e, a.1, k);
    PairsAfterReplace(s, r, e, k, a.1, name, value);
    r
  }

  lemma PairsAfterInsert(s: Store, r: Store, e: NodeId, i: nat, a: NodeId, name: string, value: string)
    requires Wf(s) && Wf(r) && e in s.nodes && e in r.nodes && i <= |s.nodes[e].attrs|
    requires r.nodes[e].attrs == Insert(s.nodes[e].attrs, i, a)
    requires a in r.nodes && r.nodes[a].name == name && r.nodes[a].value == value
    requires forall y :: y in s.nodes[e].attrs ==> y in s.nodes && y in r.nodes && r.nodes[y] == s.nodes[y]
    ensures var ps := AttrPairs(s, e); AttrPairs(r, e) == ps[..i] + [(name, value)] + ps[i..]
  {
    var ats := s.nodes[e].attrs;
    var ps := AttrPairs(s, e);
    var rs := AttrPairs(r, e);
    forall j | 0 <= j < |rs| ensures rs[j] == (ps[..i] + [(name, value)] + ps[i..])[j] {
      if j < i {
        assert ats[j] in ats && r.nodes[e].attrs[j] == ats[j];
      } else if j > i {
        assert ats[j - 1] in ats && r.nodes[e].attrs[j] == ats[j - 1];
      }
    }
  }

  lemma PairsAfterReplace(s: Store, r: Store, e: NodeId, k: nat, a: NodeId, name: string, value: string)
    requires Wf(s) && Wf(r) && e in s.nodes && e in r.nodes && k < |s.nodes[e].attrs|
    requires r.nodes[e].attrs == s.nodes[e].attrs[..k] + [a] + s.nodes[e].attrs[k + 1..]
    requires a in r.nodes && r.nodes[a].name == name && r.nodes[a].value == value
    requires forall y :: y in s.nodes[e].attrs && y != s.nodes[e].attrs[k] ==>
               y in s.nodes && y in r.nodes && r.nodes[y] == s.nodes[y]
    requires NoDup(s.nodes[e].attrs)
    ensures AttrPairs(r, e) == AttrPairs(s, e)[k := (name, value)]
  {
    var ats := s.nodes[e].attrs;
    forall j | 0 <= j < |ats| && j != k ensures AttrPairs(r, e)[j] == AttrPairs(s, e)[j] {
      assert ats[j] in ats && ats[j] != ats[k];
      assert r.nodes[e].attrs[j] == ats[j];
    }
    assert r.nodes[e].attrs[k] == a;
  }

  /** removeNamedItem: NOT_FOUND when e has no such attribute, else that attribute leaves the map. */
  function RemoveAttr(s: Store, e: NodeId, name: string): (r: Result<Store>)
    requires Wf(s) && e in s.nodes
    ensures r.Err? <==> Get(AttrPairs(s, e), name).None?
    ensures r.Err? ==> r.error == NotFound
    ensures r.Ok? ==> Wf(r.value) && r.value.nodes.Keys == s.nodes.Keys && r.value.next == s.next
    ensures r.Ok? ==> r.value.nodes[e] == s.nodes[e].(attrs := r.value.nodes[e].attrs)
    ensures r.Ok? ==> AttrPairs(r.value, e) == Drop(AttrPairs(s, e), name)
    ensures r.Ok? ==> KeepsFrom(s, r.value, s.nodes[e].rank + 1)
    ensures r.Ok? ==> forall y :: y in s.nodes && y != e && y !in s.nodes[e].attrs ==> r.value.nodes[y] == s.nodes[y]
  {
    match FirstNamed(AttrPairs(s, e), name)
    case None => Err(NotFound)
    case Some(k) => Ok(RemoveAttrAt(s, e, k))
  }

  /** removeNamedItem of the attribute at position k. */
  function RemoveAttrAt(s: Store, e: NodeId, k: nat): (r: Store)
    requires Wf(s) && e in s.nodes && k < |s.nodes[e].attrs|
    ensures Wf(r) && r.nodes.Keys == s.nodes.Keys && r.next == s.next
    ensures r.nodes[e] == s.nodes[e].(attrs := r.nodes[e].attrs)
    ensures AttrPairs(r, e) == AttrPairs(s, e)[..k] + AttrPairs(s, e)[k + 1..]
    ensures KeepsFrom(s, r, s.nodes[e].rank + 1)
    ensures forall y :: y in s.nodes && y != e && y !in s.nodes[e].attrs ==> r.nodes[y] == s.nodes[y]
  {
    assert NodeWf(s, e);
    var ats := s.nodes[e].attrs;
    var r := UnlinkAttr(s, e, ats[k]);
    WithoutAt(ats, k);
    PairsAfterRemove(s, r, e, k);
    r
  }

  lemma PairsAfterRemove(s: Store, r: Store, e: NodeId, k: nat)
    requires Wf(s) && Wf(r) && e in s.nodes && e in r.nodes && k < |s.nodes[e].attrs|
    requires r.nodes[e].attrs == s.nodes[e].attrs[..k] + s.nodes[e].attrs[k + 1..]
    requires forall y :: y in s.nodes[e].attrs && y != s.nodes[e].attrs[k] ==>
               y in s.nodes && y in r.nodes && r.nodes[y] == s.nodes[y]
    requires NoDup(s.nodes[e].attrs)
    ensures AttrPairs(r, e) == AttrPairs(s, e)[..k] + AttrPairs(s, e)[k + 1..]
  {
    var ats := s.nodes[e].attrs;
    var ps := AttrPairs(s, e);
    forall j | 0 <= j < |ats| - 1 ensures AttrPairs(r, e)[j] == (ps[..k] + ps[k + 1..])[j] {
      var i := if j < k then j else j + 1;
      assert ats[i] in ats && ats[i] != ats[k];
      assert r.nodes[e].attrs[j] == ats[i];
    }
  }

  /** attr(name, value) gives the element the attribute map with `name` set, and nothing else changes in its subtree. */
  lemma SetAttrTree(s: Store, e: NodeId, name: string, value: string)
    requires Wf(s) && e in s.nodes && s.nodes[e].kind == ElementNode
    ensures var r := SetAttr(s, e, name, value);
      ToTree(r, e) == ToTree(s, e).(attrs := AttrLeaves(Put(AttrPairs(s, e), name, value))) &&
      Get(AttrPairs(r, e), name) == Some(value)
  {
    var r := SetAttr(s, e, name, value);
    AttrListEdit(s, r, e);
    GetPut(AttrPairs(s, e), name, value);
  }

  /**
   * Attribute order does not matter to equality: on a name-ordered map, setting
   * two different attributes in either order leaves the map in name order and
   * gives the same subtree, which compareNode therefore finds equal.
   */
  lemma SetAttrCommutes(s: Store, e: NodeId, n: string, v: string, m: string, w: string)
    requires Wf(s) && e in s.nodes && s.nodes[e].kind == ElementNode
    requires SortedNames(AttrPairs(s, e)) && n != m
    ensures var a := SetAttr(SetAttr(s, e, n, v), e, m, w);
      var b := SetAttr(SetAttr(s, e, m, w), e, n, v);
      SortedNames(AttrPairs(a, e)) && ToTree(a, e) == ToTree(b, e) && CompareNode(ToTree(a, e), ToTree(b, e))
  {
    var ps := AttrPairs(s, e);
    var s1 := SetAttr(s, e, n, v);
    var s2 := SetAttr(s, e, m, w);
    SetAttrTree(s, e, n, v);
    SetAttrTree(s1, e, m, w);
    SetAttrTree(s, e, m, w);
    SetAttrTree(s2, e, n, v);
    PutSorted(ps, n, v);
    PutSorted(Put(ps, n, v), m, w);
    PutCommutes(ps, n, v, m, w);
    CompareNodeReflexive(ToTree(SetAttr(s1, e, m, w), e));
  }

  /** removeNamedItem keeps a name-ordered map in name order. */
  lemma DropSorted(ps: Pairs, n: string)
    requires SortedNames(ps)
    ensures SortedNames(Drop(ps, n))
  {
    match FirstNamed(ps, n) {
      case None =>
      case Some(k) => CutSorted(ps, k);
    }
  }

  /** Cutting one pair out of a name-ordered map keeps it in name order. */
  lemma CutSorted(ps: Pairs, k: nat)
    requires SortedNames(ps) && k < |ps|
    ensures SortedNames(ps[..k] + ps[k + 1..])
  {
    var r := ps[..k] + ps[k + 1..];
    assert forall j :: 0 <= j < |r| ==> r[j] == if j < k then ps[j] else ps[j + 1];
    forall a, b | 0 <= a < b < |r| ensures NameLess(r[a].0, r[b].0) {
      var a' := if a < k then a else a + 1;
      var b' := if b < k then b else b + 1;
      assert r[a] == ps[a'] && r[b] == ps[b'] && a' < b';
    }
  }

  /** removeAttr(name) drops that attribute from the element's subtree; with unique names none is left. */
  lemma RemoveAttrTree(s: Store, e: NodeId, name: string)
    requires Wf(s) && e in s.nodes && RemoveAttr(s, e, name).Ok?
    ensures var r := RemoveAttr(s, e, name).value;
      ToTree(r, e) == ToTree(s, e).(attrs := AttrLeaves(Drop(AttrPairs(s, e), name))) &&
      (UniqueNames(AttrPairs(s, e)) ==> Get(AttrPairs(r, e), name) == None)
  {
    var r := RemoveAttr(s, e, name).value;
    AttrListEdit(s, r, e);
    if UniqueNames(AttrPairs(s, e)) {
      GetDrop(AttrPairs(s, e), name);
    }
  }

  // ---------------------------------------------------------------- append

  /** create*Node + appendChild: a new node of the given kind becomes p's last child. */
  function AppendNew(s: Store, p: NodeId, kind: Kind, name: string, value: string): (r: (Store, NodeId))
    requires Wf(s) && p in s.nodes && HasChildren(s.nodes[p].kind) && IsChildKind(kind)
    ensures Wf(r.0) && r.1 == s.next && r.1 !in s.nodes && r.0.next == s.next + 1
    ensures r.0.nodes.Keys == s.nodes.Keys + {r.1} && FrameBut(s, r.0, p)
    ensures r.0.nodes[p] == s.nodes[p].(children := s.nodes[p].children + [r.1])
    ensures r.0.nodes[r.1] == NodeData(kind, name, value, [], [], Some(p), s.nodes[p].rank + 1)
  {
    assert NodeWf(s, p);
    var a := Alloc(s, kind, name, value, s.nodes[p].rank + 1);
    var n := |a.0.nodes[p].children|;
    var t := Link(a.0, p, a.1, n);
    assert Insert(a.0.nodes[p].children, n, a.1) == s.nodes[p].children + [a.1];
    (t, a.1)
  }

  /** An edit that only appends c to p's child list (c's own subtree aside) appends c's subtree. */
  lemma AppendedChildTree(s: Store, t: Store, p: NodeId, c: NodeId)
    requires Wf(s) && Wf(t) && p in s.nodes && p in t.nodes && c in t.nodes
    requires t.nodes[p] == s.nodes[p].(children := s.nodes[p].children + [c])
    requires KeepsFrom(s, t, s.nodes[p].rank + 1)
    ensures ToTree(t, p) == ToTree(s, p).(children := ToTree(s, p).children + [ToTree(t, c)])
  {
    var cs := s.nodes[p].children;
    ToTreeParts(s, p);
    ToTreeParts(t, p);
    assert NodeWf(s, p);
    TreesKept(s, t, s.nodes[p].attrs, s.nodes[p].rank + 1);
    TreesKept(s, t, cs, s.nodes[p].rank + 1);
    TreesOfAppend(t, cs, [c]);
  }

  /** setNodeValue on a text, CDATA or attribute node changes that leaf's value and nothing else of it. */
  lemma SetValueTree(s: Store, x: NodeId, v: string)
    requires Wf(s) && x in s.nodes
    requires s.nodes[x].kind == TextNode || s.nodes[x].kind == CDataNode || s.nodes[x].kind == AttributeNode
    ensures ToTree(SetValue(s, x, v), x) == ToTree(s, x).(value := v)
  {
    assert NodeWf(s, x);
    LeafTree(s, x);
    LeafTree(SetValue(s, x, v), x);
  }

  /** A node with no attributes and no children is a leaf tree of its own fields. */
  lemma LeafTree(s: Store, c: NodeId)
    requires Wf(s) && c in s.nodes && s.nodes[c].attrs == [] && s.nodes[c].children == []
    ensures ToTree(s, c) == Tree(s.nodes[c].kind, s.nodes[c].name, s.nodes[c].value, [], [])
  {
    ToTreeParts(s, c);
  }

  /** appendChild of a new leaf adds exactly that leaf after p's existing subtrees. */
  lemma AppendNewTree(s: Store, p: NodeId, kind: Kind, name: string, value: string)
    requires Wf(s) && p in s.nodes && HasChildren(s.nodes[p].kind) && IsChildKind(kind)
    ensures var r := AppendNew(s, p, kind, name, value);
      ToTree(r.0, p) == ToTree(s, p).(children := ToTree(s, p).children + [Tree(kind, name, value, [], [])])
  {
    var r := AppendNew(s, p, kind, name, value);
    UnchangedKeeps(s, r.0, p, s.nodes[p].rank + 1);
    AppendedChildTree(s, r.0, p, r.1);
    LeafTree(r.0, r.1);
  }

  // ---------------------------------------------------------------- insertAfter

  /** Where insertAfter puts the new node: first when there is no ref, else right after ref. */
  function InsertPos(s: Store, p: NodeId, ref: Option<NodeId>): (pos: nat)
    requires p in s.nodes && (ref.Some? ==> ref.value in s.nodes[p].children)
    ensures pos <= |s.nodes[p].children|
  {
    if ref.None? then 0 else IndexOf(s.nodes[p].children, ref.value) + 1
  }

  /** What inserting a detached node x below p needs (an element parent, a child kind). */
  ghost predicate Insertable(s: Store, p: NodeId, x: NodeId) {
    Wf(s) && CanLink(s, p, x) && s.nodes[p].kind == ElementNode
  }

  /**
   * insertAfter(parent, x, ref): IllegalState when there is no parent,
   * IllegalArgument when ref is not a child of parent; otherwise x goes first
   * (no ref) or immediately after ref.
   */
  function InsertAfter(s: Store, parent: Option<NodeId>, x: NodeId, ref: Option<NodeId>): (r: Result<Store>)
    requires Wf(s) && x in s.nodes && (ref.Some? ==> ref.value in s.nodes)
    requires parent.Some? ==> Insertable(s, parent.value, x)
    ensures parent.None? ==> r == Err(IllegalState)
    ensures parent.Some? && ref.Some? && ParentNode(s, ref.value) != parent ==> r == Err(IllegalArgument)
    ensures parent.Some? && (ref.Some? ==> ParentNode(s, ref.value) == parent) ==> r.Ok?
    ensures r.Ok? ==> ref.Some? ==> ref.value in s.nodes[parent.value].children
    ensures r.Ok? ==> r.value == Link(s, parent.value, x, InsertPos(s, parent.value, ref))
  {
    if parent.None? then Err(IllegalState)
    else if ref.Some? && ParentNode(s, ref.value) != parent then Err(IllegalArgument)
    else Ok(Link(s, parent.value, x, InsertPos(s, parent.value, ref)))
  }

  /** The child list insertAfter produces, by position. */
  lemma InsertAfterChildren(s: Store, p: NodeId, x: NodeId, ref: Option<NodeId>)
    requires Insertable(s, p, x) && (ref.Some? ==> ref.value in s.nodes)
    requires InsertAfter(s, Some(p), x, ref).Ok?
    ensures var cs := s.nodes[p].children; var pos := InsertPos(s, p, ref);
      InsertAfter(s, Some(p), x, ref).value.nodes[p].children == cs[..pos] + [x] + cs[pos..]
  {
  }

  /** insertAfter places x first when there is no ref, otherwise immediately after ref. */
  lemma InsertAfterPlacement(s: Store, p: NodeId, x: NodeId, ref: Option<NodeId>)
    requires Insertable(s, p, x) && (ref.Some? ==> ref.value in s.nodes)
    requires InsertAfter(s, Some(p), x, ref).Ok?
    ensures var t := InsertAfter(s, Some(p), x, ref).value;
      var cs := s.nodes[p].children;
      (ref.None? ==> t.nodes[p].children == [x] + cs) &&
      (ref.Some? ==> exists k :: 0 <= k < |cs| && cs[k] == ref.value &&
                       t.nodes[p].children == cs[..k + 1] + [x] + cs[k + 1..])
  {
    var cs := s.nodes[p].children;
    var pos := InsertPos(s, p, ref);
    InsertAfterChildren(s, p, x, ref);
    if ref.None? {
      assert cs[..0] + [x] + cs[0..] == [x] + cs;
    } else {
      var k := pos - 1;
      assert cs[k] == ref.value;
    }
  }

  /** insertAfter leaves the other children in their relative order. */
  lemma InsertAfterKeepsOrder(s: Store, p: NodeId, x: NodeId, ref: Option<NodeId>)
    requires Insertable(s, p, x) && (ref.Some? ==> ref.value in s.nodes)
    requires InsertAfter(s, Some(p), x, ref).Ok?
    ensures Without(InsertAfter(s, Some(p), x, ref).value.nodes[p].children, x) == s.nodes[p].children
  {
    var cs := s.nodes[p].children;
    InsertAfterChildren(s, p, x, ref);
    DetachedUnlisted(s, x);
    assert NodeWf(s, p);
    WithoutInserted(cs, InsertPos(s, p, ref), x);
  }

  lemma WithoutInserted(cs: seq<NodeId>, pos: nat, x: NodeId)
    requires NoDup(cs) && x !in cs && pos <= |cs|
    ensures Without(cs[..pos] + [x] + cs[pos..], x) == cs
  {
    var ins := cs[..pos] + [x] + cs[pos..];
    InsertFacts(cs, pos, x);
    WithoutAt(ins, pos);
    assert ins[..pos] + ins[pos + 1..] == cs;
  }

  lemma TreesOfSlices(s: Store, xs: seq<NodeId>, pos: nat)
    requires Wf(s) && (forall x :: x in xs ==> x in s.nodes) && pos <= |xs|
    ensures forall x :: x in xs[..pos] ==> x in s.nodes
    ensures forall x :: x in xs[pos..] ==> x in s.nodes
    ensures TreesOf(s, xs[..pos]) == TreesOf(s, xs)[..pos]
    ensures TreesOf(s, xs[pos..]) == TreesOf(s, xs)[pos..]
  {
    assert forall x :: x in xs[..pos] ==> x in xs;
    assert forall x :: x in xs[pos..] ==> x in xs;
  }

  /** An edit that only puts `mid` between `pre` and `post` in p's child list splices mid's subtrees there. */
  lemma SplicedChildTree(s: Store, t: Store, p: NodeId, pre: seq<NodeId>, mid: seq<NodeId>, post: seq<NodeId>)
    requires Wf(s) && Wf(t) && p in s.nodes && p in t.nodes
    requires s.nodes[p].children == pre + post
    requires t.nodes[p] == s.nodes[p].(children := pre + mid + post)
    requires forall x :: x in mid ==> x in t.nodes
    requires KeepsFrom(s, t, s.nodes[p].rank + 1)
    ensures forall x :: x in pre + post ==> x in s.nodes
    ensures ToTree(t, p) == ToTree(s, p).(children := TreesOf(s, pre) + TreesOf(t, mid) + TreesOf(s, post))
  {
    ToTreeParts(s, p);
    ToTreeParts(t, p);
    assert NodeWf(s, p);
    TreesKept(s, t, s.nodes[p].attrs, s.nodes[p].rank + 1);
    assert forall x :: x in pre ==> x in pre + post;
    assert forall x :: x in post ==> x in pre + post;
    TreesKept(s, t, pre, s.nodes[p].rank + 1);
    TreesKept(s, t, post, s.nodes[p].rank + 1);
    TreesOfAppend(t, pre + mid, post);
    TreesOfAppend(t, pre, mid);
    TreesOfAppend(s, pre, post);
  }

  /** Linking x below p keeps the subtrees from rank p+1 on (x only gains a parent). */
  lemma LinkKeeps(s: Store, p: NodeId, x: NodeId, pos: nat)
    requires Wf(s) && CanLink(s, p, x) && pos <= |s.nodes[p].children|
    ensures KeepsFrom(s, Link(s, p, x, pos), s.nodes[p].rank + 1)
  {
  }

  /** Linking a detached node at pos splices its subtree into the parent's at that position. */
  lemma LinkTree(s: Store, p: NodeId, x: NodeId, pos: nat)
    requires Wf(s) && CanLink(s, p, x) && pos <= |s.nodes[p].children|
    ensures var kids := ToTree(s, p).children;
      pos <= |kids| &&
      ToTree(Link(s, p, x, pos), p) == ToTree(s, p).(children := kids[..pos] + [ToTree(s, x)] + kids[pos..])
  {
    var t := Link(s, p, x, pos);
    var cs := s.nodes[p].children;
    assert cs == cs[..pos] + cs[pos..];
    LinkKeeps(s, p, x, pos);
    SplicedChildTree(s, t, p, cs[..pos], [x], cs[pos..]);
    ToTreeParts(s, p);
    TreesOfSlices(s, cs, pos);
    ToTreeFrame(s, t, x);
    assert TreesOf(t, [x]) == [ToTree(s, x)];
  }

  /** The subtree of p after insertAfter: x's subtree sits at the insertion point. */
  lemma InsertAfterTree(s: Store, p: NodeId, x: NodeId, ref: Option<NodeId>)
    requires Insertable(s, p, x) && (ref.Some? ==> ref.value in s.nodes)
    requires InsertAfter(s, Some(p), x, ref).Ok?
    ensures var t := InsertAfter(s, Some(p), x, ref).value;
      var pos := InsertPos(s, p, ref);
      var kids := ToTree(s, p).children;
      pos <= |kids| &&
      ToTree(t, p) == ToTree(s, p).(children := kids[..pos] + [ToTree(s, x)] + kids[pos..])
  {
    LinkTree(s, p, x, InsertPos(s, p, ref));
  }

  // ---------------------------------------------------------------- removal and replacement

  /** An edit that rearranges p's child list among existing subtrees it keeps gives p those subtrees. */
  lemma RearrangedChildTree(s: Store, t: Store, p: NodeId, l: seq<NodeId>)
    requires Wf(s) && Wf(t) && p in s.nodes && p in t.nodes
    requires t.nodes[p] == s.nodes[p].(children := l)
    requires KeepsFrom(s, t, s.nodes[p].rank + 1)
    requires forall x :: x in l ==> x in s.nodes && s.nodes[x].rank > s.nodes[p].rank
    ensures ToTree(t, p) == ToTree(s, p).(children := TreesOf(s, l))
  {
    ChildListEdit(s, t, p);
    TreesKept(s, t, l, s.nodes[p].rank + 1);
  }

  /** Every node of s other than q is in t with the same shape (only parent links may differ). */
  ghost predicate ShapesBut(s: Store, t: Store, q: NodeId) {
    forall y :: y in s.nodes && y != q ==> y in t.nodes && Shape(t.nodes[y]) == Shape(s.nodes[y])
  }

  /** Only q's own shape changes, and q ranks below lo: everything from lo on is kept. */
  lemma KeepsBelow(s: Store, t: Store, q: NodeId, lo: nat)
    requires q in s.nodes && s.nodes[q].rank < lo && ShapesBut(s, t, q)
    ensures KeepsFrom(s, t, lo)
  {
  }

  /** Detach changes the shape of the former parent or owner only. */
  lemma DetachShapes(s: Store, x: NodeId)
    requires Wf(s) && x in s.nodes && s.nodes[x].parent.Some?
    ensures var r := Detach(s, x); var q := s.nodes[x].parent.value;
      q in s.nodes && s.nodes[q].rank < s.nodes[x].rank && ShapesBut(s, r, q)
  {
    assert NodeWf(s, x);
    assert NodeWf(s, s.nodes[x].parent.value);
  }

  /**
   * remove(): an attribute leaves its owner element's map, any other node its
   * parent's child list; a node without parent or owner stays as it is.
   */
  function Detach(s: Store, x: NodeId): (r: Store)
    requires Wf(s) && x in s.nodes
    ensures Wf(r) && r.nodes.Keys == s.nodes.Keys && r.next == s.next
    ensures r.nodes[x] == s.nodes[x].(parent := None)
    ensures s.nodes[x].parent.Some? ==>
      var q := s.nodes[x].parent.value;
      q in s.nodes &&
      r.nodes[q] == if s.nodes[x].kind == AttributeNode then s.nodes[q].(attrs := Without(s.nodes[q].attrs, x))
                    else s.nodes[q].(children := Without(s.nodes[q].children, x))
    ensures forall y :: y in s.nodes && y != x && Some(y) != s.nodes[x].parent ==> r.nodes[y] == s.nodes[y]
  {
    assert NodeWf(s, x);
    match s.nodes[x].parent
    case None => s
    case Some(q) =>
      if s.nodes[x].kind == AttributeNode then UnlinkAttr(s, q, x) else Unlink(s, q, x)
  }

  /** A removed node keeps its whole subtree. */
  lemma DetachKeepsSubtree(s: Store, x: NodeId)
    requires Wf(s) && x in s.nodes
    ensures ToTree(Detach(s, x), x) == ToTree(s, x)
  {
    if s.nodes[x].parent.Some? {
      var r := Detach(s, x);
      DetachShapes(s, x);
      KeepsBelow(s, r, s.nodes[x].parent.value, s.nodes[x].rank);
      ToTreeFrame(s, r, x);
    }
  }

  /** An edit that only drops the child at position i drops exactly that subtree. */
  lemma RemovedChildTree(s: Store, t: Store, q: NodeId, i: nat)
    requires Wf(s) && Wf(t) && q in s.nodes && q in t.nodes && i < |s.nodes[q].children|
    requires t.nodes[q] == s.nodes[q].(children := s.nodes[q].children[..i] + s.nodes[q].children[i + 1..])
    requires KeepsFrom(s, t, s.nodes[q].rank + 1)
    ensures var kids := ToTree(s, q).children;
      i < |kids| && ToTree(t, q) == ToTree(s, q).(children := kids[..i] + kids[i + 1..])
  {
    var cs := s.nodes[q].children;
    var l := cs[..i] + cs[i + 1..];
    assert NodeWf(s, q);
    assert forall y :: y in l ==> y in cs;
    RearrangedChildTree(s, t, q, l);
    ToTreeParts(s, q);
    TreesOfSlices(s, cs, i);
    TreesOfSlices(s, cs, i + 1);
    TreesOfAppend(s, cs[..i], cs[i + 1..]);
  }

  /** What removing a child does to its parent's node, by position. */
  lemma DetachChild(s: Store, x: NodeId)
    requires Wf(s) && x in s.nodes && ParentNode(s, x).Some?
    ensures var q := ParentNode(s, x).value;
      var cs := s.nodes[q].children;
      var i := IndexOf(cs, x);
      var r := Detach(s, x);
      r.nodes[q] == s.nodes[q].(children := cs[..i] + cs[i + 1..]) &&
      KeepsFrom(s, r, s.nodes[q].rank + 1)
  {
    var r := Detach(s, x);
    var q := ParentNode(s, x).value;
    var cs := s.nodes[q].children;
    assert NodeWf(s, q) && NodeWf(s, x);
    assert s.nodes[x].parent == Some(q) && s.nodes[x].kind != AttributeNode;
    WithoutAt(cs, IndexOf(cs, x));
    DetachShapes(s, x);
    KeepsBelow(s, r, q, s.nodes[q].rank + 1);
  }

  /** Removing a child takes exactly its subtree out of the parent's, at its position. */
  lemma DetachChildTree(s: Store, x: NodeId)
    requires Wf(s) && x in s.nodes && ParentNode(s, x).Some?
    ensures var q := ParentNode(s, x).value;
      var i := IndexOf(s.nodes[q].children, x);
      var kids := ToTree(s, q).children;
      i < |kids| &&
      ToTree(Detach(s, x), q) == ToTree(s, q).(children := kids[..i] + kids[i + 1..])
  {
    var q := ParentNode(s, x).value;
    DetachChild(s, x);
    RemovedChildTree(s, Detach(s, x), q, IndexOf(s.nodes[q].children, x));
  }

  /** Removing an attribute takes exactly its pair out of the owner's attribute map. */
  lemma DetachAttrPairs(s: Store, x: NodeId)
    requires Wf(s) && x in s.nodes && s.nodes[x].kind == AttributeNode && s.nodes[x].parent.Some?
    ensures s.nodes[x].parent.value in s.nodes && x in s.nodes[s.nodes[x].parent.value].attrs
    ensures var e := s.nodes[x].parent.value;
      var i := IndexOf(s.nodes[e].attrs, x);
      var ps := AttrPairs(s, e);
      i < |ps| && AttrPairs(Detach(s, x), e) == ps[..i] + ps[i + 1..]
  {
    var e := s.nodes[x].parent.value;
    DetachAttrFrame(s, x);
    var r := Detach(s, x);
    var ats := s.nodes[e].attrs;
    var i := IndexOf(ats, x);
    PairsAfterRemove(s, r, e, i);
  }

  /** What Detach does around an attribute: its owner's list loses exactly that entry. */
  lemma DetachAttrFrame(s: Store, x: NodeId)
    requires Wf(s) && x in s.nodes && s.nodes[x].kind == AttributeNode && s.nodes[x].parent.Some?
    ensures var e := s.nodes[x].parent.value; var r := Detach(s, x);
      e in s.nodes && e in r.nodes && x in s.nodes[e].attrs && NoDup(s.nodes[e].attrs) &&
      var ats := s.nodes[e].attrs; var i := IndexOf(ats, x);
      r.nodes[e].attrs == ats[..i] + ats[i + 1..] &&
      forall y :: y in ats && y != ats[i] ==> y in s.nodes && y in r.nodes && r.nodes[y] == s.nodes[y]
  {
    var e := s.nodes[x].parent.value;
    assert NodeWf(s, x) && NodeWf(s, e);
    WithoutAt(s.nodes[e].attrs, IndexOf(s.nodes[e].attrs, x));
  }

  /** replaceChild(repl, prev): repl takes prev's position and prev is detached. */
  function ReplaceChild(s: Store, prev: NodeId, repl: NodeId): (r: Store)
    requires Wf(s) && prev in s.nodes && ParentNode(s, prev).Some? && CanLink(s, ParentNode(s, prev).value, repl)
    ensures var q := ParentNode(s, prev).value;
      var cs := s.nodes[q].children;
      var i := IndexOf(cs, prev);
      Wf(r) && r.nodes.Keys == s.nodes.Keys && r.next == s.next &&
      r.nodes[q] == s.nodes[q].(children := cs[i := repl]) &&
      r.nodes[prev] == s.nodes[prev].(parent := None) &&
      r.nodes[repl] == s.nodes[repl].(parent := Some(q)) &&
      forall y :: y in s.nodes && y != q && y != prev && y != repl ==> r.nodes[y] == s.nodes[y]
  {
    var q := ParentNode(s, prev).value;
    var cs := s.nodes[q].children;
    var i := IndexOf(cs, prev);
    assert NodeWf(s, q);
    InsertWithout(cs, i, repl);
    WithoutAt(cs, i);
    var u := Unlink(s, q, prev);
    Link(u, q, repl, i)
  }

  lemma InsertWithout(cs: seq<NodeId>, i: nat, x: NodeId)
    requires NoDup(cs) && i < |cs|
    ensures |Without(cs, cs[i])| == |cs| - 1
    ensures Insert(Without(cs, cs[i]), i, x) == cs[i := x]
  {
    WithoutAt(cs, i);
  }

  /** An edit that only puts repl at position i of q's child list puts its subtree there. */
  lemma ReplacedChildTree(s: Store, t: Store, q: NodeId, i: nat, repl: NodeId)
    requires Wf(s) && Wf(t) && q in s.nodes && q in t.nodes && i < |s.nodes[q].children|
    requires repl in s.nodes && s.nodes[repl].rank > s.nodes[q].rank
    requires t.nodes[q] == s.nodes[q].(children := s.nodes[q].children[i := repl])
    requires KeepsFrom(s, t, s.nodes[q].rank + 1)
    ensures var kids := ToTree(s, q).children;
      i < |kids| && ToTree(t, q) == ToTree(s, q).(children := kids[i := ToTree(s, repl)])
  {
    var cs := s.nodes[q].children;
    var l := cs[i := repl];
    assert NodeWf(s, q);
    assert forall y :: y in l ==> y in cs || y == repl;
    RearrangedChildTree(s, t, q, l);
    ToTreeParts(s, q);
    assert TreesOf(s, l) == TreesOf(s, cs)[i := ToTree(s, repl)];
  }

  /** replaceChild swaps exactly one subtree of the parent, and the replaced node keeps its subtree. */
  lemma ReplaceChildTree(s: Store, prev: NodeId, repl: NodeId)
    requires Wf(s) && prev in s.nodes && ParentNode(s, prev).Some? && CanLink(s, ParentNode(s, prev).value, repl)
    ensures var q := ParentNode(s, prev).value;
      var i := IndexOf(s.nodes[q].children, prev);
      var kids := ToTree(s, q).children;
      var r := ReplaceChild(s, prev, repl);
      i < |kids| &&
      ToTree(r, q) == ToTree(s, q).(children := kids[i := ToTree(s, repl)]) &&
      ToTree(r, prev) == ToTree(s, prev)
  {
    var r := ReplaceChild(s, prev, repl);
    var q := ParentNode(s, prev).value;
    var i := IndexOf(s.nodes[q].children, prev);
    assert NodeWf(s, prev);
    KeepsBelow(s, r, q, s.nodes[q].rank + 1);
    ReplacedChildTree(s, r, q, i, repl);
    ToTreeFrame(s, r, prev);
  }

  // ---------------------------------------------------------------- emptying loops

  /** removeNodes: removes the first child of p until there is none. */
  function RemoveChildren(s: Store, p: NodeId): (r: Store)
    requires Wf(s) && p in s.nodes
    ensures Wf(r) && r.nodes.Keys == s.nodes.Keys && r.next == s.next
    ensures r.nodes[p] == s.nodes[p].(children := [])
    ensures ShapesBut(s, r, p)
    decreases |s.nodes[p].children|
  {
    var cs := s.nodes[p].children;
    if cs == [] then s
    else
      assert NodeWf(s, p);
      WithoutAt(cs, 0);
      var t := Unlink(s, p, cs[0]);
      assert forall c :: c in cs <==> c == cs[0] || c in cs[1..];
      RemoveChildren(t, p)
  }

  /** One turn of removeNodes: the first child goes, and the rest of the loop follows from there. */
  lemma RemoveChildrenNext(s: Store, p: NodeId)
    requires Wf(s) && p in s.nodes && s.nodes[p].children != []
    ensures var t := Unlink(s, p, s.nodes[p].children[0]);
      |t.nodes[p].children| < |s.nodes[p].children| && RemoveChildren(t, p) == RemoveChildren(s, p)
  {
    assert NodeWf(s, p);
    WithoutAt(s.nodes[p].children, 0);
  }

  /** After removeNodes p has no subtrees below it, and every former child keeps its own. */
  lemma RemoveChildrenTree(s: Store, p: NodeId)
    requires Wf(s) && p in s.nodes
    ensures var r := RemoveChildren(s, p);
      ToTree(r, p) == ToTree(s, p).(children := []) &&
      forall c :: c in s.nodes[p].children ==> c in s.nodes && ToTree(r, c) == ToTree(s, c)
  {
    var r := RemoveChildren(s, p);
    assert NodeWf(s, p);
    KeepsBelow(s, r, p, s.nodes[p].rank + 1);
    RearrangedChildTree(s, r, p, []);
    forall c | c in s.nodes[p].children ensures c in s.nodes && ToTree(r, c) == ToTree(s, c) {
      ToTreeFrame(s, r, c);
    }
  }

  /** Text and CDATA nodes are the children replaceValue clears. */
  predicate IsTextNode(s: Store, x: NodeId) {
    x in s.nodes && (s.nodes[x].kind == TextNode || s.nodes[x].kind == CDataNode)
  }

  /** xs without its text and CDATA nodes, in order. */
  function NonText(s: Store, xs: seq<NodeId>): (r: seq<NodeId>)
    ensures forall x :: x in r <==> x in xs && !IsTextNode(s, x)
  {
    if xs == [] then []
    else (if IsTextNode(s, xs[0]) then [] else [xs[0]]) + NonText(s, xs[1..])
  }

  /** NonText looks at node kinds only. */
  lemma {:induction false} NonTextSameKinds(s: Store, t: Store, xs: seq<NodeId>)
    requires forall x :: x in xs ==> x in s.nodes && x in t.nodes && t.nodes[x].kind == s.nodes[x].kind
    ensures NonText(t, xs) == NonText(s, xs)
  {
    if xs != [] {
      NonTextSameKinds(s, t, xs[1..]);
    }
  }

  /** Removing the first node of xs from p's child list pre + xs. */
  lemma UnlinkNext(s: Store, p: NodeId, pre: seq<NodeId>, xs: seq<NodeId>)
    requires Wf(s) && p in s.nodes && s.nodes[p].children == pre + xs && xs != []
    ensures var t := Unlink(s, p, xs[0]);
      t.nodes[p].children == pre + xs[1..] && ShapesBut(s, t, p) &&
      NonText(t, xs[1..]) == NonText(s, xs[1..])
  {
    assert NodeWf(s, p);
    WithoutHead(pre, xs);
    var t := Unlink(s, p, xs[0]);
    assert forall y :: y in xs[1..] ==> y in pre + xs;
    NonTextSameKinds(s, t, xs[1..]);
  }

  lemma WithoutHead(pre: seq<NodeId>, xs: seq<NodeId>)
    requires NoDup(pre + xs) && xs != []
    ensures Without(pre + xs, xs[0]) == pre + xs[1..]
  {
    WithoutAt(pre + xs, |pre|);
    assert (pre + xs)[..|pre|] + (pre + xs)[|pre| + 1..] == pre + xs[1..];
  }

  /**
   * The child walk of replaceValue: p's children are pre + xs, and each node
   * of xs, in order, is removed when it is a text or CDATA node.
   */
  function RemoveTexts(s: Store, p: NodeId, pre: seq<NodeId>, xs: seq<NodeId>): (r: Store)
    requires Wf(s) && p in s.nodes && s.nodes[p].children == pre + xs
    ensures Wf(r) && r.nodes.Keys == s.nodes.Keys && r.next == s.next
    ensures r.nodes[p] == s.nodes[p].(children := pre + NonText(s, xs))
    ensures ShapesBut(s, r, p)
    decreases |xs|
  {
    if xs == [] then
      assert pre + [] == pre;
      s
    else if IsTextNode(s, xs[0]) then
      var t := Unlink(s, p, xs[0]);
      UnlinkNext(s, p, pre, xs);
      var r := RemoveTexts(t, p, pre, xs[1..]);
      RemoveTextsStep(s, t, r, p, pre, xs);
      r
    else
      assert pre + xs == (pre + [xs[0]]) + xs[1..];
      RemoveTexts(s, p, pre + [xs[0]], xs[1..])
  }

  /** One turn of replaceValue's child walk, on the node after pre. */
  lemma RemoveTextsNext(s: Store, p: NodeId, pre: seq<NodeId>, xs: seq<NodeId>)
    requires Wf(s) && p in s.nodes && s.nodes[p].children == pre + xs && xs != []
    ensures xs[0] in s.nodes[p].children
    ensures IsTextNode(s, xs[0]) ==>
      var t := Unlink(s, p, xs[0]);
      t.nodes[p].children == pre + xs[1..] && RemoveTexts(t, p, pre, xs[1..]) == RemoveTexts(s, p, pre, xs)
    ensures !IsTextNode(s, xs[0]) ==>
      s.nodes[p].children == (pre + [xs[0]]) + xs[1..] &&
      RemoveTexts(s, p, pre + [xs[0]], xs[1..]) == RemoveTexts(s, p, pre, xs)
  {
    assert xs[0] == (pre + xs)[|pre|];
    if IsTextNode(s, xs[0]) {
      UnlinkNext(s, p, pre, xs);
    } else {
      assert pre + xs == (pre + [xs[0]]) + xs[1..];
    }
  }

  lemma RemoveTextsStep(s: Store, t: Store, r: Store, p: NodeId, pre: seq<NodeId>, xs: seq<NodeId>)
    requires xs != [] && IsTextNode(s, xs[0]) && p in s.nodes && p in t.nodes && p in r.nodes
    requires t.nodes[p] == s.nodes[p].(children := pre + xs[1..]) && ShapesBut(s, t, p)
    requires NonText(t, xs[1..]) == NonText(s, xs[1..])
    requires r.nodes[p] == t.nodes[p].(children := pre + NonText(t, xs[1..])) && ShapesBut(t, r, p)
    ensures r.nodes[p] == s.nodes[p].(children := pre + NonText(s, xs)) && ShapesBut(s, r, p)
  {
    assert NonText(s, xs) == NonText(s, xs[1..]);
  }

  /** Text and CDATA subtrees are the ones replaceValue clears. */
  function NonTextTrees(ts: seq<Tree>): (r: seq<Tree>)
    ensures forall t :: t in r ==> t in ts && t.kind != TextNode && t.kind != CDataNode
  {
    if ts == [] then []
    else (if ts[0].kind == TextNode || ts[0].kind == CDataNode then [] else [ts[0]]) + NonTextTrees(ts[1..])
  }

  lemma {:induction false} TreesOfNonText(s: Store, xs: seq<NodeId>)
    requires Wf(s) && forall x :: x in xs ==> x in s.nodes
    ensures forall x :: x in NonText(s, xs) ==> x in s.nodes
    ensures TreesOf(s, NonText(s, xs)) == NonTextTrees(TreesOf(s, xs))
  {
    if xs != [] {
      assert forall x :: x in xs[1..] ==> x in xs;
      TreesOfNonText(s, xs[1..]);
      ToTreeParts(s, xs[0]);
      var ts := TreesOf(s, xs);
      assert ts[0].kind == s.nodes[xs[0]].kind;
      assert ts[1..] == TreesOf(s, xs[1..]);
      var head := if IsTextNode(s, xs[0]) then [] else [xs[0]];
      assert NonText(s, xs) == head + NonText(s, xs[1..]);
      TreesOfAppend(s, head, NonText(s, xs[1..]));
      assert TreesOf(s, head) == if IsTextNode(s, xs[0]) then [] else [ts[0]];
    }
  }

  /** An edit that only drops p's text and CDATA children drops exactly those subtrees. */
  lemma NonTextChildTree(s: Store, r: Store, p: NodeId)
    requires Wf(s) && Wf(r) && p in s.nodes && p in r.nodes
    requires r.nodes[p] == s.nodes[p].(children := NonText(s, s.nodes[p].children)) && ShapesBut(s, r, p)
    ensures ToTree(r, p) == ToTree(s, p).(children := NonTextTrees(ToTree(s, p).children))
  {
    var cs := s.nodes[p].children;
    assert NodeWf(s, p);
    KeepsBelow(s, r, p, s.nodes[p].rank + 1);
    RearrangedChildTree(s, r, p, NonText(s, cs));
    ToTreeParts(s, p);
    TreesOfNonText(s, cs);
  }

  /** replaceValue's walk leaves the element's other subtrees, in order, and drops its text. */
  lemma RemoveTextsTree(s: Store, p: NodeId)
    requires Wf(s) && p in s.nodes
    ensures var r := RemoveTexts(s, p, [], s.nodes[p].children);
      ToTree(r, p) == ToTree(s, p).(children := NonTextTrees(ToTree(s, p).children))
  {
    var cs := s.nodes[p].children;
    assert [] + cs == cs;
    assert [] + NonText(s, cs) == NonText(s, cs);
    NonTextChildTree(s, RemoveTexts(s, p, [], cs), p);
  }
}
