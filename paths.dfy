/**
 * The string side of the cursor: the character classifier that picks the
 * fast lookup in at(String), and the path grammar of insertValueAt (strip the
 * outer slashes, split on '/', read an optional 1-based `[N]` index off each
 * segment with the pattern `(.+)\[(\d+)\]` and Matcher.find).
 */
module Paths {
  import opened Wrappers

  // ---------------------------------------------------------------- classifier

  /** A character the fast lookup accepts at position i: `[A-Za-z0-9.-]`, or `@` first. */
  predicate SimpleChar(c: char, i: nat) {
    (i == 0 && c == '@') || ('a' <= c <= 'z') || ('A' <= c <= 'Z') || ('0' <= c <= '9') || c == '-' || c == '.'
  }

  /** A path the fast lookup handles: a bare tag name or `@` and an attribute name. */
  predicate IsSimplePath(p: string) {
    forall i :: 0 <= i < |p| ==> SimpleChar(p[i], i)
  }

  /** The classifier loop of at(String): scans left to right and stops at the first rejected character. */
  method ClassifyPath(p: string) returns (simple: bool)
    ensures simple == IsSimplePath(p)
    ensures !simple ==> exists i :: 0 <= i < |p| && !SimpleChar(p[i], i)
  {
    simple := true;
    var i := 0;
    while i < |p|
      invariant 0 <= i <= |p|
      invariant forall k :: 0 <= k < i ==> SimpleChar(p[k], k)
    {
      if !SimpleChar(p[i], i) {
        simple := false;
        break;
      }
      i := i + 1;
    }
  }

  /** Path syntax (steps, predicates, wildcards, prefixes, the `@` of a non-leading step) always goes to the query engine. */
  lemma SimplePathsHaveNoSyntax(p: string)
    requires IsSimplePath(p)
    ensures '/' !in p && '[' !in p && ']' !in p && '*' !in p && ':' !in p && '_' !in p
    ensures forall i :: 1 <= i < |p| ==> p[i] != '@'
  {
    forall c | c in p ensures c != '/' && c != '[' && c != ']' && c != '*' && c != ':' && c != '_' {
      var i :| 0 <= i < |p| && p[i] == c;
      assert SimpleChar(p[i], i);
    }
    forall i | 1 <= i < |p| ensures p[i] != '@' {
      assert SimpleChar(p[i], i);
    }
  }

  /** `name[last()]`, the query insertValueAt builds, never takes the fast path. */
  lemma LastQueryIsNotSimple(name: string)
    ensures !IsSimplePath(name + "[last()]")
  {
    var q := name + "[last()]";
    assert q[|name|] == '[';
    assert !SimpleChar(q[|name|], |name|);
  }

  // ---------------------------------------------------------------- slashes

  function DropLeadingSlashes(p: string): (r: string)
    ensures |r| <= |p| && r == p[|p| - |r|..]
    ensures r == [] || r[0] != '/'
    ensures forall i :: 0 <= i < |p| - |r| ==> p[i] == '/'
  {
    if p != [] && p[0] == '/' then
      var r := DropLeadingSlashes(p[1..]);
      assert forall i :: 1 <= i < |p| - |r| ==> p[i] == p[1..][i - 1];
      r
    else p
  }

  function DropTrailingSlashes(p: string): (r: string)
    ensures |r| <= |p| && r == p[..|r|]
    ensures r == [] || r[|r| - 1] != '/'
    ensures forall i :: |r| <= i < |p| ==> p[i] == '/'
  {
    if p != [] && p[|p| - 1] == '/' then
      var r := DropTrailingSlashes(p[..|p| - 1]);
      assert forall i :: |r| <= i < |p| - 1 ==> p[i] == p[..|p| - 1][i];
      r
    else p
  }

  /** r is p[i..j] and p has only '/' before i and from j on. */
  predicate SlashFramed(p: string, r: string, i: int, j: int) {
    0 <= i <= j <= |p| && r == p[i..j] &&
    (forall k :: 0 <= k < i ==> p[k] == '/') && (forall k :: j <= k < |p| ==> p[k] == '/')
  }

  // The leading-or-trailing-slashes replaceAll: the path without its leading
  // and trailing runs of '/'; what remains is a slice with '/' outside it only.
  function StripSlashes(p: string): (r: string)
    ensures r == [] || (r[0] != '/' && r[|r| - 1] != '/')
    ensures exists i, j :: SlashFramed(p, r, i, j)
  {
    var a := DropLeadingSlashes(p);
    var r := DropTrailingSlashes(a);
    StripFramed(p, a, r);
    r
  }

  /** The two drops leave a slice of p framed by slashes. */
  lemma StripFramed(p: string, a: string, r: string)
    requires |a| <= |p| && a == p[|p| - |a|..] && forall k :: 0 <= k < |p| - |a| ==> p[k] == '/'
    requires |r| <= |a| && r == a[..|r|] && forall k :: |r| <= k < |a| ==> a[k] == '/'
    ensures SlashFramed(p, r, |p| - |a|, |p| - |a| + |r|)
  {
    var i := |p| - |a|;
    assert a == p[i..] && r == a[..|r|];
    var m := p[i..i + |r|];
    assert |m| == |r|;
    forall k | 0 <= k < |r| ensures r[k] == m[k] {
      assert r[k] == a[k] == p[i + k];
    }
    assert r == m;
    forall k | i + |r| <= k < |p| ensures p[k] == '/' {
      assert p[k] == a[k - i];
    }
  }

  /** Stripping twice is stripping once. */
  lemma StripSlashesIdempotent(p: string)
    ensures StripSlashes(StripSlashes(p)) == StripSlashes(p)
  {
    var r := StripSlashes(p);
    var r2 := StripSlashes(r);
    var i, j :| SlashFramed(r, r2, i, j);

  }

  // ---------------------------------------------------------------- split

  /** Position of the first '/' of s. */
  function FirstSlash(s: string): (k: nat)
    requires '/' in s
    ensures k < |s| && s[k] == '/' && '/' !in s[..k]
  {
    if s[0] == '/' then 0
    else
      var k := FirstSlash(s[1..]);
      assert s[..k + 1] == [s[0]] + s[1..][..k];
      k + 1
  }

  /**
   * `split("/")` on a slice with no leading or trailing '/': every piece,
   * empty ones included. Java's split drops trailing empty pieces; a path
   * that does not end in '/' has none, so on stripped paths this is exact.
   */
  function Split(s: string): (r: seq<string>)
    ensures |r| >= 1
    ensures forall i :: 0 <= i < |r| ==> '/' !in r[i]
    ensures s != [] && s[|s| - 1] != '/' ==> r[|r| - 1] != []
    decreases |s|
  {
    if '/' !in s then [s]
    else
      var k := FirstSlash(s);
      var t := s[k + 1..];
      assert s != [] && s[|s| - 1] != '/' ==> t != [] && t[|t| - 1] == s[|s| - 1];
      [s[..k]] + Split(t)
  }

  /** The pieces joined back with '/'. */
  function Join(parts: seq<string>): string
    requires |parts| >= 1
  {
    if |parts| == 1 then parts[0] else parts[0] + "/" + Join(parts[1..])
  }

  /** A string is what lies before the '/' at k, that slash, and what follows. */
  lemma SplitAt(s: string, k: nat)
    requires k < |s| && s[k] == '/'
    ensures s == s[..k] + "/" + s[k + 1..]
  {
    assert s[..k + 1] == s[..k] + "/";
    assert s == s[..k + 1] + s[k + 1..];
  }

  /** Splitting loses nothing: the pieces rejoin to the input. */
  lemma {:induction false} JoinSplit(s: string)
    ensures Join(Split(s)) == s
    decreases |s|
  {
    if '/' in s {
      var k := FirstSlash(s);
      var t := s[k + 1..];
      var r := Split(s);
      assert r == [s[..k]] + Split(t);
      assert r[0] == s[..k] && r[1..] == Split(t);
      assert Join(r) == s[..k] + "/" + Join(Split(t));
      JoinSplit(t);
      SplitAt(s, k);
    }
  }

  /** The first '/' is the one at n when none comes before it. */
  lemma FirstSlashAt(s: string, n: nat)
    requires n < |s| && s[n] == '/' && '/' !in s[..n]
    ensures FirstSlash(s) == n
  {
    var k := FirstSlash(s);
    forall i | 0 <= i < n ensures s[i] != '/' {
      assert s[i] == s[..n][i];
    }
    forall i | 0 <= i < k ensures s[i] != '/' {
      assert s[i] == s[..k][i];
    }
  }

  /** Joining slash-free pieces and splitting again gives the pieces back. */
  lemma {:induction false} SplitJoin(parts: seq<string>)
    requires |parts| >= 1 && forall i :: 0 <= i < |parts| ==> '/' !in parts[i]
    ensures Split(Join(parts)) == parts
    decreases |parts|
  {
    if |parts| > 1 {
      var s := Join(parts);
      var a := parts[0];
      var rest := Join(parts[1..]);
      assert s == a + "/" + rest;
      assert s[|a|] == '/';
      assert s[..|a|] == a;
      FirstSlashAt(s, |a|);
      var k := FirstSlash(s);
      assert s[|a| + 1..] == rest;
      SplitJoin(parts[1..]);
      assert Split(s) == [s[..k]] + Split(s[k + 1..]);
    }
  }

  /** The segments insertValueAt walks: the stripped path split on '/'. */
  function Segments(xpath: string): (r: seq<string>)
    ensures |r| >= 1 && forall i :: 0 <= i < |r| ==> '/' !in r[i]
  {
    Split(StripSlashes(xpath))
  }

  // ---------------------------------------------------------------- numbers

  predicate IsDigit(c: char) {
    '0' <= c <= '9'
  }

  function DigitValue(c: char): (d: nat)
    requires IsDigit(c)
    ensures d < 10
  {
    c as int - '0' as int
  }

  /** Integer.parseInt on a run of ASCII digits, before the range check. */
  function DecimalValue(ds: string): nat
    requires forall i :: 0 <= i < |ds| ==> IsDigit(ds[i])
  {
    if ds == [] then 0
    else DecimalValue(ds[..|ds| - 1]) * 10 + DigitValue(ds[|ds| - 1])
  }

  /** The decimal numeral of n, without leading zeros. */
  function Decimal(n: nat): (r: string)
    ensures r != [] && forall i :: 0 <= i < |r| ==> IsDigit(r[i])
  {
    if n < 10 then [(n + '0' as int) as char]
    else Decimal(n / 10) + [((n % 10) + '0' as int) as char]
  }

  /** Reading a numeral back gives its number. */
  lemma {:induction false} DecimalRoundTrip(n: nat)
    ensures DecimalValue(Decimal(n)) == n
  {
    if n >= 10 {
      DecimalRoundTrip(n / 10);
      var d := Decimal(n);
      assert d[..|d| - 1] == Decimal(n / 10);
    }
  }

  /** Largest value Integer.parseInt accepts. */
  const MaxInt: nat := 2147483647

  // ---------------------------------------------------------------- segments

  /** One path segment: the tag (or `@name`, `#...`) and the 0-based index, -1 when none was given. */
  datatype Segment = Segment(token: string, index: int)

  /** Characters the regex `.` does not match. */
  predicate LineTerminator(c: char) {
    c == '\n' || c == '\r' || c == '\U{85}' || c == '\U{2028}' || c == '\U{2029}'
  }

  /** Number of consecutive digits of t from position `from`. */
  function DigitRun(t: string, from: nat): (d: nat)
    requires from <= |t|
    ensures from + d <= |t|
    ensures forall k :: from <= k < from + d ==> IsDigit(t[k])
    ensures from + d == |t| || !IsDigit(t[from + d])
    decreases |t| - from
  {
    if from < |t| && IsDigit(t[from]) then 1 + DigitRun(t, from + 1) else 0
  }

  /** `\[(\d+)\]` matches at position j. */
  predicate BracketAt(t: string, j: nat) {
    j < |t| && t[j] == '[' &&
    var d := DigitRun(t, j + 1);
    d > 0 && j + 1 + d < |t| && t[j + 1 + d] == ']'
  }

  /** The first line terminator at or after st, or |t|. */
  function Reach(t: string, st: nat): (e: nat)
    requires st <= |t|
    ensures st <= e <= |t|
    ensures forall k :: st <= k < e ==> !LineTerminator(t[k])
    ensures e == |t| || LineTerminator(t[e])
    decreases |t| - st
  {
    if st == |t| || LineTerminator(t[st]) then st else Reach(t, st + 1)
  }

  /** The largest j with lo < j <= hi where the bracket matches. */
  function LastBracket(t: string, lo: nat, hi: nat): (r: Option<nat>)
    ensures r.Some? ==> lo < r.value <= hi && BracketAt(t, r.value)
    ensures r.Some? ==> forall j :: r.value < j <= hi ==> !BracketAt(t, j)
    ensures r.None? ==> forall j :: lo < j <= hi ==> !BracketAt(t, j)
    decreases hi
  {
    if hi <= lo then None
    else if BracketAt(t, hi) then Some(hi)
    else LastBracket(t, lo, hi - 1)
  }

  /** A match of `(.+)\[(\d+)\]` from st with group 1 = t[st..j]. */
  predicate MatchAt(t: string, st: nat, j: nat) {
    st < j && j < |t| && BracketAt(t, j) && forall k :: st <= k < j ==> !LineTerminator(t[k])
  }

  /** Matcher.find: the leftmost start that admits a match, with the greedy (longest) group 1. */
  function Find(t: string, st: nat): (r: Option<(nat, nat)>)
    requires st <= |t|
    ensures r.Some? ==> st <= r.value.0 && MatchAt(t, r.value.0, r.value.1)
    ensures r.Some? ==> forall j :: r.value.1 < j ==> !MatchAt(t, r.value.0, j)
    ensures r.Some? ==> forall s0, j :: st <= s0 < r.value.0 ==> !MatchAt(t, s0, j)
    ensures r.None? ==> forall s0, j :: st <= s0 ==> !MatchAt(t, s0, j)
    decreases |t| - st
  {
    var e := Reach(t, st);
    var hi := if e < |t| then e else if |t| > 0 then |t| - 1 else 0;
    var m := LastBracket(t, st, hi);
    if m.Some? then
      assert forall j :: m.value < j ==> !MatchAt(t, st, j);
      Some((st, m.value))
    else
      assert forall j :: !MatchAt(t, st, j);
      if st == |t| then None else Find(t, st + 1)
  }

  /**
   * One segment of insertValueAt: with a match, the tag is group 1 and the
   * index is group 2 minus one (NumberFormatException past Integer.MAX_VALUE);
   * anything after the `]` is ignored. An empty tag is an illegal argument.
   */
  function ParseSegment(tok: string): (r: Result<Segment>)
    ensures r.Ok? ==> r.value.token != [] && r.value.index >= -1
  {
    match Find(tok, 0)
    case None => if tok == [] then Err(IllegalArgument) else Ok(Segment(tok, -1))
    case Some(m) => IndexedSegment(tok[m.0..m.1], GroupTwo(tok, m.1))
  }

  /** The digits of the bracket at j (group 2). */
  function GroupTwo(t: string, j: nat): (ds: string)
    requires BracketAt(t, j)
    ensures ds != [] && forall k :: 0 <= k < |ds| ==> IsDigit(ds[k])
  {
    t[j + 1..j + 1 + DigitRun(t, j + 1)]
  }

  /** Integer.parseInt on group 2, then the 1-based index made 0-based. */
  function IndexedSegment(name: string, ds: string): (r: Result<Segment>)
    requires forall k :: 0 <= k < |ds| ==> IsDigit(ds[k])
  {
    var n := DecimalValue(ds);
    if n > MaxInt then Err(NumberFormat) else Ok(Segment(name, n - 1))
  }

  /** A segment without '[' is a bare tag. */
  lemma ParsePlain(tok: string)
    requires tok != [] && '[' !in tok
    ensures ParseSegment(tok) == Ok(Segment(tok, -1))
  {

  }

  /** A match from position 0 with no bracket after it is what find() reports. */
  lemma FindAtStart(t: string, j: nat)
    requires MatchAt(t, 0, j)
    requires forall j': nat :: j < j' ==> !BracketAt(t, j')
    ensures Find(t, 0) == Some((0, j))
  {
    var e := Reach(t, 0);
    var hi := if e < |t| then e else if |t| > 0 then |t| - 1 else 0;
    var m := LastBracket(t, 0, hi);
    assert m.Some? && m.value >= j;
  }

  /** A bracketed numeral `[ds]` at position j of t: group 2 is exactly ds. */
  lemma BracketWith(t: string, j: nat, ds: string)
    requires ds != [] && forall k :: 0 <= k < |ds| ==> IsDigit(ds[k])
    requires j + 2 + |ds| <= |t| && t[j..j + 2 + |ds|] == "[" + ds + "]"
    ensures BracketAt(t, j)
    ensures DigitRun(t, j + 1) == |ds| && t[j + 1..j + 1 + |ds|] == ds
  {
    var w := "[" + ds + "]";
    assert t[j] == t[j..j + 2 + |ds|][0] == w[0] == '[';
    forall k | j + 1 <= k < j + 1 + |ds| ensures t[k] == ds[k - j - 1] {
      assert t[k] == t[j..j + 2 + |ds|][k - j] == w[k - j];
    }
    assert t[j + 1 + |ds|] == t[j..j + 2 + |ds|][1 + |ds|] == w[1 + |ds|] == ']';
    DigitRunExact(t, j + 1, |ds|);
    assert t[j + 1..j + 1 + |ds|] == ds;
  }

  /** No '[' after position j: no bracket match starts after j. */
  lemma NoBracketAfter(t: string, j: nat)
    requires forall k :: j < k < |t| ==> t[k] != '['
    ensures forall j': nat :: j < j' ==> !BracketAt(t, j')
  {
  }

  /** What ParseSegment makes of a find() result. */
  lemma ParseOfMatch(t: string, j: nat, name: string, ds: string)
    requires Find(t, 0) == Some((0, j))
    requires j + 1 + |ds| <= |t| && DigitRun(t, j + 1) == |ds|
    requires ds == t[j + 1..j + 1 + |ds|] && name == t[0..j]
    requires forall k :: 0 <= k < |ds| ==> IsDigit(ds[k])
    ensures ParseSegment(t) == IndexedSegment(name, ds)
  {
    assert GroupTwo(t, j) == ds;
  }

  /** `name` followed by `[ds]`: group 1 is the whole name and group 2 is ds. */
  lemma ParseNameBracket(t: string, name: string, ds: string)
    requires name != [] && ds != [] && forall k :: 0 <= k < |ds| ==> IsDigit(ds[k])
    requires forall k :: 0 <= k < |name| ==> !LineTerminator(name[k])
    requires t == name + "[" + ds + "]"
    ensures ParseSegment(t) == IndexedSegment(name, ds)
  {
    NameBracketFind(t, name, ds);
    ParseOfMatch(t, |name|, name, ds);
  }

  lemma NameBracketFind(t: string, name: string, ds: string)
    requires name != [] && ds != [] && forall k :: 0 <= k < |ds| ==> IsDigit(ds[k])
    requires forall k :: 0 <= k < |name| ==> !LineTerminator(name[k])
    requires t == name + "[" + ds + "]"
    ensures Find(t, 0) == Some((0, |name|)) && DigitRun(t, |name| + 1) == |ds|
    ensures t[|name| + 1..|name| + 1 + |ds|] == ds && t[0..|name|] == name
  {
    var j := |name|;
    BracketTail(t, name, ds);
    BracketWith(t, j, ds);
    NoBracketAfter(t, j);
    FindAtStart(t, j);
  }

  /** The pieces of `name[ds]`: the name in front, one '[' at |name| and none after it. */
  lemma BracketTail(t: string, name: string, ds: string)
    requires forall k :: 0 <= k < |ds| ==> IsDigit(ds[k])
    requires t == name + "[" + ds + "]"
    ensures t[0..|name|] == name && t[|name|..|name| + 2 + |ds|] == "[" + ds + "]"
    ensures forall k :: 0 <= k < |name| ==> t[k] == name[k]
    ensures forall k :: |name| < k < |t| ==> t[k] != '['
  {
    var j := |name|;
    var tail := "[" + ds + "]";
    assert t == name + tail;
    forall k | j < k < |t| ensures t[k] != '[' {
      assert t[k] == tail[k - j];
      if k - j <= |ds| {
        assert tail[k - j] == ds[k - j - 1];
      }
    }
  }

  /** `name[N]` with a line-free name and N in int range reads as (name, N-1). */
  lemma ParseIndexed(name: string, n: nat)
    requires name != [] && n <= MaxInt
    requires forall k :: 0 <= k < |name| ==> !LineTerminator(name[k])
    ensures ParseSegment(name + "[" + Decimal(n) + "]") == Ok(Segment(name, n - 1))
  {
    ParseNameBracket(name + "[" + Decimal(n) + "]", name, Decimal(n));
    DecimalRoundTrip(n);
  }

  lemma {:induction false} DigitRunExact(t: string, from: nat, d: nat)
    requires from + d < |t| && !IsDigit(t[from + d])
    requires forall k :: from <= k < from + d ==> IsDigit(t[k])
    ensures DigitRun(t, from) == d
    decreases d
  {
    if d > 0 {
      DigitRunExact(t, from + 1, d - 1);
    }
  }

  /** An index past Integer.MAX_VALUE is a number-format error. */
  lemma ParseOverflow(name: string, n: nat)
    requires name != [] && n > MaxInt
    requires forall k :: 0 <= k < |name| ==> !LineTerminator(name[k])
    ensures ParseSegment(name + "[" + Decimal(n) + "]") == Err(NumberFormat)
  {
    ParseNameBracket(name + "[" + Decimal(n) + "]", name, Decimal(n));
    DecimalRoundTrip(n);
  }

  /** The greedy group: of two bracketed numbers the last one is the index. */
  lemma ParseGreedy()
    ensures ParseSegment("x[2][3]") == Ok(Segment("x[2]", 2))
  {
    assert "x[2]" + "[" + "3" + "]" == "x[2][3]";
    ParseNameBracket("x[2][3]", "x[2]", "3");
    assert DecimalValue("3") == DecimalValue("") * 10 + DigitValue('3');
  }

  /** Text after the closing bracket is ignored. */
  lemma ParseIgnoresTail()
    ensures ParseSegment("a[2]b") == Ok(Segment("a", 1))
  {
    var t := "a[2]b";
    ExampleBracket();
    FindAtStart(t, 1);
    ParseOfMatch(t, 1, "a", "2");
    assert DecimalValue("2") == DecimalValue("") * 10 + DigitValue('2');
  }

  /** In `a[2]b` the only bracket is `[2]` at position 1. */
  lemma ExampleBracket()
    ensures MatchAt("a[2]b", 0, 1) && DigitRun("a[2]b", 2) == 1
    ensures "a[2]b"[2..3] == "2" && "a[2]b"[0..1] == "a"
    ensures forall j': nat :: 1 < j' ==> !BracketAt("a[2]b", j')
  {
    var t := "a[2]b";
    assert t[1..4] == "[" + "2" + "]";
    BracketWith(t, 1, "2");
    NoBracketAfter(t, 1);
  }

  /** `[0]` reads as index -1, the same as no index at all. */
  lemma ParseZeroIndex(name: string)
    requires name != [] && forall k :: 0 <= k < |name| ==> !LineTerminator(name[k])
    ensures ParseSegment(name + "[0]") == Ok(Segment(name, -1))
  {
    ParseIndexed(name, 0);
    assert name + "[" + Decimal(0) + "]" == name + "[0]";
  }

  /** A bracket with nothing before it is not an index: `.+` needs a character. */
  lemma ParseBareBracket()
    ensures ParseSegment("[3]") == Ok(Segment("[3]", -1))
  {
    var t := "[3]";
    forall j: nat | 0 < j ensures !BracketAt(t, j) {
      assert j < |t| ==> t[j] != '[';
    }
  }

  /** An empty segment (`a//b`) is an illegal argument. */
  lemma ParseEmptySegment()
    ensures ParseSegment("") == Err(IllegalArgument)
  {
  }
}
