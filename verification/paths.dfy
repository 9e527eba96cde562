/** Path strings: the `find` and `find_last_of` scans the managers use on them, and the
    '/'-separated components that the three path resolvers walk. */
module Paths {
  import opened Base

  const SLASH: char := '/'

  /** `s.find(c, from)`, with `|s|` standing for `npos`. */
  function Find(s: string, c: char, from: nat): (r: nat)
    requires from <= |s|
    ensures from <= r <= |s|
    ensures r < |s| ==> s[r] == c
    decreases |s| - from
  {
    if from == |s| then |s| else if s[from] == c then from else Find(s, c, from + 1)
  }

  /** `find` returns the first occurrence: no `c` lies between `from` and the answer. */
  lemma {:induction false} FindFirst(s: string, c: char, from: nat, k: nat)
    requires from <= |s| && from <= k < Find(s, c, from)
    ensures s[k] != c
    decreases |s| - from
  {
    if k > from {
      FindFirst(s, c, from + 1, k);
    }
  }

  /** `FindFirst` for every position at once. */
  lemma FindSkips(s: string, c: char, from: nat)
    requires from <= |s|
    ensures forall k :: from <= k < Find(s, c, from) ==> s[k] != c
  {
    forall k | from <= k < Find(s, c, from)
      ensures s[k] != c
    {
      FindFirst(s, c, from, k);
    }
  }

  /** `s.find_last_of(c)`, with `None` standing for `npos`. */
  function FindLast(s: string, c: char): (r: Option<nat>)
    ensures r.None? <==> c !in s
    ensures r.Some? ==> r.value < |s| && s[r.value] == c && c !in s[r.value + 1..]
  {
    if |s| == 0 then None
    else if s[|s| - 1] == c then Some(|s| - 1)
    else
      var r := FindLast(s[..|s| - 1], c);
      assert s == s[..|s| - 1] + [s[|s| - 1]];
      if r.Some? then
        assert s[r.value + 1..] == s[..|s| - 1][r.value + 1..] + [s[|s| - 1]];
        r
      else r
  }

  /** The split both `dir_create`, `file_create` and `file_rename` make of a path at its last
      '/': the parent path ("/" when the slash is the first character) and the final name.
      Without any '/', `npos + 1` wraps to 0, so both halves are the whole path. */
  function SplitLast(path: string): (r: (string, string))
    ensures SLASH !in r.1
    ensures SLASH in path ==> |r.1| < |path| && r.1 == path[|path| - |r.1|..]
    ensures SLASH in path && r.0 != "/" ==> path == r.0 + "/" + r.1
    ensures SLASH !in path ==> r == (path, path)
  {
    match FindLast(path, SLASH)
    case None => (path, path)
    case Some(k) =>
      var name := path[k + 1..];
      if k == 0 then ("/", name)
      else
        assert path == path[..k] + "/" + name;
        (path[..k], name)
  }

  /** The components of `s` between its '/' characters, empty ones included:
      "a//b" has components "a", "" and "b"; "" has the single component "". */
  function Split(s: string): (parts: seq<string>)
    ensures |parts| >= 1
    decreases |s|
  {
    var e := Find(s, SLASH, 0);
    if e == |s| then [s] else [s[..e]] + Split(s[e + 1..])
  }

  /** No component contains a '/'. */
  lemma {:induction false} SplitNoSlash(s: string)
    ensures forall i :: 0 <= i < |Split(s)| ==> SLASH !in Split(s)[i]
    decreases |s|
  {
    var e := Find(s, SLASH, 0);
    FindSkips(s, SLASH, 0);
    if e == |s| {
      assert forall k :: 0 <= k < |s| ==> s[k] != SLASH;
    } else {
      SplitNoSlash(s[e + 1..]);
      assert forall k :: 0 <= k < e ==> s[..e][k] != SLASH;
    }
  }

  /** Components put back together with '/' between them. */
  function Join(parts: seq<string>): string
    requires |parts| >= 1
  {
    if |parts| == 1 then parts[0] else parts[0] + "/" + Join(parts[1..])
  }

  /** Splitting loses nothing: joining the components gives the string back. */
  lemma {:induction false} JoinSplit(s: string)
    ensures Join(Split(s)) == s
    decreases |s|
  {
    var e := Find(s, SLASH, 0);
    if e < |s| {
      JoinSplit(s[e + 1..]);
      var parts := Split(s);
      assert parts[1..] == Split(s[e + 1..]);
      assert s == s[..e] + "/" + s[e + 1..];
    }
  }

  /** The first component of a string starting with `a` followed by '/', when `a` has no '/'. */
  lemma FindPrefix(a: string, b: string)
    requires SLASH !in a
    ensures Find(a + "/" + b, SLASH, 0) == |a|
  {
    var s := a + "/" + b;
    assert s[|a|] == SLASH;
    assert forall k :: 0 <= k < |a| ==> s[k] == a[k];
    FindUpTo(s, SLASH, 0, |a|);
  }

  /** Components without '/' are recovered from their join. */
  lemma {:induction false} SplitJoin(parts: seq<string>)
    requires |parts| >= 1
    requires forall i :: 0 <= i < |parts| ==> SLASH !in parts[i]
    ensures Split(Join(parts)) == parts
    decreases |parts|
  {
    if |parts| == 1 {
      var s := parts[0];
      var e := Find(s, SLASH, 0);
      if e < |s| {
        assert s[e] in s;
      }
    } else {
      var rest := Join(parts[1..]);
      var s := parts[0] + "/" + rest;
      FindPrefix(parts[0], rest);
      assert s[..|parts[0]|] == parts[0];
      assert s[|parts[0]| + 1..] == rest;
      SplitJoin(parts[1..]);
    }
  }

  /** The loop step the resolvers take: the components of `s[start..]` are the text up to the
      next '/' (or the end) followed by the components after that '/'. */
  lemma SplitFrom(s: string, start: nat)
    requires start <= |s|
    ensures var e := Find(s, SLASH, start);
            if e == |s| then Split(s[start..]) == [s[start..]]
            else Split(s[start..]) == [s[start..e]] + Split(s[e + 1..])
  {
    var e := Find(s, SLASH, start);
    var t := s[start..];
    var f := Find(t, SLASH, 0);
    FindSkips(s, SLASH, start);
    FindSkips(t, SLASH, 0);
    if e < |s| {
      assert t[e - start] == s[e];
      assert f == e - start;
      assert t[..f] == s[start..e];
      assert t[f + 1..] == s[e + 1..];
    } else {
      assert f == |t|;
    }
  }

  /** The components with the empty ones dropped: the walk `dir_manager` makes. */
  function NonEmpty(parts: seq<string>): (r: seq<string>)
    ensures |r| <= |parts|
    ensures forall i :: 0 <= i < |r| ==> r[i] != [] && r[i] in parts
  {
    if parts == [] then []
    else if parts[0] == [] then NonEmpty(parts[1..])
    else [parts[0]] + NonEmpty(parts[1..])
  }

  /** The components before the first empty one: the walk `file_manager` makes. */
  function TakeUntilEmpty(parts: seq<string>): (r: seq<string>)
    ensures |r| <= |parts| && r == parts[..|r|]
    ensures forall i :: 0 <= i < |r| ==> r[i] != []
    ensures |r| < |parts| ==> parts[|r|] == []
  {
    if parts == [] || parts[0] == [] then []
    else [parts[0]] + TakeUntilEmpty(parts[1..])
  }

  /** One component in front: an empty one ends the names, any other is kept. */
  lemma TakeUntilEmptyCons(part: string, rest: seq<string>)
    ensures TakeUntilEmpty([part] + rest) == if part == [] then [] else [part] + TakeUntilEmpty(rest)
  {
    assert ([part] + rest)[1..] == rest;
  }

  /** The components with one trailing empty component dropped: the walk `metadata` makes. */
  function DropTrailingEmpty(parts: seq<string>): (r: seq<string>)
    ensures r == parts || (r + [[]] == parts)
    ensures |parts| > 0 && parts[|parts| - 1] == [] ==> |r| == |parts| - 1
  {
    if |parts| > 0 && parts[|parts| - 1] == [] then parts[..|parts| - 1] else parts
  }

  /** Only the very last component can be dropped, so a leading one always survives. */
  lemma DropTrailingEmptyCons(x: string, rest: seq<string>)
    requires |rest| > 0
    ensures DropTrailingEmpty([x] + rest) == [x] + DropTrailingEmpty(rest)
  {
    var p := [x] + rest;
    assert p[|p| - 1] == rest[|rest| - 1];
    if rest[|rest| - 1] == [] {
      assert p[..|p| - 1] == [x] + rest[..|rest| - 1];
    }
  }

  lemma {:induction false} NonEmptyAppend(p: seq<string>, q: seq<string>)
    ensures NonEmpty(p + q) == NonEmpty(p) + NonEmpty(q)
    decreases |p|
  {
    if p != [] {
      assert (p + q)[1..] == p[1..] + q;
      NonEmptyAppend(p[1..], q);
    } else {
      assert p + q == q;
    }
  }

  /** A '/' between two strings separates their components. */
  lemma {:induction false} SplitSep(a: string, b: string)
    ensures Split(a + "/" + b) == Split(a) + Split(b)
    decreases |a|
  {
    var e := Find(a, SLASH, 0);
    if e < |a| {
      SplitSep(a[e + 1..], b);
      SplitSepStep(a, b, e);
    } else {
      var s := a + "/" + b;
      FindSkips(a, SLASH, 0);
      FindPrefix(a, b);
      assert s[..|a|] == a;
      assert s[|a| + 1..] == b;
    }
  }

  /** The inductive step of `SplitSep`: the first component of `a` comes first either way. */
  lemma SplitSepStep(a: string, b: string, e: nat)
    requires e < |a| && e == Find(a, SLASH, 0)
    requires Split(a[e + 1..] + "/" + b) == Split(a[e + 1..]) + Split(b)
    ensures Split(a + "/" + b) == Split(a) + Split(b)
  {
    FindBeforeSep(a, b, e);
    CutBeforeSep(a, b, e);
    SplitStep(a + "/" + b, e);
    SplitStep(a, e);
    ConsRegroup(Split(a + "/" + b), a[..e], Split(a[e + 1..] + "/" + b), Split(a[e + 1..]), Split(b), Split(a));
  }

  /** Regrouping `[x] + (p + q)` as `([x] + p) + q`, stated on names for the parts. */
  lemma ConsRegroup(l: seq<string>, x: string, m: seq<string>, p: seq<string>, q: seq<string>, r: seq<string>)
    requires l == [x] + m && m == p + q && r == [x] + p
    ensures l == r + q
  {
  }

  /** Appending after a '/' does not move the first '/' of a string that has one. */
  lemma FindBeforeSep(a: string, b: string, e: nat)
    requires e < |a| && e == Find(a, SLASH, 0)
    ensures Find(a + "/" + b, SLASH, 0) == e
  {
    var s := a + "/" + b;
    assert forall k :: 0 <= k < e ==> s[k] == a[k];
    FindSkips(a, SLASH, 0);
    FindSame(a, s, e);
  }

  /** Cutting `a + "/" + b` around a position inside `a`. */
  lemma CutBeforeSep(a: string, b: string, e: nat)
    requires e < |a|
    ensures (a + "/" + b)[..e] == a[..e]
    ensures (a + "/" + b)[e + 1..] == a[e + 1..] + "/" + b
  {
  }

  /** Unfolding `Split` once at the first '/'. */
  lemma SplitStep(s: string, e: nat)
    requires e < |s| && e == Find(s, SLASH, 0)
    ensures Split(s) == [s[..e]] + Split(s[e + 1..])
  {
  }

  /** `Find` only looks up to the first match, so strings agreeing that far agree on it. */
  lemma FindSame(a: string, s: string, e: nat)
    requires e < |a| && e < |s| && a[e] == SLASH && s[e] == SLASH
    requires forall k :: 0 <= k < e ==> s[k] == a[k]
    requires forall k :: 0 <= k < e ==> a[k] != SLASH
    ensures Find(a, SLASH, 0) == e && Find(s, SLASH, 0) == e
  {
    FindUpTo(a, SLASH, 0, e);
    FindUpTo(s, SLASH, 0, e);
  }

  /** With no `c` before position `e` and one at `e`, `find` answers `e`. */
  lemma {:induction false} FindUpTo(s: string, c: char, from: nat, e: nat)
    requires from <= e < |s| && s[e] == c
    requires forall k :: from <= k < e ==> s[k] != c
    ensures Find(s, c, from) == e
    decreases e - from
  {
    if from < e {
      FindUpTo(s, c, from + 1, e);
    }
  }

  /** Components of a string with no '/': the string itself. */
  lemma SplitPlain(s: string)
    requires SLASH !in s
    ensures Split(s) == [s]
  {
  }

  /** An absolute path none of whose components is empty: no "//" and no trailing '/'. */
  predicate Clean(path: string)
  {
    |path| > 1 && path[0] == SLASH && forall i :: 0 <= i < |Split(path[1..])| ==> Split(path[1..])[i] != []
  }

  /** On a clean path the three ways of picking components agree: nothing is skipped, nothing
      stops early, and there is no trailing empty component. */
  lemma CleanComponents(path: string)
    requires Clean(path)
    ensures var parts := Split(path[1..]);
            NonEmpty(parts) == parts && TakeUntilEmpty(parts) == parts && DropTrailingEmpty(parts) == parts
  {
    var parts := Split(path[1..]);
    NonEmptyAll(parts);
  }

  lemma {:induction false} NonEmptyAll(parts: seq<string>)
    requires forall i :: 0 <= i < |parts| ==> parts[i] != []
    ensures NonEmpty(parts) == parts
  {
    if parts != [] {
      assert parts[0] != [];
      NonEmptyAll(parts[1..]);
    }
  }

  /** The components of an absolute path are those of its parent path (as `SplitLast` cuts it)
      followed by its last name; for a name straight below "/" the parent contributes none. */
  lemma SplitLastComponents(path: string)
    requires |path| > 0 && path[0] == SLASH
    ensures var (parent, name) := SplitLast(path);
            && |parent| > 0 && parent[0] == SLASH
            && (parent == "/" ==> path == "/" + name || path == "//" + name)
            && Split(path[1..]) == (if path == "/" + name then [] else Split(parent[1..])) + [name]
  {
    var (parent, name) := SplitLast(path);
    assert path[0] in path;
    var k := FindLast(path, SLASH).value;
    assert name == path[k + 1..];
    SplitPlain(name);
    if k == 0 {
      assert parent == "/" && path == "/" + name;
      assert path[1..] == name;
    } else {
      assert parent == path[..k] && parent[0] == SLASH && parent[1..] == path[1..k];
      assert k == 1 ==> path == "//" + name;
      SplitAtInnerSlash(path, k);
    }
  }

  /** Cutting an absolute path at a '/' after its first character, with no '/' after it. */
  lemma SplitAtInnerSlash(path: string, k: nat)
    requires 0 < k < |path| && path[0] == SLASH && path[k] == SLASH && SLASH !in path[k + 1..]
    ensures path != "/" + path[k + 1..]
    ensures Split(path[1..]) == Split(path[1..k]) + [path[k + 1..]]
  {
    var name := path[k + 1..];
    assert |path| != |name| + 1;
    assert path[1..] == path[1..k] + "/" + name;
    SplitSep(path[1..k], name);
    SplitPlain(name);
  }

  /** The first empty component ends the file resolver's walk, whatever follows it. */
  lemma {:induction false} TakeUntilEmptyStops(p: seq<string>, rest: seq<string>)
    ensures TakeUntilEmpty(p + [[]] + rest) == TakeUntilEmpty(p)
    decreases |p|
  {
    if p != [] {
      assert (p + [[]] + rest)[1..] == p[1..] + [[]] + rest;
      TakeUntilEmptyStops(p[1..], rest);
    }
  }

  /** Non-empty leading components are all taken. */
  lemma {:induction false} TakeUntilEmptyAppend(p: seq<string>, rest: seq<string>)
    requires forall i :: 0 <= i < |p| ==> p[i] != []
    ensures TakeUntilEmpty(p + rest) == p + TakeUntilEmpty(rest)
    decreases |p|
  {
    if p != [] {
      var q := p + rest;
      assert q[0] == p[0] != [] && q[1..] == p[1..] + rest;
      assert TakeUntilEmpty(p[1..] + rest) == p[1..] + TakeUntilEmpty(rest) by {
        assert forall i :: 0 <= i < |p[1..]| ==> p[1..][i] == p[i + 1];
        TakeUntilEmptyAppend(p[1..], rest);
      }
      assert p == [p[0]] + p[1..];
    } else {
      assert p + rest == rest;
    }
  }

  /** A doubled slash puts one empty component between the two sides. */
  lemma SplitDoubleSlash(a: string, b: string)
    ensures Split(a + "//" + b) == Split(a) + [""] + Split(b)
  {
    var r := "/" + b;
    assert a + "//" + b == a + "/" + r;
    SplitSep(a, r);
    SplitEmptyFirst(b);
  }

  /** Once empty components are dropped, a doubled slash is a single one. */
  lemma NonEmptySkipsDouble(a: string, b: string)
    ensures NonEmpty(Split(a + "//" + b)) == NonEmpty(Split(a + "/" + b))
  {
    SplitDoubleSlash(a, b);
    SplitSep(a, b);
    NonEmptyDropsEmpty(Split(a), Split(b));
  }

  /** An empty component between two runs of components is dropped. */
  lemma NonEmptyDropsEmpty(x: seq<string>, y: seq<string>)
    ensures NonEmpty(x + [""] + y) == NonEmpty(x + y)
  {
    assert NonEmpty(x + [""]) == NonEmpty(x) by {
      NonEmptyAppend(x, [""]);
      assert NonEmpty([""]) == [];
    }
    NonEmptyAppend(x + [""], y);
    NonEmptyAppend(x, y);
  }

  lemma SplitEmptyFirst(b: string)
    ensures Split("/" + b) == [""] + Split(b)
  {
    assert "/" + b == "" + "/" + b;
    SplitSep("", b);
    SplitPlain("");
  }

  /** The name `SplitLast` cuts off a NUL-free path is NUL-free. */
  lemma SplitLastNulFree(path: string)
    requires forall i :: 0 <= i < |path| ==> path[i] != '\0'
    ensures forall i :: 0 <= i < |SplitLast(path).1| ==> SplitLast(path).1[i] != '\0'
  {
    var name := SplitLast(path).1;
    forall i | 0 <= i < |name|
      ensures name[i] != '\0'
    {
      assert name[i] == path[|path| - |name| + i];
    }
  }
}
