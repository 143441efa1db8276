/** Go's `filepath.Clean`, `filepath.Join` and `filepath.Rel` on Unix paths.
    A string is read into a `Path`: whether it is rooted, and its elements
    after Clean's rules (empty and `.` elements dropped, `..` cancelling the
    element before it, `..` at the root dropped, `..` kept only as a leading
    run of a relative path). `Render` writes a Path back as Clean does, so
    `Clean(s) == Render(Parse(s))`, and Join and Rel are stated on Paths. */
module FilePaths {
  import opened Results
  import opened Strings

  datatype Path = Path(rooted: bool, elems: seq<string>)

  const Parent := ".."

  /** An element of a cleaned path. */
  predicate IsElem(e: string) {
    |e| > 0 && '/' !in e && e != "."
  }

  /** The shape `filepath.Clean` produces. */
  predicate IsClean(p: Path) {
    && (forall i | 0 <= i < |p.elems| :: IsElem(p.elems[i]))
    && (p.rooted ==> Parent !in p.elems)
    && (forall i, j | 0 <= i < j < |p.elems| && p.elems[j] == Parent :: p.elems[i] == Parent)
  }

  /** Raw elements, as splitting at the separator yields them. */
  predicate NoSlash(parts: seq<string>) {
    forall i | 0 <= i < |parts| :: '/' !in parts[i]
  }

  /** Clean's treatment of one raw element. */
  function Push(rooted: bool, acc: seq<string>, e: string): (r: seq<string>)
    requires IsClean(Path(rooted, acc))
    requires '/' !in e
    ensures IsClean(Path(rooted, r))
  {
    if e == "" || e == "." then acc
    else if e == Parent then
      if |acc| > 0 && acc[|acc| - 1] != Parent then acc[..|acc| - 1]
      else if rooted then acc
      else
        assert forall i | 0 <= i < |acc| :: acc[i] == Parent by {
          forall i | 0 <= i < |acc| ensures acc[i] == Parent {
            assert acc[|acc| - 1] == Parent;
          }
        }
        acc + [Parent]
    else
      acc + [e]
  }

  /** Clean's treatment of a sequence of raw elements. */
  function PushAll(rooted: bool, acc: seq<string>, parts: seq<string>): (r: seq<string>)
    requires IsClean(Path(rooted, acc))
    requires NoSlash(parts)
    ensures IsClean(Path(rooted, r))
    decreases |parts|
  {
    if |parts| == 0 then acc
    else PushAll(rooted, Push(rooted, acc, parts[0]), parts[1..])
  }

  /** Whether a path string is rooted: it begins with the separator. */
  predicate IsAbsolute(s: string) {
    |s| > 0 && s[0] == '/'
  }

  /** Reads a path string as Clean sees it. */
  function Parse(s: string): (p: Path)
    ensures IsClean(p)
    ensures p.rooted <==> IsAbsolute(s)
  {
    Path(IsAbsolute(s), PushAll(IsAbsolute(s), [], Split(s, '/')))
  }

  /** Writes a cleaned path; the empty relative path is ".". */
  function Render(p: Path): string {
    if p.rooted then "/" + JoinWith(p.elems, '/')
    else if |p.elems| == 0 then "."
    else JoinWith(p.elems, '/')
  }

  /** `filepath.Clean`. */
  function Clean(s: string): (r: string)
    ensures |r| > 0
    ensures Parse(r) == Parse(s)
    ensures IsAbsolute(r) <==> IsAbsolute(s)
  {
    RenderNonEmpty(Parse(s));
    ParseRender(Parse(s));
    Render(Parse(s))
  }

  /** `filepath.Join(a, b)`: the non-empty arguments joined by the separator
      and cleaned; "" when both are empty. */
  function Join(a: string, b: string): (r: string)
    ensures r == "" <==> a == "" && b == ""
  {
    if a != "" then Clean(a + "/" + b)
    else if b != "" then Clean(b)
    else ""
  }

  /** Length of the longest common prefix of two element lists. */
  function CommonPrefix(a: seq<string>, b: seq<string>): (k: nat)
    ensures k <= |a| && k <= |b|
    ensures a[..k] == b[..k]
    ensures k < |a| && k < |b| ==> a[k] != b[k]
    decreases |a|
  {
    if |a| == 0 || |b| == 0 || a[0] != b[0] then 0
    else
      var k := CommonPrefix(a[1..], b[1..]);
      assert a[..k + 1] == [a[0]] + a[1..][..k];
      assert b[..k + 1] == [b[0]] + b[1..][..k];
      k + 1
  }

  /** `n` parent elements. */
  function Parents(n: nat): (r: seq<string>)
    ensures |r| == n
    ensures forall i | 0 <= i < n :: r[i] == Parent
  {
    seq(n, i => Parent)
  }

  /** `filepath.Rel` on cleaned paths: one `..` for each element of `base`
      past the common prefix, then the rest of `targ`. It fails when one path
      is rooted and the other is not, or when the part of `base` to climb out
      of begins with `..`. */
  function RelPath(base: Path, targ: Path): (r: Option<Path>)
    requires IsClean(base) && IsClean(targ)
    ensures r.Some? ==> IsClean(r.value) && !r.value.rooted
    ensures base.rooted != targ.rooted ==> r.None?
  {
    if base.rooted != targ.rooted then None
    else
      var k := CommonPrefix(base.elems, targ.elems);
      if k < |base.elems| && base.elems[k] == Parent then None
      else
        var up := Parents(|base.elems| - k);
        var down := targ.elems[k..];
        var r := up + down;
        assert forall i | 0 <= i < |r| :: IsElem(r[i]) by {
          forall i | 0 <= i < |r| ensures IsElem(r[i]) {
            if i >= |up| { assert r[i] == targ.elems[k + i - |up|]; }
          }
        }
        assert forall i, j | 0 <= i < j < |r| && r[j] == Parent :: r[i] == Parent by {
          forall i, j | 0 <= i < j < |r| && r[j] == Parent ensures r[i] == Parent {
            if i >= |up| {
              assert r[j] == targ.elems[k + j - |up|];
              assert r[i] == targ.elems[k + i - |up|];
            }
          }
        }
        Some(Path(false, r))
  }

  /** `filepath.Rel(basepath, targpath)`; `None` stands for Go's error. */
  function Rel(basepath: string, targpath: string): (r: Option<string>)
    ensures IsAbsolute(basepath) != IsAbsolute(targpath) ==> r.None?
    ensures r.Some? ==> !IsAbsolute(r.value) && Clean(r.value) == r.value
  {
    match RelPath(Parse(basepath), Parse(targpath))
    case None => None
    case Some(p) =>
      ParseRender(p);
      Some(Render(p))
  }

  // ---------------------------------------------------------------------
  // Facts about Clean
  // ---------------------------------------------------------------------

  lemma {:induction false} PushAllAppend(rooted: bool, acc: seq<string>, x: seq<string>, y: seq<string>)
    requires IsClean(Path(rooted, acc))
    requires NoSlash(x) && NoSlash(y)
    ensures PushAll(rooted, acc, x + y) == PushAll(rooted, PushAll(rooted, acc, x), y)
    decreases |x|
  {
    if |x| > 0 {
      assert (x + y)[0] == x[0] && (x + y)[1..] == x[1..] + y;
      PushAllAppend(rooted, Push(rooted, acc, x[0]), x[1..], y);
    } else {
      assert x + y == y;
    }
  }

  /** Cleaning elements that are already clean appends them unchanged. */
  lemma {:induction false} PushAllClean(rooted: bool, acc: seq<string>, rest: seq<string>)
    requires IsClean(Path(rooted, acc + rest))
    ensures IsClean(Path(rooted, acc)) && NoSlash(rest)
    ensures PushAll(rooted, acc, rest) == acc + rest
    decreases |rest|
  {
    var all := acc + rest;
    assert forall i | 0 <= i < |acc| :: acc[i] == all[i];
    assert forall i | 0 <= i < |rest| :: rest[i] == all[|acc| + i];
    assert IsClean(Path(rooted, acc));
    if |rest| > 0 {
      var e := rest[0];
      assert e == all[|acc|];
      assert acc + [e] + rest[1..] == all;
      if e == Parent {
        assert !rooted;
        assert forall i | 0 <= i < |acc| :: acc[i] == Parent;
        assert Push(rooted, acc, e) == acc + [e];
      } else {
        assert Push(rooted, acc, e) == acc + [e];
      }
      PushAllClean(rooted, acc + [e], rest[1..]);
    } else {
      assert acc + rest == acc;
    }
  }

  /** Reading back a rendered clean rooted path gives the path. */
  lemma ParseRenderRooted(p: Path)
    requires IsClean(p) && p.rooted
    ensures Parse(Render(p)) == p
  {
    var body := JoinWith(p.elems, '/');
    var s := Render(p);
    assert s == "" + ['/'] + body;
    SplitAround("", '/', body);
    if |p.elems| == 0 {
      assert Split("", '/') == [""];
      assert Split(s, '/') == ["", ""];
      assert ["", ""][1..] == [""];
      assert PushAll(true, [], [""]) == [];
    } else {
      SplitJoin(p.elems, '/');
      assert Split(s, '/') == [""] + p.elems;
      PushAllAppend(true, [], [""], p.elems);
      PushAllClean(true, [], p.elems);
      assert [] + p.elems == p.elems;
    }
  }

  /** Reading back a rendered clean relative path gives the path. */
  lemma ParseRenderRelative(p: Path)
    requires IsClean(p) && !p.rooted
    ensures Parse(Render(p)) == p
  {
    var s := Render(p);
    if |p.elems| == 0 {
      SplitWithoutSeparator(".", '/');
    } else {
      SplitJoin(p.elems, '/');
      PushAllClean(false, [], p.elems);
      assert [] + p.elems == p.elems;
      assert s[0] == p.elems[0][0] by {
        if |p.elems| > 1 { assert s == p.elems[0] + ['/'] + JoinWith(p.elems[1..], '/'); }
      }
      assert p.elems[0][0] != '/' by { assert p.elems[0][0] in p.elems[0]; }
    }
  }

  /** Reading back a rendered clean path gives the path. */
  lemma ParseRender(p: Path)
    requires IsClean(p)
    ensures Parse(Render(p)) == p
  {
    if p.rooted { ParseRenderRooted(p); } else { ParseRenderRelative(p); }
  }

  /** Cleaning is idempotent. */
  lemma CleanIdempotent(s: string)
    ensures Clean(Clean(s)) == Clean(s)
  {
    ParseRender(Parse(s));
  }

  /** The elements of `a/b` are those of `a` followed by the raw parts of `b`. */
  lemma ParseSlash(a: string, b: string)
    requires a != ""
    ensures Parse(a + "/" + b) ==
      Path(IsAbsolute(a), PushAll(IsAbsolute(a), Parse(a).elems, Split(b, '/')))
  {
    var s := a + "/" + b;
    assert s == a + ['/'] + b;
    assert s[0] == a[0];
    SplitAround(a, '/', b);
    PushAllAppend(IsAbsolute(a), [], Split(a, '/'), Split(b, '/'));
  }

  /** Once a relative accumulator begins with `..`, it keeps it. */
  lemma {:induction false} LeadingParentStays(acc: seq<string>, parts: seq<string>)
    requires IsClean(Path(false, acc))
    requires NoSlash(parts)
    requires |acc| > 0 && acc[0] == Parent
    ensures |PushAll(false, acc, parts)| > 0 && PushAll(false, acc, parts)[0] == Parent
    decreases |parts|
  {
    if |parts| > 0 {
      var next := Push(false, acc, parts[0]);
      assert |next| > 0 && next[0] == Parent;
      LeadingParentStays(next, parts[1..]);
    }
  }

  /** Raw parts whose own cleaning has no `..` descend from any accumulator
      without touching it. */
  lemma {:induction false} DescendFrom(rooted: bool, acc: seq<string>, acc2: seq<string>, parts: seq<string>)
    requires IsClean(Path(rooted, acc + acc2)) && IsClean(Path(false, acc2))
    requires NoSlash(parts)
    requires Parent !in acc2
    requires Parent !in PushAll(false, acc2, parts)
    ensures PushAll(rooted, acc + acc2, parts) == acc + PushAll(false, acc2, parts)
    decreases |parts|
  {
    if |parts| > 0 {
      var e := parts[0];
      if e == Parent && |acc2| == 0 {
        assert Push(false, acc2, e) == [Parent];
        LeadingParentStays([Parent], parts[1..]);
        assert false;
      } else {
        var next2 := Push(false, acc2, e);
        if e == Parent {
          assert acc2[|acc2| - 1] != Parent;
          assert (acc + acc2)[..|acc + acc2| - 1] == acc + acc2[..|acc2| - 1];
        } else if e != "" && e != "." {
          assert acc + acc2 + [e] == acc + (acc2 + [e]);
        }
        assert Push(rooted, acc + acc2, e) == acc + next2;
        assert Parent !in next2;
        DescendFrom(rooted, acc, next2, parts[1..]);
      }
    } else {
      assert PushAll(false, acc2, parts) == acc2;
    }
  }

  // ---------------------------------------------------------------------
  // The `../` test of the event handler
  // ---------------------------------------------------------------------

  /** On a clean relative path, the string tests the event handler can make
      are tests of its first element. */
  lemma EscapeTests(p: Path)
    requires IsClean(p) && !p.rooted
    ensures HasPrefix(Render(p), "../") <==> |p.elems| >= 2 && p.elems[0] == Parent
    ensures Render(p) == Parent <==> p.elems == [Parent]
  {
    var s := Render(p);
    if |p.elems| == 0 {
      assert s == ".";
    } else if |p.elems| == 1 {
      assert s == p.elems[0];
      assert '/' !in s;
      assert !HasPrefix(s, "../") by {
        if |s| >= 3 { assert s[2] in s; assert s[..3][2] == s[2]; }
      }
    } else {
      var e := p.elems[0];
      var tail := JoinWith(p.elems[1..], '/');
      assert s == e + ['/'] + tail;
      assert s[|e|] == '/';
      assert '/' !in e;
      if e == Parent {
        assert s[..3] == "../";
      } else {
        assert !HasPrefix(s, "../") by {
          if |e| >= 3 {
            assert s[2] == e[2] && e[2] != '/';
          } else if |e| == 2 {
            assert s[..2] == e;
          } else {
            assert s[1] == '/';
          }
        }
      }
    }
  }

  // ---------------------------------------------------------------------
  // Sub-paths under a root
  // ---------------------------------------------------------------------

  /** A sub-path as the replica protocol sends it: relative, and not climbing
      above the root once cleaned. "" stands for the root itself. */
  predicate IsSubPath(bp: string) {
    !IsAbsolute(bp) && Parent !in Parse(bp).elems
  }

  /** Joining a rooted path and a sub-path appends the sub-path's elements. */
  lemma JoinSubPath(root: string, bp: string)
    requires IsAbsolute(root) && IsSubPath(bp)
    ensures Parse(Join(root, bp)) == Path(true, Parse(root).elems + Parse(bp).elems)
  {
    var r := Parse(root).elems;
    ParseSlash(root, bp);
    ParseRender(Parse(root + "/" + bp));
    assert r + [] == r;
    DescendFrom(true, r, [], Split(bp, '/'));
    assert IsClean(Path(true, r + Parse(bp).elems)) by {
      assert Parse(root + "/" + bp).elems == r + Parse(bp).elems;
    }
  }

  /** A rendered clean path is never the empty string. */
  lemma RenderNonEmpty(p: Path)
    requires IsClean(p)
    ensures |Render(p)| > 0
  {
    if !p.rooted && |p.elems| > 1 {
      assert Render(p) == p.elems[0] + ['/'] + JoinWith(p.elems[1..], '/');
    }
  }

  /** Pushing the pieces of a rendered relative path pushes its elements. */
  lemma PushRendered(b: seq<string>, p: Path)
    requires IsClean(Path(false, b)) && IsClean(p) && !p.rooted
    ensures PushAll(false, b, Split(Render(p), '/')) == PushAll(false, b, p.elems)
  {
    if |p.elems| == 0 {
      SplitWithoutSeparator(".", '/');
    } else {
      SplitJoin(p.elems, '/');
      assert Split(Render(p), '/') == p.elems;
    }
  }

  /** Joining a relative path and a rendered relative path cleans the
      concatenation of their elements. */
  lemma JoinRendered(bp: string, p: Path)
    requires !IsAbsolute(bp)
    requires IsClean(p) && !p.rooted
    ensures Join(bp, Render(p)) == Render(Path(false, PushAll(false, Parse(bp).elems, p.elems)))
  {
    var rel := Render(p);
    var b := Parse(bp).elems;
    RenderNonEmpty(p);
    PushRendered(b, p);
    if bp == "" {
      ParseRender(p);
      PushAllClean(false, [], p.elems);
      assert [] + p.elems == p.elems;
      assert Split("", '/') == [""];
      assert b == [];
    } else {
      ParseSlash(bp, rel);
    }
  }

  /** The common prefix is determined by its three defining facts. */
  lemma CommonPrefixIs(a: seq<string>, b: seq<string>, m: nat)
    requires m <= |a| && m <= |b| && a[..m] == b[..m]
    requires m < |a| && m < |b| ==> a[m] != b[m]
    ensures CommonPrefix(a, b) == m
  {
  }

  /** Relative to a prefix, a rooted path is its remaining elements. */
  lemma RelBelow(prefix: seq<string>, e: Path)
    requires IsClean(e) && e.rooted
    requires IsClean(Path(true, prefix))
    requires |prefix| <= |e.elems| && e.elems[..|prefix|] == prefix
    ensures RelPath(Path(true, prefix), e) == Some(Path(false, e.elems[|prefix|..]))
  {
    CommonPrefixIs(prefix, e.elems, |prefix|);
    assert Parents(0) + e.elems[|prefix|..] == e.elems[|prefix|..];
  }

  /** The prefix of a clean path is clean. */
  lemma CleanPrefix(rooted: bool, r: seq<string>, b: seq<string>)
    requires IsClean(Path(rooted, r + b))
    ensures IsClean(Path(rooted, r))
    ensures rooted ==> IsClean(Path(false, b))
  {
    assert forall i | 0 <= i < |r| :: r[i] == (r + b)[i];
    assert forall i | 0 <= i < |b| :: b[i] == (r + b)[|r| + i];
  }

  /** The event lies within root/bp: relative to the root it is bp followed
      by the event relative to root/bp. */
  lemma MatchedWithin(r: seq<string>, b: seq<string>, t: seq<string>, e: Path)
    requires IsClean(e) && e.rooted && e.elems == r + b + t
    ensures IsClean(Path(true, r)) && IsClean(Path(false, b)) && NoSlash(t)
    ensures PushAll(false, b, t) == b + t
    ensures RelPath(Path(true, r), e) == Some(Path(false, b + t))
  {
    assert e.elems == r + (b + t);
    CleanPrefix(true, r, b + t);
    assert e.elems[..|r|] == r;
    RelBelow(r, e);
    assert e.elems[|r|..] == b + t;
    PushAllClean(false, b, t);
  }

  /** The event is the parent of root/bp, with bp non-empty: relative to the
      root it is bp without its last element. */
  lemma MatchedParentOfSubPath(r: seq<string>, b: seq<string>, e: Path)
    requires IsClean(Path(true, r + b)) && IsClean(e) && e.rooted
    requires |b| > 0 && e.elems == (r + b)[..|r + b| - 1]
    ensures IsClean(Path(true, r)) && IsClean(Path(false, b))
    ensures RelPath(Path(true, r), e) == Some(Path(false, PushAll(false, b, [Parent])))
  {
    CleanPrefix(true, r, b);
    var f := r + b;
    assert e.elems[..|r|] == r;
    RelBelow(r, e);
    assert e.elems[|r|..] == b[..|b| - 1];
    assert b[|b| - 1] in f;
    assert Push(false, b, Parent) == b[..|b| - 1];
  }

  /** The event is the parent of the root itself, with bp empty. */
  lemma MatchedParentOfRoot(r: seq<string>, e: Path)
    requires IsClean(Path(true, r)) && IsClean(e) && e.rooted
    requires |r| > 0 && e.elems == r[..|r| - 1]
    ensures RelPath(Path(true, r), e) == Some(Path(false, PushAll(false, [], [Parent])))
  {
    var k := |r| - 1;
    assert e.elems[..k] == r[..k];
    CommonPrefixIs(r, e.elems, k);
    assert r[k] in r;
    assert r[k] != Parent;
    assert e.elems[k..] == [];
    assert Parents(1) + e.elems[k..] == [Parent];
    assert Push(false, [], Parent) == [Parent];
    assert PushAll(false, [], [Parent]) == PushAll(false, [Parent], []);
  }

  /** The elements of a relative path that Rel produces. */
  lemma RelPathElems(base: Path, targ: Path)
    requires IsClean(base) && IsClean(targ)
    requires RelPath(base, targ).Some?
    ensures var k := CommonPrefix(base.elems, targ.elems);
      RelPath(base, targ).value.elems == Parents(|base.elems| - k) + targ.elems[k..]
  {
  }

  /** The path-level core of the next lemma: whichever sub-path matched, the
      event relative to the root is bp's elements cleaned together with the
      event relative to root/bp. */
  lemma MatchedPathElems(r: seq<string>, b: seq<string>, e: Path, p: Path)
    requires IsClean(Path(true, r + b)) && IsClean(e) && e.rooted
    requires RelPath(Path(true, r + b), e) == Some(p)
    requires !(|p.elems| >= 2 && p.elems[0] == Parent)
    ensures IsClean(Path(true, r)) && IsClean(Path(false, b)) && NoSlash(p.elems)
    ensures RelPath(Path(true, r), e) == Some(Path(false, PushAll(false, b, p.elems)))
  {
    var k := CommonPrefix(r + b, e.elems);
    RelPathElems(Path(true, r + b), e);
    if k == |r + b| {
      MatchedBelow(r, b, e, p);
    } else {
      MatchedAbove(r, b, e, p, k);
    }
  }

  /** The case of the previous lemma where the event lies within root/bp. */
  lemma MatchedBelow(r: seq<string>, b: seq<string>, e: Path, p: Path)
    requires IsClean(e) && e.rooted
    requires |r + b| <= |e.elems| && e.elems[..|r + b|] == r + b
    requires p.elems == Parents(0) + e.elems[|r + b|..]
    ensures IsClean(Path(true, r)) && IsClean(Path(false, b)) && NoSlash(p.elems)
    ensures RelPath(Path(true, r), e) == Some(Path(false, PushAll(false, b, p.elems)))
  {
    var t := e.elems[|r + b|..];
    assert p.elems == t;
    assert e.elems == r + b + t;
    MatchedWithin(r, b, t, e);
  }

  /** The case of the previous lemma where the event lies above root/bp. */
  lemma MatchedAbove(r: seq<string>, b: seq<string>, e: Path, p: Path, k: nat)
    requires IsClean(Path(true, r + b)) && IsClean(e) && e.rooted
    requires k == CommonPrefix(r + b, e.elems) && k < |r + b|
    requires p.elems == Parents(|r + b| - k) + e.elems[k..]
    requires !(|p.elems| >= 2 && p.elems[0] == Parent)
    ensures IsClean(Path(true, r)) && IsClean(Path(false, b)) && NoSlash(p.elems)
    ensures RelPath(Path(true, r), e) == Some(Path(false, PushAll(false, b, p.elems)))
  {
    CleanPrefix(true, r, b);
    var f := r + b;
    assert p.elems[0] == Parent;
    assert |p.elems| == 1;
    assert k == |e.elems| && k == |f| - 1;
    assert e.elems == f[..|f| - 1];
    assert p.elems == [Parent];
    if |b| > 0 {
      MatchedParentOfSubPath(r, b, e);
    } else {
      assert f == r;
      MatchedParentOfRoot(r, e);
    }
  }

  /** An event path that survives the `../` test against root/bp yields, joined
      to bp, the event path relative to the root, whichever sub-path matched. */
  lemma MatchedPathIsRelativeToRoot(root: string, bp: string, ev: string, rel: string)
    requires IsAbsolute(root) && IsAbsolute(ev) && IsSubPath(bp)
    requires Rel(Join(root, bp), ev) == Some(rel)
    requires !HasPrefix(rel, "../")
    ensures Rel(root, ev) == Some(Join(bp, rel))
  {
    var r := Parse(root).elems;
    var b := Parse(bp).elems;
    JoinSubPath(root, bp);
    var p := RelPath(Path(true, r + b), Parse(ev)).value;
    assert rel == Render(p);
    EscapeTests(p);
    MatchedPathElems(r, b, Parse(ev), p);
    JoinRendered(bp, p);
  }

  /** Under the stricter test that also refuses a relative path of exactly
      "..", a sub-path passes exactly when the event lies within root/bp. */
  lemma StrictTestIsContainment(root: string, bp: string, ev: string)
    requires IsAbsolute(root) && IsAbsolute(ev) && IsSubPath(bp)
    ensures (var rel := Rel(Join(root, bp), ev);
             rel.Some? && rel.value != Parent && !HasPrefix(rel.value, "../"))
      <==> (var f := Parse(Join(root, bp)).elems;
            |f| <= |Parse(ev).elems| && Parse(ev).elems[..|f|] == f)
  {
    var e := Parse(ev);
    JoinSubPath(root, bp);
    var f := Parse(Join(root, bp));
    var k := CommonPrefix(f.elems, e.elems);
    var p := RelPath(f, e).value;
    EscapeTests(p);
    assert p.elems == Parents(|f.elems| - k) + e.elems[k..];
    if |f.elems| <= |e.elems| && e.elems[..|f.elems|] == f.elems {
      RelBelow(f.elems, e);
      assert p.elems == e.elems[|f.elems|..];
      assert |p.elems| == 0 || p.elems[0] != Parent by {
        if |p.elems| > 0 { assert p.elems[0] == e.elems[|f.elems|]; }
      }
    } else {
      assert k < |f.elems|;
      assert p.elems[0] == Parent;
    }
  }
}
