/** The body of a replica's event handler: each file-system event path is
    matched against the replica's sub-paths, a match is recorded as a
    pending change, and a waiting replica is told about its changes once. */
module Events {
  import opened Results
  import opened Strings
  import opened StringSet
  import opened FilePaths
  import opened MonitorState
  import opened SendRecv

  // ---------------------------------------------------------------------
  // Matching an event path against the sub-paths
  // ---------------------------------------------------------------------

  /** The handler's test that a relative path leaves the watched directory,
      as written: only a `../` prefix counts. */
  predicate OutsideAsWritten(rel: string) {
    HasPrefix(rel, "../")
  }

  /** The intended test: `..` alone leaves the directory too. */
  predicate Outside(rel: string) {
    rel == Parent || HasPrefix(rel, "../")
  }

  /** One sub-path tried against an event path: the change to record when
      this sub-path claims the event. `strict` selects the intended test. */
  function TryBasePath(root: string, bp: string, ev: string, strict: bool): (r: Option<string>)
    ensures r.Some? ==> Rel(Join(root, bp), ev).Some?
    ensures r.Some? ==> r.value == Join(bp, Rel(Join(root, bp), ev).value)
    ensures r.Some? <==> (Rel(Join(root, bp), ev).Some?
      && !(if strict then Outside(Rel(Join(root, bp), ev).value) else OutsideAsWritten(Rel(Join(root, bp), ev).value)))
  {
    match Rel(Join(root, bp), ev)
    case None => None
    case Some(rel) =>
      if (if strict then Outside(rel) else OutsideAsWritten(rel)) then None
      else Some(Join(bp, rel))
  }

  /** The test of every sub-path against one event path. */
  function Claim(root: string, ev: string, strict: bool): string -> Option<string> {
    bp => TryBasePath(root, bp, ev, strict)
  }

  /** The loop over the sub-paths: the first one that claims the event wins. */
  function FirstMatch(bps: seq<string>, claim: string -> Option<string>): (r: Option<string>)
    ensures r.None? <==> forall i | 0 <= i < |bps| :: claim(bps[i]).None?
    ensures r.Some? ==>
      exists i | 0 <= i < |bps| :: claim(bps[i]) == r && forall j | 0 <= j < i :: claim(bps[j]).None?
    decreases |bps|
  {
    if |bps| == 0 then None
    else if claim(bps[0]).Some? then claim(bps[0])
    else
      var r := FirstMatch(bps[1..], claim);
      assert forall i | 1 <= i < |bps| :: bps[i] == bps[1..][i - 1];
      if r.Some? then
        var i :| 0 <= i < |bps[1..]| && claim(bps[1..][i]) == r
          && forall j | 0 <= j < i :: claim(bps[1..][j]).None?;
        assert claim(bps[i + 1]) == r;
        r
      else r
  }

  /** The handler as written: sub-paths in the set's iteration order, only a
      `../` prefix rejected. */
  function MatchAsWritten(root: string, paths: Set, ev: string): (r: Option<string>)
    ensures r.None? <==> forall bp | bp in Elements(paths) :: TryBasePath(root, bp, ev, false).None?
    ensures r.Some? ==> exists bp | bp in Elements(paths) :: TryBasePath(root, bp, ev, false) == r
  {
    ClaimedBy(StringSlice(paths), Claim(root, ev, false));
    FirstMatch(StringSlice(paths), Claim(root, ev, false))
  }

  /** The handler with the intended test, which the rest of the model uses. */
  function Match(root: string, paths: Set, ev: string): (r: Option<string>)
    ensures r.None? <==> forall bp | bp in Elements(paths) :: TryBasePath(root, bp, ev, true).None?
    ensures r.Some? ==> exists bp | bp in Elements(paths) :: TryBasePath(root, bp, ev, true) == r
  {
    ClaimedBy(StringSlice(paths), Claim(root, ev, true));
    FirstMatch(StringSlice(paths), Claim(root, ev, true))
  }

  /** The first match, read over the members rather than the positions. */
  lemma ClaimedBy(bps: seq<string>, claim: string -> Option<string>)
    ensures FirstMatch(bps, claim).None? <==> forall bp | bp in ArgSet(bps) :: claim(bp).None?
    ensures FirstMatch(bps, claim).Some? ==> exists bp | bp in ArgSet(bps) :: claim(bp) == FirstMatch(bps, claim)
  {
    var r := FirstMatch(bps, claim);
    if r.Some? {
      var i :| 0 <= i < |bps| && claim(bps[i]) == r && forall j | 0 <= j < i :: claim(bps[j]).None?;
      assert bps[i] in ArgSet(bps);
    } else {
      forall bp | bp in ArgSet(bps) ensures claim(bp).None? {
        var i :| 0 <= i < |bps| && bps[i] == bp;
      }
    }
  }

  /** Every sub-path is relative and stays below the root. */
  predicate AllSubPaths(bps: seq<string>) {
    forall i | 0 <= i < |bps| :: IsSubPath(bps[i])
  }

  /** What a sub-path's claim means: the change it records is the event path
      relative to the root, and with the intended test it claims the event
      exactly when the event lies within root/bp. */
  lemma ClaimMeaning(root: string, bp: string, ev: string, strict: bool)
    requires IsAbsolute(root) && IsAbsolute(ev) && IsSubPath(bp)
    ensures var r := TryBasePath(root, bp, ev, strict);
      && (r.Some? ==> r == Rel(root, ev))
      && (strict ==> (r.Some? <==> Within(root, bp, ev)))
  {
    var r := TryBasePath(root, bp, ev, strict);
    if r.Some? {
      var rel := Rel(Join(root, bp), ev).value;
      MatchedPathIsRelativeToRoot(root, bp, ev, rel);
    }
    if strict {
      StrictTestIsContainment(root, bp, ev);
    }
  }

  /** Whatever sub-path matched, the recorded change is the event path
      relative to the root. */
  lemma MatchIsRelativeToRoot(root: string, bps: seq<string>, ev: string, strict: bool)
    requires IsAbsolute(root) && IsAbsolute(ev) && AllSubPaths(bps)
    ensures var r := FirstMatch(bps, Claim(root, ev, strict));
      r.Some? ==> Rel(root, ev) == r
  {
    var r := FirstMatch(bps, Claim(root, ev, strict));
    if r.Some? {
      var i :| 0 <= i < |bps| && Claim(root, ev, strict)(bps[i]) == r;
      assert TryBasePath(root, bps[i], ev, strict) == r;
      ClaimMeaning(root, bps[i], ev, strict);
    }
  }

  /** When no member of `ys` is claimed, no member of a subset is. */
  lemma NoneOnSubset(xs: seq<string>, ys: seq<string>, claim: string -> Option<string>)
    requires ArgSet(xs) <= ArgSet(ys)
    requires forall j | 0 <= j < |ys| :: claim(ys[j]).None?
    ensures forall i | 0 <= i < |xs| :: claim(xs[i]).None?
  {
    forall i | 0 <= i < |xs| ensures claim(xs[i]).None? {
      assert xs[i] in ArgSet(ys);
      var j :| 0 <= j < |ys| && ys[j] == xs[i];
    }
  }

  /** The iteration order of the sub-path set does not matter: two lists of
      the same sub-paths give the same result. */
  lemma MatchOrderIndependent(root: string, xs: seq<string>, ys: seq<string>, ev: string, strict: bool)
    requires IsAbsolute(root) && IsAbsolute(ev)
    requires AllSubPaths(xs) && ArgSet(xs) == ArgSet(ys)
    ensures FirstMatch(xs, Claim(root, ev, strict)) == FirstMatch(ys, Claim(root, ev, strict))
  {
    var c := Claim(root, ev, strict);
    assert AllSubPaths(ys) by {
      forall i | 0 <= i < |ys| ensures IsSubPath(ys[i]) {
        assert ys[i] in ArgSet(xs);
      }
    }
    var a := FirstMatch(xs, c);
    var b := FirstMatch(ys, c);
    if a.None? { NoneOnSubset(ys, xs, c); }
    if b.None? { NoneOnSubset(xs, ys, c); }
    MatchIsRelativeToRoot(root, xs, ev, strict);
    MatchIsRelativeToRoot(root, ys, ev, strict);
  }

  /** The event path lies at or below root/bp. */
  predicate Within(root: string, bp: string, ev: string) {
    var f := Parse(Join(root, bp)).elems;
    var e := Parse(ev).elems;
    |f| <= |e| && e[..|f|] == f
  }

  /** With the intended test a sub-path claims an event exactly when the
      event lies within it. */
  lemma ClaimIsContainment(root: string, bp: string, ev: string)
    requires IsAbsolute(root) && IsAbsolute(ev) && IsSubPath(bp)
    ensures Claim(root, ev, true)(bp).Some? <==> Within(root, bp, ev)
  {
    StrictTestIsContainment(root, bp, ev);
  }

  /** A claim that holds exactly where `p` does is found exactly when some
      member satisfies `p`. */
  lemma FirstMatchFinds(bps: seq<string>, claim: string -> Option<string>, p: string -> bool)
    requires forall i | 0 <= i < |bps| :: claim(bps[i]).Some? <==> p(bps[i])
    ensures FirstMatch(bps, claim).Some? <==> exists bp | bp in bps :: p(bp)
  {
    if exists bp | bp in bps :: p(bp) {
      var bp :| bp in bps && p(bp);
      var i :| 0 <= i < |bps| && bps[i] == bp;
      assert claim(bps[i]).Some?;
    }
  }

  /** With the intended test an event is recorded exactly when it lies within
      one of the watched sub-paths, and then as its path relative to the root. */
  lemma MatchIsContainment(root: string, paths: Set, ev: string)
    requires IsAbsolute(root) && IsAbsolute(ev) && AllSubPaths(paths)
    ensures Match(root, paths, ev).Some? <==> exists bp | bp in Elements(paths) :: Within(root, bp, ev)
    ensures Match(root, paths, ev).Some? ==> Match(root, paths, ev) == Rel(root, ev)
  {
    var bps := StringSlice(paths);
    var c := Claim(root, ev, true);
    var p := bp => Within(root, bp, ev);
    MatchIsRelativeToRoot(root, bps, ev, true);
    forall i | 0 <= i < |bps| ensures c(bps[i]).Some? <==> p(bps[i]) {
      ClaimIsContainment(root, bps[i], ev);
    }
    FirstMatchFinds(bps, c, p);
  }

  /** The test as written lets `..` through: with root "/r/x", the sub-path
      "" and an event on "/r" (any event on the root's parent directory) the
      handler records "..", a path outside the replica; the intended test
      rejects it. */
  lemma AsWrittenRecordsParent(root: string, ev: string)
    requires IsAbsolute(root) && |Parse(root).elems| > 0
    requires ev == Render(Path(true, Parse(root).elems[..|Parse(root).elems| - 1]))
    ensures FirstMatch([""], Claim(root, ev, false)) == Some(Parent)
    ensures FirstMatch([""], Claim(root, ev, true)) == None
  {
    var r := Parse(root).elems;
    var e := Path(true, r[..|r| - 1]);
    assert IsClean(e) by {
      assert forall i | 0 <= i < |e.elems| :: e.elems[i] == r[i];
    }
    ParseRender(e);
    assert Parse("").elems == [] by {
      assert Split("", '/') == [""];
    }
    JoinSubPath(root, "");
    assert r + [] == r;
    MatchedParentOfRoot(r, e);
    var up := Path(false, [Parent]);
    assert PushAll(false, [], [Parent]) == [Parent] by {
      assert Push(false, [], Parent) == [Parent];
    }
    assert Render(up) == Parent;
    assert Rel(Join(root, ""), ev) == Some(Parent);
    assert !HasPrefix(Parent, "../");
    ParseRender(up);
    assert Join("", Parent) == Parent;
    assert TryBasePath(root, "", ev, false) == Some(Parent);
    assert TryBasePath(root, "", ev, true) == None;
  }

  // ---------------------------------------------------------------------
  // Recording changes
  // ---------------------------------------------------------------------

  /** Whether recording a change for `r` sends the `CHANGES r` notice: only
      while `r` waits and has not been told yet. */
  predicate Notifies(m: Monitor, r: string) {
    Has(m.waiting, [r]) && !Has(m.reported, [r])
  }

  /** Adds the change `c` to replica `r`'s change set, creating the set
      when `r` has none. */
  function AddChange(m: Monitor, r: string, c: string): (m': Monitor)
    ensures r in m'.changes
    ensures Pending(m', r) == Pending(m, r) + {c}
    ensures m' == m.(changes := m.changes[r := m'.changes[r]])
  {
    var cs := if r in m.changes then m.changes[r] else New([]);
    assert ArgSet([c]) == {c};
    m.(changes := m.changes[r := Add(cs, [c])])
  }

  /** Sends `CHANGES r` and marks `r` reported, when `r` waits and has not
      been told yet. */
  function Notify(m: Monitor, r: string): (m': Monitor)
    ensures m'.out == m.out + (if Notifies(m, r) then [FormatCmd("CHANGES", [r])] else [])
    ensures Elements(m'.reported) == Elements(m.reported) + (if Notifies(m, r) then {r} else {})
    ensures Has(m'.reported, [r]) <==> Has(m.reported, [r]) || Notifies(m, r)
    ensures m' == m.(reported := m'.reported, out := m'.out)
  {
    assert ArgSet([r]) == {r};
    if Notifies(m, r) then
      SendCmd(m, "CHANGES", [r]).(reported := Add(m.reported, [r]))
    else m
  }

  /** Records the change `c` for replica `r`. */
  function Record(m: Monitor, r: string, c: string): (m': Monitor)
    ensures r in m'.changes
    ensures Pending(m', r) == Pending(m, r) + {c}
    ensures m'.changes == m.changes[r := m'.changes[r]]
    ensures m'.out == m.out + (if Notifies(m, r) then [FormatCmd("CHANGES", [r])] else [])
    ensures Elements(m'.reported) == Elements(m.reported) + (if Notifies(m, r) then {r} else {})
    ensures Has(m'.reported, [r]) <==> Has(m.reported, [r]) || Notifies(m, r)
    ensures m' == m.(changes := m'.changes, reported := m'.reported, out := m'.out)
  {
    var m1 := AddChange(m, r, c);
    assert Notifies(m1, r) == Notifies(m, r);
    Notify(m1, r)
  }

  /** The handler's matcher for one replica: the change an event path
      records, if any. */
  function Finder(root: string, paths: Set): string -> Option<string> {
    ev => Match(root, paths, ev)
  }

  /** One event of a batch for replica `r`: recorded when the matcher finds
      a change for it, ignored otherwise. */
  function HandleEvent(m: Monitor, r: string, find: string -> Option<string>, ev: string): (m': Monitor)
    ensures find(ev).None? ==> m' == m
    ensures find(ev).Some? ==> m' == Record(m, r, find(ev).value)
  {
    match find(ev)
    case None => m
    case Some(c) => Record(m, r, c)
  }

  /** The changes found among `evs`. */
  function Found(find: string -> Option<string>, evs: seq<string>): set<string> {
    set i | 0 <= i < |evs| && find(evs[i]).Some? :: find(evs[i]).value
  }

  lemma FoundSplit(find: string -> Option<string>, evs: seq<string>)
    requires |evs| > 0
    ensures Found(find, evs) == (if find(evs[0]).Some? then {find(evs[0]).value} else {}) + Found(find, evs[1..])
  {
    var a, c := Found(find, evs), Found(find, evs[1..]);
    var b := if find(evs[0]).Some? then {find(evs[0]).value} else {};
    forall x | x in a ensures x in b + c {
      var i :| 0 <= i < |evs| && find(evs[i]).Some? && find(evs[i]).value == x;
      if i > 0 { assert evs[1..][i - 1] == evs[i]; }
    }
    forall x | x in c ensures x in a {
      var i :| 0 <= i < |evs[1..]| && find(evs[1..][i]).Some? && find(evs[1..][i]).value == x;
      assert evs[1..][i] == evs[i + 1];
    }
  }

  /** The events of one batch, in order. Only the change map, the reported
      set and the output can move; `HandleEventsPending` says what joins the
      pending changes. */
  function HandleEvents(m: Monitor, r: string, find: string -> Option<string>, evs: seq<string>): (m': Monitor)
    ensures m' == m.(changes := m'.changes, reported := m'.reported, out := m'.out)
    decreases |evs|
  {
    if |evs| == 0 then m
    else HandleEvents(HandleEvent(m, r, find, evs[0]), r, find, evs[1..])
  }

  /** Every change a batch finds joins `r`'s pending changes, and nothing
      else does. */
  lemma {:induction false} HandleEventsPending(m: Monitor, r: string, find: string -> Option<string>, evs: seq<string>)
    ensures Pending(HandleEvents(m, r, find, evs), r) == Pending(m, r) + Found(find, evs)
    decreases |evs|
  {
    if |evs| > 0 {
      var m1 := HandleEvent(m, r, find, evs[0]);
      HandleEventPending(m, r, find, evs[0]);
      assert HandleEvents(m, r, find, evs) == HandleEvents(m1, r, find, evs[1..]);
      HandleEventsPending(m1, r, find, evs[1..]);
      FoundSplit(find, evs);
    }
  }

  /** One event adds the change it finds, if any, to `r`'s pending changes. */
  lemma HandleEventPending(m: Monitor, r: string, find: string -> Option<string>, ev: string)
    ensures Pending(HandleEvent(m, r, find, ev), r)
      == Pending(m, r) + (if find(ev).Some? then {find(ev).value} else {})
  {
    if find(ev).Some? {
      assert HandleEvent(m, r, find, ev) == Record(m, r, find(ev).value);
    }
  }

  /** One event adds the change it finds, if any, to `r`'s pending changes,
      leaves every other replica's changes alone, and sends `CHANGES r`
      exactly when it finds a change while `r` waits unreported. */
  lemma HandleEventEffect(m: Monitor, r: string, find: string -> Option<string>, ev: string)
    ensures var m' := HandleEvent(m, r, find, ev);
      && Pending(m', r) == Pending(m, r) + (if find(ev).Some? then {find(ev).value} else {})
      && (forall q | q != r :: q in m'.changes <==> q in m.changes)
      && (forall q | q != r && q in m.changes :: m'.changes[q] == m.changes[q])
      && m'.out == m.out + (if find(ev).Some? && Notifies(m, r) then [FormatCmd("CHANGES", [r])] else [])
  {
    if find(ev).Some? {
      assert HandleEvent(m, r, find, ev) == Record(m, r, find(ev).value);
    }
  }


  /** No other replica's changes move, and `r` gets an entry exactly when it
      had one or a change was found. */
  lemma {:induction false} HandleEventsOthers(m: Monitor, r: string, find: string -> Option<string>, evs: seq<string>)
    ensures var m' := HandleEvents(m, r, find, evs);
      && (r in m'.changes <==> r in m.changes || Found(find, evs) != {})
      && (forall q | q != r :: q in m'.changes <==> q in m.changes)
      && (forall q | q != r && q in m.changes :: m'.changes[q] == m.changes[q])
    decreases |evs|
  {
    if |evs| > 0 {
      FoundSplit(find, evs);
      HandleEventsOthers(HandleEvent(m, r, find, evs[0]), r, find, evs[1..]);
    }
  }

  /** A batch sends at most one `CHANGES r` notice, and only when `r` waited
      unreported and a change was found; `r` is then reported. */
  lemma {:induction false} HandleEventsNotifyOnce(m: Monitor, r: string, find: string -> Option<string>, evs: seq<string>)
    ensures var m' := HandleEvents(m, r, find, evs);
      || (m'.out == m.out && Elements(m'.reported) == Elements(m.reported))
      || (&& Notifies(m, r) && Found(find, evs) != {}
          && m'.out == m.out + [FormatCmd("CHANGES", [r])]
          && Elements(m'.reported) == Elements(m.reported) + {r})
    decreases |evs|
  {
    if |evs| > 0 {
      var m1 := HandleEvent(m, r, find, evs[0]);
      FoundSplit(find, evs);
      HandleEventsNotifyOnce(m1, r, find, evs[1..]);
      if Notifies(m, r) && find(evs[0]).Some? {
        assert !Notifies(m1, r);
      }
    }
  }

  /** A replica that waits unreported is told exactly once as soon as a
      batch finds a change for it. */
  lemma {:induction false} HandleEventsNotifiesWaiter(m: Monitor, r: string, find: string -> Option<string>, evs: seq<string>)
    requires Notifies(m, r) && Found(find, evs) != {}
    ensures HandleEvents(m, r, find, evs).out == m.out + [FormatCmd("CHANGES", [r])]
    ensures Has(HandleEvents(m, r, find, evs).reported, [r])
    decreases |evs|
  {
    FoundSplit(find, evs);
    var m1 := HandleEvent(m, r, find, evs[0]);
    if find(evs[0]).Some? {
      assert !Notifies(m1, r);
      HandleEventsNotifyOnce(m1, r, find, evs[1..]);
      assert ArgSet([r]) == {r};
    } else {
      HandleEventsNotifiesWaiter(m1, r, find, evs[1..]);
    }
  }

  /** A batch of events for replica `r`. Nothing happens once the monitor
      shuts down or after RESET has ended the replica's handler; a handler
      that finds no stream state for its replica fails as Go's does; under
      the state invariant those lookups never fail (`EventBatchEffect`). */
  function EventBatch(m: Monitor, r: string, evs: seq<string>): (m': Monitor)
    ensures m.shuttingDown || r !in m.active ==> m' == m
    ensures !m.shuttingDown && r in m.active && r in m.ends && r in m.roots && r in m.paths ==>
      m' == HandleEvents(m, r, Finder(m.roots[r], m.paths[r]), evs)
  {
    if m.shuttingDown || r !in m.active then m
    else if r !in m.ends then SendErr(m, "Unable to find end monitoring channel for replica " + r)
    else if r !in m.roots then SendErr(m, "Unable to find root for replica " + r)
    else if r !in m.paths then SendErr(m, "Unable to find paths for replica " + r)
    else HandleEvents(m, r, Finder(m.roots[r], m.paths[r]), evs)
  }

  /** A batch for a running replica of a consistent monitor: the handler's
      lookups never fail, every change found joins the replica's pending
      changes, other replicas' changes stay, and at most one `CHANGES r` is
      sent, only when `r` waited unreported and a change was found. */
  lemma EventBatchEffect(m: Monitor, r: string, evs: seq<string>)
    requires Inv(m) && r in m.active && !m.shuttingDown
    ensures var m' := EventBatch(m, r, evs);
      var found := Found(Finder(m.roots[r], m.paths[r]), evs);
      && !m'.shuttingDown
      && Pending(m', r) == Pending(m, r) + found
      && (forall q | q != r && q in m.changes :: q in m'.changes && m'.changes[q] == m.changes[q])
      && (|| m'.out == m.out
          || (Notifies(m, r) && found != {} && m'.out == m.out + [FormatCmd("CHANGES", [r])]))
  {
    var find := Finder(m.roots[r], m.paths[r]);
    assert EventBatch(m, r, evs) == HandleEvents(m, r, find, evs);
    HandleEventsPending(m, r, find, evs);
    HandleEventsOthers(m, r, find, evs);
    HandleEventsNotifyOnce(m, r, find, evs);
  }

  /** Handling events for an active replica keeps the state invariant. */
  lemma HandleEventsInv(m: Monitor, r: string, find: string -> Option<string>, evs: seq<string>)
    requires Inv(m) && r in m.active
    ensures Inv(HandleEvents(m, r, find, evs))
  {
    var m' := HandleEvents(m, r, find, evs);
    HandleEventsPending(m, r, find, evs);
    HandleEventsOthers(m, r, find, evs);
    HandleEventsNotifyOnce(m, r, find, evs);
    forall q | q in m'.changes ensures Size(m'.changes[q]) > 0 {
      if q != r {
        assert m'.changes[q] == m.changes[q];
      } else if Found(find, evs) == {} {
        assert Pending(m', r) == Pending(m, r);
      } else {
        assert Pending(m', r) != {};
      }
    }
  }

  /** An event batch keeps the state invariant. */
  lemma EventBatchInv(m: Monitor, r: string, evs: seq<string>)
    requires Inv(m)
    ensures Inv(EventBatch(m, r, evs))
  {
    if !m.shuttingDown && r in m.active {
      HandleEventsInv(m, r, Finder(m.roots[r], m.paths[r]), evs);
    }
  }
}
