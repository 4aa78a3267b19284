/** `find_versions`: chain probe, binary search and log until enough distinct
    glibc versions have been seen. */
module Driver {
  import opened Revisions
  import opened Search
  import opened ChangeLog

  /** The change one iteration of `find_versions` finds after `prev`, or None
      when the iteration's checkouts or evaluations fail. */
  function NextChange(o: Oracle, prev: Change): (r: Option<Change>)
    ensures r.Some? ==> prev.depth < r.value.depth < o.End()
  {
    match ProbeFrom(o, prev, 1)
    case None => None
    case Some(d) => BisectFrom(o, prev, 0, d)
  }

  /** The next change sits at a drv boundary inside the probe window: at least
      one commit behind `prev` and no deeper than the probe's bound, its drv
      differs from `prev`'s, the commit just before it is `prev` itself or
      matches, and its fields are the oracle's reading at its depth. */
  lemma NextChangeIsBoundary(o: Oracle, prev: Change, c: Change)
    requires NextChange(o, prev) == Some(c)
    ensures 1 <= c.depth - prev.depth <= ProbeFrom(o, prev, 1).value
    ensures Differs(o, prev, c.depth - prev.depth)
    ensures c.depth - prev.depth == 1 || Matches(o, prev, c.depth - prev.depth - 1)
    ensures c == MakeChange(o.Read(c.depth).value, c.depth)
  {
    NextChangeUnfold(o, prev);
    BoundaryWithin(o, prev, ProbeFrom(o, prev, 1).value, c);
  }

  /** A found change comes from a successful probe, whose bound is a
      differing offset, followed by the search below that bound. */
  lemma NextChangeUnfold(o: Oracle, prev: Change)
    requires NextChange(o, prev).Some?
    ensures ProbeFrom(o, prev, 1).Some?
    ensures var d := ProbeFrom(o, prev, 1).value;
            1 <= d && Differs(o, prev, d) && NextChange(o, prev) == BisectFrom(o, prev, 0, d)
  {
  }

  /** The search below a differing probe bound `d` ends on a boundary within
      (0, d], at the change read there. */
  lemma BoundaryWithin(o: Oracle, prev: Change, d: int, c: Change)
    requires 1 <= d && Differs(o, prev, d) && BisectFrom(o, prev, 0, d) == Some(c)
    ensures 1 <= c.depth - prev.depth <= d
    ensures Differs(o, prev, c.depth - prev.depth)
    ensures c.depth - prev.depth == 1 || Matches(o, prev, c.depth - prev.depth - 1)
    ensures c == MakeChange(o.Read(c.depth).value, c.depth)
  {
    BisectBoundary(o, prev, 0, d);
  }

  /** A probe that succeeds is always followed by a successful binary search
      when the history between holds no commit that fails to evaluate. */
  lemma NextChangeAfterProbe(o: Oracle, prev: Change)
    requires ProbeFrom(o, prev, 1).Some?
    requires forall k :: 1 <= k <= ProbeFrom(o, prev, 1).value ==> Readable(o, prev, k)
    ensures NextChange(o, prev).Some?
  {
    BisectSucceeds(o, prev, 0, ProbeFrom(o, prev, 1).value);
  }

  /** What the rest of a `find_versions` run does from baseline `prev` with
      `found` versions seen: how it ends (Some(versions_found) when the loop
      exits, None when the oracle fails) and the changes it logs on the way. */
  datatype Outcome = Outcome(result: Option<int>, logged: seq<Change>)

  /** A run that finishes never ends below its start count or below the
      target, and it logs fewer changes than there are commits behind `prev`
      in the history, since every change lies strictly deeper than the last. */
  function Walk(o: Oracle, prev: Change, found: int, target: int): (r: Outcome)
    ensures r.result.Some? ==> found <= r.result.value && target <= r.result.value
    ensures r.logged == [] || |r.logged| < o.End() - prev.depth
    decreases o.End() - prev.depth
  {
    if target <= found then Outcome(Some(found), [])
    else match NextChange(o, prev)
      case None => Outcome(None, [])
      case Some(c) =>
        var rest := Walk(o, c, if c.version != prev.version then found + 1 else found, target);
        Outcome(rest.result, [c] + rest.logged)
  }

  /** The walk stops with no result when the next change cannot be found. */
  lemma WalkStops(o: Oracle, prev: Change, found: int, target: int)
    requires found < target && NextChange(o, prev).None?
    ensures Walk(o, prev, found, target) == Outcome(None, [])
  {
  }

  /** One step of the walk: when the target is not yet reached and the next
      change is `c`, the walk records `c` and continues from it. */
  lemma WalkStep(o: Oracle, prev: Change, found: int, target: int, c: Change)
    returns (rest: Outcome)
    requires found < target && NextChange(o, prev) == Some(c)
    ensures rest == Walk(o, c, if c.version != prev.version then found + 1 else found, target)
    ensures Walk(o, prev, found, target) == Outcome(rest.result, [c] + rest.logged)
  {
    rest := Walk(o, c, if c.version != prev.version then found + 1 else found, target);
  }

  lemma AppendAssoc<T>(a: seq<T>, b: seq<T>, c: seq<T>)
    ensures a + (b + c) == (a + b) + c
  {
  }

  /** The number of changes along `cs` whose version differs from the one
      before it, starting from `prev`. */
  function VersionChanges(prev: Change, cs: seq<Change>): nat
    decreases |cs|
  {
    if cs == [] then 0
    else (if cs[0].version != prev.version then 1 else 0) + VersionChanges(cs[0], cs[1..])
  }

  /** A run that finishes has counted exactly the version changes among the
      changes it logged, and stops as soon as the target is met: it ends with
      the target when it started below it, and logs nothing otherwise. */
  lemma {:induction false} WalkCounts(o: Oracle, prev: Change, found: int, target: int)
    requires Walk(o, prev, found, target).result.Some?
    ensures var w := Walk(o, prev, found, target);
            w.result.value == found + VersionChanges(prev, w.logged) &&
            w.result.value == (if found < target then target else found)
    decreases o.End() - prev.depth
  {
    if found < target {
      var c := NextChange(o, prev).value;
      var now := if c.version != prev.version then found + 1 else found;
      WalkCounts(o, c, now, target);
      var w := Walk(o, prev, found, target);
      assert w.logged[0] == c && w.logged[1..] == Walk(o, c, now, target).logged;
    }
  }

  /** The changes a run logs are linked by `NextChange`, the first to `prev`. */
  lemma {:induction false} WalkLinks(o: Oracle, prev: Change, found: int, target: int)
    ensures var cs := Walk(o, prev, found, target).logged;
            (cs != [] ==> NextChange(o, prev) == Some(cs[0])) &&
            forall i :: 0 < i < |cs| ==> NextChange(o, cs[i - 1]) == Some(cs[i])
    decreases o.End() - prev.depth
  {
    if found < target && NextChange(o, prev).Some? {
      var c := NextChange(o, prev).value;
      var now := if c.version != prev.version then found + 1 else found;
      WalkLinks(o, c, now, target);
      var rest := Walk(o, c, now, target).logged;
      var cs := Walk(o, prev, found, target).logged;
      assert cs == [c] + rest;
      assert forall i :: 0 < i < |cs| ==> cs[i] == rest[i - 1];
    }
  }

  /** Changes each deeper than the one before, the first deeper than `prev`,
      all lie deeper than `prev` and in strictly increasing depth. */
  lemma {:induction false} StepsDeepen(prev: Change, cs: seq<Change>)
    requires cs != [] ==> prev.depth < cs[0].depth
    requires forall i :: 0 < i < |cs| ==> cs[i - 1].depth < cs[i].depth
    ensures forall i :: 0 <= i < |cs| ==> prev.depth < cs[i].depth
    ensures DepthsIncreasing(cs)
    decreases |cs|
  {
    if cs != [] {
      var rest := cs[1..];
      assert forall i :: 0 < i < |rest| ==> rest[i - 1] == cs[i] && rest[i] == cs[i + 1];
      StepsDeepen(cs[0], rest);
      assert forall i :: 0 < i < |cs| ==> cs[i] == rest[i - 1];
    }
  }

  /** The changes a run logs form a chain: each is the next change after the
      one before it (the first after `prev`), so their depths strictly
      increase and all lie deeper than `prev`. */
  lemma WalkChain(o: Oracle, prev: Change, found: int, target: int)
    ensures var cs := Walk(o, prev, found, target).logged;
            (cs != [] ==> NextChange(o, prev) == Some(cs[0])) &&
            (forall i :: 0 < i < |cs| ==> NextChange(o, cs[i - 1]) == Some(cs[i])) &&
            (forall i :: 0 <= i < |cs| ==> prev.depth < cs[i].depth) &&
            DepthsIncreasing(cs)
  {
    WalkLinks(o, prev, found, target);
    var cs := Walk(o, prev, found, target).logged;
    forall i | 0 < i < |cs|
      ensures cs[i - 1].depth < cs[i].depth
    {
      assert NextChange(o, cs[i - 1]) == Some(cs[i]);
    }
    StepsDeepen(prev, cs);
  }

  /** The seed's drv is nil and every drv the oracle reports is not, so the
      first iteration stops at the first probe, offset 1, and records the
      commit labelled `startDepth` (StartRev~1); it fails when that commit
      cannot be read. */
  lemma FirstChangeAtStart(readings: seq<Option<Reading>>, startDepth: int)
    ensures var o := Oracle(startDepth - 1, readings);
            NextChange(o, Seed(startDepth)) ==
              if |readings| >= 2 && readings[1].Some?
              then Some(MakeChange(readings[1].value, startDepth)) else None
  {
    var o := Oracle(startDepth - 1, readings);
    var seed := Seed(startDepth);
    assert Pow2(1) == 2;
    assert o.Read(seed.depth + ProbeOffset(1)) == o.Read(startDepth);
    assert Midpoint(0, 1) == 1;
  }

  /** The facts a run from the seed guarantees: it ends with the target met
      (or none sought), its changes are a chain in strictly increasing depth
      from `startDepth` on, and grouped by version they stay in increasing
      depth. */
  lemma RunFacts(readings: seq<Option<Reading>>, startDepth: int, target: int)
    ensures var w := Walk(Oracle(startDepth - 1, readings), Seed(startDepth), 0, target);
            (w.result.Some? ==> w.result.value == (if target < 0 then 0 else target)) &&
            DepthsIncreasing(w.logged) &&
            (forall i :: 0 <= i < |w.logged| ==> startDepth <= w.logged[i].depth) &&
            forall k :: RecordsIncreasing(Entries(Group(w.logged), k))
  {
    var o := Oracle(startDepth - 1, readings);
    var w := Walk(o, Seed(startDepth), 0, target);
    if w.result.Some? {
      WalkCounts(o, Seed(startDepth), 0, target);
    }
    WalkChain(o, Seed(startDepth), 0, target);
    GroupIncreasing(w.logged);
  }

  /** The two searches of one `find_versions` iteration: the doubling probe
      for an upper bound, then the binary search below it. */
  method FindNextChange(o: Oracle, prev: Change) returns (r: Option<Change>)
    ensures r == NextChange(o, prev)
  {
    var upperBound := FindNextDrv(o, prev);
    if upperBound.None? {
      return None;
    }
    r := FindDrvChange(o, prev, upperBound.value);
  }

  /** `find_versions`: starting from the seed, repeat probe, binary search and
      `add_change` until `versionsToFind` changes have brought a new version,
      or until the oracle fails (None). The log receives exactly the changes
      of the run, in order of discovery. */
  method FindVersions(readings: seq<Option<Reading>>, versionsToFind: int, startDepth: int, log: Log)
    returns (result: Option<int>)
    requires log.Valid()
    modifies log
    ensures log.Valid()
    ensures var w := Walk(Oracle(startDepth - 1, readings), Seed(startDepth), 0, versionsToFind);
            result == w.result && log.added == old(log.added) + w.logged
    ensures result.Some? ==> result.value == if versionsToFind < 0 then 0 else versionsToFind
  {
    var o := Oracle(startDepth - 1, readings);
    ghost var whole := Walk(o, Seed(startDepth), 0, versionsToFind);
    ghost var goal := log.added + whole.logged;
    var prevChange := Seed(startDepth);
    var versionsFound := 0;
    while versionsFound < versionsToFind
      invariant log.Valid()
      invariant whole.result == Walk(o, prevChange, versionsFound, versionsToFind).result
      invariant goal == log.added + Walk(o, prevChange, versionsFound, versionsToFind).logged
      invariant 0 <= versionsFound && (versionsFound <= versionsToFind || versionsFound == 0)
      decreases o.End() - prevChange.depth
    {
      var change := FindNextChange(o, prevChange);
      if change.None? {
        WalkStops(o, prevChange, versionsFound, versionsToFind);
        assert log.added + [] == log.added;
        return None;
      }
      ghost var rest := WalkStep(o, prevChange, versionsFound, versionsToFind, change.value);
      AppendAssoc(log.added, [change.value], rest.logged);
      log.AddChange(change.value);
      if change.value.version != prevChange.version {
        versionsFound := versionsFound + 1;
      }
      prevChange := change.value;
    }
    assert log.added + [] == log.added;
    result := Some(versionsFound);
  }
}
