/** The two searches of get-revisions.rb: the exponential probe `find_next_drv`
    and the binary search `find_drv_change`. Offsets are counted in commits
    behind the baseline change; None stands for the error `get_version`
    raises when a checkout or an evaluation fails. */
module Search {
  import opened Revisions

  function Pow2(k: nat): (r: nat)
    ensures 1 <= r
  {
    if k == 0 then 1 else 2 * Pow2(k - 1)
  }

  lemma {:induction false} Pow2Monotone(a: nat, b: nat)
    requires a <= b
    ensures Pow2(a) <= Pow2(b)
    decreases b - a
  {
    if a < b {
      Pow2Monotone(a, b - 1);
    }
  }

  /** The offset of the k-th probe (k >= 1): 1, 3, 7, 15, ... */
  function ProbeOffset(k: nat): nat {
    Pow2(k) - 1
  }

  /** What `find_next_drv` returns once its first `k - 1` probes matched:
      the first probe offset from the k-th on whose drv differs, or None if
      a probe's checkout or evaluation fails first. */
  function ProbeFrom(o: Oracle, change: Change, k: nat): (r: Option<nat>)
    requires 1 <= k
    ensures r.Some? ==> 1 <= r.value && Differs(o, change, r.value)
    decreases o.End() - change.depth - ProbeOffset(k)
  {
    assert Pow2(k + 1) == 2 * Pow2(k);
    match o.Read(change.depth + ProbeOffset(k))
    case None => None
    case Some(reading) =>
      if Some(reading.drv) != change.drv then Some(ProbeOffset(k))
      else ProbeFrom(o, change, k + 1)
  }

  /** From the k-th probe on, the probe stops at the first probe offset that
      does not match: with Some(d) when d can be read and differs, with None
      when it cannot be read. Every earlier probe matched. */
  lemma {:induction false} ProbeFromStops(o: Oracle, change: Change, k: nat)
    requires 1 <= k
    requires forall j: nat :: 1 <= j < k ==> Matches(o, change, ProbeOffset(j))
    ensures exists m: nat :: k <= m &&
              (forall j: nat :: 1 <= j < m ==> Matches(o, change, ProbeOffset(j))) &&
              match ProbeFrom(o, change, k)
              case Some(d) => d == ProbeOffset(m) && Differs(o, change, d)
              case None => o.Read(change.depth + ProbeOffset(m)).None?
    decreases o.End() - change.depth - ProbeOffset(k)
  {
    assert Pow2(k + 1) == 2 * Pow2(k);
    var r := o.Read(change.depth + ProbeOffset(k));
    if r.None? || Some(r.value.drv) != change.drv {
      assert k <= k && forall j: nat :: 1 <= j < k ==> Matches(o, change, ProbeOffset(j));
    } else {
      assert Matches(o, change, ProbeOffset(k));
      ProbeFromStops(o, change, k + 1);
    }
  }

  /** The window `find_next_drv` leaves for the binary search: the returned
      offset d has the form 2^k - 1 with k >= 1, its drv differs from the
      baseline's, the previous probe (d - 1) / 2 matched when there was one,
      and so did every probe before d. */
  lemma ProbeWindow(o: Oracle, change: Change, d: nat)
    requires ProbeFrom(o, change, 1) == Some(d)
    ensures 1 <= d && Differs(o, change, d)
    ensures exists k: nat :: 1 <= k && d == ProbeOffset(k)
    ensures d > 1 ==> Matches(o, change, (d - 1) / 2)
    ensures forall k: nat :: 1 <= k && ProbeOffset(k) < d ==> Matches(o, change, ProbeOffset(k))
  {
    ProbeFromStops(o, change, 1);
    var m: nat :| 1 <= m && (forall j: nat :: 1 <= j < m ==> Matches(o, change, ProbeOffset(j))) &&
                  d == ProbeOffset(m) && Differs(o, change, d);
    assert Pow2(m) == 2 * Pow2(m - 1);
    if d > 1 {
      assert (d - 1) / 2 == ProbeOffset(m - 1);
    }
    forall k: nat | 1 <= k && ProbeOffset(k) < d
      ensures Matches(o, change, ProbeOffset(k))
    {
      if m <= k {
        Pow2Monotone(m, k);
      }
    }
  }

  /** When `find_next_drv` fails, some probe's commit could not be read and
      every probe before it matched. */
  lemma ProbeFailure(o: Oracle, change: Change)
    requires ProbeFrom(o, change, 1).None?
    ensures exists m: nat :: 1 <= m && o.Read(change.depth + ProbeOffset(m)).None? &&
              forall j: nat :: 1 <= j < m ==> Matches(o, change, ProbeOffset(j))
  {
    ProbeFromStops(o, change, 1);
  }

  /** `find_next_drv`: probe offsets 1, 3, 7, ... (the step doubles after each
      probe that still sees the baseline's drv) and return the first offset
      whose drv differs. */
  method FindNextDrv(o: Oracle, change: Change) returns (r: Option<nat>)
    ensures r == ProbeFrom(o, change, 1)
  {
    ghost var probes: nat := 0;
    var depth: nat := 0;
    var step: nat := 1;
    while true
      invariant depth == ProbeOffset(probes) && step == Pow2(probes)
      invariant ProbeFrom(o, change, probes + 1) == ProbeFrom(o, change, 1)
      decreases o.End() - change.depth - depth
    {
      depth := depth + step;
      probes := probes + 1;
      assert Pow2(probes) == 2 * Pow2(probes - 1);
      var reading := o.Read(change.depth + depth);
      if reading.None? {
        return None;
      }
      if Some(reading.value.drv) != change.drv {
        return Some(depth);
      }
      step := step * 2;
    }
  }

  /** The round-up midpoint of `find_drv_change`. It lies strictly above `lo`
      whenever the interval is not empty, so every step narrows it, and it
      reaches `hi` exactly when `lo` and `hi` are adjacent or equal. */
  function Midpoint(lo: int, hi: int): (mid: int)
    requires 0 <= lo <= hi
    ensures lo <= mid <= hi
    ensures lo < hi ==> lo < mid
    ensures mid == hi <==> hi - lo <= 1
  {
    (lo + hi + 1) / 2
  }

  /** What `find_drv_change` returns, searching between offsets `lo` and
      `hi`: the change read where the search stops, or None if a checkout
      or an evaluation fails on the way. */
  function BisectFrom(o: Oracle, change: Change, lo: int, hi: int): (r: Option<Change>)
    requires 0 <= lo <= hi
    ensures r.Some? ==> lo <= r.value.depth - change.depth <= hi
    ensures r.Some? && lo < hi ==> lo < r.value.depth - change.depth
    ensures r.Some? ==> o.Read(r.value.depth).Some? &&
                        r.value == MakeChange(o.Read(r.value.depth).value, r.value.depth)
    decreases hi - lo
  {
    var mid := Midpoint(lo, hi);
    match o.Read(change.depth + mid)
    case None => None
    case Some(reading) =>
      if mid == hi then Some(MakeChange(reading, change.depth + mid))
      else if Some(reading.drv) == change.drv then BisectFrom(o, change, mid, hi)
      else BisectFrom(o, change, lo, mid)
  }

  /** Started with the drv at `hi` differing and `lo` either 0 or matching,
      a search that succeeds ends on a boundary: the drv differs there and
      the offset just before is 0 or matches. */
  lemma {:induction false} BisectBoundary(o: Oracle, change: Change, lo: int, hi: int)
    requires 0 <= lo < hi
    requires lo == 0 || Matches(o, change, lo)
    requires Differs(o, change, hi)
    requires BisectFrom(o, change, lo, hi).Some?
    ensures var off := BisectFrom(o, change, lo, hi).value.depth - change.depth;
            Differs(o, change, off) && (off - 1 == 0 || Matches(o, change, off - 1))
    decreases hi - lo
  {
    var mid := Midpoint(lo, hi);
    if mid == hi {
    } else if Matches(o, change, mid) {
      BisectBoundary(o, change, mid, hi);
    } else {
      BisectBoundary(o, change, lo, mid);
    }
  }

  /** When every commit between `lo` and `hi` can be read, the search succeeds. */
  lemma {:induction false} BisectSucceeds(o: Oracle, change: Change, lo: int, hi: int)
    requires 0 <= lo <= hi
    requires forall k :: lo < k <= hi ==> Readable(o, change, k)
    requires lo == hi ==> Readable(o, change, hi)
    ensures BisectFrom(o, change, lo, hi).Some?
    decreases hi - lo
  {
    var mid := Midpoint(lo, hi);
    assert Readable(o, change, mid);
    if mid != hi {
      if Matches(o, change, mid) {
        BisectSucceeds(o, change, mid, hi);
      } else {
        BisectSucceeds(o, change, lo, mid);
      }
    }
  }

  /** Between offsets 1 and `hi`, once the drv stops matching the baseline's
      it never matches again. */
  ghost predicate FlipsOnce(o: Oracle, change: Change, hi: int) {
    forall k :: 1 <= k < hi && !Matches(o, change, k) ==> !Matches(o, change, k + 1)
  }

  lemma {:induction false} MatchesBefore(o: Oracle, change: Change, hi: int, k: int, m: int)
    requires 1 <= k <= m <= hi
    requires FlipsOnce(o, change, hi)
    requires Matches(o, change, m)
    ensures Matches(o, change, k)
    decreases m - k
  {
    if k < m {
      MatchesBefore(o, change, hi, k + 1, m);
    }
  }

  /** When the drv flips only once in (0, hi], the binary search finds the
      smallest offset whose drv does not match. */
  lemma BisectLeftmost(o: Oracle, change: Change, hi: int)
    requires 1 <= hi
    requires Differs(o, change, hi)
    requires FlipsOnce(o, change, hi)
    requires BisectFrom(o, change, 0, hi).Some?
    ensures var off := BisectFrom(o, change, 0, hi).value.depth - change.depth;
            1 <= off && Differs(o, change, off) &&
            forall k :: 1 <= k < off ==> Matches(o, change, k)
  {
    var off := BisectFrom(o, change, 0, hi).value.depth - change.depth;
    BisectBoundary(o, change, 0, hi);
    forall k | 1 <= k < off
      ensures Matches(o, change, k)
    {
      MatchesBefore(o, change, hi, k, off - 1);
    }
  }

  /** `find_drv_change`: binary search between offset 0 and `hi` with the
      round-up midpoint; the change is built from the reading at the offset
      where the search stops. */
  method FindDrvChange(o: Oracle, change: Change, hi: int) returns (r: Option<Change>)
    requires 0 <= hi
    ensures r == BisectFrom(o, change, 0, hi)
  {
    var lo, up := 0, hi;
    while true
      invariant 0 <= lo <= up
      invariant BisectFrom(o, change, lo, up) == BisectFrom(o, change, 0, hi)
      decreases up - lo
    {
      var mid := Midpoint(lo, up);
      var reading := o.Read(change.depth + mid);
      if reading.None? {
        return None;
      }
      if mid == up {
        return Some(MakeChange(reading.value, change.depth + mid));
      }
      if Some(reading.value.drv) == change.drv {
        lo := mid;
      } else {
        up := mid;
      }
    }
  }
}
