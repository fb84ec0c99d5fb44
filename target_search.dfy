/**
 * What the image and PDF target-size searches have in common: a quality bracket that each
 * probe narrows, and the two running selections "largest size within the target" and
 * "smallest size seen".
 */
module TargetSearch {
  import opened Wrappers

  /** The quality bracket [low, high]. */
  datatype Interval = Interval(low: real, high: real)

  function Mid(b: Interval): real { (b.low + b.high) / 2.0 }

  function Width(b: Interval): real { b.high - b.low }

  /** One encoder call: the quality it was made at and the byte size of the blob it produced. */
  datatype Probe = Probe(quality: real, size: nat)

  function ProbeSize(p: Probe): nat { p.size }

  /**
   * The bracket after one probe: an output over the target makes the probed quality the new
   * `high` ("need smaller"), any other output makes it the new `low`.
   */
  function Narrow(b: Interval, p: Probe, target: int): Interval {
    if p.size > target then Interval(b.low, p.quality) else Interval(p.quality, b.high)
  }

  /** The bracket after the probes `h`, in order, starting from `start`. */
  function Bracket(start: Interval, h: seq<Probe>, target: int): Interval {
    if h == [] then start else Narrow(Bracket(start, h[..|h| - 1], target), h[|h| - 1], target)
  }

  lemma BracketSnoc(start: Interval, h: seq<Probe>, p: Probe, target: int)
    ensures Bracket(start, h + [p], target) == Narrow(Bracket(start, h, target), p, target)
  {
    assert (h + [p])[..|h|] == h;
  }

  /** Every probe of `h` from position `from` on was made at the midpoint of the bracket before it. */
  ghost predicate ProbesAtMidpoints(start: Interval, h: seq<Probe>, target: int, from: nat) {
    forall i :: from <= i < |h| ==> h[i].quality == Mid(Bracket(start, h[..i], target))
  }

  /** Dropping the last probe keeps the others at their midpoints. */
  lemma MidpointsDropLast(start: Interval, h: seq<Probe>, target: int, from: nat)
    requires h != [] && ProbesAtMidpoints(start, h, target, from)
    ensures ProbesAtMidpoints(start, h[..|h| - 1], target, from)
  {
    var init := h[..|h| - 1];
    forall i | from <= i < |init| ensures init[i].quality == Mid(Bracket(start, init[..i], target)) {
      assert init[..i] == h[..i];
    }
  }

  /**
   * Each bound of the bracket is either where it started or the quality of a probe that
   * moved it: `high` only ever takes a quality whose output exceeded the target, `low` only
   * a quality whose output fit.
   */
  lemma {:induction false} BoundsRecordOutcomes(start: Interval, h: seq<Probe>, target: int)
    ensures var b := Bracket(start, h, target);
      (b.high == start.high || exists k :: 0 <= k < |h| && h[k].quality == b.high && h[k].size > target)
      && (b.low == start.low || exists k :: 0 <= k < |h| && h[k].quality == b.low && h[k].size <= target)
  {
    if h != [] {
      var init := h[..|h| - 1];
      BoundsRecordOutcomes(start, init, target);
      var b0 := Bracket(start, init, target);
      var b := Bracket(start, h, target);
      if b.high != start.high && b.high == b0.high {
        var k :| 0 <= k < |init| && init[k].quality == b0.high && init[k].size > target;
        assert h[k] == init[k];
      }
      if b.low != start.low && b.low == b0.low {
        var k :| 0 <= k < |init| && init[k].quality == b0.low && init[k].size <= target;
        assert h[k] == init[k];
      }
    }
  }

  /**
   * When the probes from position `k` on sit at midpoints, the bracket stays ordered and
   * every such probe lies inside the bracket it was made in.
   */
  lemma {:induction false} MidpointProbesInside(start: Interval, h: seq<Probe>, target: int, k: nat)
    requires k <= |h|
    requires Bracket(start, h[..k], target).low <= Bracket(start, h[..k], target).high
    requires ProbesAtMidpoints(start, h, target, k)
    ensures Bracket(start, h, target).low <= Bracket(start, h, target).high
    ensures forall i :: k <= i < |h| ==>
      Bracket(start, h[..i], target).low <= h[i].quality <= Bracket(start, h[..i], target).high
    ensures Bracket(start, h[..k], target).low <= Bracket(start, h, target).low
    ensures Bracket(start, h, target).high <= Bracket(start, h[..k], target).high
  {
    if |h| > k {
      var init := h[..|h| - 1];
      assert init[..k] == h[..k];
      MidpointsDropLast(start, h, target, k);
      MidpointProbesInside(start, init, target, k);
      assert h[..|h| - 1] == init;
      forall i | k <= i < |h|
        ensures Bracket(start, h[..i], target).low <= h[i].quality <= Bracket(start, h[..i], target).high
      {
        if i < |init| {
          assert h[..i] == init[..i];
        }
      }
    } else {
      assert h[..k] == h;
    }
  }

  function Pow2(n: nat): (r: real)
    ensures r >= 1.0
  {
    if n == 0 then 1.0 else 2.0 * Pow2(n - 1)
  }

  lemma {:induction false} PowMonotone(m: nat, n: nat)
    requires m <= n
    ensures Pow2(m) <= Pow2(n)
  {
    if m < n {
      PowMonotone(m, n - 1);
    }
  }

  lemma DivideByLarger(w: real, p: real, q: real)
    requires 0.0 < p <= q && w >= 0.0
    ensures w / q <= w / p
  {
    assert w / q * q == w;
    assert w / p * p == w;
  }

  /** A probe at the midpoint halves the bracket, whichever way it goes. */
  lemma NarrowAtMidpoint(b: Interval, p: Probe, target: int)
    requires p.quality == Mid(b)
    ensures Width(Narrow(b, p, target)) == Width(b) / 2.0
  {
  }

  lemma HalveQuotient(w: real, p: real)
    requires p >= 1.0
    ensures (w / p) / 2.0 == w / (2.0 * p)
  {
  }

  /** Each midpoint probe halves the bracket, so `n` of them divide its width by 2^n. */
  lemma {:induction false} MidpointsHalveWidth(start: Interval, h: seq<Probe>, target: int, k: nat)
    requires k <= |h|
    requires ProbesAtMidpoints(start, h, target, k)
    ensures Width(Bracket(start, h, target)) == Width(Bracket(start, h[..k], target)) / Pow2(|h| - k)
  {
    if |h| == k {
      assert h[..k] == h;
    } else {
      var init := h[..|h| - 1];
      assert init[..k] == h[..k];
      MidpointsDropLast(start, h, target, k);
      MidpointsHalveWidth(start, init, target, k);
      assert h[..|h| - 1] == init;
      NarrowAtMidpoint(Bracket(start, init, target), h[|h| - 1], target);
      HalveQuotient(Width(Bracket(start, h[..k], target)), Pow2(|init| - k));
    }
  }

  // ---------------------------------------------------------------------------
  // The two running selections
  // ---------------------------------------------------------------------------

  /**
   * Position of the "best under target": among the outputs within the target, the largest,
   * the earliest one on ties (a later output replaces it only when strictly larger).
   */
  function BestFit<T>(h: seq<T>, size: T -> nat, target: int): (r: Option<nat>)
    ensures r.Some? ==> r.value < |h| && size(h[r.value]) <= target
    ensures r.None? <==> forall i :: 0 <= i < |h| ==> size(h[i]) > target
    ensures r.Some? ==> forall i :: 0 <= i < |h| && size(h[i]) <= target ==> size(h[i]) <= size(h[r.value])
    ensures r.Some? ==> forall i :: 0 <= i < r.value && size(h[i]) <= target ==> size(h[i]) < size(h[r.value])
  {
    if h == [] then None
    else
      var b := BestFit(h[..|h| - 1], size, target);
      var last := |h| - 1;
      assert forall i :: 0 <= i < last ==> h[..last][i] == h[i];
      if size(h[last]) <= target && (b.None? || size(h[last]) > size(h[b.value])) then Some(last) else b
  }

  /** Position of the "smallest seen": the smallest output, the earliest one on ties. */
  function Smallest<T>(h: seq<T>, size: T -> nat): (r: Option<nat>)
    ensures r.Some? <==> h != []
    ensures r.Some? ==> r.value < |h|
    ensures r.Some? ==> forall i :: 0 <= i < |h| ==> size(h[r.value]) <= size(h[i])
    ensures r.Some? ==> forall i :: 0 <= i < r.value ==> size(h[r.value]) < size(h[i])
  {
    if h == [] then None
    else
      var b := Smallest(h[..|h| - 1], size);
      var last := |h| - 1;
      assert forall i :: 0 <= i < last ==> h[..last][i] == h[i];
      if b.None? || size(h[last]) < size(h[b.value]) then Some(last) else b
  }

  /** The element at an optional position. */
  function At<T>(h: seq<T>, o: Option<nat>): Option<T>
    requires o.Some? ==> o.value < |h|
  {
    if o.Some? then Some(h[o.value]) else None
  }

  /** One more output updates the best-under-target exactly as the source's running update does. */
  lemma BestFitSnoc<T>(h: seq<T>, x: T, size: T -> nat, target: int)
    ensures var b := BestFit(h, size, target);
      BestFit(h + [x], size, target)
      == if size(x) <= target && (b.None? || size(x) > size(h[b.value])) then Some(|h|) else b
  {
    assert (h + [x])[..|h|] == h;
  }

  /** One more output updates the smallest-seen exactly as the source's running update does. */
  lemma SmallestSnoc<T>(h: seq<T>, x: T, size: T -> nat)
    ensures var b := Smallest(h, size);
      Smallest(h + [x], size) == if b.None? || size(x) < size(h[b.value]) then Some(|h|) else b
  {
    assert (h + [x])[..|h|] == h;
  }

  /**
   * The running best-under-target as a value: one more output replaces it exactly when it fits
   * and either nothing fit before or it is strictly larger.
   */
  lemma RunningBest<T>(h: seq<T>, x: T, size: T -> nat, target: int)
    ensures var b := At(h, BestFit(h, size, target));
      At(h + [x], BestFit(h + [x], size, target))
      == if size(x) <= target && (b.None? || size(x) > size(b.value)) then Some(x) else b
  {
    BestFitSnoc(h, x, size, target);
    var b := BestFit(h, size, target);
    if b.Some? {
      assert (h + [x])[b.value] == h[b.value];
    }
  }

  /**
   * The running smallest-seen as a value: one more output replaces it exactly when nothing was
   * seen before or it is strictly smaller.
   */
  lemma RunningSmallest<T>(h: seq<T>, x: T, size: T -> nat)
    ensures var s := At(h, Smallest(h, size));
      At(h + [x], Smallest(h + [x], size)) == if s.None? || size(x) < size(s.value) then Some(x) else s
  {
    SmallestSnoc(h, x, size);
    var s := Smallest(h, size);
    if s.Some? {
      assert (h + [x])[s.value] == h[s.value];
    }
  }

  /** The source's running update of the best-under-target by one more output. */
  function KeepBest<T>(b: Option<T>, x: T, size: T -> nat, target: int): Option<T> {
    if size(x) <= target && (b.None? || size(x) > size(b.value)) then Some(x) else b
  }

  /** The source's running update of the smallest-seen by one more output. */
  function KeepSmallest<T>(s: Option<T>, x: T, size: T -> nat): Option<T> {
    if s.None? || size(x) < size(s.value) then Some(x) else s
  }

  /** The best-under-target after starting from `b` and then seeing the outputs `xs` in order. */
  function RunBest<T>(b: Option<T>, xs: seq<T>, size: T -> nat, target: int): Option<T> {
    if xs == [] then b else KeepBest(RunBest(b, xs[..|xs| - 1], size, target), xs[|xs| - 1], size, target)
  }

  /** The smallest-seen after starting from `s` and then seeing the outputs `xs` in order. */
  function RunSmallest<T>(s: Option<T>, xs: seq<T>, size: T -> nat): Option<T> {
    if xs == [] then s else KeepSmallest(RunSmallest(s, xs[..|xs| - 1], size), xs[|xs| - 1], size)
  }

  lemma RunBestSnoc<T>(b: Option<T>, xs: seq<T>, x: T, size: T -> nat, target: int)
    ensures RunBest(b, xs + [x], size, target) == KeepBest(RunBest(b, xs, size, target), x, size, target)
  {
    assert (xs + [x])[..|xs|] == xs;
  }

  lemma RunSmallestSnoc<T>(s: Option<T>, xs: seq<T>, x: T, size: T -> nat)
    ensures RunSmallest(s, xs + [x], size) == KeepSmallest(RunSmallest(s, xs, size), x, size)
  {
    assert (xs + [x])[..|xs|] == xs;
  }

  /**
   * Continuing the running update from the best-under-target of `h` over `xs` gives the
   * best-under-target of `h + xs`.
   */
  lemma {:induction false} RunBestIsBestFit<T>(h: seq<T>, xs: seq<T>, size: T -> nat, target: int)
    ensures RunBest(At(h, BestFit(h, size, target)), xs, size, target)
      == At(h + xs, BestFit(h + xs, size, target))
  {
    if xs == [] {
      assert h + xs == h;
    } else {
      var init, x := xs[..|xs| - 1], xs[|xs| - 1];
      assert xs == init + [x];
      RunBestIsBestFit(h, init, size, target);
      RunBestSnoc(At(h, BestFit(h, size, target)), init, x, size, target);
      RunningBest(h + init, x, size, target);
      assert (h + init) + [x] == h + xs;
    }
  }

  /**
   * Continuing the running update from the smallest-seen of `h` over `xs` gives the
   * smallest-seen of `h + xs`.
   */
  lemma {:induction false} RunSmallestIsSmallest<T>(h: seq<T>, xs: seq<T>, size: T -> nat)
    ensures RunSmallest(At(h, Smallest(h, size)), xs, size) == At(h + xs, Smallest(h + xs, size))
  {
    if xs == [] {
      assert h + xs == h;
    } else {
      var init, x := xs[..|xs| - 1], xs[|xs| - 1];
      assert xs == init + [x];
      RunSmallestIsSmallest(h, init, size);
      RunSmallestSnoc(At(h, Smallest(h, size)), init, x, size);
      RunningSmallest(h + init, x, size);
      assert (h + init) + [x] == h + xs;
    }
  }

  /**
   * The two running selections, started empty and run over a non-empty history, give the
   * history's `bestUnder || smallest` choice.
   */
  lemma RunsChoose<T>(h: seq<T>, size: T -> nat, target: int)
    requires h != []
    ensures var b, s := RunBest(None, h, size, target), RunSmallest(None, h, size);
      (b.Some? || s.Some?) && (if b.Some? then b.value else s.value) == Choose(h, size, target)
  {
    RunBestIsBestFit([], h, size, target);
    RunSmallestIsSmallest([], h, size);
    assert [] + h == h;
  }

  /**
   * `bestUnder || smallest`: the best output within the target when there is one, otherwise
   * the smallest output.
   */
  function Choose<T>(h: seq<T>, size: T -> nat, target: int): (r: T)
    requires h != []
    ensures (exists i :: 0 <= i < |h| && size(h[i]) <= target) ==>
      size(r) <= target && forall i :: 0 <= i < |h| && size(h[i]) <= target ==> size(h[i]) <= size(r)
    ensures (forall i :: 0 <= i < |h| ==> size(h[i]) > target) ==>
      forall i :: 0 <= i < |h| ==> size(r) <= size(h[i])
    ensures r in h
  {
    var b := BestFit(h, size, target);
    if b.Some? then h[b.value] else h[Smallest(h, size).value]
  }
}
