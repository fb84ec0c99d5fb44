/**
 * The PDF compressor: the target-size search over JPEG quality and rasterization scale, the
 * target validation, the fallback to the original file, the compression options, the download
 * names and the selected/compressed file lists.
 */
module PdfCompression {
  import opened Wrappers
  import opened Text
  import opened Files
  import opened TargetSearch

  // ---------------------------------------------------------------------------
  // Target-size search
  // ---------------------------------------------------------------------------

  /** Every pass restarts the quality bracket here. */
  const PassStart: Interval := Interval(0.1, 0.95)
  const MaxAttempts: nat := 6
  const MaxProbesPerPass: nat := 9
  /** A pass ends once the bracket is narrower than this. */
  const MinGap: real := 0.015
  /** The scale factor applied after each pass, and the scale below which the search gives up. */
  const ScaleStep: real := 0.8
  const MinScale: real := 0.2

  /** The rasterization scale of pass `attempt`: 1.0 multiplied by 0.8 once per earlier pass. */
  function Scale(attempt: nat): real {
    if attempt == 0 then 1.0 else Scale(attempt - 1) * ScaleStep
  }

  function AbsReal(x: real): real { if x < 0.0 then -x else x }

  /** The inner loop's break test. */
  predicate GapClosed(p: seq<Probe>, target: int) {
    AbsReal(Width(Bracket(PassStart, p, target))) < MinGap
  }

  /** A pass is over after 9 probes or once the bracket is narrow. */
  predicate PassDone(p: seq<Probe>, target: int) {
    |p| >= MaxProbesPerPass || GapClosed(p, target)
  }

  /** A page-raster PDF the search built: its scale, its JPEG quality and its byte size. */
  datatype Shot = Shot(scale: real, quality: real, size: nat)

  function ShotSize(s: Shot): nat { s.size }

  /** The probes of one pass as shots at that pass's scale. */
  function Tag(scale: real, p: seq<Probe>): (r: seq<Shot>)
    ensures |r| == |p|
    ensures forall i :: 0 <= i < |p| ==> r[i] == Shot(scale, p[i].quality, p[i].size)
  {
    seq(|p|, i requires 0 <= i < |p| => Shot(scale, p[i].quality, p[i].size))
  }

  /** Every shot of the passes, in the order they were built. */
  function Shots(passes: seq<seq<Probe>>): seq<Shot> {
    if passes == [] then []
    else Shots(passes[..|passes| - 1]) + Tag(Scale(|passes| - 1), passes[|passes| - 1])
  }

  lemma ShotsSnoc(passes: seq<seq<Probe>>, p: seq<Probe>)
    ensures Shots(passes + [p]) == Shots(passes) + Tag(Scale(|passes|), p)
  {
    assert (passes + [p])[..|passes|] == passes;
  }

  lemma TagSnoc(scale: real, p: seq<Probe>, x: Probe)
    ensures Tag(scale, p + [x]) == Tag(scale, p) + [Shot(scale, x.quality, x.size)]
  {
  }

  /**
   * `p` is the start of a pass at `scale`: each probe was made at the midpoint of the bracket
   * before it, after probes that had not ended the pass, and the builder produced a PDF of the
   * recorded size for it.
   */
  ghost predicate IsPass(build: (real, real) -> Option<nat>, scale: real, target: int, p: seq<Probe>)
    decreases |p|
  {
    p == []
    || var init, x := p[..|p| - 1], p[|p| - 1];
       IsPass(build, scale, target, init) && !PassDone(init, target)
       && x.quality == Mid(Bracket(PassStart, init, target)) && build(x.quality, scale) == Some(x.size)
  }

  /**
   * `IsPass` stated for all probes at once: every probe sits at the midpoint of the bracket
   * before it, the builder produced a PDF of the recorded size for it, and no proper prefix
   * ended the pass.
   */
  ghost predicate PassFacts(build: (real, real) -> Option<nat>, scale: real, target: int, p: seq<Probe>) {
    ProbesAtMidpoints(PassStart, p, target, 0)
    && (forall i :: 0 <= i < |p| ==> build(p[i].quality, scale) == Some(p[i].size))
    && (forall i :: 0 < i < |p| ==> !PassDone(p[..i], target))
  }

  /** One more probe at the midpoint of a pass that is not over extends the pass. */
  lemma PassExtends(build: (real, real) -> Option<nat>, scale: real, target: int, p: seq<Probe>, x: Probe)
    requires IsPass(build, scale, target, p) && !PassDone(p, target)
    requires x.quality == Mid(Bracket(PassStart, p, target)) && build(x.quality, scale) == Some(x.size)
    ensures IsPass(build, scale, target, p + [x])
    ensures Bracket(PassStart, p + [x], target) == Narrow(Bracket(PassStart, p, target), x, target)
  {
    assert (p + [x])[..|p|] == p;
  }

  /** A pass has the facts of a pass. */
  lemma {:induction false} PassHasFacts(build: (real, real) -> Option<nat>, scale: real, target: int, p: seq<Probe>)
    requires IsPass(build, scale, target, p)
    ensures PassFacts(build, scale, target, p)
  {
    if p != [] {
      var init, x := p[..|p| - 1], p[|p| - 1];
      PassHasFacts(build, scale, target, init);
      FactsStep(build, scale, target, init, x);
      assert init + [x] == p;
    }
  }

  /** The start of a pass has the facts of a pass. */
  lemma FactsInit(build: (real, real) -> Option<nat>, scale: real, target: int, p: seq<Probe>)
    requires PassFacts(build, scale, target, p) && p != []
    ensures PassFacts(build, scale, target, p[..|p| - 1])
  {
    var init := p[..|p| - 1];
    MidpointsDropLast(PassStart, p, target, 0);
    forall i | 0 < i < |init| ensures !PassDone(init[..i], target) {
      assert init[..i] == p[..i];
    }
  }

  /** Probes with the facts of a pass are a pass. */
  lemma {:induction false} FactsMakePass(build: (real, real) -> Option<nat>, scale: real, target: int, p: seq<Probe>)
    requires PassFacts(build, scale, target, p)
    ensures IsPass(build, scale, target, p)
  {
    if p != [] {
      var init := p[..|p| - 1];
      FactsInit(build, scale, target, p);
      FactsMakePass(build, scale, target, init);
      assert p[..|p| - 1] == init;
      if |p| > 1 {
        assert !PassDone(p[..|p| - 1], target);
      }
    }
  }

  predicate NoFit(p: seq<Probe>, target: int) {
    forall i :: 0 <= i < |p| ==> p[i].size > target
  }

  /**
   * `passes` and `r` are a complete run of the search:
   * - between one and six passes, pass `a` at scale `Scale(a)`;
   * - every pass but the last ran to its end, fit nothing, and left the next scale at least 0.2;
   * - either the builder failed at the last pass's next midpoint and the result is null,
   * - or the last pass ran to its end, and the search stopped because something fit, six passes
   *   were made or the scale fell below 0.2, with the best fitting shot or else the smallest.
   */
  ghost predicate IsRun(build: (real, real) -> Option<nat>, target: int, passes: seq<seq<Probe>>,
                        aborted: bool, r: Option<Shot>) {
    1 <= |passes| <= MaxAttempts
    && (forall a :: 0 <= a < |passes| ==> IsPass(build, Scale(a), target, passes[a]))
    && (forall a :: 0 <= a < |passes| - 1 ==>
          PassDone(passes[a], target) && NoFit(passes[a], target) && Scale(a + 1) >= MinScale)
    && var last := passes[|passes| - 1];
       if aborted then
         !PassDone(last, target)
         && build(Mid(Bracket(PassStart, last, target)), Scale(|passes| - 1)).None?
         && r.None?
       else
         PassDone(last, target)
         && (!NoFit(last, target) || |passes| == MaxAttempts || Scale(|passes|) < MinScale)
         && Shots(passes) != []
         && r == Some(Choose(Shots(passes), ShotSize, target))
  }

  /** One more probe at the bracket's midpoint, after a pass that was not over, keeps the facts. */
  lemma FactsStep(build: (real, real) -> Option<nat>, scale: real, target: int, p: seq<Probe>, x: Probe)
    requires PassFacts(build, scale, target, p) && !PassDone(p, target)
    requires x.quality == Mid(Bracket(PassStart, p, target)) && build(x.quality, scale) == Some(x.size)
    ensures PassFacts(build, scale, target, p + [x])
  {
    var p' := p + [x];
    assert p'[..|p|] == p;
    forall i | 0 <= i < |p'| ensures p'[i].quality == Mid(Bracket(PassStart, p'[..i], target)) {
      if i < |p| {
        assert p'[..i] == p[..i];
      }
    }
    forall i | 0 < i < |p'| ensures !PassDone(p'[..i], target) {
      if i < |p| {
        assert p'[..i] == p[..i];
      }
    }
  }

  /** After shots none of which fit, the running pass's shots fit exactly when that pass has a fit. */
  lemma PassFits(seen: seq<Shot>, scale: real, pass: seq<Probe>, target: int)
    requires forall i :: 0 <= i < |seen| ==> seen[i].size > target
    ensures BestFit(seen + Tag(scale, pass), ShotSize, target).None? <==> NoFit(pass, target)
    ensures NoFit(pass, target) ==> forall i :: 0 <= i < |seen + Tag(scale, pass)| ==> (seen + Tag(scale, pass))[i].size > target
  {
    var all := seen + Tag(scale, pass);
    var n := |seen|;
    if !NoFit(pass, target) {
      var i :| 0 <= i < |pass| && pass[i].size <= target;
      assert all[n + i] == Shot(scale, pass[i].quality, pass[i].size);
      assert ShotSize(all[n + i]) <= target;
    } else {
      forall i | 0 <= i < |all| ensures all[i].size > target {
        if i >= n {
          assert all[i] == Tag(scale, pass)[i - n];
        }
      }
    }
    if BestFit(all, ShotSize, target).Some? {
      var k := BestFit(all, ShotSize, target).value;
      assert ShotSize(all[k]) <= target;
      assert k >= n;
      assert all[k] == Tag(scale, pass)[k - n];
      assert pass[k - n].size <= target;
    }
  }

  /** When no pass fit anything, no shot fits. */
  lemma {:induction false} ShotsNoFit(passes: seq<seq<Probe>>, target: int)
    requires forall a :: 0 <= a < |passes| ==> NoFit(passes[a], target)
    ensures forall i :: 0 <= i < |Shots(passes)| ==> Shots(passes)[i].size > target
  {
    if passes != [] {
      var init := passes[..|passes| - 1];
      ShotsNoFit(init, target);
      var last := passes[|passes| - 1];
      var t := Tag(Scale(|passes| - 1), last);
      assert Shots(passes) == Shots(init) + t;
      forall i | 0 <= i < |Shots(passes)| ensures Shots(passes)[i].size > target {
        if i >= |Shots(init)| {
          assert Shots(passes)[i] == t[i - |Shots(init)|];
        }
      }
    }
  }

  /**
   * One turn of the inner loop: the probe at the midpoint extends the pass, the bracket after
   * it is the half the outcome selects, and the kept shots are the running selections over
   * the extended pass.
   */
  lemma RunPassStep(build: (real, real) -> Option<nat>, scale: real, target: int,
                    bestUnder0: Option<Shot>, smallestSeen0: Option<Shot>,
                    p: seq<Probe>, lowQ: real, highQ: real, bestUnder: Option<Shot>, smallestSeen: Option<Shot>,
                    size: nat,
                    p': seq<Probe>, lowQ': real, highQ': real, bestUnder': Option<Shot>, smallestSeen': Option<Shot>)
    requires IsPass(build, scale, target, p) && !PassDone(p, target)
    requires Interval(lowQ, highQ) == Bracket(PassStart, p, target)
    requires build((lowQ + highQ) / 2.0, scale) == Some(size)
    requires bestUnder == RunBest(bestUnder0, Tag(scale, p), ShotSize, target)
    requires smallestSeen == RunSmallest(smallestSeen0, Tag(scale, p), ShotSize)
    requires p' == p + [Probe((lowQ + highQ) / 2.0, size)]
    requires smallestSeen' == KeepSmallest(smallestSeen, Shot(scale, (lowQ + highQ) / 2.0, size), ShotSize)
    requires size > target ==> lowQ' == lowQ && highQ' == (lowQ + highQ) / 2.0 && bestUnder' == bestUnder
    requires size <= target ==> lowQ' == (lowQ + highQ) / 2.0 && highQ' == highQ
                                && bestUnder' == KeepBest(bestUnder, Shot(scale, (lowQ + highQ) / 2.0, size), ShotSize, target)
    ensures IsPass(build, scale, target, p')
    ensures Interval(lowQ', highQ') == Bracket(PassStart, p', target)
    ensures bestUnder' == RunBest(bestUnder0, Tag(scale, p'), ShotSize, target)
    ensures smallestSeen' == RunSmallest(smallestSeen0, Tag(scale, p'), ShotSize)
  {
    var x := Probe((lowQ + highQ) / 2.0, size);
    PassExtends(build, scale, target, p, x);
    TagSnoc(scale, p, x);
    RunBestSnoc(bestUnder0, Tag(scale, p), Shot(scale, x.quality, size), ShotSize, target);
    RunSmallestSnoc(smallestSeen0, Tag(scale, p), Shot(scale, x.quality, size), ShotSize);
  }

  /**
   * One pass of `compressPDFToTargetSize`'s inner loop at `scale`, continuing the running
   * `bestUnder` and `smallestSeen` of earlier passes. `ok` is false when the builder failed,
   * which makes the search return null at once.
   */
  method RunPass(build: (real, real) -> Option<nat>, scale: real, target: int,
                 bestUnder0: Option<Shot>, smallestSeen0: Option<Shot>)
    returns (ok: bool, bestUnder: Option<Shot>, smallestSeen: Option<Shot>, ghost pass: seq<Probe>)
    ensures IsPass(build, scale, target, pass)
    ensures ok ==> PassDone(pass, target) && pass != []
    ensures ok ==> bestUnder == RunBest(bestUnder0, Tag(scale, pass), ShotSize, target)
    ensures ok ==> smallestSeen == RunSmallest(smallestSeen0, Tag(scale, pass), ShotSize)
    ensures !ok ==> !PassDone(pass, target) && build(Mid(Bracket(PassStart, pass, target)), scale).None?
  {
    bestUnder, smallestSeen := bestUnder0, smallestSeen0;
    var lowQ, highQ := 0.1, 0.95;
    pass := [];
    var i := 0;
    var closed := false; // the loop's `break` once the bracket is narrower than `MinGap`
    while i < MaxProbesPerPass && !closed
      invariant 0 <= i <= MaxProbesPerPass && |pass| == i
      invariant Interval(lowQ, highQ) == Bracket(PassStart, pass, target)
      invariant IsPass(build, scale, target, pass)
      invariant closed == GapClosed(pass, target)
      invariant bestUnder == RunBest(bestUnder0, Tag(scale, pass), ShotSize, target)
      invariant smallestSeen == RunSmallest(smallestSeen0, Tag(scale, pass), ShotSize)
    {
      var built;
      built, lowQ, highQ, bestUnder, smallestSeen, pass :=
        ProbeAtMidpoint(build, scale, target, bestUnder0, smallestSeen0, pass, lowQ, highQ, bestUnder, smallestSeen);
      if !built {
        return false, bestUnder, smallestSeen, pass;
      }
      closed := AbsReal(highQ - lowQ) < MinGap;
      i := i + 1;
    }
    ok := true;
  }

  /**
   * One step of a pass: build at the midpoint of the bracket; when the builder gives a blob,
   * keep it as the smallest and, if it fits, as the best, and move the bound its size selects.
   * The new state is that of the pass extended by the probe; without a blob nothing changes.
   */
  method ProbeAtMidpoint(build: (real, real) -> Option<nat>, scale: real, target: int,
                         bestUnder0: Option<Shot>, smallestSeen0: Option<Shot>, ghost pass: seq<Probe>,
                         lowQ: real, highQ: real, bestUnder: Option<Shot>, smallestSeen: Option<Shot>)
    returns (built: bool, lowQ': real, highQ': real, bestUnder': Option<Shot>, smallestSeen': Option<Shot>,
             ghost pass': seq<Probe>)
    requires IsPass(build, scale, target, pass) && !PassDone(pass, target)
    requires Interval(lowQ, highQ) == Bracket(PassStart, pass, target)
    requires bestUnder == RunBest(bestUnder0, Tag(scale, pass), ShotSize, target)
    requires smallestSeen == RunSmallest(smallestSeen0, Tag(scale, pass), ShotSize)
    ensures !built ==> build(Mid(Bracket(PassStart, pass, target)), scale).None?
    ensures !built ==> pass' == pass && bestUnder' == bestUnder && smallestSeen' == smallestSeen
    ensures built ==> |pass'| == |pass| + 1 && pass'[..|pass|] == pass
    ensures IsPass(build, scale, target, pass')
    ensures built ==> Interval(lowQ', highQ') == Bracket(PassStart, pass', target)
    ensures bestUnder' == RunBest(bestUnder0, Tag(scale, pass'), ShotSize, target)
    ensures smallestSeen' == RunSmallest(smallestSeen0, Tag(scale, pass'), ShotSize)
  {
    var q := (lowQ + highQ) / 2.0;
    var blob := build(q, scale);
    if blob.None? {
      return false, lowQ, highQ, bestUnder, smallestSeen, pass;
    }
    var size := blob.value;
    var shot := Shot(scale, q, size);
    smallestSeen' := KeepSmallest(smallestSeen, shot, ShotSize);
    lowQ', highQ', bestUnder' := lowQ, highQ, bestUnder;
    if size > target {
      highQ' := q;
    } else {
      lowQ' := q;
      bestUnder' := KeepBest(bestUnder, shot, ShotSize, target);
    }
    pass' := pass + [Probe(q, size)];
    RunPassStep(build, scale, target, bestUnder0, smallestSeen0, pass, lowQ, highQ, bestUnder, smallestSeen, size,
                pass', lowQ', highQ', bestUnder', smallestSeen');
    assert pass'[..|pass|] == pass;
    built := true;
  }

  /**
   * `compressPDFToTargetSize`. `loaded` says whether pdf.js is present and the document
   * loaded; `build` stands for `buildPdfFromRaster` at a quality and a scale and gives the
   * built PDF's size, or `None` when it yields no blob or throws. The result is the best
   * shot within the target, else the smallest shot, or `None` when the builder failed.
   */
  method CompressPdfToTargetSize(loaded: bool, build: (real, real) -> Option<nat>, target: int)
    returns (r: Option<Shot>, ghost passes: seq<seq<Probe>>, ghost aborted: bool)
    ensures !loaded ==> r.None? && passes == []
    ensures loaded ==> IsRun(build, target, passes, aborted, r)
  {
    passes := [];
    aborted := false;
    if !loaded {
      return None, passes, aborted;
    }
    var bestUnder: Option<Shot> := None;
    var smallestSeen: Option<Shot> := None;
    var scale := 1.0;
    var attempt := 0;
    ghost var seen: seq<Shot> := [];
    while attempt < MaxAttempts
      invariant 0 <= attempt <= MaxAttempts && |passes| == attempt && scale == Scale(attempt)
      invariant FailedPasses(build, target, passes)
      invariant seen == Shots(passes)
      invariant passes != [] ==> seen != []
      invariant bestUnder.None? && forall i :: 0 <= i < |seen| ==> seen[i].size > target
      invariant smallestSeen == At(seen, Smallest(seen, ShotSize))
    {
      var ok;
      ghost var pass;
      ok, bestUnder, smallestSeen, pass := RunPass(build, scale, target, bestUnder, smallestSeen);
      ShotsSnoc(passes, pass);
      if !ok {
        AbortRun(build, target, passes, pass);
        passes := passes + [pass];
        aborted := true;
        return None, passes, aborted;
      }
      BestAfterPass(seen, scale, pass, target, bestUnder);
      RunSmallestIsSmallest(seen, Tag(scale, pass), ShotSize);
      seen := seen + Tag(scale, pass);
      if bestUnder.Some? && bestUnder.value.size <= target {
        FitRun(build, target, passes, pass, bestUnder);
        passes := passes + [pass];
        return bestUnder, passes, aborted;
      }
      ScaleStaysAbove(attempt + 1);
      FailedPassesSnoc(build, target, passes, pass);
      passes := passes + [pass];
      scale := scale * ScaleStep;
      attempt := attempt + 1;
      if scale < MinScale {
        break;
      }
    }
    NoFitChoice(seen, target);
    r := if bestUnder.Some? then bestUnder else smallestSeen;
    ExhaustedRun(build, target, passes, r);
  }

  /**
   * The running best-under-target after a pass that follows shots none of which fit: it is the
   * best fit of all shots, and when it does not fit, nothing fit in that pass either.
   */
  lemma BestAfterPass(seen: seq<Shot>, scale: real, pass: seq<Probe>, target: int, bestUnder: Option<Shot>)
    requires forall i :: 0 <= i < |seen| ==> seen[i].size > target
    requires bestUnder == RunBest(None, Tag(scale, pass), ShotSize, target)
    ensures bestUnder == At(seen + Tag(scale, pass), BestFit(seen + Tag(scale, pass), ShotSize, target))
    ensures bestUnder.Some? && bestUnder.value.size <= target ==>
      !NoFit(pass, target) && bestUnder == Some(Choose(seen + Tag(scale, pass), ShotSize, target))
    ensures !(bestUnder.Some? && bestUnder.value.size <= target) ==>
      bestUnder.None? && NoFit(pass, target)
      && forall i :: 0 <= i < |seen + Tag(scale, pass)| ==> (seen + Tag(scale, pass))[i].size > target
  {
    assert At(seen, BestFit(seen, ShotSize, target)) == None;
    RunBestIsBestFit(seen, Tag(scale, pass), ShotSize, target);
    PassFits(seen, scale, pass, target);
  }

  /** When nothing fits, the choice is the smallest-seen. */
  lemma NoFitChoice(h: seq<Shot>, target: int)
    requires h != [] && forall i :: 0 <= i < |h| ==> h[i].size > target
    ensures Some(Choose(h, ShotSize, target)) == At(h, Smallest(h, ShotSize))
  {
    assert BestFit(h, ShotSize, target).None?;
  }

  /** Every pass of `ps` ran to its end, fit nothing and left the next scale at least 0.2. */
  ghost predicate FailedPasses(build: (real, real) -> Option<nat>, target: int, ps: seq<seq<Probe>>) {
    (forall a :: 0 <= a < |ps| ==> IsPass(build, Scale(a), target, ps[a]))
    && (forall a :: 0 <= a < |ps| ==> PassDone(ps[a], target) && NoFit(ps[a], target) && Scale(a + 1) >= MinScale)
  }

  lemma FailedPassesSnoc(build: (real, real) -> Option<nat>, target: int, ps: seq<seq<Probe>>, p: seq<Probe>)
    requires FailedPasses(build, target, ps)
    requires IsPass(build, Scale(|ps|), target, p) && PassDone(p, target) && NoFit(p, target)
    requires Scale(|ps| + 1) >= MinScale
    ensures FailedPasses(build, target, ps + [p])
  {
    var ps' := ps + [p];
    forall a | 0 <= a < |ps'| ensures IsPass(build, Scale(a), target, ps'[a]) {
      if a < |ps| {
        assert ps'[a] == ps[a];
      }
    }
    forall a | 0 <= a < |ps'|
      ensures PassDone(ps'[a], target) && NoFit(ps'[a], target) && Scale(a + 1) >= MinScale
    {
      if a < |ps| {
        assert ps'[a] == ps[a];
      }
    }
  }

  /** The builder failing in the pass after failed passes ends a run. */
  lemma AbortRun(build: (real, real) -> Option<nat>, target: int, ps: seq<seq<Probe>>, p: seq<Probe>)
    requires FailedPasses(build, target, ps) && |ps| < MaxAttempts
    requires IsPass(build, Scale(|ps|), target, p) && !PassDone(p, target)
    requires build(Mid(Bracket(PassStart, p, target)), Scale(|ps|)).None?
    ensures IsRun(build, target, ps + [p], true, None)
  {
    RunPrefix(build, target, ps, p);
  }

  /** Failed passes followed by one more pass have the shape of a run's passes. */
  lemma RunPrefix(build: (real, real) -> Option<nat>, target: int, ps: seq<seq<Probe>>, p: seq<Probe>)
    requires FailedPasses(build, target, ps)
    requires IsPass(build, Scale(|ps|), target, p)
    ensures var ps' := ps + [p];
      (forall a :: 0 <= a < |ps'| ==> IsPass(build, Scale(a), target, ps'[a]))
      && (forall a :: 0 <= a < |ps'| - 1 ==>
            PassDone(ps'[a], target) && NoFit(ps'[a], target) && Scale(a + 1) >= MinScale)
      && ps'[|ps'| - 1] == p
  {
    var ps' := ps + [p];
    forall a | 0 <= a < |ps'| ensures IsPass(build, Scale(a), target, ps'[a]) {
      if a < |ps| {
        assert ps'[a] == ps[a];
      }
    }
    forall a | 0 <= a < |ps'| - 1
      ensures PassDone(ps'[a], target) && NoFit(ps'[a], target) && Scale(a + 1) >= MinScale
    {
      assert ps'[a] == ps[a];
    }
  }

  /** A pass that fits, after failed passes, ends a run with the choice over all shots. */
  lemma FitRun(build: (real, real) -> Option<nat>, target: int, ps: seq<seq<Probe>>, p: seq<Probe>, r: Option<Shot>)
    requires FailedPasses(build, target, ps) && |ps| < MaxAttempts
    requires IsPass(build, Scale(|ps|), target, p) && PassDone(p, target) && !NoFit(p, target)
    requires Shots(ps + [p]) != [] && r == Some(Choose(Shots(ps + [p]), ShotSize, target))
    ensures IsRun(build, target, ps + [p], false, r)
  {
    RunPrefix(build, target, ps, p);
  }

  /** Six failed passes, or a scale below 0.2, end a run with the choice over all shots. */
  lemma ExhaustedRun(build: (real, real) -> Option<nat>, target: int, ps: seq<seq<Probe>>, r: Option<Shot>)
    requires FailedPasses(build, target, ps) && 1 <= |ps| <= MaxAttempts
    requires |ps| == MaxAttempts || Scale(|ps|) < MinScale
    requires Shots(ps) != [] && r == Some(Choose(Shots(ps), ShotSize, target))
    ensures IsRun(build, target, ps, false, r)
  {
  }

  // ---------------------------------------------------------------------------
  // What a run does
  // ---------------------------------------------------------------------------

  /** The bracket width after `n` probes of a pass: 0.85 halved `n` times. */
  lemma PassWidth(build: (real, real) -> Option<nat>, scale: real, target: int, p: seq<Probe>, n: nat)
    requires IsPass(build, scale, target, p) && n <= |p|
    ensures Width(Bracket(PassStart, p[..n], target)) == 0.85 / Pow2(n)
    ensures AbsReal(Width(Bracket(PassStart, p[..n], target))) == 0.85 / Pow2(n)
  {
    PassHasFacts(build, scale, target, p);
    var q := p[..n];
    assert q[..0] == [];
    forall i | 0 <= i < n ensures q[i].quality == Mid(Bracket(PassStart, q[..i], target)) {
      assert q[..i] == p[..i];
    }
    MidpointsHalveWidth(PassStart, q, target, 0);
    PositiveQuotient(0.85, Pow2(n));
  }

  lemma PositiveQuotient(w: real, d: real)
    requires w > 0.0 && d >= 1.0
    ensures w / d > 0.0
  {
  }

  /**
   * Under exact arithmetic a pass is over after exactly its 6th probe: 0.85 / 2^5 is still at
   * least 0.015 and 0.85 / 2^6 is not, so neither the 9-probe limit nor any earlier break ends it.
   */
  lemma {:induction false} PassLength(build: (real, real) -> Option<nat>, scale: real, target: int, p: seq<Probe>)
    requires IsPass(build, scale, target, p)
    ensures |p| <= 6
    ensures PassDone(p, target) <==> |p| == 6
  {
    PassHasFacts(build, scale, target, p);
    if |p| > 6 {
      PassWidth(build, scale, target, p, 6);
      NarrowAfterSix();
      assert false;
    }
    PassWidth(build, scale, target, p, |p|);
    assert p[..|p|] == p;
    if |p| < 6 {
      WideBeforeSix(|p|);
    } else {
      NarrowAfterSix();
    }
  }

  lemma NarrowAfterSix()
    ensures 0.85 / Pow2(6) < MinGap
  {
    assert Pow2(6) == 64.0;
  }

  lemma WideBeforeSix(n: nat)
    requires n < 6
    ensures 0.85 / Pow2(n) >= MinGap
  {
    PowMonotone(n, 5);
    assert Pow2(5) == 32.0;
    DivideByLarger(0.85, Pow2(n), 32.0);
  }

  /** The scales of the six passes: 1.0, 0.8, 0.64, 0.512, 0.4096, 0.32768, then 0.262144. */
  lemma ScaleSchedule()
    ensures Scale(0) == 1.0 && Scale(1) == 0.8 && Scale(2) == 0.64 && Scale(3) == 0.512
    ensures Scale(4) == 0.4096 && Scale(5) == 0.32768 && Scale(6) == 0.262144
  {
  }

  /** The `scale < 0.2` break never fires: the scale after any of the six passes is still above it. */
  lemma ScaleStaysAbove(a: nat)
    requires a <= MaxAttempts
    ensures Scale(a) >= MinScale
  {
    ScaleSchedule();
  }

  /** How many times a run calls the builder: every shot, plus the failed call of an aborted run. */
  function BuildCalls(passes: seq<seq<Probe>>, aborted: bool): nat {
    |Shots(passes)| + if aborted then 1 else 0
  }

  lemma {:induction false} ShotsLength(build: (real, real) -> Option<nat>, target: int, passes: seq<seq<Probe>>)
    requires forall a :: 0 <= a < |passes| ==> IsPass(build, Scale(a), target, passes[a])
    ensures |Shots(passes)| <= 6 * |passes|
    ensures (forall a :: 0 <= a < |passes| ==> PassDone(passes[a], target)) ==> |Shots(passes)| == 6 * |passes|
  {
    if passes != [] {
      var init := passes[..|passes| - 1];
      assert forall a :: 0 <= a < |init| ==> init[a] == passes[a];
      ShotsLength(build, target, init);
      PassLength(build, Scale(|passes| - 1), target, passes[|passes| - 1]);
    }
  }

  /**
   * The shape of a run: a run that was not aborted made six passes unless one of them fit;
   * every complete pass made 6 builds, so a run calls the builder at most 36 times (well
   * within six passes of nine).
   */
  lemma RunShape(build: (real, real) -> Option<nat>, target: int, passes: seq<seq<Probe>>, aborted: bool, r: Option<Shot>)
    requires IsRun(build, target, passes, aborted, r)
    ensures !aborted && NoFit(passes[|passes| - 1], target) ==> |passes| == MaxAttempts
    ensures !aborted ==> |Shots(passes)| == 6 * |passes|
    ensures BuildCalls(passes, aborted) <= 36
  {
    ScaleStaysAbove(|passes|);
    ShotsLength(build, target, passes);
    if aborted {
      var init := passes[..|passes| - 1];
      assert forall a :: 0 <= a < |init| ==> init[a] == passes[a];
      ShotsLength(build, target, init);
      var last := passes[|passes| - 1];
      PassLength(build, Scale(|passes| - 1), target, last);
      assert Shots(passes) == Shots(init) + Tag(Scale(|passes| - 1), last);
    }
  }

  /**
   * What the caller receives from a run that was not aborted: a shot. When some shot fit, it
   * is within the target, the largest fitting one and built in the last pass; when none fit,
   * it is the smallest of all six passes' shots.
   */
  lemma RunResult(build: (real, real) -> Option<nat>, target: int, passes: seq<seq<Probe>>, r: Option<Shot>)
    requires IsRun(build, target, passes, false, r)
    ensures r.Some? && r.value in Shots(passes)
    ensures (exists i :: 0 <= i < |Shots(passes)| && Shots(passes)[i].size <= target) ==>
      r.value.size <= target && r.value.scale == Scale(|passes| - 1)
      && forall i :: 0 <= i < |Shots(passes)| && Shots(passes)[i].size <= target ==> Shots(passes)[i].size <= r.value.size
    ensures (forall i :: 0 <= i < |Shots(passes)| ==> Shots(passes)[i].size > target) ==>
      |passes| == MaxAttempts && forall i :: 0 <= i < |Shots(passes)| ==> r.value.size <= Shots(passes)[i].size
  {
    var init := passes[..|passes| - 1];
    RunParts(build, target, passes, r);
    LastPassChoice(Shots(init), Scale(|passes| - 1), passes[|passes| - 1], target);
  }

  /** A complete run's shots: those of the earlier passes, none of which fit, then the last pass's. */
  lemma RunParts(build: (real, real) -> Option<nat>, target: int, passes: seq<seq<Probe>>, r: Option<Shot>)
    requires IsRun(build, target, passes, false, r)
    ensures var init := passes[..|passes| - 1];
      Shots(passes) == Shots(init) + Tag(Scale(|passes| - 1), passes[|passes| - 1])
      && (forall i :: 0 <= i < |Shots(init)| ==> Shots(init)[i].size > target)
    ensures r == Some(Choose(Shots(passes), ShotSize, target))
    ensures NoFit(passes[|passes| - 1], target) ==> |passes| == MaxAttempts
  {
    var init := passes[..|passes| - 1];
    assert Shots(passes) == Shots(init) + Tag(Scale(|passes| - 1), passes[|passes| - 1]);
    forall a | 0 <= a < |init| ensures NoFit(init[a], target) {
      assert init[a] == passes[a];
    }
    ShotsNoFit(init, target);
    ScaleStaysAbove(|passes|);
  }

  /**
   * The choice over the shots of earlier passes, none of which fit, and the shots of a last
   * pass `p` at `scale`: a fitting choice comes from the last pass, and when nothing fits the
   * last pass fit nothing either.
   */
  lemma LastPassChoice(seen: seq<Shot>, scale: real, p: seq<Probe>, target: int)
    requires forall i :: 0 <= i < |seen| ==> seen[i].size > target
    requires seen + Tag(scale, p) != []
    ensures var all := seen + Tag(scale, p);
      Choose(all, ShotSize, target) in all
    ensures var all := seen + Tag(scale, p);
      (exists i :: 0 <= i < |all| && all[i].size <= target) ==>
      var c := Choose(all, ShotSize, target);
      c.size <= target && c.scale == scale
      && forall i :: 0 <= i < |all| && all[i].size <= target ==> all[i].size <= c.size
    ensures var all := seen + Tag(scale, p);
      (forall i :: 0 <= i < |all| ==> all[i].size > target) ==>
      NoFit(p, target) && forall i :: 0 <= i < |all| ==> Choose(all, ShotSize, target).size <= all[i].size
  {
    var t := Tag(scale, p);
    var all := seen + t;
    ChosenShot(all, target);
    FitInTail(seen, t, target);
    if forall i :: 0 <= i < |all| ==> all[i].size > target {
      forall i | 0 <= i < |p| ensures p[i].size > target {
        assert all[|seen| + i] == t[i];
      }
    }
  }

  /** After shots none of which fit, the best fit of more shots is one of the new ones. */
  lemma FitInTail(seen: seq<Shot>, t: seq<Shot>, target: int)
    requires forall i :: 0 <= i < |seen| ==> seen[i].size > target
    ensures var b := BestFit(seen + t, ShotSize, target);
      b.Some? ==> b.value >= |seen| && (seen + t)[b.value] == t[b.value - |seen|]
  {
    var b := BestFit(seen + t, ShotSize, target);
    if b.Some? {
      var k := b.value;
      assert ShotSize((seen + t)[k]) <= target;
      if k < |seen| {
        assert false;
      }
    }
  }

  /** `Choose` over shots, stated on their sizes. */
  lemma ChosenShot(all: seq<Shot>, target: int)
    requires all != []
    ensures var c := Choose(all, ShotSize, target);
      var b := BestFit(all, ShotSize, target);
      c in all
      && (b.Some? ==> c == all[b.value] && c.size <= target)
      && (b.Some? ==> forall i :: 0 <= i < |all| && all[i].size <= target ==> all[i].size <= c.size)
      && (b.None? ==> forall i :: 0 <= i < |all| ==> c.size <= all[i].size)
      && (b.None? <==> forall i :: 0 <= i < |all| ==> all[i].size > target)
  {
    assert forall i :: 0 <= i < |all| ==> ShotSize(all[i]) == all[i].size;
  }

  /** A run that was aborted returns null. */
  lemma AbortedRun(build: (real, real) -> Option<nat>, target: int, passes: seq<seq<Probe>>, r: Option<Shot>)
    requires IsRun(build, target, passes, true, r)
    ensures r.None?
    ensures build(Mid(Bracket(PassStart, passes[|passes| - 1], target)), Scale(|passes| - 1)).None?
    ensures |passes[|passes| - 1]| < 6
  {
    PassLength(build, Scale(|passes| - 1), target, passes[|passes| - 1]);
  }

  // ---------------------------------------------------------------------------
  // Target validation, options and fallback
  // ---------------------------------------------------------------------------

  /**
   * `compressPDFs`' check of the parsed target field (`None` for NaN): a falsy value (NaN or 0)
   * or one below 20 is rejected.
   */
  predicate ValidTargetKb(kb: Option<int>) {
    !(kb.None? || kb.value == 0 || kb.value < 20)
  }

  /** `Math.max(50, kb) * 1024`: a whole number of KiB, at least 50 KiB and at least the request. */
  function TargetBytes(kb: int): (r: int)
    ensures r >= 51200 && r % 1024 == 0
    ensures r >= kb * 1024
    ensures r == 51200 || r == kb * 1024
  {
    (if kb > 50 then kb else 50) * 1024
  }

  /**
   * Every accepted target is at least 50 KiB and a whole number of KiB; a field between 20 and
   * 49 is accepted and then raised to 50.
   */
  lemma TargetBytesBounds(kb: Option<int>)
    requires ValidTargetKb(kb)
    ensures kb.value >= 20
    ensures TargetBytes(kb.value) >= 51200 && TargetBytes(kb.value) % 1024 == 0
    ensures kb.value < 50 ==> TargetBytes(kb.value) == 51200
    ensures kb.value >= 50 ==> TargetBytes(kb.value) == kb.value * 1024
  {
  }

  /** The compression mode selector. */
  datatype Mode = QualityMode | SizeMode

  /** What `compressPDF` resolves with: the original file, or a new PDF of the given size. */
  datatype Output = Original | Rebuilt(size: nat)

  function OutputSize(f: File, out: Output): nat {
    match out
    case Original => f.size
    case Rebuilt(size) => size
  }

  /**
   * `compressPDF`. `loaded` says whether pdf-lib loaded the file; `save` is the size of pdf-lib's
   * re-save (`None` if it throws); `pdfjs` and `build` feed the target-size search. Every error
   * ends in the original file, so the method never fails.
   */
  method CompressPdf(mode: Mode, targetKb: int, loaded: bool, save: Option<nat>, pdfjs: bool,
                     build: (real, real) -> Option<nat>)
    returns (out: Output, ghost search: Option<Shot>, ghost passes: seq<seq<Probe>>, ghost aborted: bool)
    ensures !loaded ==> out == Original
    ensures loaded && mode == QualityMode ==> out == if save.Some? then Rebuilt(save.value) else Original
    ensures loaded && mode == SizeMode ==>
      (pdfjs ==> IsRun(build, TargetBytes(targetKb), passes, aborted, search))
      && (!pdfjs ==> search.None?)
      && out == if search.Some? then Rebuilt(search.value.size) else Original
  {
    search, passes, aborted := None, [], false;
    if !loaded {
      return Original, search, passes, aborted;
    }
    if mode == SizeMode {
      var targetBytes := TargetBytes(targetKb);
      var blob;
      blob, passes, aborted := CompressPdfToTargetSize(pdfjs, build, targetBytes);
      search := blob;
      out := if blob.Some? then Rebuilt(blob.value.size) else Original;
    } else {
      out := if save.Some? then Rebuilt(save.value) else Original;
    }
  }

  /** `getCompressionOptions`. */
  datatype CompressionOptions = CompressionOptions(imageQuality: int, targetDpi: int, compressionRatio: real)

  /** The level's ratio: one of the four named values, always strictly between 0 and 1. */
  function CompressionRatio(level: string): (r: real)
    ensures 0.0 < r < 1.0
    ensures r == 0.9 || r == 0.7 || r == 0.5 || r == 0.3
  {
    if level == "low" then 0.9
    else if level == "medium" then 0.7
    else if level == "high" then 0.5
    else if level == "extreme" then 0.3
    else 0.7
  }

  function GetCompressionOptions(level: string, quality: int, targetDpi: int): (o: CompressionOptions)
    ensures o.imageQuality == quality && o.targetDpi == targetDpi
    ensures o.compressionRatio == CompressionRatio(level)
  {
    CompressionOptions(quality, targetDpi, CompressionRatio(level))
  }

  /**
   * The ratio falls strictly from `low` to `extreme`, always lies in (0, 1), and any level not
   * named gets medium's.
   */
  lemma CompressionRatioOrder(level: string)
    ensures CompressionRatio("low") > CompressionRatio("medium") > CompressionRatio("high") > CompressionRatio("extreme")
    ensures 0.0 < CompressionRatio(level) < 1.0
    ensures level !in ["low", "medium", "high", "extreme"] ==> CompressionRatio(level) == CompressionRatio("medium")
  {
  }

  // ---------------------------------------------------------------------------
  // Download names
  // ---------------------------------------------------------------------------

  /** `downloadSingle`: the first `.pdf` is cut wherever it occurs, then `-compressed.pdf`. */
  function SingleDownloadName(name: string): (r: string)
    ensures EndsWith(r, "-compressed.pdf")
    ensures |r| == |name| + (if IndexOf(name, ".pdf") >= 0 then 11 else 15)
  {
    EndsWithConcat(ReplaceFirst(name, ".pdf", ""), "-compressed.pdf");
    ReplaceFirst(name, ".pdf", "") + "-compressed.pdf"
  }

  /** `downloadAll`: a case-insensitive `.pdf` suffix is cut, then `-compressed.pdf`, sanitized. */
  function ZipEntryName(name: string): (r: string)
    ensures |r| == |name| + (if EndsWith(ToLower(name), ".pdf") then 11 else 15)
    ensures forall i :: 0 <= i < |r| ==> IsPlainNameChar(r[i])
  {
    var base := if EndsWith(ToLower(name), ".pdf") then name[..|name| - 4] else name;
    SanitizePlain(base + "-compressed.pdf")
  }

  /** The single-download name removes exactly the first `.pdf`, and nothing when there is none. */
  lemma SingleNameCutsFirstPdf(name: string)
    ensures var k := IndexOf(name, ".pdf");
      (k == -1 ==> SingleDownloadName(name) == name + "-compressed.pdf")
      && (k >= 0 ==> SingleDownloadName(name) == name[..k] + name[k + 4..] + "-compressed.pdf"
                     && forall j :: 0 <= j < k ==> !OccursAt(name, ".pdf", j))
  {
    var k := IndexOf(name, ".pdf");
    if k >= 0 {
      assert name[..k] + "" + name[k + 4..] == name[..k] + name[k + 4..];
    }
  }

  /** A name ending in its only `.pdf` gets that suffix replaced. */
  lemma SingleNameOfPlainPdf(base: string)
    requires forall j :: 0 <= j < |base| ==> !OccursAt(base + ".pdf", ".pdf", j)
    ensures SingleDownloadName(base + ".pdf") == base + "-compressed.pdf"
  {
    var name := base + ".pdf";
    assert OccursAt(name, ".pdf", |base|);
    assert name[..|base|] == base;
    assert name[|base| + 4..] == [];
  }

  /** Both names end in `-compressed.pdf`: that suffix is made of allowed chars only. */
  lemma NamesEndInSuffix(name: string)
    ensures EndsWith(SingleDownloadName(name), "-compressed.pdf")
    ensures EndsWith(ZipEntryName(name), "-compressed.pdf")
  {
    EndsWithConcat(ReplaceFirst(name, ".pdf", ""), "-compressed.pdf");
    var base := if EndsWith(ToLower(name), ".pdf") then name[..|name| - 4] else name;
    SanitizeBeforeSuffix(base);
    EndsWithConcat(SanitizePlain(base), "-compressed.pdf");
  }

  lemma SanitizeBeforeSuffix(base: string)
    ensures SanitizePlain(base + "-compressed.pdf") == SanitizePlain(base) + "-compressed.pdf"
  {
    SanitizeAppend(base, "-compressed.pdf", IsPlainNameChar);
    PdfSuffixIsPlain();
  }

  lemma PdfSuffixIsPlain()
    ensures SanitizePlain("-compressed.pdf") == "-compressed.pdf"
  {
    var t := "-compressed.pdf";
    forall i | 0 <= i < |t| ensures IsPlainNameChar(t[i]) {
      assert t[i] in "-compressed.pdf";
    }
    SanitizeKeepsAllowed(t, IsPlainNameChar);
  }

  /**
   * The zip entry cuts a `.pdf` suffix in any letter case, so an upper-case suffix is cut there
   * and kept by the single download.
   */
  lemma ZipCutsSuffixAnyCase(base: string)
    ensures ZipEntryName(base + ".PDF") == SanitizePlain(base + "-compressed.pdf")
  {
    var name := base + ".PDF";
    ToLowerAppend(base, ".PDF");
    var u := ToLower(".PDF");
    assert u[0] == '.' && u[1] == 'p' && u[2] == 'd' && u[3] == 'f';
    assert u == ".pdf";
    assert EndsWith(ToLower(name), ".pdf");
    assert name[..|name| - 4] == base;
  }

  // ---------------------------------------------------------------------------
  // Selected and compressed files
  // ---------------------------------------------------------------------------

  /** `handleFiles`' filter: a PDF by MIME type or by a case-insensitive `.pdf` suffix, at most 50 MiB. */
  predicate IsAcceptedPdf(f: File) {
    (f.mime == "application/pdf" || EndsWith(ToLower(f.name), ".pdf")) && f.size <= 50 * MiB
  }

  /** One entry of `compressedFiles`; the savings are clamped at 0. */
  datatype CompressedPdf = CompressedPdf(original: File, compressedSize: nat, savings: Percent)

  function MakeResult(f: File, compressedSize: nat): (c: CompressedPdf)
    ensures c.original == f && c.compressedSize == compressedSize
    ensures c.savings == ClampAtZero(SavingsPercent(f.size, compressedSize))
  {
    CompressedPdf(f, compressedSize, ClampAtZero(SavingsPercent(f.size, compressedSize)))
  }

  /** The shown savings are never negative: NaN for an empty original and output, else at least 0. */
  lemma SavingsNeverNegative(f: File, compressedSize: nat)
    ensures var s := MakeResult(f, compressedSize).savings;
      (s.Finite? && s.value >= 0.0) || (s == NotANumber && f.size == 0 && compressedSize == 0)
  {
  }

  /** Why a `compressPDFs` call did nothing, or that it ran. */
  datatype RunOutcome = NoFiles | InvalidTarget | Compressed

  /** The tool's state: the selected files and the results of the last compression run. */
  class PdfCompressor {
    var files: seq<File>
    var compressedFiles: seq<CompressedPdf>

    constructor()
      ensures files == [] && compressedFiles == []
    {
      files := [];
      compressedFiles := [];
    }

    /** `handleFiles`: appends the accepted files, in order; answers false when none is accepted. */
    method HandleFiles(fileList: seq<File>) returns (accepted: bool)
      modifies this
      ensures accepted <==> exists f :: f in fileList && IsAcceptedPdf(f)
      ensures files == old(files) + Filter(fileList, IsAcceptedPdf)
      ensures compressedFiles == old(compressedFiles)
    {
      var newFiles := Filter(fileList, IsAcceptedPdf);
      FilterFacts(fileList, IsAcceptedPdf);
      if newFiles == [] {
        return false;
      }
      assert newFiles[0] in fileList && IsAcceptedPdf(newFiles[0]);
      files := files + newFiles;
      accepted := true;
    }

    /**
     * `compressPDFs`: with no file, or in size mode with a rejected target, nothing changes;
     * otherwise the results become one entry per file, in order. `targetKb` is the field parsed
     * in base 10 (`None` for NaN); `compress` stands for `compressPDF`, which never fails.
     */
    method CompressPdfs(mode: Mode, targetKb: Option<int>, compress: File -> Output) returns (outcome: RunOutcome)
      modifies this
      ensures outcome == (if old(files) == [] then NoFiles
                          else if mode == SizeMode && !ValidTargetKb(targetKb) then InvalidTarget
                          else Compressed)
      ensures files == old(files)
      ensures outcome != Compressed ==> compressedFiles == old(compressedFiles)
      ensures outcome == Compressed ==> |compressedFiles| == |files|
      ensures outcome == Compressed ==> forall i :: 0 <= i < |files| ==>
        compressedFiles[i] == MakeResult(files[i], OutputSize(files[i], compress(files[i])))
    {
      if |files| == 0 {
        return NoFiles;
      }
      if mode == SizeMode {
        if targetKb.None? || targetKb.value == 0 || targetKb.value < 20 {
          return InvalidTarget;
        }
      }
      compressedFiles := [];
      var i := 0;
      while i < |files|
        invariant files == old(files)
        invariant 0 <= i <= |files|
        invariant |compressedFiles| == i
        invariant forall j :: 0 <= j < i ==>
          compressedFiles[j] == MakeResult(files[j], OutputSize(files[j], compress(files[j])))
      {
        var file := files[i];
        var compressedFile := compress(file);
        compressedFiles := compressedFiles + [MakeResult(file, OutputSize(file, compressedFile))];
        i := i + 1;
      }
      outcome := Compressed;
    }

    /** `clearAll`: empties both lists. */
    method ClearAll()
      modifies this
      ensures files == [] && compressedFiles == []
    {
      files := [];
      compressedFiles := [];
    }
  }
}
