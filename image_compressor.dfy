/**
 * The image compressor: the target-size quality search, the output format choice, the
 * download names and the selected/compressed file lists.
 */
module ImageCompression {
  import opened Wrappers
  import opened Text
  import opened Files
  import opened TargetSearch

  // ---------------------------------------------------------------------------
  // Target-size search
  // ---------------------------------------------------------------------------

  /** The bracket the search starts from. */
  const Start: Interval := Interval(0.05, 1.0)
  /** The quality of the first probe. */
  const FirstQuality: real := 0.8
  const MaxIterations: nat := 9
  /** The search stops once the bracket is narrower than this. */
  const MinWidth: real := 0.02

  /** The quality the search probes after the probes `h`: 0.8 first, then the bracket's midpoint. */
  function NextQuality(h: seq<Probe>, target: int): real {
    if h == [] then FirstQuality else Mid(Bracket(Start, h, target))
  }

  /** The stop test made after each probe. */
  predicate Stops(h: seq<Probe>, target: int) {
    |h| >= MaxIterations || Width(Bracket(Start, h, target)) < MinWidth
  }

  /**
   * `h` is the start of a search: each probe was made at the quality the search picks next,
   * after probes whose stop test failed, and has the size the encoder gives it.
   */
  ghost predicate IsPartialSearch(encode: real -> nat, target: int, h: seq<Probe>)
    decreases |h|
  {
    h == []
    || var init, p := h[..|h| - 1], h[|h| - 1];
       IsPartialSearch(encode, target, init) && (init != [] ==> !Stops(init, target))
       && p.quality == NextQuality(init, target) && p.size == encode(p.quality)
  }

  /**
   * `IsPartialSearch` stated for all probes at once: every probe was made at the quality the
   * search picks next and has the size the encoder gives it, and the stop test failed after
   * every probe but the last.
   */
  ghost predicate SearchFacts(encode: real -> nat, target: int, h: seq<Probe>) {
    (forall i :: 0 <= i < |h| ==> h[i].quality == NextQuality(h[..i], target))
    && (forall i :: 0 <= i < |h| ==> h[i].size == encode(h[i].quality))
    && (forall i :: 0 < i < |h| ==> !Stops(h[..i], target))
  }

  /** `h` is the probe history of a complete search: the stop test held after its last probe. */
  ghost predicate IsSearch(encode: real -> nat, target: int, h: seq<Probe>) {
    h != [] && SearchFacts(encode, target, h) && Stops(h, target)
  }

  /** One more probe, made where the search picks next after a history that did not stop. */
  lemma SearchStep(encode: real -> nat, target: int, h: seq<Probe>, p: Probe)
    requires SearchFacts(encode, target, h)
    requires h != [] ==> !Stops(h, target)
    requires p.quality == NextQuality(h, target) && p.size == encode(p.quality)
    ensures SearchFacts(encode, target, h + [p])
  {
    var h' := h + [p];
    assert h'[..|h|] == h;
    forall i | 0 <= i < |h'| ensures h'[i].quality == NextQuality(h'[..i], target) {
      if i < |h| {
        assert h'[..i] == h[..i];
      }
    }
    forall i | 0 < i < |h'| ensures !Stops(h'[..i], target) {
      if i < |h| {
        assert h'[..i] == h[..i];
      }
    }
  }

  /** The start of a search has the facts of a search. */
  lemma {:induction false} PartialHasFacts(encode: real -> nat, target: int, h: seq<Probe>)
    requires IsPartialSearch(encode, target, h)
    ensures SearchFacts(encode, target, h)
  {
    if h != [] {
      var init, p := h[..|h| - 1], h[|h| - 1];
      PartialHasFacts(encode, target, init);
      SearchStep(encode, target, init, p);
      assert init + [p] == h;
    }
  }

  /** Probes with the facts of a search are the start of a search. */
  lemma {:induction false} FactsMakePartial(encode: real -> nat, target: int, h: seq<Probe>)
    requires SearchFacts(encode, target, h)
    ensures IsPartialSearch(encode, target, h)
  {
    if h != [] {
      var init := h[..|h| - 1];
      assert SearchFacts(encode, target, init) by {
        forall i | 0 <= i < |init| ensures init[i].quality == NextQuality(init[..i], target) {
          assert init[..i] == h[..i];
        }
        forall i | 0 < i < |init| ensures !Stops(init[..i], target) {
          assert init[..i] == h[..i];
        }
      }
      FactsMakePartial(encode, target, init);
      assert h[..|h| - 1] == init;
      if |h| > 1 {
        assert !Stops(h[..|h| - 1], target);
      }
    }
  }

  /**
   * `findQualityForTargetSize`: the callback chain in which each encoded blob decides the next
   * probe, written as a loop. `encode` stands for `canvas.toBlob` at a quality and returns the
   * blob's size. The result is the best blob within the target, or else the smallest one.
   */
  method FindQualityForTargetSize(encode: real -> nat, target: int) returns (r: Probe, ghost history: seq<Probe>)
    ensures IsSearch(encode, target, history)
    ensures r == Choose(history, ProbeSize, target)
  {
    var low, high := 0.05, 1.0;
    var bestUnder: Option<Probe> := None;
    var smallest: Option<Probe> := None;
    var iterations := 0;
    var quality := FirstQuality;
    var done := false;
    history := [];
    while !done
      invariant |history| == iterations <= MaxIterations
      invariant Interval(low, high) == Bracket(Start, history, target)
      invariant IsPartialSearch(encode, target, history)
      invariant !done ==> quality == NextQuality(history, target)
      invariant done <==> history != [] && Stops(history, target)
      invariant bestUnder == RunBest(None, history, ProbeSize, target)
      invariant smallest == RunSmallest(None, history, ProbeSize)
      decreases MaxIterations - iterations, if done then 0 else 1
    {
      var blob := Probe(quality, encode(quality));
      iterations := iterations + 1;
      RunBestSnoc(None, history, blob, ProbeSize, target);
      RunSmallestSnoc(None, history, blob, ProbeSize);
      BracketSnoc(Start, history, blob, target);
      assert (history + [blob])[..|history|] == history;
      if smallest.None? || blob.size < smallest.value.size {
        smallest := Some(blob);
      }
      if blob.size > target {
        high := quality;
      } else {
        low := quality;
        if bestUnder.None? || blob.size > bestUnder.value.size {
          bestUnder := Some(blob);
        }
      }
      history := history + [blob];
      var nextQuality := (low + high) / 2.0;
      if iterations >= MaxIterations || high - low < MinWidth {
        done := true;
      } else {
        quality := nextQuality;
      }
    }
    SearchDone(encode, target, history, bestUnder, smallest);
    r := if bestUnder.Some? then bestUnder.value else smallest.value;
  }

  /** A stopped search's running selections are the choice over its history. */
  lemma SearchDone(encode: real -> nat, target: int, h: seq<Probe>, bestUnder: Option<Probe>, smallest: Option<Probe>)
    requires IsPartialSearch(encode, target, h) && h != [] && Stops(h, target)
    requires bestUnder == RunBest(None, h, ProbeSize, target)
    requires smallest == RunSmallest(None, h, ProbeSize)
    ensures IsSearch(encode, target, h)
    ensures bestUnder.Some? || smallest.Some?
    ensures (if bestUnder.Some? then bestUnder.value else smallest.value) == Choose(h, ProbeSize, target)
  {
    PartialHasFacts(encode, target, h);
    RunsChoose(h, ProbeSize, target);
  }

  /** The prefixes of a search history are consistent with the search. */
  lemma PrefixOfSearch(encode: real -> nat, target: int, h: seq<Probe>, n: nat)
    requires IsSearch(encode, target, h)
    requires 1 <= n <= |h|
    ensures h[..n][0] == h[0]
    ensures Bracket(Start, h[..n][..1], target) == Bracket(Start, h[..1], target)
    ensures ProbesAtMidpoints(Start, h[..n], target, 1)
  {
    assert h[..n][..1] == h[..1];
    forall i | 1 <= i < n ensures h[..n][i].quality == Mid(Bracket(Start, h[..n][..i], target)) {
      assert h[..n][..i] == h[..i];
    }
  }

  /** The bracket after the 0.8 probe: [0.8, 1.0] if it fits, [0.05, 0.8] if not. */
  lemma FirstBracket(encode: real -> nat, target: int, h: seq<Probe>)
    requires IsSearch(encode, target, h)
    ensures Bracket(Start, h[..1], target)
      == if encode(FirstQuality) <= target then Interval(0.8, 1.0) else Interval(0.05, 0.8)
  {
    assert h[..1][..0] == [];
    assert h[..1] == [] + [h[0]];
  }

  /** The width of the bracket after `n >= 1` probes. */
  lemma WidthAfter(encode: real -> nat, target: int, h: seq<Probe>, n: nat)
    requires IsSearch(encode, target, h)
    requires 1 <= n <= |h|
    ensures Width(Bracket(Start, h[..n], target))
      == (if encode(FirstQuality) <= target then 0.2 else 0.75) / Pow2(n - 1)
  {
    PrefixOfSearch(encode, target, h, n);
    FirstBracket(encode, target, h);
    MidpointsHalveWidth(Start, h[..n], target, 1);
  }

  /**
   * Under exact arithmetic the search makes 5 probes when the 0.8 probe fits and 7 when it
   * does not: the bracket halves from width 0.2 or 0.75 until it is narrower than 0.02, well
   * before the 9-probe limit.
   */
  lemma {:induction false} ProbeCount(encode: real -> nat, target: int, h: seq<Probe>)
    requires IsSearch(encode, target, h)
    ensures |h| == if encode(FirstQuality) <= target then 5 else 7
  {
    var fits := encode(FirstQuality) <= target;
    var n := if fits then 5 else 7;
    if |h| < n {
      WidthAfter(encode, target, h, |h|);
      assert h[..|h|] == h;
      StillWide(fits, |h| - 1);
      assert false;
    } else if |h| > n {
      WidthAfter(encode, target, h, n);
      NarrowEnough(fits);
      assert false;
    }
  }

  /** Before the 5th (or 7th) probe the bracket is still at least 0.02 wide. */
  lemma StillWide(fits: bool, k: nat)
    requires k < if fits then 4 else 6
    ensures (if fits then 0.2 else 0.75) / Pow2(k) >= MinWidth
  {
    var c: nat := if fits then 3 else 5;
    PowMonotone(k, c);
    assert Pow2(3) == 8.0;
    assert Pow2(5) == 32.0;
    DivideByLarger(if fits then 0.2 else 0.75, Pow2(k), Pow2(c));
  }

  /** After the 5th (or 7th) probe the bracket is narrower than 0.02. */
  lemma NarrowEnough(fits: bool)
    ensures (if fits then 0.2 else 0.75) / Pow2(if fits then 4 else 6) < MinWidth
  {
    assert Pow2(4) == 16.0;
    assert Pow2(6) == 64.0;
  }

  /**
   * The bracket stays inside [0.05, 1.0] with `low <= high`, and every probe lies in the bracket
   * it was made in.
   */
  lemma ProbesInBracket(encode: real -> nat, target: int, h: seq<Probe>)
    requires IsSearch(encode, target, h)
    ensures forall n :: 0 <= n <= |h| ==>
      0.05 <= Bracket(Start, h[..n], target).low <= Bracket(Start, h[..n], target).high <= 1.0
    ensures forall i :: 0 <= i < |h| ==>
      Bracket(Start, h[..i], target).low <= h[i].quality <= Bracket(Start, h[..i], target).high
  {
    FirstBracket(encode, target, h);
    assert h[..0] == [];
    forall n | 1 <= n <= |h|
      ensures 0.05 <= Bracket(Start, h[..n], target).low <= Bracket(Start, h[..n], target).high <= 1.0
      ensures n < |h| ==>
        Bracket(Start, h[..n], target).low <= h[n].quality <= Bracket(Start, h[..n], target).high
    {
      PrefixOfSearch(encode, target, h, n);
      MidpointProbesInside(Start, h[..n], target, 1);
      if n < |h| {
        PrefixOfSearch(encode, target, h, n + 1);
        MidpointProbesInside(Start, h[..n + 1], target, 1);
        assert h[..n + 1][..n] == h[..n];
      }
    }
  }

  /**
   * The final bounds record probe outcomes: `high` is 1.0 or a probed quality whose blob was
   * over the target, `low` is 0.05 or a probed quality whose blob fit.
   */
  lemma BoundsAreOutcomes(encode: real -> nat, target: int, h: seq<Probe>)
    requires IsSearch(encode, target, h)
    ensures var b := Bracket(Start, h, target);
      (b.high == 1.0 || exists k :: 0 <= k < |h| && h[k].quality == b.high && h[k].size > target)
      && (b.low == 0.05 || exists k :: 0 <= k < |h| && h[k].quality == b.low && h[k].size <= target)
  {
    BoundsRecordOutcomes(Start, h, target);
  }

  /** The search history is determined by the encoder and the target. */
  lemma {:induction false} SearchIsUnique(encode: real -> nat, target: int, h1: seq<Probe>, h2: seq<Probe>)
    requires IsSearch(encode, target, h1) && IsSearch(encode, target, h2)
    ensures h1 == h2
  {
    var n := if |h1| <= |h2| then |h1| else |h2|;
    SamePrefix(encode, target, h1, h2, n);
    assert h1[..|h1|] == h1 && h2[..|h2|] == h2;
  }

  /** Two histories that follow the search rule agree on their common length. */
  lemma {:induction false} SamePrefix(encode: real -> nat, target: int, h1: seq<Probe>, h2: seq<Probe>, n: nat)
    requires SearchFacts(encode, target, h1) && SearchFacts(encode, target, h2)
    requires n <= |h1| && n <= |h2|
    ensures h1[..n] == h2[..n]
  {
    if n > 0 {
      SamePrefix(encode, target, h1, h2, n - 1);
      assert h1[n - 1].quality == NextQuality(h1[..n - 1], target);
      assert h2[n - 1].quality == NextQuality(h2[..n - 1], target);
      assert h1[n - 1] == h2[n - 1];
      assert h1[..n] == h1[..n - 1] + [h1[n - 1]];
      assert h2[..n] == h2[..n - 1] + [h2[n - 1]];
    }
  }

  /**
   * What the caller receives: a blob within the target, the largest one, when any probe fit;
   * otherwise the smallest blob seen. Either way it is one of the probed blobs.
   */
  lemma SearchResult(encode: real -> nat, target: int, h: seq<Probe>, r: Probe)
    requires IsSearch(encode, target, h) && r == Choose(h, ProbeSize, target)
    ensures r in h && r.size == encode(r.quality)
    ensures (exists i :: 0 <= i < |h| && h[i].size <= target) ==>
      r.size <= target && forall i :: 0 <= i < |h| && h[i].size <= target ==> h[i].size <= r.size
    ensures (forall i :: 0 <= i < |h| ==> h[i].size > target) ==>
      forall i :: 0 <= i < |h| ==> r.size <= h[i].size
  {
    assert ProbeSize(r) == r.size;
    assert forall i :: 0 <= i < |h| ==> ProbeSize(h[i]) == h[i].size;
  }

  // ---------------------------------------------------------------------------
  // Output format and quality
  // ---------------------------------------------------------------------------

  /** The format selector: `auto` keeps the file's own type. */
  datatype FormatChoice = Auto | Named(format: string)

  /** The MIME type passed to the encoder. */
  function OutputFormat(choice: FormatChoice, file: File): (mime: string)
    ensures choice.Auto? ==> mime == file.mime
    ensures choice.Named? ==> StartsWith(mime, "image/") && mime[6..] == choice.format
  {
    match choice
    case Auto => file.mime
    case Named(f) => "image/" + f
  }

  /** Every accepted file is an image, so the encoder is always asked for an `image/` type. */
  lemma OutputFormatIsImage(choice: FormatChoice, file: File)
    requires IsAcceptedImage(file)
    ensures StartsWith(OutputFormat(choice, file), "image/")
  {
  }

  /** The compression mode selector. */
  datatype Mode = QualityMode(slider: int) | TargetMode(targetKb: int)

  /**
   * `compressImage` once the image is drawn: the quality slider's percent as the encoder
   * quality, or the search at `kb * 1024` bytes. Returns the size of the compressed blob.
   */
  method CompressImage(mode: Mode, encode: real -> nat) returns (size: nat)
    ensures mode.QualityMode? ==> size == encode(mode.slider as real / 100.0)
    ensures mode.TargetMode? ==>
      exists h :: IsSearch(encode, mode.targetKb * 1024, h) && size == Choose(h, ProbeSize, mode.targetKb * 1024).size
  {
    match mode
    case QualityMode(slider) =>
      size := encode(slider as real / 100.0);
    case TargetMode(kb) =>
      var r, h := FindQualityForTargetSize(encode, kb * 1024);
      size := r.size;
  }

  // ---------------------------------------------------------------------------
  // Download names
  // ---------------------------------------------------------------------------

  /**
   * `downloadSingle`'s name: the part before the last '.', `-compressed`, then the part from
   * the last '.'. Without a '.', `lastIndexOf` is -1 and both substrings clamp to position 0.
   */
  function SingleDownloadName(name: string): (r: string)
    ensures var at := if '.' in name then LastIndexOf(name, '.') else 0;
      r == name[..at] + "-compressed" + name[at..]
  {
    var lastDot := LastIndexOf(name, '.');
    var at := if lastDot >= 0 then lastDot else 0;
    assert JsSubstring(name, 0, lastDot) == name[..at] && JsSubstring(name, lastDot, |name|) == name[at..];
    JsSubstring(name, 0, lastDot) + "-compressed" + JsSubstring(name, lastDot, |name|)
  }

  /**
   * `downloadAll`'s zip entry name: a dot-less name is kept whole before the suffix. Every char
   * of the name is kept or replaced one for one, so the entry is 11 chars longer than the name,
   * and all of them are allowed.
   */
  function ZipEntryName(name: string): (r: string)
    ensures |r| == |name| + |"-compressed"|
    ensures forall i :: 0 <= i < |r| ==> IsPlainNameChar(r[i])
  {
    var lastDot := LastIndexOf(name, '.');
    var base := if lastDot > -1 then JsSubstring(name, 0, lastDot) else name;
    var ext := if lastDot > -1 then JsSubstring(name, lastDot, |name|) else "";
    assert |base| + |ext| == |name|;
    SanitizePlain(base + "-compressed" + ext)
  }

  /**
   * The single-download name inserts `-compressed` just before the last '.', or in front of a
   * dot-less name; removing the suffix gives the name back.
   */
  lemma SingleNameInsertsSuffix(name: string)
    ensures var k := LastIndexOf(name, '.');
      var at := if k >= 0 then k else 0;
      SingleDownloadName(name) == name[..at] + "-compressed" + name[at..]
    ensures '.' !in name ==> SingleDownloadName(name) == "-compressed" + name
  {
    var k := LastIndexOf(name, '.');
    var at := if k >= 0 then k else 0;
    assert JsSubstring(name, 0, k) == name[..at];
    assert JsSubstring(name, k, |name|) == name[at..];
    if k < 0 {
      assert name[..0] + "-compressed" + name[0..] == "-compressed" + name;
    }
  }

  /**
   * The zip entry name is the sanitized single-download name when the name has a '.', and
   * the sanitized name followed by `-compressed` when it does not.
   */
  lemma ZipNameVersusSingleName(name: string)
    ensures '.' in name ==> ZipEntryName(name) == SanitizePlain(SingleDownloadName(name))
    ensures '.' !in name ==> ZipEntryName(name) == SanitizePlain(name + "-compressed")
  {
    var k := LastIndexOf(name, '.');
    if k >= 0 {
      assert JsSubstring(name, 0, k) == name[..k];
      assert JsSubstring(name, k, |name|) == name[k..];
    } else {
      assert name + "-compressed" + "" == name + "-compressed";
    }
  }

  /** The inserted suffix is made of allowed chars only, so sanitizing leaves it alone. */
  lemma CompressedSuffixIsPlain()
    ensures SanitizePlain("-compressed") == "-compressed"
  {
    var t := "-compressed";
    forall i | 0 <= i < |t| ensures IsPlainNameChar(t[i]) {
      assert t[i] in "-compressed";
    }
    SanitizeKeepsAllowed(t, IsPlainNameChar);
  }

  /**
   * `downloadAll` splits the name at its last '.', which starts an extension holding no other
   * '.', and puts `-compressed` between the sanitized halves.
   */
  lemma ZipNameSplitsAtLastDot(name: string)
    requires '.' in name
    ensures var k := LastIndexOf(name, '.');
      k >= 0 && name[k] == '.' && (forall j :: k < j < |name| ==> name[j] != '.')
      && ZipEntryName(name) == SanitizePlain(name[..k]) + "-compressed" + SanitizePlain(name[k..])
  {
    var k := LastIndexOf(name, '.');
    ZipNameAtLastDot(name);
    SanitizeAroundSuffix(name[..k], name[k..]);
  }

  lemma ZipNameAtLastDot(name: string)
    requires '.' in name
    ensures var k := LastIndexOf(name, '.');
      k >= 0 && ZipEntryName(name) == SanitizePlain(name[..k] + "-compressed" + name[k..])
  {
    var k := LastIndexOf(name, '.');
    assert JsSubstring(name, 0, k) == name[..k] && JsSubstring(name, k, |name|) == name[k..];
  }

  lemma SanitizeAroundSuffix(base: string, ext: string)
    ensures SanitizePlain(base + "-compressed" + ext) == SanitizePlain(base) + "-compressed" + SanitizePlain(ext)
  {
    SanitizeAppend(base + "-compressed", ext, IsPlainNameChar);
    SanitizeAppend(base, "-compressed", IsPlainNameChar);
    CompressedSuffixIsPlain();
  }

  /** A dot-less name stays whole in front of the suffix. */
  lemma ZipNameWithoutDot(name: string)
    requires '.' !in name
    ensures ZipEntryName(name) == SanitizePlain(name) + "-compressed"
  {
    assert name + "-compressed" + "" == name + "-compressed";
    assert ZipEntryName(name) == SanitizePlain(name + "-compressed");
    SanitizeAppend(name, "-compressed", IsPlainNameChar);
    CompressedSuffixIsPlain();
  }

  // ---------------------------------------------------------------------------
  // Selected and compressed files
  // ---------------------------------------------------------------------------

  /** `handleFiles`' filter: an `image/` MIME type and at most 10 MiB. */
  predicate IsAcceptedImage(f: File) {
    StartsWith(f.mime, "image/") && f.size <= 10 * MiB
  }

  /** One entry of `compressedFiles`. */
  datatype CompressedImage = CompressedImage(original: File, compressedSize: nat, savings: Percent)

  function MakeResult(f: File, compressedSize: nat): (c: CompressedImage)
    ensures c.original == f && c.compressedSize == compressedSize
    ensures c.savings == SavingsPercent(f.size, compressedSize)
  {
    CompressedImage(f, compressedSize, SavingsPercent(f.size, compressedSize))
  }

  /** The tool's state: the selected files and the results of the last compression run. */
  class ImageCompressor {
    var files: seq<File>
    var compressedFiles: seq<CompressedImage>

    constructor()
      ensures files == [] && compressedFiles == []
    {
      files := [];
      compressedFiles := [];
    }

    /**
     * `handleFiles`: appends the accepted files, in order. When none is accepted the lists are
     * left as they were and the method answers false (the source shows an alert).
     */
    method HandleFiles(fileList: seq<File>) returns (accepted: bool)
      modifies this
      ensures accepted <==> exists f :: f in fileList && IsAcceptedImage(f)
      ensures files == old(files) + Filter(fileList, IsAcceptedImage)
      ensures compressedFiles == old(compressedFiles)
    {
      var newFiles := Filter(fileList, IsAcceptedImage);
      FilterFacts(fileList, IsAcceptedImage);
      if newFiles == [] {
        return false;
      }
      assert newFiles[0] in fileList && IsAcceptedImage(newFiles[0]);
      files := files + newFiles;
      accepted := true;
    }

    /**
     * `compressImages`: with files selected, replaces the results by one entry per file, in
     * order, each holding the size `compress` gives that file. With no file selected nothing
     * changes. `compress` stands for `compressImage`, which always resolves.
     */
    method CompressImages(compress: File -> nat) returns (ran: bool)
      modifies this
      ensures ran <==> old(files) != []
      ensures files == old(files)
      ensures ran ==> |compressedFiles| == |files|
      ensures ran ==> forall i :: 0 <= i < |files| ==> compressedFiles[i] == MakeResult(files[i], compress(files[i]))
      ensures !ran ==> compressedFiles == old(compressedFiles)
    {
      if |files| == 0 {
        return false;
      }
      compressedFiles := [];
      var i := 0;
      while i < |files|
        invariant files == old(files)
        invariant 0 <= i <= |files|
        invariant |compressedFiles| == i
        invariant forall j :: 0 <= j < i ==> compressedFiles[j] == MakeResult(files[j], compress(files[j]))
      {
        var file := files[i];
        var compressedSize := compress(file);
        compressedFiles := compressedFiles + [MakeResult(file, compressedSize)];
        i := i + 1;
      }
      ran := true;
    }

    /** `clearAll`: empties both lists. */
    method ClearAll()
      modifies this
      ensures files == [] && compressedFiles == []
    {
      files := [];
      compressedFiles := [];
    }
  }
}
