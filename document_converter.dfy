/**
 * The document converter: which files it accepts, how it reads a file's extension and routes
 * the file to a converter, the result list it keeps, the names of its downloads, and the
 * text transforms it applies itself (HTML escaping, the markdown strip and the RTF wrapper).
 * The converters proper (pdf.js, jsPDF, mammoth, canvas) are a parameter of the model.
 */
module DocumentConversion {
  import opened Wrappers
  import opened Text
  import opened Files

  // ---------------------------------------------------------------------------
  // Formats and extensions
  // ---------------------------------------------------------------------------

  /** `supportedFormats.input`: the extensions the upload accepts. */
  const InputExtensions: seq<string> := [".doc", ".docx", ".pdf", ".txt", ".html", ".htm", ".md", ".rtf", ".jpg", ".jpeg", ".png"]

  /** `supportedFormats.output`: the formats the output selector offers. */
  const OutputFormats: seq<string> := ["pdf", "docx", "html", "md", "txt", "rtf", "jpg", "png"]

  /** The image inputs. */
  const ImageExtensions: seq<string> := [".jpg", ".jpeg", ".png"]

  /** The text-like inputs that can be drawn onto a canvas for image output. */
  const RasterExtensions: seq<string> := [".html", ".htm", ".md", ".txt", ".docx"]

  /** The inputs `readFileContent` reads as an `ArrayBuffer` rather than as text. */
  const BinaryExtensions: seq<string> := [".pdf", ".doc", ".docx", ".jpg", ".jpeg", ".png"]

  /** The 25 MB upload limit. */
  const MaxDocumentSize: nat := 25 * MiB

  /**
   * `getFileExtension`: the lowercased name from its last '.' on. Without a '.',
   * `lastIndexOf` gives -1, `substring(-1)` starts at 0 and the whole lowercased name comes back.
   */
  function FileExtension(name: string): string {
    JsSubstring(ToLower(name), LastIndexOf(name, '.'), |name|)
  }

  /** Lowercasing never makes or removes a '.'. */
  lemma LowerKeepsDots(c: char)
    ensures ToLowerChar(c) == '.' <==> c == '.'
  {
  }

  /** Lowercasing commutes with taking a suffix. */
  lemma ToLowerSuffix(s: string, k: nat)
    requires k <= |s|
    ensures ToLower(s)[k..] == ToLower(s[k..])
  {
    assert forall i :: 0 <= i < |s| - k ==> ToLower(s)[k..][i] == ToLowerChar(s[k..][i]);
  }

  /**
   * The extension is the lowercased part from the last '.', so it starts with '.' and holds no
   * other '.'; a dot-less name is its own extension, lowercased.
   */
  lemma FileExtensionCases(name: string)
    ensures '.' in name ==> FileExtension(name) == ToLower(name[LastIndexOf(name, '.')..])
    ensures '.' in name ==> FileExtension(name) != [] && FileExtension(name)[0] == '.'
    ensures '.' in name ==> '.' !in FileExtension(name)[1..]
    ensures '.' !in name ==> FileExtension(name) == ToLower(name)
  {
    var k := LastIndexOf(name, '.');
    if k >= 0 {
      ToLowerSuffix(name, k);
      var ext := FileExtension(name);
      assert ext == ToLower(name[k..]);
      forall j | 1 <= j < |ext| ensures ext[j] != '.' {
        assert name[k..][j] == name[k + j];
        LowerKeepsDots(name[k + j]);
      }
    }
  }

  /** The extension test of `isFileSupported`: the lowercased name ends with a listed extension. */
  predicate HasInputExtension(lowerName: string) {
    exists i :: 0 <= i < |InputExtensions| && EndsWith(lowerName, InputExtensions[i])
  }

  /** The MIME test `/text|document|pdf|image\//i`, on ASCII. */
  predicate IsDocumentMime(mime: string) {
    var m := ToLower(mime);
    Contains(m, "text") || Contains(m, "document") || Contains(m, "pdf") || Contains(m, "image/")
  }

  /** `isFileSupported`: a listed extension or a document-like MIME type. */
  predicate IsFileSupported(f: File) {
    HasInputExtension(ToLower(f.name)) || IsDocumentMime(f.mime)
  }

  /** The filter of `handleFiles`: supported and at most 25 MB. */
  predicate IsAcceptedDocument(f: File) {
    IsFileSupported(f) && f.size <= MaxDocumentSize
  }

  /** Every listed extension is a '.' followed by dot-less text. */
  lemma InputExtensionsAreDotted()
    ensures forall i :: 0 <= i < |InputExtensions| ==>
      InputExtensions[i] != [] && InputExtensions[i][0] == '.' && '.' !in InputExtensions[i][1..]
  {
  }

  /** The extension is always a suffix of the lowercased name. */
  lemma FileExtensionIsSuffix(name: string)
    ensures EndsWith(ToLower(name), FileExtension(name))
  {
    FileExtensionCases(name);
    if '.' in name {
      ToLowerSuffix(name, LastIndexOf(name, '.'));
    }
  }

  /** A suffix of the lowercased name that is a '.' followed by dot-less text is the extension. */
  lemma DottedSuffixIsExtension(name: string, e: string)
    requires e != [] && e[0] == '.' && '.' !in e[1..]
    requires EndsWith(ToLower(name), e)
    ensures FileExtension(name) == e
  {
    var lower := ToLower(name);
    var at := |name| - |e|;
    assert lower[at] == lower[at..][0];
    LowerKeepsDots(name[at]);
    forall j | at < j < |name| ensures name[j] != '.' {
      assert lower[j] == lower[at..][j - at];
      assert e[j - at] == e[1..][j - at - 1];
      LowerKeepsDots(name[j]);
    }
    assert LastIndexOf(name, '.') == at;
    assert FileExtension(name) == lower[at..];
  }

  /**
   * The suffix test and `getFileExtension` agree: a lowercased name ends with a listed
   * extension exactly when its extension is one of them.
   */
  lemma SuffixTestIsExtensionTest(name: string)
    ensures HasInputExtension(ToLower(name)) <==> FileExtension(name) in InputExtensions
  {
    InputExtensionsAreDotted();
    if HasInputExtension(ToLower(name)) {
      var i :| 0 <= i < |InputExtensions| && EndsWith(ToLower(name), InputExtensions[i]);
      DottedSuffixIsExtension(name, InputExtensions[i]);
    }
    if FileExtension(name) in InputExtensions {
      var i :| 0 <= i < |InputExtensions| && InputExtensions[i] == FileExtension(name);
      FileExtensionIsSuffix(name);
    }
  }

  /** A file whose extension is listed is supported whatever its MIME type. */
  lemma ListedExtensionIsSupported(f: File)
    requires FileExtension(f.name) in InputExtensions
    ensures IsFileSupported(f)
  {
    SuffixTestIsExtensionTest(f.name);
  }

  // ---------------------------------------------------------------------------
  // Dispatch
  // ---------------------------------------------------------------------------

  /** The converter `convertDocument` calls for a file, or the error it throws instead. */
  datatype Route =
    | ImageToPdf | TextToPdf
    | PdfToHtml | ToHtml
    | ToMarkdown | ToText | ToDocx | ToRtf
    | PdfToImages | Rasterize | Transcode
    | Unsupported(message: string)

  /** The `switch (outputFormat)` of `convertDocument`. */
  function Dispatch(outputFormat: string, ext: string): Route {
    if outputFormat == "pdf" then (if ext in ImageExtensions then ImageToPdf else TextToPdf)
    else if outputFormat == "html" then (if ext == ".pdf" then PdfToHtml else ToHtml)
    else if outputFormat == "md" then ToMarkdown
    else if outputFormat == "txt" then ToText
    else if outputFormat == "docx" then ToDocx
    else if outputFormat == "rtf" then ToRtf
    else if outputFormat == "jpg" || outputFormat == "png" then
      if ext == ".pdf" then PdfToImages
      else if ext in RasterExtensions then Rasterize
      else if ext in ImageExtensions then Transcode
      else Unsupported("Unsupported input for image output")
    else Unsupported("Unsupported output format: " + outputFormat)
  }

  /** `readFileContent`'s choice: an `ArrayBuffer` for the binary inputs, text for the rest. */
  predicate ReadsBinary(ext: string) {
    ext in BinaryExtensions
  }

  /**
   * The dispatch fails exactly for a format off the list, and for image output from an input
   * that is neither a PDF, a text-like document nor an image (`.doc`, `.rtf`, anything unknown).
   */
  lemma DispatchFailsExactly(outputFormat: string, ext: string)
    ensures Dispatch(outputFormat, ext).Unsupported? <==>
      outputFormat !in OutputFormats
      || ((outputFormat == "jpg" || outputFormat == "png")
          && ext != ".pdf" && ext !in RasterExtensions && ext !in ImageExtensions)
  {
  }

  /** Image routes are taken exactly for image output. */
  lemma ImageRoutes(outputFormat: string, ext: string)
    ensures var r := Dispatch(outputFormat, ext);
      (r == PdfToImages || r == Rasterize || r == Transcode) <==>
      (outputFormat == "jpg" || outputFormat == "png") && !r.Unsupported?
  {
  }

  /** The converters that need the raw bytes are only reached for inputs read as `ArrayBuffer`. */
  lemma BinaryRoutesReadBinary(outputFormat: string, ext: string)
    ensures var r := Dispatch(outputFormat, ext);
      (r == ImageToPdf || r == PdfToHtml || r == PdfToImages || r == Transcode) ==> ReadsBinary(ext)
  {
  }

  /** Rasterizing gets text for every input except `.docx`, which mammoth reads from bytes. */
  lemma RasterInputs(outputFormat: string, ext: string)
    requires Dispatch(outputFormat, ext) == Rasterize
    ensures ReadsBinary(ext) <==> ext == ".docx"
  {
  }

  // ---------------------------------------------------------------------------
  // Conversion results
  // ---------------------------------------------------------------------------

  datatype Blob = Blob(size: nat)

  /** The `meta` of a multi-page PDF rendered to images: kind `pdf-pages-images`. */
  datatype PageImages = PageImages(pageCount: nat, imageFormat: string)

  datatype Status = Success | Failure

  /** One entry of `convertedFiles`. */
  datatype ConversionResult = ConversionResult(
    original: File, converted: Option<Blob>, outputFormat: string, status: Status,
    error: Option<string>, originalSize: nat, convertedSize: nat, meta: Option<PageImages>)

  /**
   * What a converter call gives: a blob (with, for the PDF page renderer, whether the pages
   * were zipped and how many there were), or the message of the error it threw.
   */
  datatype Outcome = Produced(blob: Blob, isZip: bool, pageCount: nat) | Thrown(message: string)

  /** The `catch` branch of `convertDocument`. */
  function FailedResult(file: File, outputFormat: string, message: string): ConversionResult {
    ConversionResult(file, None, outputFormat, Failure, Some(message), file.size, 0, None)
  }

  /**
   * `convertDocument`: read the file (`readOk` says whether the `FileReader` loads it in the
   * mode chosen), dispatch, and run the converter (`convert`). Every error is caught and
   * becomes a failed result.
   */
  function ConvertDocument(file: File, outputFormat: string, readOk: (File, bool) -> bool,
                           convert: (File, Route) -> Outcome): (r: ConversionResult)
    ensures r.original == file && r.originalSize == file.size
    ensures r.status == Success <==> r.converted.Some?
    ensures r.status == Failure ==> r.convertedSize == 0 && r.error.Some? && r.outputFormat == outputFormat && r.meta.None?
    ensures r.status == Success ==> r.convertedSize == r.converted.value.size && r.error.None?
    ensures var ext := FileExtension(file.name); var route := Dispatch(outputFormat, ext);
      readOk(file, ReadsBinary(ext)) ==>
        && (route.Unsupported? ==> r == FailedResult(file, outputFormat, route.message))
        && (!route.Unsupported? && convert(file, route).Thrown? ==>
              r == FailedResult(file, outputFormat, convert(file, route).message))
        && (!route.Unsupported? && convert(file, route).Produced? ==>
              && r.status == Success && r.converted == Some(convert(file, route).blob)
              && r.outputFormat == (if route == PdfToImages && convert(file, route).isZip then "zip" else outputFormat))
  {
    ConvertAs(file, FileExtension(file.name), outputFormat, readOk, convert)
  }

  /** The body of `convertDocument` once the extension `ext` of the file's name is known. */
  function ConvertAs(file: File, ext: string, outputFormat: string, readOk: (File, bool) -> bool,
                     convert: (File, Route) -> Outcome): (r: ConversionResult)
    ensures r.original == file && r.originalSize == file.size
    ensures r.status == Success <==> r.converted.Some?
    ensures r.status == Failure ==> r.convertedSize == 0 && r.error.Some? && r.outputFormat == outputFormat && r.meta.None?
    ensures r.status == Success ==> r.convertedSize == r.converted.value.size && r.error.None?
    ensures var route := Dispatch(outputFormat, ext);
      readOk(file, ReadsBinary(ext)) ==>
        && (route.Unsupported? ==> r == FailedResult(file, outputFormat, route.message))
        && (!route.Unsupported? && convert(file, route).Thrown? ==>
              r == FailedResult(file, outputFormat, convert(file, route).message))
        && (!route.Unsupported? && convert(file, route).Produced? ==>
              && r.status == Success && r.converted == Some(convert(file, route).blob)
              && r.outputFormat == (if route == PdfToImages && convert(file, route).isZip then "zip" else outputFormat))
  {
    if !readOk(file, ReadsBinary(ext)) then FailedResult(file, outputFormat, "Failed to read file")
    else
      var route := Dispatch(outputFormat, ext);
      if route.Unsupported? then FailedResult(file, outputFormat, route.message)
      else match convert(file, route)
        case Thrown(message) => FailedResult(file, outputFormat, message)
        case Produced(blob, isZip, pageCount) =>
          if route == PdfToImages && isZip then
            ConversionResult(file, Some(blob), "zip", Success, None, file.size, blob.size, Some(PageImages(pageCount, outputFormat)))
          else
            ConversionResult(file, Some(blob), outputFormat, Success, None, file.size, blob.size, None)
  }

  /** Only a PDF is rendered page by page to images, and only for `jpg` or `png` output. */
  lemma PdfToImagesRoute(outputFormat: string, ext: string)
    ensures Dispatch(outputFormat, ext) == PdfToImages ==> (outputFormat == "jpg" || outputFormat == "png") && ext == ".pdf"
  {
  }

  /**
   * A file that cannot be read, or whose format pair has no converter, fails; only a PDF
   * rendered to images changes the result's format, to `zip`, and only that result has `meta`.
   */
  lemma ConvertRoutes(file: File, ext: string, outputFormat: string, readOk: (File, bool) -> bool,
                      convert: (File, Route) -> Outcome)
    ensures var r := ConvertAs(file, ext, outputFormat, readOk, convert);
      && (!readOk(file, ReadsBinary(ext)) ==> r == FailedResult(file, outputFormat, "Failed to read file"))
      && (Dispatch(outputFormat, ext).Unsupported? ==> r.status == Failure)
      && (r.status == Success && r.outputFormat != outputFormat ==>
            r.outputFormat == "zip" && (outputFormat == "jpg" || outputFormat == "png") && ext == ".pdf")
  {
    PdfToImagesRoute(outputFormat, ext);
  }

  /** Only a zipped page rendering, which is a success, carries `meta`. */
  lemma ConvertMeta(file: File, ext: string, outputFormat: string, readOk: (File, bool) -> bool,
                    convert: (File, Route) -> Outcome)
    ensures var r := ConvertAs(file, ext, outputFormat, readOk, convert);
      r.meta.Some? <==> r.status == Success && r.outputFormat == "zip"
  {
    if readOk(file, ReadsBinary(ext)) && outputFormat == "zip" {
      assert Dispatch(outputFormat, ext).Unsupported?;
    }
  }

  /** The converter's state: the selected files and the results of the last run. */
  class DocumentConverter {
    var files: seq<File>
    var convertedFiles: seq<ConversionResult>

    constructor()
      ensures files == [] && convertedFiles == []
    {
      files := [];
      convertedFiles := [];
    }

    /**
     * `handleFiles`: appends the supported files of at most 25 MB, in order. When none
     * qualifies nothing changes and the method answers false (the source shows an alert).
     */
    method HandleFiles(fileList: seq<File>) returns (accepted: bool)
      modifies this
      ensures accepted <==> exists f :: f in fileList && IsAcceptedDocument(f)
      ensures files == old(files) + Filter(fileList, IsAcceptedDocument)
      ensures convertedFiles == old(convertedFiles)
    {
      var newFiles := Filter(fileList, IsAcceptedDocument);
      FilterFacts(fileList, IsAcceptedDocument);
      if newFiles == [] {
        return false;
      }
      assert newFiles[0] in fileList && IsAcceptedDocument(newFiles[0]);
      files := files + newFiles;
      accepted := true;
    }

    /**
     * `convertDocuments`: with files selected, replaces the results by exactly one result per
     * file, in order; with none selected nothing changes.
     */
    method ConvertDocuments(outputFormat: string, readOk: (File, bool) -> bool, convert: (File, Route) -> Outcome)
      returns (ran: bool)
      modifies this
      ensures ran <==> old(files) != []
      ensures files == old(files)
      ensures ran ==> |convertedFiles| == |files|
      ensures ran ==> forall i :: 0 <= i < |files| ==> convertedFiles[i] == ConvertDocument(files[i], outputFormat, readOk, convert)
      ensures !ran ==> convertedFiles == old(convertedFiles)
    {
      if |files| == 0 {
        return false;
      }
      var fs := files;
      var results: seq<ConversionResult> := [];
      var i := 0;
      while i < |fs|
        invariant 0 <= i <= |fs|
        invariant |results| == i
        invariant forall j :: 0 <= j < i ==> results[j] == ConvertDocument(fs[j], outputFormat, readOk, convert)
      {
        var result := ConvertDocument(fs[i], outputFormat, readOk, convert);
        results := results + [result];
        i := i + 1;
      }
      convertedFiles := results;
      ran := true;
    }

    /** `clearAll`: empties both lists. */
    method ClearAll()
      modifies this
      ensures files == [] && convertedFiles == []
    {
      files := [];
      convertedFiles := [];
    }
  }

  // ---------------------------------------------------------------------------
  // Download names
  // ---------------------------------------------------------------------------

  /** The name without its last '.' and what follows; a dot-less name is kept whole. */
  function NameWithoutExt(name: string): string {
    if '.' in name then JsSubstring(name, 0, LastIndexOf(name, '.')) else name
  }

  /** The table of `getExtensionForFormat`. */
  const FormatExtensions: map<string, string> := map[
    "pdf" := "pdf", "docx" := "docx", "html" := "html", "md" := "md", "txt" := "txt",
    "rtf" := "rtf", "jpg" := "jpg", "png" := "png", "zip" := "zip"]

  /** `extensions[format] || format`. */
  function ExtensionForFormat(format: string): (r: string)
    ensures r == format
  {
    if format in FormatExtensions && FormatExtensions[format] != "" then FormatExtensions[format] else format
  }

  /** Every entry of the table maps a format to itself, so the extension is always the format. */
  lemma ExtensionIsFormat(format: string)
    ensures ExtensionForFormat(format) == format
  {
  }

  /** Whether a result is the zip of a PDF's page images. */
  predicate IsPageZip(r: ConversionResult) {
    r.outputFormat == "zip" && r.meta.Some?
  }

  /** The name before the final `.<ext>`: `-pages-<n>-<fmt>` for a page zip, `-converted` otherwise. */
  function DownloadBase(r: ConversionResult): string {
    var name := NameWithoutExt(r.original.name);
    if IsPageZip(r) then name + "-pages-" + NatToString(r.meta.value.pageCount) + "-" + r.meta.value.imageFormat
    else name + ConvertedTag
  }

  /** The marker a plain conversion adds to the name. */
  const ConvertedTag := "-converted"

  /** `downloadSingle`'s file name; failed results have no download. */
  function SingleDownloadName(r: ConversionResult): (name: Option<string>)
    ensures name.Some? <==> r.status == Success && r.converted.Some?
  {
    if r.status != Success || r.converted.None? then None
    else if IsPageZip(r) then
      Some(NameWithoutExt(r.original.name) + "-pages-" + NatToString(r.meta.value.pageCount) + "-" + r.meta.value.imageFormat + ".zip")
    else Some(NameWithoutExt(r.original.name) + ConvertedTag + "." + ExtensionForFormat(r.outputFormat))
  }

  /** A successful result downloads as its name with the extension replaced by `-converted.<format>`. */
  lemma SingleDownloadReplacesExtension(r: ConversionResult)
    requires r.status == Success && r.converted.Some? && !IsPageZip(r)
    ensures var name := r.original.name;
      '.' in name ==> SingleDownloadName(r) == Some(name[..LastIndexOf(name, '.')] + "-converted" + "." + r.outputFormat)
    ensures '.' !in r.original.name ==> SingleDownloadName(r) == Some(r.original.name + "-converted" + "." + r.outputFormat)
  {
    ExtensionIsFormat(r.outputFormat);
  }

  /** A failed conversion offers no download. */
  lemma FailedHasNoDownload(r: ConversionResult)
    requires r.status == Failure
    ensures SingleDownloadName(r) == None
  {
  }

  /** The zip entry of a result in `downloadAll`: its base name and extension, sanitized. */
  function ZipEntryName(r: ConversionResult): (entry: string)
    ensures forall i :: 0 <= i < |entry| ==> entry[i] != '-'
  {
    SanitizeConverter(DownloadBase(r) + "." + ExtensionForFormat(r.outputFormat))
  }

  /** The archive entry is the single-download name, sanitized. */
  lemma ZipEntryIsSanitizedDownload(r: ConversionResult)
    requires r.status == Success && r.converted.Some?
    ensures SingleDownloadName(r).Some? && ZipEntryName(r) == SanitizeConverter(SingleDownloadName(r).value)
  {
    ExtensionIsFormat(r.outputFormat);
    assert DownloadBase(r) + "." + ExtensionForFormat(r.outputFormat) == SingleDownloadName(r).value;
  }

  /**
   * The converter's sanitizer replaces `-`, so a plain result's archive entry reads
   * `<base>_converted.<format>`.
   */
  lemma ZipEntryReadsUnderscore(r: ConversionResult)
    requires !IsPageZip(r)
    ensures ZipEntryName(r) ==
      SanitizeConverter(NameWithoutExt(r.original.name)) + "_converted." + SanitizeConverter(r.outputFormat)
  {
    var name := NameWithoutExt(r.original.name);
    var tag := ConvertedTag + ".";
    ExtensionIsFormat(r.outputFormat);
    ConcatAssoc(name, ConvertedTag, ".");
    ConcatAssoc(name, tag, r.outputFormat);
    SanitizeAppend(name, tag + r.outputFormat, IsConverterNameChar);
    SanitizeAppend(tag, r.outputFormat, IsConverterNameChar);
    SanitizedTag();
    ConcatAssoc(SanitizeConverter(name), "_converted.", SanitizeConverter(r.outputFormat));
  }

  /** The sanitizer turns the marker's `-` into `_` and keeps the rest. */
  lemma SanitizedTag()
    ensures SanitizeConverter(ConvertedTag + ".") == "_converted."
  {
    var t := SanitizeConverter(ConvertedTag + ".");
    assert |t| == 11;
    assert forall i :: 0 <= i < 11 ==> t[i] == "_converted."[i];
  }

  /** The successful results, in order. */
  predicate IsSuccessful(r: ConversionResult) {
    r.status == Success
  }

  /** The positions of successful results from `from` on, ascending. */
  function SuccessIndices(results: seq<ConversionResult>, from: nat): (idx: seq<nat>)
    decreases |results| - from
  {
    if from >= |results| then []
    else if IsSuccessful(results[from]) then [from] + SuccessIndices(results, from + 1)
    else SuccessIndices(results, from + 1)
  }

  /** The positions are ascending, each names a successful result, and every successful result is named. */
  lemma {:induction false} SuccessIndicesExact(results: seq<ConversionResult>, from: nat)
    ensures var idx := SuccessIndices(results, from);
      && (forall k :: 0 <= k < |idx| ==> from <= idx[k] < |results| && IsSuccessful(results[idx[k]]))
      && (forall k, l :: 0 <= k < l < |idx| ==> idx[k] < idx[l])
      && (forall i :: from <= i < |results| && IsSuccessful(results[i]) ==> i in idx)
    decreases |results| - from
  {
    if from < |results| {
      SuccessIndicesExact(results, from + 1);
      var rest := SuccessIndices(results, from + 1);
      if IsSuccessful(results[from]) {
        var idx := [from] + rest;
        assert forall k :: 0 < k < |idx| ==> idx[k] == rest[k - 1];
        assert forall k, l :: 0 <= k < l < |idx| ==> idx[k] < idx[l];
        assert forall i :: from < i < |results| && IsSuccessful(results[i]) ==> i in rest && i in idx;
      }
    }
  }

  /** The archive entries of a list of results, in order. */
  function ZipEntries(results: seq<ConversionResult>): (names: seq<string>)
    ensures |names| == |results|
    ensures forall i :: 0 <= i < |results| ==> names[i] == ZipEntryName(results[i])
  {
    if results == [] then [] else [ZipEntryName(results[0])] + ZipEntries(results[1..])
  }

  /** The folder inside the archive, and the archive's own name. */
  const ArchiveFolder := "converted-documents"
  const ArchiveName := "converted-documents.zip"

  /** What `downloadAll` does. */
  datatype DownloadPlan = NoDownloads | OneByOne(indices: seq<nat>) | Archive(entries: seq<string>)

  /**
   * `downloadAll`: nothing (and an alert) when no conversion succeeded; without JSZip, one
   * `downloadSingle` per successful result; otherwise one archive entry per successful result.
   */
  function DownloadAll(results: seq<ConversionResult>, zipAvailable: bool): DownloadPlan {
    var ok := Filter(results, IsSuccessful);
    if ok == [] then NoDownloads
    else if !zipAvailable then OneByOne(SuccessIndices(results, 0))
    else Archive(ZipEntries(ok))
  }

  /**
   * Nothing is downloaded exactly when no conversion succeeded; otherwise each successful
   * result is downloaded once, on its own or as one archive entry, in list order.
   */
  lemma DownloadAllCoversSuccesses(results: seq<ConversionResult>, zipAvailable: bool)
    ensures DownloadAll(results, zipAvailable) == NoDownloads <==> forall i :: 0 <= i < |results| ==> !IsSuccessful(results[i])
    ensures DownloadAll(results, zipAvailable).Archive? ==>
      DownloadAll(results, zipAvailable).entries == ZipEntries(Filter(results, IsSuccessful))
    ensures DownloadAll(results, zipAvailable).OneByOne? ==>
      var idx := DownloadAll(results, zipAvailable).indices;
      && (forall i :: 0 <= i < |results| && IsSuccessful(results[i]) <==> i in idx)
      && (forall k, l :: 0 <= k < l < |idx| ==> idx[k] < idx[l])
  {
    var ok := Filter(results, IsSuccessful);
    FilterFacts(results, IsSuccessful);
    SuccessIndicesExact(results, 0);
    if ok == [] {
      forall i | 0 <= i < |results| ensures !IsSuccessful(results[i]) {
        assert results[i] in results;
      }
    } else {
      assert ok[0] in results && IsSuccessful(ok[0]);
    }
  }

  // ---------------------------------------------------------------------------
  // escapeHtml
  // ---------------------------------------------------------------------------

  /** `s.replace(/c/g, rep)` for a one-character pattern. */
  function ReplaceChar(s: string, c: char, rep: string): string {
    if s == [] then [] else (if s[0] == c then rep else [s[0]]) + ReplaceChar(s[1..], c, rep)
  }

  lemma {:induction false} ReplaceCharAppend(a: string, b: string, c: char, rep: string)
    ensures ReplaceChar(a + b, c, rep) == ReplaceChar(a, c, rep) + ReplaceChar(b, c, rep)
  {
    if a == [] {
      assert a + b == b;
    } else {
      assert (a + b)[1..] == a[1..] + b;
      ReplaceCharAppend(a[1..], b, c, rep);
      ConcatAssoc(if a[0] == c then rep else [a[0]], ReplaceChar(a[1..], c, rep), ReplaceChar(b, c, rep));
    }
  }

  lemma {:induction false} ReplaceCharAbsent(s: string, c: char, rep: string)
    requires c !in s
    ensures ReplaceChar(s, c, rep) == s
  {
    if s != [] {
      ReplaceCharAbsent(s[1..], c, rep);
    }
  }

  lemma ReplaceCharOne(c: char, d: char, rep: string)
    ensures ReplaceChar([c], d, rep) == if c == d then rep else [c]
  {
    assert [c][1..] == [];
  }

  /** An entity made of letters, digits, `&`, `#` and `;` is left alone by the later replaces. */
  lemma EntityUntouched(e: string)
    requires forall i :: 0 <= i < |e| ==> !IsMarkupChar(e[i])
    ensures ReplaceChar(ReplaceChar(ReplaceChar(ReplaceChar(e, '<', "&lt;"), '>', "&gt;"), '"', "&quot;"), '\'', "&#039;") == e
    ensures ReplaceChar(ReplaceChar(ReplaceChar(e, '>', "&gt;"), '"', "&quot;"), '\'', "&#039;") == e
    ensures ReplaceChar(ReplaceChar(e, '"', "&quot;"), '\'', "&#039;") == e
  {
    assert forall x :: x in e ==> !IsMarkupChar(x);
    ReplaceCharAbsent(e, '<', "&lt;");
    ReplaceCharAbsent(e, '>', "&gt;");
    ReplaceCharAbsent(e, '"', "&quot;");
    ReplaceCharAbsent(e, '\'', "&#039;");
  }

  /** `escapeHtml`: the five global replaces, `&` first. */
  function EscapeHtml(s: string): string {
    ReplaceChar(ReplaceChar(ReplaceChar(ReplaceChar(ReplaceChar(s, '&', "&amp;"), '<', "&lt;"), '>', "&gt;"), '"', "&quot;"), '\'', "&#039;")
  }

  /** The entity of one character, or the character itself. */
  function EntityOf(c: char): string {
    if c == '&' then "&amp;"
    else if c == '<' then "&lt;"
    else if c == '>' then "&gt;"
    else if c == '"' then "&quot;"
    else if c == '\'' then "&#039;"
    else [c]
  }

  /** The reference escaping: every character replaced by its entity on its own. */
  function EscapeEach(s: string): string {
    if s == [] then [] else EntityOf(s[0]) + EscapeEach(s[1..])
  }

  lemma EscapeHtmlAppend(a: string, b: string)
    ensures EscapeHtml(a + b) == EscapeHtml(a) + EscapeHtml(b)
  {
    var s1a, s1b := ReplaceChar(a, '&', "&amp;"), ReplaceChar(b, '&', "&amp;");
    ReplaceCharAppend(a, b, '&', "&amp;");
    var s2a, s2b := ReplaceChar(s1a, '<', "&lt;"), ReplaceChar(s1b, '<', "&lt;");
    ReplaceCharAppend(s1a, s1b, '<', "&lt;");
    var s3a, s3b := ReplaceChar(s2a, '>', "&gt;"), ReplaceChar(s2b, '>', "&gt;");
    ReplaceCharAppend(s2a, s2b, '>', "&gt;");
    var s4a, s4b := ReplaceChar(s3a, '"', "&quot;"), ReplaceChar(s3b, '"', "&quot;");
    ReplaceCharAppend(s3a, s3b, '"', "&quot;");
    ReplaceCharAppend(s4a, s4b, '\'', "&#039;");
  }

  /** The chain of replaces turns one character into its entity: a later replace never touches an earlier entity. */
  lemma EscapeHtmlChar(c: char)
    ensures EscapeHtml([c]) == EntityOf(c)
  {
    ReplaceCharOne(c, '&', "&amp;");
    if c == '&' {
      EntityUntouched("&amp;");
    } else {
      ReplaceCharOne(c, '<', "&lt;");
      if c == '<' {
        EntityUntouched("&lt;");
      } else {
        ReplaceCharOne(c, '>', "&gt;");
        if c == '>' {
          EntityUntouched("&gt;");
        } else {
          ReplaceCharOne(c, '"', "&quot;");
          if c == '"' {
            ReplaceCharAbsent("&quot;", '\'', "&#039;");
          } else {
            ReplaceCharOne(c, '\'', "&#039;");
          }
        }
      }
    }
  }

  /** The five sequential replaces are the per-character escaping, because `&` goes first. */
  lemma {:induction false} EscapeHtmlIsPerChar(s: string)
    ensures EscapeHtml(s) == EscapeEach(s)
  {
    if s != [] {
      assert s == [s[0]] + s[1..];
      EscapeHtmlAppend([s[0]], s[1..]);
      EscapeHtmlChar(s[0]);
      EscapeHtmlIsPerChar(s[1..]);
    }
  }

  /** The characters HTML treats specially in text and attributes, besides `&`. */
  predicate IsMarkupChar(c: char) {
    c == '<' || c == '>' || c == '"' || c == '\''
  }

  lemma {:induction false} EscapeEachHasNoMarkup(s: string)
    ensures forall i :: 0 <= i < |EscapeEach(s)| ==> !IsMarkupChar(EscapeEach(s)[i])
  {
    if s != [] {
      EscapeEachHasNoMarkup(s[1..]);
      var e, rest := EntityOf(s[0]), EscapeEach(s[1..]);
      assert forall i :: 0 <= i < |e| ==> !IsMarkupChar(e[i]);
      assert forall i :: 0 <= i < |e + rest| ==> (e + rest)[i] == if i < |e| then e[i] else rest[i - |e|];
    }
  }

  /** The escaped text holds no `<`, `>`, `"` or `'`. */
  lemma EscapeHtmlSafe(s: string)
    ensures forall i :: 0 <= i < |EscapeHtml(s)| ==> !IsMarkupChar(EscapeHtml(s)[i])
  {
    EscapeHtmlIsPerChar(s);
    EscapeEachHasNoMarkup(s);
  }

  /** Decoding the five entities, left to right. */
  function UnescapeHtml(s: string): string
    decreases |s|
  {
    if s == [] then []
    else if StartsWith(s, "&amp;") then "&" + UnescapeHtml(s[5..])
    else if StartsWith(s, "&lt;") then "<" + UnescapeHtml(s[4..])
    else if StartsWith(s, "&gt;") then ">" + UnescapeHtml(s[4..])
    else if StartsWith(s, "&quot;") then "\"" + UnescapeHtml(s[6..])
    else if StartsWith(s, "&#039;") then "'" + UnescapeHtml(s[6..])
    else [s[0]] + UnescapeHtml(s[1..])
  }

  /** Decoding an entity followed by more text gives back its character first. */
  lemma UnescapeEntity(c: char, rest: string)
    ensures UnescapeHtml(EntityOf(c) + rest) == [c] + UnescapeHtml(rest)
  {
    var e := EntityOf(c);
    var t := e + rest;
    assert t[|e|..] == rest;
    if e == [c] {
      assert t[0] == c;
      MismatchAt(t, "&amp;", 0);
      MismatchAt(t, "&lt;", 0);
      MismatchAt(t, "&gt;", 0);
      MismatchAt(t, "&quot;", 0);
      MismatchAt(t, "&#039;", 0);
    } else {
      StartsWithConcat(e, rest);
      if c == '<' {
        MismatchAt(t, "&amp;", 1);
      } else if c == '>' {
        MismatchAt(t, "&amp;", 1);
        MismatchAt(t, "&lt;", 1);
      } else if c == '"' {
        MismatchAt(t, "&amp;", 1);
        MismatchAt(t, "&lt;", 1);
        MismatchAt(t, "&gt;", 1);
      } else if c == '\'' {
        MismatchAt(t, "&amp;", 1);
        MismatchAt(t, "&lt;", 1);
        MismatchAt(t, "&gt;", 1);
        MismatchAt(t, "&quot;", 1);
      }
    }
  }

  /** A text that differs from a pattern at some position does not start with it. */
  lemma MismatchAt(t: string, p: string, i: nat)
    requires i < |p| && i < |t| && t[i] != p[i]
    ensures !StartsWith(t, p)
  {
    if |p| <= |t| {
      assert t[..|p|][i] == t[i];
    }
  }

  /** Escaping loses nothing: decoding the escaped text gives the original back. */
  lemma {:induction false} EscapeHtmlRoundTrip(s: string)
    ensures UnescapeHtml(EscapeHtml(s)) == s
  {
    EscapeHtmlIsPerChar(s);
    EscapeEachRoundTrip(s);
  }

  lemma {:induction false} EscapeEachRoundTrip(s: string)
    ensures UnescapeHtml(EscapeEach(s)) == s
  {
    if s != [] {
      UnescapeEntity(s[0], EscapeEach(s[1..]));
      EscapeEachRoundTrip(s[1..]);
    }
  }

  // ---------------------------------------------------------------------------
  // Markdown strip and RTF wrapper
  // ---------------------------------------------------------------------------

  /** No backslash of `s` is directly followed by a character `follows` accepts. */
  predicate NoBackslashBefore(s: string, follows: char -> bool) {
    forall i :: 0 <= i < |s| - 1 && s[i] == '\\' ==> !follows(s[i + 1])
  }

  /** The class `[#*`_~]` of the first replace. */
  predicate IsMarkdownMark(c: char) {
    c == '#' || c == '*' || c == '`' || c == '_' || c == '~'
  }

  predicate KeepsMarkdownChar(c: char) {
    !IsMarkdownMark(c)
  }

  /** The class `[.*?\\]` that follows the backslash in the second pattern as written. */
  predicate IsEscapable(c: char) {
    c == '.' || c == '*' || c == '?' || c == '\\'
  }

  /** `s.replace(/\\[.*?\\]/g, '')`: every backslash followed by `.`, `*`, `?` or `\` goes with what follows, left to right. */
  function DropEscapes(s: string): (r: string)
    ensures |r| <= |s|
    ensures '\\' !in s ==> r == s
    decreases |s|
  {
    if |s| >= 2 && s[0] == '\\' && IsEscapable(s[1]) then DropEscapes(s[2..])
    else if s == [] then []
    else [s[0]] + DropEscapes(s[1..])
  }

  /** The markdown-to-text strip of the PDF, text, Word and RTF converters. */
  function MarkdownStrip(s: string): (r: string)
    ensures |r| <= |s|
    ensures '\\' !in s ==> r == Filter(s, KeepsMarkdownChar)
  {
    FilterFacts(s, KeepsMarkdownChar);
    DropEscapes(Filter(s, KeepsMarkdownChar))
  }

  /** Dropping pairs only removes characters. */
  lemma {:induction false} DropEscapesChars(s: string)
    ensures forall i :: 0 <= i < |DropEscapes(s)| ==> DropEscapes(s)[i] in s
    decreases |s|
  {
    if |s| >= 2 && s[0] == '\\' && IsEscapable(s[1]) {
      DropEscapesChars(s[2..]);
      assert forall x :: x in s[2..] ==> x in s;
    } else if s != [] {
      DropEscapesChars(s[1..]);
      assert forall x :: x in s[1..] ==> x in s;
    }
  }

  /** After the pass, no backslash is followed by an escapable character: no pair is left or newly formed. */
  lemma {:induction false} DropEscapesComplete(s: string)
    ensures NoBackslashBefore(DropEscapes(s), IsEscapable)
    decreases |s|
  {
    if |s| >= 2 && s[0] == '\\' && IsEscapable(s[1]) {
      DropEscapesComplete(s[2..]);
    } else if s != [] {
      DropEscapesComplete(s[1..]);
      var rest := DropEscapes(s[1..]);
      if s[0] == '\\' && |s| >= 2 {
        assert s[1] != '\\';
        assert rest[0] == s[1];
      }
      var r := [s[0]] + rest;
      forall i | 0 <= i < |r| - 1 && r[i] == '\\' ensures !IsEscapable(r[i + 1]) {
        if i > 0 {
          assert r[i] == rest[i - 1] && r[i + 1] == rest[i];
        }
      }
    }
  }

  /** Text with no pair left passes through the pass unchanged. */
  lemma {:induction false} DropEscapesKeepsClean(s: string)
    requires NoBackslashBefore(s, IsEscapable)
    ensures DropEscapes(s) == s
    decreases |s|
  {
    if s != [] {
      assert NoBackslashBefore(s[1..], IsEscapable) by {
        forall i | 0 <= i < |s[1..]| - 1 && s[1..][i] == '\\' ensures !IsEscapable(s[1..][i + 1]) {
          assert s[i + 1] == '\\';
        }
      }
      DropEscapesKeepsClean(s[1..]);
    }
  }

  /** Text up to the first backslash is copied as it is, and the pass continues after it. */
  lemma {:induction false} DropEscapesPlain(a: string, b: string)
    requires '\\' !in a
    ensures DropEscapes(a + b) == a + DropEscapes(b)
    decreases |a|
  {
    if a != [] {
      assert (a + b)[1..] == a[1..] + b;
      assert a[0] != '\\';
      DropEscapesPlain(a[1..], b);
      assert [a[0]] + a[1..] == a;
    } else {
      assert a + b == b;
    }
  }

  /** The first backslash goes with the escapable character after it; the rest of the text is then stripped. */
  lemma DropEscapesPair(a: string, c: char, b: string)
    requires '\\' !in a && IsEscapable(c)
    ensures DropEscapes(a + ['\\', c] + b) == a + DropEscapes(b)
  {
    assert a + ['\\', c] + b == a + (['\\', c] + b);
    DropEscapesPlain(a, ['\\', c] + b);
    assert (['\\', c] + b)[2..] == b;
  }

  /** A first backslash before any other character stays, and so does that character's turn to be examined. */
  lemma DropEscapesLoneBackslash(a: string, c: char, b: string)
    requires '\\' !in a && !IsEscapable(c)
    ensures DropEscapes(a + ['\\', c] + b) == a + ['\\'] + DropEscapes([c] + b)
  {
    assert a + ['\\', c] + b == a + (['\\', c] + b);
    DropEscapesPlain(a, ['\\', c] + b);
    assert (['\\', c] + b)[1..] == [c] + b;
  }

  /**
   * Up to the first backslash, the strip keeps the non-mark characters in order; a backslash
   * before an escapable character that is not a mark (`.`, `?`, `\`) is dropped with it.
   */
  lemma MarkdownStripPair(a: string, c: char, b: string)
    requires '\\' !in a && IsEscapable(c) && KeepsMarkdownChar(c)
    ensures MarkdownStrip(a + ['\\', c] + b) == Filter(a, KeepsMarkdownChar) + MarkdownStrip(b)
  {
    var fa := Filter(a, KeepsMarkdownChar);
    FilterAppend(a + ['\\', c], b, KeepsMarkdownChar);
    FilterAppend(a, ['\\', c], KeepsMarkdownChar);
    assert Filter(['\\', c], KeepsMarkdownChar) == ['\\', c] by {
      assert ['\\', c][1..] == [c];
      assert [c][1..] == [];
    }
    FilterFacts(a, KeepsMarkdownChar);
    assert '\\' !in fa;
    DropEscapesPair(fa, c, Filter(b, KeepsMarkdownChar));
  }

  /** The stripped text holds no markdown mark and no escape pair. */
  lemma MarkdownStripClean(s: string)
    ensures forall i :: 0 <= i < |MarkdownStrip(s)| ==> !IsMarkdownMark(MarkdownStrip(s)[i])
    ensures NoBackslashBefore(MarkdownStrip(s), IsEscapable)
  {
    var f := Filter(s, KeepsMarkdownChar);
    FilterFacts(s, KeepsMarkdownChar);
    DropEscapesChars(f);
    DropEscapesComplete(f);
    forall i | 0 <= i < |MarkdownStrip(s)| ensures !IsMarkdownMark(MarkdownStrip(s)[i]) {
      var x := MarkdownStrip(s)[i];
      assert x in f;
      var j :| 0 <= j < |f| && f[j] == x;
    }
  }

  /** Stripping twice is stripping once. */
  lemma MarkdownStripIdempotent(s: string)
    ensures MarkdownStrip(MarkdownStrip(s)) == MarkdownStrip(s)
  {
    var r := MarkdownStrip(s);
    MarkdownStripClean(s);
    FilterAll(r, KeepsMarkdownChar);
    DropEscapesKeepsClean(r);
  }

  /** The fixed RTF header, as the template literal produces it. */
  const RtfHeader := "{\\rtf1\\ansi\\deff0 {\\fonttbl {\\f0 Times New Roman;}}\\f0\\fs24 "

  /** What each two-character backslash-`n` becomes: two backslashes, `par` and a space. */
  const RtfParagraph := "\\\\par "

  predicate IsLetterN(c: char) {
    c == 'n'
  }

  /**
   * `text.replace(/\\n/g, '\\\\par ')` as written: the pattern is a backslash followed by `n`
   * (not a newline character), left to right.
   */
  function RtfBody(s: string): string
    decreases |s|
  {
    if |s| >= 2 && s[0] == '\\' && s[1] == 'n' then RtfParagraph + RtfBody(s[2..])
    else if s == [] then []
    else [s[0]] + RtfBody(s[1..])
  }

  /** The document `convertToRTF` and `convertToDocx` produce. */
  function RtfDocument(text: string): string {
    RtfHeader + RtfBody(text) + "}"
  }

  /** The RTF body starts with the text's first character. */
  lemma RtfBodyFirst(s: string)
    requires s != []
    ensures RtfBody(s) != [] && RtfBody(s)[0] == s[0]
  {
  }

  /** Every backslash-`n` pair is replaced: none is left in the body, and none is formed. */
  lemma {:induction false} RtfBodyComplete(s: string)
    ensures NoBackslashBefore(RtfBody(s), IsLetterN)
    decreases |s|
  {
    if |s| >= 2 && s[0] == '\\' && s[1] == 'n' {
      RtfBodyComplete(s[2..]);
      var rest := RtfBody(s[2..]);
      var r := RtfParagraph + rest;
      forall i | 0 <= i < |r| - 1 && r[i] == '\\' ensures !IsLetterN(r[i + 1]) {
        if i >= |RtfParagraph| {
          assert r[i] == rest[i - |RtfParagraph|] && r[i + 1] == rest[i + 1 - |RtfParagraph|];
        }
      }
    } else if s != [] {
      RtfBodyComplete(s[1..]);
      var rest := RtfBody(s[1..]);
      if |s| >= 2 {
        RtfBodyFirst(s[1..]);
      }
      var r := [s[0]] + rest;
      forall i | 0 <= i < |r| - 1 && r[i] == '\\' ensures !IsLetterN(r[i + 1]) {
        if i > 0 {
          assert r[i] == rest[i - 1] && r[i + 1] == rest[i];
        }
      }
    }
  }

  /**
   * Text without a backslash-`n` pair comes through unchanged, in particular its newline
   * characters: the pattern as written never matches a line break.
   */
  lemma {:induction false} RtfBodyWithoutBackslash(s: string)
    requires NoBackslashBefore(s, IsLetterN)
    ensures RtfBody(s) == s
    decreases |s|
  {
    if s != [] {
      assert NoBackslashBefore(s[1..], IsLetterN) by {
        forall i | 0 <= i < |s[1..]| - 1 && s[1..][i] == '\\' ensures !IsLetterN(s[1..][i + 1]) {
          assert s[i + 1] == '\\';
        }
      }
      RtfBodyWithoutBackslash(s[1..]);
    }
  }

  /** Text whose end and the start of what follows do not form a backslash-`n` is converted part by part. */
  lemma {:induction false} RtfBodyAppend(a: string, b: string)
    requires !(a != [] && a[|a| - 1] == '\\' && b != [] && b[0] == 'n')
    ensures RtfBody(a + b) == RtfBody(a) + RtfBody(b)
    decreases |a|
  {
    if a == [] {
      assert a + b == b;
    } else if |a| >= 2 && a[0] == '\\' && a[1] == 'n' {
      assert (a + b)[2..] == a[2..] + b;
      RtfBodyAppend(a[2..], b);
      ConcatAssoc(RtfParagraph, RtfBody(a[2..]), RtfBody(b));
    } else {
      assert (a + b)[1..] == a[1..] + b;
      RtfBodyAppend(a[1..], b);
      ConcatAssoc([a[0]], RtfBody(a[1..]), RtfBody(b));
    }
  }

  /** Each backslash-`n` becomes the paragraph mark, and the text on either side is converted on its own. */
  lemma RtfBodySplit(a: string, b: string)
    ensures RtfBody(a + "\\n" + b) == RtfBody(a) + RtfParagraph + RtfBody(b)
  {
    var x := "\\n" + b;
    assert a + "\\n" + b == a + x;
    RtfBodyAppend(a, x);
    assert x[2..] == b;
    ConcatAssoc(RtfBody(a), RtfParagraph, RtfBody(b));
  }

  /** The document is the header, the body and the closing brace. */
  lemma RtfDocumentShape(text: string)
    ensures StartsWith(RtfDocument(text), RtfHeader)
    ensures EndsWith(RtfDocument(text), "}")
  {
    ConcatAssoc(RtfHeader, RtfBody(text), "}");
    StartsWithConcat(RtfHeader, RtfBody(text) + "}");
    EndsWithConcat(RtfHeader + RtfBody(text), "}");
  }
}
