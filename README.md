# JobUtilities browser tools in Dafny

This project models the logic of the JobUtilities browser tools. Each tool has its own
module:

- **ImageCompression**: the image compressor. It has a file list, a compress-all loop and an
  encoder run at a fixed quality. In target-size mode it runs a binary search over JPEG
  quality (`findQualityForTargetSize`). It also builds download and archive names.
- **PdfCompression**: the PDF compressor. It has the same file list. In target-size mode the
  search runs over pairs of scale and quality: every pass is a binary search on quality, and
  the page scale drops by 0.8 from one pass to the next. It also covers the fall-back rules,
  the compression levels and the download names.
- **TargetSearch**: what both searches share. This is the bracket that each probe narrows,
  and the choice of the "largest that fits, else the smallest seen" result.
- **QrGeneration**: the QR generator. It covers the payload of each content type (URL,
  Wi-Fi, vCard, `mailto:`, `tel:`, `sms:`), the rule for when a form has content, the
  file-name timestamp, and the state that `selectType` and `clearAll` change.
- **QrCodeSimple**: the fallback QR renderer. It has the 32-bit string hash, the option
  defaults, and the 25×25 canvas pattern with three finder squares (a class over a 2-D
  array). It also covers the SVG text, built row by row.
- **DocumentConversion**: the document converter. It covers:
  - the file filter and extension rules;
  - the choice of conversion path for each pair of input and output format;
  - the result record and the per-file loop;
  - single and archived download names;
  - `escapeHtml`, the markdown strip and the RTF body.
- **Dashboard**: the dashboard. It covers the utility search that shows or hides cards, the
  card click handler that reads the URL out of an `onclick` text, and the typing effect.
- **Files**, **Text** and **Wrappers**: shared pieces. They hold the `File` record, the two
  file-name sanitizers and the savings percentage. They also model the JavaScript string
  built-ins the tools use (`toLowerCase`, `trim`, `includes`, `lastIndexOf`, `substring`,
  `split`, `join`) on `seq<char>`, and provide `Option`.

The source's own form is kept:

- Objects that change their fields are classes whose methods carry `modifies` clauses. These
  are the compressors, the converter, the QR generator, the canvas and the dashboard cards.
- Loops are `while`/`for` loops with invariants: the searches, the hash, the pattern painting,
  the SVG rows and the per-file loops.
- Everything else is functions and lemmas.
- Each search method returns a ghost history of its probes. That history satisfies a
  recursive specification predicate (`IsSearch`, `IsRun`), and the lemmas state what such a
  history means.

Anything the code cannot compute itself is a parameter of the model:

- image and PDF encoders (`canvas.toBlob`, pdf-lib, pdf.js);
- the document libraries (jsPDF, mammoth, Turndown, JSZip);
- `encodeURIComponent`, the ISO clock string and number-to-text conversion;
- whether a file can be read.

## Model

| member | source | states |
|---|---|---|
| Files.ReplaceDisallowed | scripts/image-compressor.js:323-325 | The length is kept; every character is kept when the class allows it and becomes `_` otherwise |
| Files.SanitizePlain | scripts/image-compressor.js:323-325 | The length is kept; letters, digits, `-`, `_`, `.` and space stay, every other character becomes `_`, so only those characters come out |
| Files.SanitizeConverter | scripts/document-converter.js:756-758 | The same per-character rule with the class as written (`\` to `_` kept, `-` not), so no `-` comes out |
| Files.SanitizeKeepsAllowed | scripts/image-compressor.js:323-325 | A name made only of allowed characters comes back unchanged |
| Files.SanitizeIdempotent | scripts/image-compressor.js:323-325 | Sanitizing twice gives the same as sanitizing once, for any character class |
| Files.SanitizeAppend | scripts/image-compressor.js:323-325 | Sanitizing works character by character, so it distributes over concatenation |
| Files.PlainSanitizeIdempotent | scripts/image-compressor.js:323-325 | The compressors' sanitizer is idempotent |
| Files.ConverterSanitizeIdempotent | scripts/document-converter.js:756-758 | The converter's sanitizer is idempotent |
| Files.ConverterClassDiffers | scripts/document-converter.js:756-758 | The converter's class `[^a-zA-Z0-9\\-_. ]` is a range from backslash to underscore. It allows exactly `\`, `]` and `^` beyond the compressors' class, and refuses `-`, which that class allows |
| Files.SavingsPercent | scripts/image-compressor.js:135 | Finite exactly when the original is non-empty, and then at most 100. It is non-negative exactly when the output is no larger. It is NaN exactly for 0/0 |
| Files.ClampAtZero | scripts/pdf-compressor.js:138 | `Math.max(0, x)`: NaN stays NaN, -Infinity never comes out, finite results are non-negative, and non-negative inputs pass through |
| TargetSearch.BoundsRecordOutcomes | scripts/image-compressor.js:198-203 | Each end of the bracket is either its starting value or the quality of a probe with that outcome: upper ends did not fit, lower ends fitted |
| TargetSearch.MidpointProbesInside | scripts/image-compressor.js:198-205 | When every probe is at the midpoint, the bracket only shrinks and each probe lies inside the bracket it was taken in |
| TargetSearch.NarrowAtMidpoint | scripts/image-compressor.js:198-205 | A probe at the midpoint halves the bracket's width, whichever way it goes |
| TargetSearch.MidpointsHalveWidth | scripts/image-compressor.js:198-205 | After n midpoint probes the width is the old width divided by 2^n |
| TargetSearch.BestFit | scripts/image-compressor.js:196-203 | Picks the largest probe at or under the target, the first one among equals. It gives none exactly when no probe fits |
| TargetSearch.Smallest | scripts/image-compressor.js:196 | Picks the first probe of least size. It is present exactly when a probe exists |
| TargetSearch.RunningBest | scripts/image-compressor.js:198-203 | Updating `bestUnder` after each probe leaves it equal to the BestFit of the history so far |
| TargetSearch.RunningSmallest | scripts/image-compressor.js:196 | Keeping `smallest` when `size < smallest.size` leaves it equal to the Smallest of the history |
| TargetSearch.RunBestIsBestFit | scripts/image-compressor.js:198-203 | Folding the update over any further probes gives the BestFit of the whole history |
| TargetSearch.RunSmallestIsSmallest | scripts/image-compressor.js:196 | Folding the smallest update over further probes gives the Smallest of the whole history |
| TargetSearch.Choose | scripts/image-compressor.js:207 | `bestUnder \|\| smallest`: the result is one of the probes. If any probe fits, it fits and no fitting probe is larger. Otherwise no probe is smaller |
| ImageCompression.FindQualityForTargetSize | scripts/image-compressor.js:185-215 | The loop's probes form the search the source performs, and the result is that search's choice |
| ImageCompression.SearchDone | scripts/image-compressor.js:206-207 | Once the stop test holds, the probes are a complete search and one of the two candidates exists; the returned one is the choice |
| ImageCompression.FirstBracket | scripts/image-compressor.js:186-214 | The first probe is at 0.8 and leaves [0.8, 1] when it fits and [0.05, 0.8] when it does not |
| ImageCompression.WidthAfter | scripts/image-compressor.js:198-205 | After n probes the bracket is 0.2/2^(n-1) wide when the first probe fitted and 0.75/2^(n-1) wide otherwise |
| ImageCompression.ProbeCount | scripts/image-compressor.js:190-206 | The search makes exactly 5 encoder calls when quality 0.8 fits and 7 when it does not, below the cap of 9 |
| ImageCompression.StillWide | scripts/image-compressor.js:206 | Until 4 halvings of the 0.2-wide bracket (first probe fitted) or 6 of the 0.75-wide one (it did not), the width stays at least 0.02, so the stop test fails |
| ImageCompression.NarrowEnough | scripts/image-compressor.js:206 | After 4 halvings of 0.2, or 6 of 0.75, the width is under 0.02, so the stop test holds |
| ImageCompression.ProbesInBracket | scripts/image-compressor.js:198-205 | Every bracket stays within [0.05, 1], and every probe lies within the bracket it narrows |
| ImageCompression.BoundsAreOutcomes | scripts/image-compressor.js:198-203 | The final bracket's ends are 0.05, 1, or the qualities of probes that fitted (low end) or did not (high end) |
| ImageCompression.SearchIsUnique | scripts/image-compressor.js:185-215 | For a given encoder and target there is exactly one search history |
| ImageCompression.SearchResult | scripts/image-compressor.js:196-207 | The result is a probe whose size is the encoder's output at its quality. If any probe fitted, it is the largest that fitted; otherwise it is the smallest seen |
| ImageCompression.OutputFormat | scripts/image-compressor.js:164-169 | "auto" keeps the file's own type; a named format becomes `image/<format>` |
| ImageCompression.OutputFormatIsImage | scripts/image-compressor.js:164-169 | The chosen output type always starts with `image/` |
| ImageCompression.CompressImage | scripts/image-compressor.js:149-183 | Quality mode encodes at slider/100. Target mode returns the chosen size of the target-size search for targetKb*1024 bytes |
| ImageCompression.SingleNameInsertsSuffix | scripts/image-compressor.js:278-285 | `-compressed` goes in front of the last dot. Without a dot, `substring(0, -1)` is empty, so the suffix goes in front of the whole name |
| ImageCompression.SingleDownloadName | scripts/image-compressor.js:278-285 | The name with `-compressed` inserted at its last dot, or in front of a name without a dot |
| ImageCompression.ZipEntryName | scripts/image-compressor.js:302-307 | The entry is 11 characters longer than the name and holds only allowed characters |
| ImageCompression.ZipNameVersusSingleName | scripts/image-compressor.js:302-307 | With a dot, the archive entry is the sanitized single-download name. Without one, it is the sanitized name followed by `-compressed` |
| ImageCompression.ZipNameSplitsAtLastDot | scripts/image-compressor.js:302-307 | The archive entry splits at the last dot: base, then `-compressed`, then the extension, each part sanitized |
| ImageCompression.ZipNameWithoutDot | scripts/image-compressor.js:302-307 | A name without a dot gets `-compressed` appended after sanitizing |
| ImageCompression.MakeResult | scripts/image-compressor.js:130-136 | The result keeps the original file and the compressed size, and the savings are the percentage of the two sizes |
| ImageCompression.ImageCompressor.constructor | scripts/image-compressor.js:2-7 | Both lists start empty |
| ImageCompression.ImageCompressor.HandleFiles | scripts/image-compressor.js:74-89 | Appends exactly the accepted images, in order. It reports whether any was accepted and leaves the results alone |
| ImageCompression.IsAcceptedImage | scripts/image-compressor.js:76-78 | No contract of its own: an `image/` MIME prefix and at most 10 MiB; HandleFiles appends exactly the files it accepts |
| ImageCompression.ImageCompressor.CompressImages | scripts/image-compressor.js:117-147 | With no files nothing changes. Otherwise the results are replaced by one result per file, in order, and the file list is unchanged |
| ImageCompression.ImageCompressor.ClearAll | scripts/image-compressor.js:327-329 | Empties both lists |
| PdfCompression.RunPass | scripts/pdf-compressor.js:219-232 | One pass of the quality search at a fixed scale. Its probes form a pass of the specification, and it ends early only when the builder gives none. The running best and smallest equal the selections over all shots so far |
| PdfCompression.ProbeAtMidpoint | scripts/pdf-compressor.js:221-231 | One probe of a pass: without a blob nothing changes and the builder failed at the bracket's midpoint. With one, the pass grows by that probe, the bounds are the extended pass's bracket, and the kept shots are the selections over the extended pass |
| PdfCompression.CompressPdfToTargetSize | scripts/pdf-compressor.js:201-245 | Without a loaded document the result is none. Otherwise the passes, the abort flag and the result form a run of the specification |
| PdfCompression.PassLength | scripts/pdf-compressor.js:220-232 | A pass makes at most 6 probes, and a completed pass exactly 6, under the cap of 9 |
| PdfCompression.PassWidth | scripts/pdf-compressor.js:220-232 | After n probes of a pass the quality bracket is 0.85/2^n wide |
| PdfCompression.ScaleSchedule | scripts/pdf-compressor.js:236 | The scale of pass a is 0.8^a: 1, 0.8, 0.64, … |
| PdfCompression.ScaleStaysAbove | scripts/pdf-compressor.js:236-237 | Within the 6 attempts the scale never drops below 0.2 |
| PdfCompression.RunShape | scripts/pdf-compressor.js:217-240 | A run that was not aborted and ends without a fit used all 6 attempts. Every completed pass made 6 shots, and a run makes at most 36 builder calls |
| PdfCompression.RunResult | scripts/pdf-compressor.js:225-240 | The result is a shot of the run. If any shot fitted, it fitted, came from the last pass and is the largest fitting shot. Otherwise all 6 attempts were used and it is the smallest shot |
| PdfCompression.AbortedRun | scripts/pdf-compressor.js:223 | An aborted run returns null, where the builder gave none in the middle of an incomplete pass |
| PdfCompression.TargetBytesBounds | scripts/pdf-compressor.js:186 | A valid target is at least 20 KB. The byte target is never below 50 KB (51200) and is a multiple of 1024 |
| PdfCompression.ValidTargetKb | scripts/pdf-compressor.js:121-127 | No contract of its own: NaN, 0 and values below 20 are refused; TargetBytesBounds states what an accepted value gives |
| PdfCompression.TargetBytes | scripts/pdf-compressor.js:186 | A whole number of KiB, at least 51200 and at least the request, equal to 51200 or to the request: `max(50, kb) * 1024` |
| PdfCompression.CompressPdf | scripts/pdf-compressor.js:158-199 | Original is kept without a loaded document. Quality mode keeps the rebuilt save or falls back to the original. Size mode runs the search when pdf.js is present and falls back otherwise |
| PdfCompression.GetCompressionOptions | scripts/pdf-compressor.js:267-291 | The quality and DPI are passed through, and the ratio is the level's own |
| PdfCompression.CompressionRatio | scripts/pdf-compressor.js:273-289 | One of 0.9, 0.7, 0.5 and 0.3, always strictly between 0 and 1 |
| PdfCompression.CompressionRatioOrder | scripts/pdf-compressor.js:267-291 | The ratios fall from low to extreme and lie strictly between 0 and 1. An unknown level gets the medium ratio |
| PdfCompression.SingleNameCutsFirstPdf | scripts/pdf-compressor.js:356 | `replace('.pdf', …)` cuts only the first `.pdf`, wherever it is, and appends `-compressed.pdf`. Without one, the suffix is simply appended |
| PdfCompression.SingleDownloadName | scripts/pdf-compressor.js:355-358 | Ends in `-compressed.pdf`; 11 characters longer than the name when a `.pdf` was cut, 15 otherwise |
| PdfCompression.ZipEntryName | scripts/pdf-compressor.js:376-380 | 11 characters longer than the name when it ends in `.pdf` in any case, 15 otherwise; only allowed characters |
| PdfCompression.SingleNameOfPlainPdf | scripts/pdf-compressor.js:356 | A name whose only `.pdf` is its ending becomes base + `-compressed.pdf` |
| PdfCompression.NamesEndInSuffix | scripts/pdf-compressor.js:349-380 | Single and archived names always end in `-compressed.pdf` |
| PdfCompression.ZipCutsSuffixAnyCase | scripts/pdf-compressor.js:376-380 | The archive name drops a closing `.PDF` in any case before adding the suffix |
| PdfCompression.MakeResult | scripts/pdf-compressor.js:138-145 | The result keeps the file and the size, and the savings are clamped at zero |
| PdfCompression.SavingsNeverNegative | scripts/pdf-compressor.js:138 | The savings are finite and non-negative, or NaN only for an empty file compressed to nothing |
| PdfCompression.PdfCompressor.constructor | scripts/pdf-compressor.js:2-7 | Both lists start empty |
| PdfCompression.PdfCompressor.HandleFiles | scripts/pdf-compressor.js:74-89 | Appends exactly the accepted PDFs, in order, and reports whether any was accepted |
| PdfCompression.IsAcceptedPdf | scripts/pdf-compressor.js:76-78 | No contract of its own: MIME `application/pdf` or a case-insensitive `.pdf` name, at most 50 MiB; HandleFiles appends exactly the files it accepts |
| PdfCompression.PdfCompressor.CompressPdfs | scripts/pdf-compressor.js:116-156 | No files and an invalid size-mode target are refused without change. Otherwise each file gets a result from the output of the `compress` parameter, in order |
| PdfCompression.PdfCompressor.ClearAll | scripts/pdf-compressor.js:400-402 | Empties both lists |
| QrGeneration.NormalizeUrl | scripts/qr-generator.js:138-143 | Empty exactly for a blank input. A trimmed input with no `http://` or `https://` scheme gets `https://` put in front; one with a scheme comes back trimmed and otherwise unchanged |
| QrGeneration.NormalizeUrlIdempotent | scripts/qr-generator.js:138-143 | Normalizing a normalized URL changes nothing |
| QrGeneration.NormalizedIsTrimmed | scripts/qr-generator.js:138-143 | A normalized URL has no surrounding whitespace |
| QrGeneration.WifiFields | scripts/qr-generator.js:145-153 | Fields without `;` can be read back: splitting the payload at `;` gives the T, S, P and H fields and two empty ends |
| QrGeneration.WifiPayload | scripts/qr-generator.js:145-153 | No contract of its own: the `WIFI:T:…;S:…;P:…;H:…;;` template; WifiFields states how its fields read back |
| QrGeneration.WifiContent | scripts/qr-generator.js:145-153 | Empty exactly when the trimmed SSID is empty |
| QrGeneration.WifiPayloadIsAmbiguous | scripts/qr-generator.js:145-153 | The fields are not escaped, so two different SSID/password pairs give the same payload |
| QrGeneration.VCardLines | scripts/qr-generator.js:164-170 | The line list starts with BEGIN and VERSION and ends with END |
| QrGeneration.CardLines | scripts/qr-generator.js:164-170 | With no newline in a field, the card's lines are the header, one line per non-empty field in order, and the END line |
| QrGeneration.CardText | scripts/qr-generator.js:155-172 | No contract of its own: the text the `vcard +=` steps build; CardLines states its lines |
| QrGeneration.ContactContent | scripts/qr-generator.js:155-172 | Empty exactly when both the name and the phone are empty |
| QrGeneration.ContactLines | scripts/qr-generator.js:155-172 | A contact with a name or phone gives exactly that vCard |
| QrGeneration.AddressComponents | scripts/qr-generator.js:169 | The address sits in the third of seven `ADR` components |
| QrGeneration.MailParams | scripts/qr-generator.js:182-185 | At most two parameters, and none exactly when subject and body are empty |
| QrGeneration.MailtoContent | scripts/qr-generator.js:174-187 | Empty exactly without a recipient, and otherwise starts with `mailto:` and the recipient |
| QrGeneration.MailtoQuery | scripts/qr-generator.js:174-187 | With no parameters the URI is just `mailto:<to>`. Otherwise `?` follows, and splitting the query at `&` gives the parameters back |
| QrGeneration.TelContent | scripts/qr-generator.js:189-191 | Empty exactly for an empty number, otherwise `tel:` followed by the number |
| QrGeneration.SmsContent | scripts/qr-generator.js:193-199 | Empty exactly for an empty number. Otherwise it is `sms:<number>`, followed by `?body=` and the encoded message when there is one |
| QrGeneration.HasContentIffPayload | scripts/qr-generator.js:120-204 | `hasContent` holds exactly when the payload of the current type is non-empty |
| QrGeneration.Content | scripts/qr-generator.js:133-204 | No contract of its own: the `getQRContent` switch; HasContentIffPayload and ClearedFormIsEmpty state its properties |
| QrGeneration.HasContent | scripts/qr-generator.js:120-131 | No contract of its own: the truthiness of the `hasContent` switch; HasContentIffPayload ties it to the payload |
| QrGeneration.QrGenerator.Payload | scripts/qr-generator.js:133-204 | No contract of its own: the payload of the object's current type and form |
| QrGeneration.ClearedFormIsEmpty | scripts/qr-generator.js:412-448 | After clearing, every content type has an empty payload |
| QrGeneration.Stamp | scripts/qr-generator.js:407 | The stamp has at most 19 characters and none of them is `:` or `-` |
| QrGeneration.StampOfIsoTime | scripts/qr-generator.js:407 | For an ISO time the stamp is the 15 characters `YYYYMMDDTHHMMSS` |
| QrGeneration.FileName | scripts/qr-generator.js:406-410 | The name starts with `qrcode_<type>_` and ends with `.<format>` |
| QrGeneration.FileNameOfIsoTime | scripts/qr-generator.js:406-410 | For an ISO time, the name is `qrcode_<type>_`, the 15-character `YYYYMMDDTHHMMSS` stamp, then `.<format>` |
| QrGeneration.QrGenerator.constructor | scripts/qr-generator.js:2-7 | Starts on the text type, with no logo and no preview |
| QrGeneration.QrGenerator.SelectType | scripts/qr-generator.js:84-99 | Sets the type and hides the preview, keeping form, customization and logo |
| QrGeneration.QrGenerator.ClearAll | scripts/qr-generator.js:412-448 | Back to the text type with a cleared form, the default customization, no logo and no preview |
| QrCodeSimple.ToInt32 | scripts/qrcode-simple.js:145 | `x & x` is the 32-bit signed value congruent to x modulo 2^32 |
| QrCodeSimple.ToInt32Congruent | scripts/qrcode-simple.js:145 | Values congruent modulo 2^32 truncate to the same 32-bit value |
| QrCodeSimple.HashStepIsMultiplyAdd | scripts/qrcode-simple.js:144-145 | `(hash << 5) - hash + c`, truncated, is 31·hash + c truncated to 32 bits |
| QrCodeSimple.HashFold | scripts/qrcode-simple.js:140-147 | The folded hash is always a signed 32-bit value |
| QrCodeSimple.HashOf | scripts/qrcode-simple.js:140-148 | `Math.abs` of the hash is at most 2^31 |
| QrCodeSimple.SimpleHash | scripts/qrcode-simple.js:140-148 | The loop computes the specified hash, which is at most 2^31 and 0 for the empty string |
| QrCodeSimple.NumberOr | scripts/qrcode-simple.js:12-13 | `v \|\| d` on numbers: the value when it is present and non-zero, otherwise the default |
| QrCodeSimple.TextOr | scripts/qrcode-simple.js:14-15 | `v \|\| d` on strings: the value when it is present and non-empty, otherwise the default |
| QrCodeSimple.CanvasSettings | scripts/qrcode-simple.js:12-15 | The settings the canvas path uses are never 0 or empty |
| QrCodeSimple.SvgSettings | scripts/qrcode-simple.js:35-37 | The settings the SVG path uses are never 0 or empty |
| QrCodeSimple.SettingsAgree | scripts/qrcode-simple.js:35-37 | Both paths read the same size and colours from the same options |
| QrCodeSimple.CanvasSettingsStable | scripts/qrcode-simple.js:12-15 | Feeding the resolved settings back in as options changes nothing |
| QrCodeSimple.FillRect | scripts/qrcode-simple.js:67 | Cells inside the rectangle take the colour, and all other cells keep theirs |
| QrCodeSimple.PaintPattern | scripts/qrcode-simple.js:63-70 | On a light grid each cell becomes dark exactly when the hash pattern says so |
| QrCodeSimple.PaintFinder | scripts/qrcode-simple.js:82-87 | Inside the 7×7 square each cell is its finder-ring colour, and all other cells are unchanged |
| QrCodeSimple.AddCornerSquares | scripts/qrcode-simple.js:76-89 | Each cell is the result of drawing the three finders over its old colour |
| QrCodeSimple.FinishedInAnyOrder | scripts/qrcode-simple.js:77-78 | Drawing the finders in the source's order equals the combined finder picture |
| QrCodeSimple.FinderCellsIgnoreText | scripts/qrcode-simple.js:76-89 | Cells of the three finders do not depend on the text or the light colour, and are white or dark |
| QrCodeSimple.OutsideFindersIsPattern | scripts/qrcode-simple.js:63-70 | Outside the finders each cell is dark exactly when the hash pattern says so |
| QrCodeSimple.FinderRings | scripts/qrcode-simple.js:82-87 | A finder is a dark outer ring, a white ring and a dark 3×3 centre |
| QrCodeSimple.FinderCell | scripts/qrcode-simple.js:76-89 | No contract of its own: the colour of a finder cell; FinderRings states the rings |
| QrCodeSimple.FallbackCell | scripts/qrcode-simple.js:59-89 | No contract of its own: the finished colour of a cell; OutsideFindersIsPattern and FinderCellsIgnoreText state it |
| QrCodeSimple.RenderFallback | scripts/qrcode-simple.js:48-74 | The canvas becomes size×size, and every cell is the fallback colour for the text's hash |
| QrCodeSimple.ToCanvas | scripts/qrcode-simple.js:9-30 | With the option defaults resolved, it renders the fallback picture at the chosen size (the `renderQR` branch is not modelled) |
| QrCodeSimple.RowCellsExact | scripts/qrcode-simple.js:127-134 | A row's rectangles are exactly its dark cells left of x |
| QrCodeSimple.GridCellsExact | scripts/qrcode-simple.js:127-134 | The SVG's rectangles are exactly the dark cells above row y |
| QrCodeSimple.RowCellsCount | scripts/qrcode-simple.js:127-134 | A row prefix holds the closed-form count of cells with a given residue mod 3 |
| QrCodeSimple.RowCount | scripts/qrcode-simple.js:127-134 | A full row has 9 dark cells when (hash + y) mod 3 is 0 and 8 otherwise |
| QrCodeSimple.GridCellsCount | scripts/qrcode-simple.js:127-134 | The first y rows hold 8y + ⌊(y + offset)/3⌋ dark cells |
| QrCodeSimple.SvgRectCount | scripts/qrcode-simple.js:127-134 | The SVG draws 209 cell rectangles when hash mod 3 is 0 and 208 otherwise |
| QrCodeSimple.CellRectText | scripts/qrcode-simple.js:131 | The text of one cell rectangle, with the position scaled by the module size |
| QrCodeSimple.CellRect | scripts/qrcode-simple.js:131 | No contract of its own: one cell's `<rect>`; CellRectText writes it out |
| QrCodeSimple.CellRectsConcat | scripts/qrcode-simple.js:127-134 | Rendering a cell list distributes over concatenation |
| QrCodeSimple.RowRectsAreCellRects | scripts/qrcode-simple.js:128-133 | The inner loop's text is the rectangles of the row's dark cells |
| QrCodeSimple.GridRectsAreCellRects | scripts/qrcode-simple.js:127-134 | The nested loops' text is the rectangles of all dark cells, in row order |
| QrCodeSimple.SvgTextShape | scripts/qrcode-simple.js:124-136 | The SVG starts with the opening tag and background rectangle and ends with `</svg>` |
| QrCodeSimple.SvgText | scripts/qrcode-simple.js:119-137 | No contract of its own: the SVG document; SvgTextShape, GridCellsExact and SvgRectCount state it |
| QrCodeSimple.SvgTextFromRows | scripts/qrcode-simple.js:124-136 | The opening tags, the rows of rectangles and the close form the SVG text |
| QrCodeSimple.AppendRow | scripts/qrcode-simple.js:128-133 | The inner loop appends the row's rectangles to the text so far |
| QrCodeSimple.CreateSvg | scripts/qrcode-simple.js:119-138 | The result is the specified SVG for the text's hash, size/25 module size and colours |
| QrCodeSimple.ToSvgString | scripts/qrcode-simple.js:32-46 | With the defaults resolved, the result is the SVG at the chosen size and colours |
| Dashboard.LowerAll | scripts/dashboard.js:182-184 | Every tag is lowercased, in order |
| Dashboard.EmptyQueryMatches | scripts/dashboard.js:186-188 | An empty query shows every card |
| Dashboard.CardMatches | scripts/dashboard.js:176-190 | No contract of its own: the `includes` test on title, description and joined tags; the lemmas beside it state its properties |
| Dashboard.MatchIgnoresCase | scripts/dashboard.js:177-188 | A query and its lowercased form match the same cards |
| Dashboard.TitleFindsCard | scripts/dashboard.js:186-188 | A card's own title finds it |
| Dashboard.AdjacentTagsMatch | scripts/dashboard.js:182-188 | Because the tags are joined, two neighbouring tags with the joining space match the card |
| Dashboard.SearchUtilities | scripts/dashboard.js:175-192 | Every card is shown exactly when it matches and hidden otherwise |
| Dashboard.FirstQuotedRunIsLeftmost | scripts/dashboard.js:45 | The search finds a quoted run, no earlier run exists, and when it finds nothing there is none |
| Dashboard.OnclickUrlShape | scripts/dashboard.js:45 | The URL is non-empty, has no quote and sits between two quotes of the text. None is found exactly when no quoted run exists |
| Dashboard.OnclickUrl | scripts/dashboard.js:43-46 | A URL is found exactly when the search finds a quoted run; it is non-empty and holds no quote |
| Dashboard.FirstQuotedRun | scripts/dashboard.js:45 | No contract of its own: the regular-expression scan; FirstQuotedRunIsLeftmost states it |
| Dashboard.NextQuote | scripts/dashboard.js:45 | The first `'` at or after the start, with none before it, or -1 exactly when there is none |
| Dashboard.CardClick | scripts/dashboard.js:40-50 | Navigation goes to the extracted URL. A non-empty onclick without a quoted run throws, and a button click or missing text does nothing |
| Dashboard.TypingEffect.constructor | scripts/dashboard.js:135-141 | The subtitle starts empty with the text remembered |
| Dashboard.TypingEffect.Step | scripts/dashboard.js:142-148 | One tick appends the next character while any remain, keeping the subtitle a prefix |
| Dashboard.TypingEffect.Run | scripts/dashboard.js:142-148 | After k ticks the subtitle shows the first min(k, length) characters |
| DocumentConversion.InputExtensionsAreDotted | scripts/document-converter.js:6 | Every accepted extension starts with a dot and has no other dot |
| DocumentConversion.FileExtensionCases | scripts/document-converter.js:250-252 | With a dot: the lowercased text from the last dot. Without one: `substring(-1)`, the whole lowercased name |
| DocumentConversion.FileExtension | scripts/document-converter.js:250-252 | No contract of its own: `substring(lastIndexOf('.'))` of the lowercased name; FileExtensionCases states it |
| DocumentConversion.FileExtensionIsSuffix | scripts/document-converter.js:250-252 | The extension is always a suffix of the lowercased name |
| DocumentConversion.DottedSuffixIsExtension | scripts/document-converter.js:250-252 | A dotted suffix with no other dot is the extension |
| DocumentConversion.SuffixTestIsExtensionTest | scripts/document-converter.js:88-93 | `endsWith` over the list holds exactly when the extension is in the list |
| DocumentConversion.ListedExtensionIsSupported | scripts/document-converter.js:88-93 | A file with a listed extension is supported, whatever its type |
| DocumentConversion.IsFileSupported | scripts/document-converter.js:88-93 | No contract of its own: a listed extension or a matching MIME type; SuffixTestIsExtensionTest and ListedExtensionIsSupported state it |
| DocumentConversion.DispatchFailsExactly | scripts/document-converter.js:148-206 | The only failures are an unknown output format and, for an image output, an input that is not PDF, text-like or an image |
| DocumentConversion.Dispatch | scripts/document-converter.js:148-206 | No contract of its own: the `switch (outputFormat)`; DispatchFailsExactly and ImageRoutes state it |
| DocumentConversion.ReadsBinary | scripts/document-converter.js:241-245 | No contract of its own: the six extensions read as `ArrayBuffer`; BinaryRoutesReadBinary and RasterInputs state it |
| DocumentConversion.ImageRoutes | scripts/document-converter.js:176-202 | A route that makes images (PDF pages, rasterizing, transcoding) is chosen exactly when the output is jpg or png and the input is supported for it |
| DocumentConversion.BinaryRoutesReadBinary | scripts/document-converter.js:231-248 | Every path that needs bytes reads the file as bytes |
| DocumentConversion.RasterInputs | scripts/document-converter.js:194-196 | Of the rasterized inputs only `.docx` is read as bytes |
| DocumentConversion.ConvertDocument | scripts/document-converter.js:135-229 | The original and its size are kept. For a readable file: an unsupported pair fails with the dispatch message; a converter error fails with its own message; a produced blob is a success carrying that blob, in format `zip` for a zipped PDF page rendering and the requested format otherwise. A failure has size 0 and an error, a success its blob size and no error |
| DocumentConversion.ConvertAs | scripts/document-converter.js:135-229 | The same result rules as ConvertDocument, for a known extension of the file name |
| DocumentConversion.ConvertRoutes | scripts/document-converter.js:135-229 | For any extension of the file name: a read failure gives "Failed to read file", and an unsupported pair fails. The format changes only to `zip`, for a PDF turned into images |
| DocumentConversion.ConvertMeta | scripts/document-converter.js:181-191 | Page metadata is present exactly for a successful zip of page images |
| DocumentConversion.DocumentConverter.constructor | scripts/document-converter.js:2-11 | Both lists start empty |
| DocumentConversion.DocumentConverter.HandleFiles | scripts/document-converter.js:71-86 | Appends exactly the accepted documents, in order, and reports whether any was accepted |
| DocumentConversion.DocumentConverter.ConvertDocuments | scripts/document-converter.js:109-133 | With no files nothing changes. Otherwise there is one conversion result per file, in order |
| DocumentConversion.DocumentConverter.ClearAll | scripts/document-converter.js:769-771 | Empties both lists |
| DocumentConversion.ExtensionIsFormat | scripts/document-converter.js:696-709 | Every format maps to itself, listed or not |
| DocumentConversion.ExtensionForFormat | scripts/document-converter.js:696-709 | Every format maps to itself, listed or not |
| DocumentConversion.SingleDownloadReplacesExtension | scripts/document-converter.js:685-691 | For a success that is not a page-image zip, the text from the last dot is replaced by `-converted.<format>`; a name without a dot gets it appended |
| DocumentConversion.SingleDownloadName | scripts/document-converter.js:685-691 | A name exists exactly for a successful result with output |
| DocumentConversion.FailedHasNoDownload | scripts/document-converter.js:680 | A failed result offers no download |
| DocumentConversion.ZipEntryIsSanitizedDownload | scripts/document-converter.js:731-739 | A successful result's archive entry is its sanitized single-download name |
| DocumentConversion.ZipEntryName | scripts/document-converter.js:731-739 | The entry name holds no `-` |
| DocumentConversion.ZipEntryReadsUnderscore | scripts/document-converter.js:739 | The converter's sanitizer turns `-converted` into `_converted` in archive entries |
| DocumentConversion.SuccessIndicesExact | scripts/document-converter.js:712 | The filter keeps exactly the successful results' indices, in ascending order |
| DocumentConversion.ZipEntries | scripts/document-converter.js:731-739 | One entry name per result, in order |
| DocumentConversion.DownloadAllCoversSuccesses | scripts/document-converter.js:711-754 | Nothing is downloaded exactly when nothing succeeded. With JSZip there is one `folder.file` name per success, in order; without it every success is downloaded one by one |
| DocumentConversion.DownloadAll | scripts/document-converter.js:711-754 | No contract of its own: the plan of `downloadAll`; DownloadAllCoversSuccesses states it |
| DocumentConversion.EscapeHtmlChar | scripts/document-converter.js:760-767 | The chain maps each of the five characters to its entity and leaves others alone |
| DocumentConversion.EscapeHtml | scripts/document-converter.js:760-767 | No contract of its own: the five-replace chain; EscapeHtmlIsPerChar, EscapeHtmlSafe and EscapeHtmlRoundTrip state it |
| DocumentConversion.EscapeHtmlIsPerChar | scripts/document-converter.js:760-767 | The chain of five replacements is a per-character escape, because `&` goes first |
| DocumentConversion.EscapeHtmlSafe | scripts/document-converter.js:760-767 | The escaped text has no `<`, `>`, `"` or `'` |
| DocumentConversion.EscapeHtmlRoundTrip | scripts/document-converter.js:760-767 | Unescaping the five entities gives the original text back |
| DocumentConversion.DropEscapes | scripts/document-converter.js:273 | Never lengthens the text, and a text with no backslash is copied unchanged |
| DocumentConversion.MarkdownStrip | scripts/document-converter.js:273 | Never lengthens the text; a text with no backslash comes out as exactly its characters other than `#`, `*`, backtick, `_` and `~`, in their order |
| DocumentConversion.DropEscapesPlain | scripts/document-converter.js:273 | The text before the first backslash is copied as it is, and the scan goes on after it |
| DocumentConversion.DropEscapesPair | scripts/document-converter.js:273 | The first backslash is removed together with a following `.`, `*`, `?` or `\`, and the scan goes on after the pair |
| DocumentConversion.DropEscapesLoneBackslash | scripts/document-converter.js:273 | A first backslash before any other character is kept, and the scan goes on at that character |
| DocumentConversion.MarkdownStripPair | scripts/document-converter.js:273 | Before the first backslash the non-mark characters are kept in order; a backslash before `.`, `?` or `\` is removed with it |
| DocumentConversion.DropEscapesComplete | scripts/document-converter.js:273 | The left-to-right scan leaves no backslash before `.`, `*`, `?` or `\` |
| DocumentConversion.DropEscapesKeepsClean | scripts/document-converter.js:273 | A text without such escapes is unchanged |
| DocumentConversion.MarkdownStripClean | scripts/document-converter.js:273 | None of `#`, `*`, backtick, `_` or `~` is left, and no backslash stands before `.`, `*`, `?` or `\` |
| DocumentConversion.MarkdownStripIdempotent | scripts/document-converter.js:273 | Stripping twice equals stripping once |
| DocumentConversion.RtfBodyComplete | scripts/document-converter.js:587 | After replacing, no backslash is left before the letter `n` |
| DocumentConversion.RtfBodyWithoutBackslash | scripts/document-converter.js:587 | A text in which no backslash is followed by `n` is copied unchanged, so real newlines are not turned into `\par` |
| DocumentConversion.RtfBodyAppend | scripts/document-converter.js:587 | Two texts that do not form a backslash-`n` where they meet are converted part by part |
| DocumentConversion.RtfBodySplit | scripts/document-converter.js:587 | Each backslash-`n` becomes `\\par ` and the text on either side is converted on its own, in order |
| DocumentConversion.RtfBody | scripts/document-converter.js:587 | No contract of its own: the backslash-`n` replace as written; RtfBodyComplete, RtfBodyWithoutBackslash and RtfBodySplit state it |
| DocumentConversion.RtfDocumentShape | scripts/document-converter.js:611 | The document starts with the RTF header and ends with `}` |
| DocumentConversion.RtfDocument | scripts/document-converter.js:611 | No contract of its own: header, body and `}`; RtfDocumentShape states it |

## Left out

- Encoders and libraries (`canvas.toBlob`, pdf-lib, pdf.js, jsPDF, mammoth, Turndown, JSZip) are function parameters. Their output is taken as given.
- QrCodeSimple.ToCanvas: only the fallback branch is modelled. The branch that draws the external `QR` library's matrix with `renderQR` is left out, because that library is not part of this model.
- The document converter's conversion functions are left out: text extraction from DOCX and PDF, `innerHTML`/DOM text, rasterizing, the markdown-to-HTML regex chain and the chars-only markdown strip in the raster path. They are DOM or library work; a conversion is a parameter returning a blob or an error.
- `readFileContent` is modelled only by whether it succeeds, as the parameter `readOk`, and by which routes read bytes.
- Arithmetic uses exact reals, with no IEEE rounding. `formatFileSize` and `toFixed` are display formatting and are not modelled.
- ImageCompression.CompressImage: the target is an integer, so a `parseInt` that yields NaN on an empty field is not modelled.
- PdfCompression.CompressPdf: a second `parseInt` of the target field is taken to give the same number as the first.
- `hasContent` reads form fields as strings. JavaScript truthiness beyond the empty string is not modelled.
- `encodeURIComponent`, `toISOString`, `Date` and number-to-text conversion are parameters.
- Pixel geometry of the fallback renderer is left out. The canvas is modelled at module resolution (25×25 cells), and `width`/`height` are its only size.
- Characters stand for UTF-16 code units, and `toLowerCase` is modelled for ASCII letters only.
- Asynchronous timing (`await`, `Promise.all`, `setTimeout` staggering, debounce), alerts, DOM rendering, logo placement, `generateQR`/`downloadQR` and the download clicks are left out. They are browser I/O.
- DocumentConversion.ExtensionIsFormat: JavaScript object-prototype keys such as `constructor` would look up an inherited member. This is not modelled.
- DocumentConversion.DocumentConverter.ConvertDocuments: the loop's outer `try/catch` is not modelled, because the modelled `convertDocument` catches every error itself.
- Blob-to-`ArrayBuffer` calls are part of the encoder parameters.
- DocumentConversion.DownloadAllCoversSuccesses: the archive is not modelled. `folder.file` replaces an entry of the same name, and entry names can collide (`x.md` and `x.txt` both give `x_converted.pdf`, and `a-b.txt` and `a_b.txt` give the same entry), so an archive can hold fewer entries than there were successes.
- PdfCompression.PdfCompressor.CompressPdfs: the per-file compression is the parameter `compress`, which is not tied to CompressPdf. That `compressPDFs` runs `compressPDF` with the form's mode and target is not stated.
