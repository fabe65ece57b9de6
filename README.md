# Document OCR text extraction, modelled in Dafny

This project models the extraction core of `convert_pdf_to_images.py`, a
desktop tool that turns PDFs and images into text with an OCR engine. The
modelled parts are:

- the dispatch of `extract_text` on the lower-cased file extension, as
  `os.path.splitext` computes it for Windows paths;
- the PDF route. Every page is rasterised, preprocessed and read by OCR. Its
  block `"Page n:\n{text}\n\n"` is appended to an accumulator. The whole is
  stripped, saved under `pdf_text` and returned;
- the image route. The image is preprocessed, read by OCR and stripped. The
  text is saved under `image_text` and returned;
- the preprocessing before OCR: a global binary threshold at 150 (levels 0
  and 255) after grey conversion and blur. The original image goes on
  unchanged when preprocessing raises;
- `save_text_to_file`, which writes `name.txt` with the text, then
  `name.json` with the record `{"extracted_text": text}`;
- `extract_and_display_text`. The entry is split on `", "`, each piece is
  extracted in order, and each result is followed by a blank line in the
  display.

Every failure inside an extractor becomes one of the program's fixed error
messages.

The foreign calls are the fields of `Extractor.Env`:

- the existence test;
- the image decoder;
- the PDF rasteriser;
- the grey conversion and blur;
- the OCR engine.

Each is a total function, and `None` means the call raises. Files are a map
from path to content. A fixed set of paths cannot be opened for writing.
`Storage.FileSystem` holds both and is updated in place by the program's
steps.

Modules, in dependency order:

- `Wrappers` (Option);
- `PyStr` (the Python `str` operations: `strip`, `lower`, `split`, `join`, and decimal rendering of page numbers);
- `Paths` (`splitext`'s extension);
- `Binarize` (preprocessing);
- `Pages` (the text of a PDF);
- `Storage` (artifacts and `save_text_to_file`);
- `Extractor` (one file);
- `Batch` (several files).

Each route is specified twice: by a function (`Extract`, `PdfExtraction`,
`ImageExtraction`, `Save`, `DisplayText`, `BatchFiles`) and by a method that
performs the program's steps in place. The method's `ensures` ties its
result and its new file state to that function.

## Model

| member | source | states |
|---|---|---|
| PyStr.TrimStart | convert_pdf_to_images.py:58 | `lstrip`: the result is a suffix of the input, everything removed is whitespace, and the result does not start with whitespace |
| PyStr.TrimEnd | convert_pdf_to_images.py:90 | `rstrip`: the result is a prefix of the input, everything removed is whitespace, and the result does not end with whitespace |
| PyStr.Strip | convert_pdf_to_images.py:58 | `strip` returns a slice of its input that has only whitespace before and after it and no whitespace at its own ends |
| PyStr.StripUnique | convert_pdf_to_images.py:58 | that description fixes the result: any slice of the input matching it is what `strip` returns |
| PyStr.StripNoop | convert_pdf_to_images.py:58 | stripping a string with no whitespace at either end returns it unchanged |
| PyStr.StripIdempotent | convert_pdf_to_images.py:58 | stripping twice is stripping once |
| PyStr.Lower | convert_pdf_to_images.py:100 | `lower()`, character by character (ASCII); the length is kept |
| PyStr.IndexOf | convert_pdf_to_images.py:136 | the leftmost position where the separator occurs, or none when it occurs nowhere |
| PyStr.Join | convert_pdf_to_images.py:131 | `sep.join(pieces)`: the pieces with the separator between neighbours |
| PyStr.NatToString | convert_pdf_to_images.py:84 | the decimal digits of a page number, without leading zeros |
| PyStr.Split | convert_pdf_to_images.py:136 | `split(sep)` yields at least one piece, the pieces joined with `sep` give back the input, and no piece contains `sep` |
| PyStr.SplitJoin | convert_pdf_to_images.py:131-136 | splitting on ", " undoes joining with ", " when no piece contains ", " |
| PyStr.DecimalRoundTrip | convert_pdf_to_images.py:84 | the page number written in a heading reads back as the same number |
| PyStr.NatToStringInjective | convert_pdf_to_images.py:84 | distinct page numbers are written differently |
| Paths.Extension | convert_pdf_to_images.py:100 | `splitext(p)[1]` is a suffix of the final path component that is empty or starts with its only dot, and is preceded by something other than dots |
| Paths.ExtensionEmptyIff | convert_pdf_to_images.py:100 | the extension is empty exactly when every dot of the final component has only dots before it |
| Paths.ExtensionOfName | convert_pdf_to_images.py:100 | the extension of `dir + stem + ext` is `ext` |
| Paths.ExtensionLower | convert_pdf_to_images.py:100 | taking the extension commutes with lower-casing |
| Binarize.Threshold | convert_pdf_to_images.py:31 | the output has the input's shape; a pixel is 255 exactly when its input exceeds 150 and 0 exactly when it does not |
| Binarize.ThresholdIsBinary | convert_pdf_to_images.py:31 | every thresholded pixel is 0 or 255 |
| Binarize.ThresholdIdempotent | convert_pdf_to_images.py:31 | thresholding a thresholded grid changes nothing |
| Binarize.Preprocess | convert_pdf_to_images.py:26-35 | the image passes unchanged exactly when grey conversion and blur raise; otherwise the result is the 150 threshold of the blurred grid, binary and of its shape |
| Binarize.PreprocessKeepsShape | convert_pdf_to_images.py:26-35 | preprocessing keeps the image's dimensions |
| Pages.Heading | convert_pdf_to_images.py:84 | "Page n:", the heading of page n counted from 1 |
| Pages.Block | convert_pdf_to_images.py:84 | the text appended for one page: its heading, a newline, its OCR text and a blank line |
| Pages.Blocks | convert_pdf_to_images.py:80-84 | the accumulator after the loop: the blocks of all pages in page order |
| Pages.PdfText | convert_pdf_to_images.py:90 | the accumulator stripped, which the PDF route returns |
| Pages.BlockAt | convert_pdf_to_images.py:80-84 | page k's block sits whole in the accumulator, right after the blocks of the pages before it |
| Pages.OffsetsIncrease | convert_pdf_to_images.py:80-84 | blocks of later pages start after earlier pages' blocks end |
| Pages.PdfTextTrimsEnd | convert_pdf_to_images.py:90 | for a non-empty document, stripping the accumulator only trims its end |
| Pages.PdfTextLayout | convert_pdf_to_images.py:84-90 | the text of N pages is the first N-1 blocks, then "Page N:", then the newline and the last page's text with trailing whitespace removed |
| Pages.PdfTextEmpty | convert_pdf_to_images.py:90 | a document without pages gives the empty string |
| Pages.PageInPdfText | convert_pdf_to_images.py:84-90 | every page but the last appears whole in the result at its offset, so page texts keep document order |
| Pages.HeadingInPdfText | convert_pdf_to_images.py:84-90 | every heading "Page k:" survives stripping at its page's offset, so headings appear in ascending order |
| Pages.HeadingsDistinct | convert_pdf_to_images.py:84 | distinct pages have distinct headings |
| Pages.TwoPages | convert_pdf_to_images.py:80-90 | pages "a" and "b" give "Page 1:\na\n\nPage 2:\nb" when b does not end in whitespace |
| Storage.ArtifactPathsDistinct | convert_pdf_to_images.py:40-42 | the ".txt" and ".json" paths never coincide, and distinct names give distinct paths |
| Storage.Save | convert_pdf_to_images.py:38-46 | when the text file cannot be opened, nothing changes; otherwise it holds the text. When the JSON file can be opened too, it holds the record; when it cannot, it is untouched. No other path changes |
| Storage.SaveRoundTrip | convert_pdf_to_images.py:40-43 | after a save with both files writable, the text file reads back as the text and the record maps "extracted_text" to it |
| Storage.SaveOverwrites | convert_pdf_to_images.py:40-43 | a second save under the same name replaces the first entirely |
| Storage.SaveIdempotent | convert_pdf_to_images.py:40-43 | re-saving the same text leaves the same files |
| Storage.PartialSave | convert_pdf_to_images.py:40-46 | when only the JSON file cannot be opened, the text file is written and the pair is broken |
| Storage.FileSystem.WriteFile | convert_pdf_to_images.py:40-43 | opening for writing succeeds exactly for writable paths and then replaces that file's content alone |
| Storage.FileSystem.SaveTextToFile | convert_pdf_to_images.py:38-46 | the new file state is `Save` of the old one |
| Extractor.KindOf | convert_pdf_to_images.py:101-106 | exactly ".pdf" goes to the PDF route and exactly ".jpg", ".jpeg" and ".png" to the image route; every other extension is unsupported |
| Extractor.Classify | convert_pdf_to_images.py:100-106 | the route of a path: its `splitext` extension, lower-cased, then `KindOf` |
| Extractor.OcrPage | convert_pdf_to_images.py:81-83 | one page or image preprocessed, then read by OCR (`None` when OCR raises); the image route does the same at :56-58 |
| Extractor.Persisted | convert_pdf_to_images.py:60 | the files after an extraction: a success saves its text under its artifact (as at :91), a failure writes nothing |
| Extractor.ClassifyIgnoresCase | convert_pdf_to_images.py:100-106 | two paths that lower-case alike take the same route |
| Extractor.ClassifyName | convert_pdf_to_images.py:100-106 | a file `stem + ext` is routed by the lower-cased `ext` alone |
| Extractor.ClassifyHiddenFile | convert_pdf_to_images.py:100-106 | a file named like ".pdf" has no extension and is unsupported |
| Extractor.KindExamples | convert_pdf_to_images.py:100-106 | ".PDF" goes to the PDF route, ".JPeG" to the image route, ".zip" is unsupported |
| Extractor.PageTexts | convert_pdf_to_images.py:80-83 | the page texts exist exactly when every page's OCR succeeds, and are those readings in page order |
| Extractor.ImageExtraction | convert_pdf_to_images.py:49-64 | success exactly when the file exists, decodes and reads; the text is the stripped reading, saved under "image_text"; failures are "not found" for a missing file and "Unable to extract text" otherwise |
| Extractor.PdfExtraction | convert_pdf_to_images.py:67-96 | success exactly when the file exists, rasterises and every page reads; the text is the stripped page blocks, saved under "pdf_text"; failures are "not found" for a missing file and "Unable to extract text from PDF" otherwise |
| Extractor.Extract | convert_pdf_to_images.py:99-106 | a PDF extension gives `PdfExtraction`'s result and an image extension `ImageExtraction`'s; exactly the unsupported extensions give the unsupported message; a success has no surrounding whitespace and is saved under its route's artifact; a missing file gives its route's "not found" message |
| Extractor.MissingFileConsultsNoEngine | convert_pdf_to_images.py:51-53 | for a missing file the result does not depend on the OCR engine, rasteriser or decoder, and is a failure |
| Extractor.FailureWritesNothing | convert_pdf_to_images.py:62-64 | a failed extraction writes no file |
| Extractor.PersistedHoldsReply | convert_pdf_to_images.py:60 | on success both artifacts hold exactly the returned string |
| Extractor.OnlyArtifactsWritten | convert_pdf_to_images.py:60 | an extraction writes no path other than the four artifact files |
| Extractor.PdfAllPages | convert_pdf_to_images.py:73-91 | a PDF whose pages read as `texts` extracts to their stripped page blocks |
| Extractor.PdfPageFails | convert_pdf_to_images.py:91-96 | one page whose OCR raises fails the whole PDF, and nothing is written |
| Extractor.PdfScenario | convert_pdf_to_images.py:67-93 | pages read as "a" and "b" give "Page 1:\na\n\nPage 2:\nb", and both artifacts hold it |
| Extractor.ImageScenario | convert_pdf_to_images.py:49-61 | an image read as "Hello" extracts to "Hello", saved under "image_text" |
| Extractor.OcrPages | convert_pdf_to_images.py:80-84 | the page loop completes exactly when every page reads, and the accumulator is then the concatenation of all page blocks |
| Extractor.ExtractTextFromPdf | convert_pdf_to_images.py:67-96 | returns the PDF route's reply and leaves the files as that extraction persists them |
| Extractor.ExtractTextFromImage | convert_pdf_to_images.py:49-64 | returns the image route's reply and leaves the files as that extraction persists them |
| Extractor.ExtractText | convert_pdf_to_images.py:99-106 | returns `Extract`'s reply and leaves the files as that extraction persists them |
| Batch.Shown | convert_pdf_to_images.py:149-151 | the display built from results in order, each followed by a blank line |
| Batch.PersistAll | convert_pdf_to_images.py:149-151 | the files after a run of extractions, each persisted over what the earlier ones left |
| Batch.DisplayText | convert_pdf_to_images.py:148-151 | the display after extracting the paths in order |
| Batch.BatchFiles | convert_pdf_to_images.py:148-151 | the files after extracting the paths in order |
| Batch.ShownSplit | convert_pdf_to_images.py:149-151 | the display is the results before k, then result k and a blank line, then the results after k |
| Batch.ResultInDisplay | convert_pdf_to_images.py:148-151 | each file's result appears in selection order, each followed by a blank line |
| Batch.GuardNeverFires | convert_pdf_to_images.py:136-139 | splitting always yields a piece, so the "no file selected" branch cannot be taken |
| Batch.EmptyEntry | convert_pdf_to_images.py:136-151 | an empty entry displays the unsupported-format message and a blank line |
| Batch.SelectionRoundTrip | convert_pdf_to_images.py:131-136 | an entry filled from a selection whose paths hold no ", " is extracted path by path |
| Batch.SingleFile | convert_pdf_to_images.py:136-151 | a single path displays its result followed by a blank line |
| Batch.CommaInPathSplits | convert_pdf_to_images.py:136 | a path containing ", " is taken for two files |
| Batch.BatchScenario | convert_pdf_to_images.py:136-151 | a failing PDF then an image show the PDF message, then the image text; only the image's artifacts are written |
| Batch.ExtractAndDisplayText | convert_pdf_to_images.py:135-158 | the display is the results of the split entry, in order, each followed by a blank line; the files are as the successive extractions persist them |

## Left out

- The Tkinter window, widgets, dialogs, message boxes, status label and main
  loop, including `browse_file` and `save_extracted_text`. Only the entry's
  text is an input of the model.
- Progress-bar calls and `root.update_idletasks` in both the PDF route and
  the batch loop. They are UI side effects. If they raised, the PDF route would
  report its failure message; the model does not include that case.
- `run_ocr_in_background` and the Google Drive upload are left out. One is a
  thread, the other a network client.
- The catch-all handler of `extract_and_display_text` (:163-166) is left
  out. The extractors catch their own failures, so nothing in the model reaches it.
- The OCR engine, PDF rasteriser, image decoder, existence test, and grey
  conversion and blur are parameters (`Extractor.Env`), not modelled.
- The conversion of the preprocessed array back to a picture is folded into
  `Env.ocr`. Either step may raise, with the same effect.
- `Env.pathExists` is not tied to the file map. The selected inputs and the
  written artifacts are treated as unrelated files.
- The JSON file's text layout (indentation, escaping) and all logging are
  left out. The JSON artifact is a single-key record.
- Extension is Windows `ntpath.splitext`: '/' and '\' separate components,
  and drive letters are not treated specially.
- `Lower` is ASCII lower-casing. Python's full Unicode `lower` is not
  modelled. No non-ASCII character lower-cases to a letter of the four
  recognised extensions.
- `Batch.ExtractAndDisplayText` leaves out the guard at :137-139.
  `Batch.GuardNeverFires` proves it dead.
- A missing file with an unrecognised extension gives the unsupported-format
  message, not a "not found" one. The extension is examined before
  existence; `Extractor.Extract` states this.
- Storage.FileSystem.WriteFile: a write fails only when the file is opened,
  and then changes nothing. A failure after `open(..., "w")` has emptied the
  file (a full disk, an I/O error) is not modelled. In the program it leaves
  `name.txt` empty or partial, or `name.json` holding partial JSON, and
  :45-46 swallows the exception.
- Storage.Save: for the same reason it does not describe a truncated or
  partially written artifact. Its cases cover only opens that fail.
- `save_text_to_file` can leave `name.txt` written without `name.json`
  (`Storage.PartialSave`). The program does not make the pair atomic, and the
  model keeps that behaviour.
