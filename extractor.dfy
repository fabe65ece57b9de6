/** Text extraction from one file (convert_pdf_to_images.py, extract_text,
    extract_text_from_pdf, extract_text_from_image): dispatch on the
    lower-cased extension, OCR of every page of a PDF or of one image, the
    result persisted under a fixed artifact name, and every failure turned
    into a fixed message. The OCR engine, the PDF rasteriser, the image
    decoder, the colour conversion and blur, and the existence test on the
    file system are parameters of the model, gathered in `Env`. */
module Extractor {

  import opened Wrappers
  import opened PyStr
  import opened Paths
  import opened Binarize
  import opened Pages
  import opened Storage

  /** The foreign calls the extraction makes; `None` means the call raises.
      `ocr` stands for the conversion of the preprocessed image back into a
      picture followed by the OCR engine, either of which may raise. */
  datatype Env = Env(
    pathExists: string -> bool,
    openImage: string -> Option<Raster>,
    rasterize: string -> Option<seq<Raster>>,
    smooth: Raster -> Option<Grid>,
    ocr: Processed -> Option<string>)

  /** The three routes of the dispatch. */
  datatype Kind = Pdf | Image | Unsupported

  const UnsupportedFormat: string := "Error: Unsupported file format."
  const PdfNotFound: string := "Error: PDF file not found."
  const PdfFailed: string := "Error: Unable to extract text from PDF."
  const ImageNotFound: string := "Error: Image file not found."
  const ImageFailed: string := "Error: Unable to extract text."

  /** The base names the two routes persist their text under. */
  const PdfArtifact: string := "pdf_text"
  const ImageArtifact: string := "image_text"

  /** What one extraction ends in: a text and the artifact it is saved under,
      or one of the fixed error messages. */
  datatype Extraction = Extracted(text: string, artifact: string) | Failed(message: string)

  /** The string the program returns: callers see text and error messages
      alike as plain strings. */
  function Reply(e: Extraction): string {
    match e
    case Extracted(text, _) => text
    case Failed(message) => message
  }

  /** The file state after an extraction: a successful one saves its text, a
      failed one writes nothing. */
  function Persisted(files: Files, unwritable: set<string>, e: Extraction): Files {
    match e
    case Extracted(text, artifact) => Save(files, unwritable, text, artifact)
    case Failed(_) => files
  }

  // ---------------------------------------------------------------------------
  // dispatch

  /** The route for a lower-cased extension. */
  function KindOf(ext: string): (k: Kind)
    ensures k == Pdf <==> ext == ".pdf"
    ensures k == Image <==> ext == ".jpg" || ext == ".jpeg" || ext == ".png"
  {
    if ext == ".pdf" then Pdf
    else if ext == ".jpg" || ext == ".jpeg" || ext == ".png" then Image
    else Unsupported
  }

  /** `os.path.splitext(path)[1].lower()`, routed. */
  function Classify(path: string): Kind {
    KindOf(Lower(Extension(path)))
  }

  /** Dispatch ignores letter case: two paths that lower-case alike take the
      same route. */
  lemma ClassifyIgnoresCase(p: string, q: string)
    requires Lower(p) == Lower(q)
    ensures Classify(p) == Classify(q)
  {
    ExtensionLower(p);
    ExtensionLower(q);
  }

  /** A file `stem + ext` in directory `dir` is routed by `ext` alone, in any
      letter case. */
  lemma ClassifyName(dir: string, stem: string, ext: string)
    requires dir == [] || IsSep(dir[|dir| - 1])
    requires forall i :: 0 <= i < |stem| ==> !IsSep(stem[i])
    requires !AllDots(stem)
    requires |ext| >= 1 && ext[0] == '.'
    requires forall i :: 1 <= i < |ext| ==> ext[i] != '.' && !IsSep(ext[i])
    ensures Classify(dir + stem + ext) == KindOf(Lower(ext))
  {
    ExtensionOfName(dir, stem, ext);
  }

  /** A path with no extension, which includes a hidden file named like an
      extension (".pdf" alone), is unsupported. */
  lemma {:induction false} ClassifyHiddenFile(dir: string, name: string)
    requires dir == [] || IsSep(dir[|dir| - 1])
    requires |name| >= 1 && name[0] == '.'
    requires forall i :: 1 <= i < |name| ==> name[i] != '.' && !IsSep(name[i])
    ensures Extension(dir + name) == []
    ensures Classify(dir + name) == Unsupported
  {
    var p := dir + name;
    BaseStartAfter(dir, name);
    assert p[|dir|..] == name;
    LastDotUnique(name, 0);
    assert AllDots(name[..0]);
  }

  /** Extensions are matched in any letter case. */
  lemma KindExamples()
    ensures KindOf(Lower(".PDF")) == Pdf
    ensures KindOf(Lower(".JPeG")) == Image
    ensures KindOf(Lower(".zip")) == Unsupported
  {
    assert Lower(".PDF") == ".pdf";
    assert Lower(".JPeG") == ".jpeg";
    assert Lower(".zip") == ".zip";
  }

  // ---------------------------------------------------------------------------
  // the two extraction routes, as functions of the environment

  /** Preprocessing followed by OCR of one page or image. */
  function OcrPage(env: Env, img: Raster): Option<string> {
    env.ocr(Preprocess(img, env.smooth))
  }

  /** The OCR texts of the pages, in page order, or `None` when any page's
      OCR raises. */
  function PageTexts(env: Env, images: seq<Raster>): (r: Option<seq<string>>)
    ensures r.Some? <==> forall k :: 0 <= k < |images| ==> OcrPage(env, images[k]).Some?
    ensures r.Some? ==> |r.value| == |images|
    ensures r.Some? ==> forall k :: 0 <= k < |images| ==> r.value[k] == OcrPage(env, images[k]).value
    decreases |images|
  {
    if images == [] then Some([])
    else
      var n := |images|;
      assert forall k :: 0 <= k < n - 1 ==> images[..n - 1][k] == images[k];
      match PageTexts(env, images[..n - 1])
      case None => None
      case Some(texts) =>
        match OcrPage(env, images[n - 1])
        case None => None
        case Some(t) => Some(texts + [t])
  }

  /** `extract_text_from_image`: a missing file, an image that cannot be
      decoded and an OCR call that raises give the two fixed messages;
      otherwise the OCR text, with its surrounding whitespace removed, saved
      under "image_text". */
  function ImageExtraction(env: Env, path: string): (e: Extraction)
    ensures e.Extracted? <==>
              env.pathExists(path) && env.openImage(path).Some? && OcrPage(env, env.openImage(path).value).Some?
    ensures e.Extracted? ==>
              e.artifact == ImageArtifact && NoEdgeSpace(e.text)
              && e.text == Strip(OcrPage(env, env.openImage(path).value).value)
    ensures e.Failed? ==> e.message == if env.pathExists(path) then ImageFailed else ImageNotFound
  {
    if !env.pathExists(path) then Failed(ImageNotFound)
    else match env.openImage(path)
      case None => Failed(ImageFailed)
      case Some(img) =>
        match OcrPage(env, img)
        case None => Failed(ImageFailed)
        case Some(t) => Extracted(Strip(t), ImageArtifact)
  }

  /** `extract_text_from_pdf`: a missing file, a document the rasteriser
      rejects and any page whose OCR raises give the two fixed messages;
      otherwise the page blocks, stripped, saved under "pdf_text". */
  function PdfExtraction(env: Env, path: string): (e: Extraction)
    ensures e.Extracted? <==>
              env.pathExists(path) && env.rasterize(path).Some? && PageTexts(env, env.rasterize(path).value).Some?
    ensures e.Extracted? ==>
              e.artifact == PdfArtifact && NoEdgeSpace(e.text)
              && e.text == PdfText(PageTexts(env, env.rasterize(path).value).value)
    ensures e.Failed? ==> e.message == if env.pathExists(path) then PdfFailed else PdfNotFound
  {
    if !env.pathExists(path) then Failed(PdfNotFound)
    else match env.rasterize(path)
      case None => Failed(PdfFailed)
      case Some(images) =>
        match PageTexts(env, images)
        case None => Failed(PdfFailed)
        case Some(texts) => Extracted(PdfText(texts), PdfArtifact)
  }

  /** `extract_text`. A path with the PDF extension goes to the PDF route and
      one with an image extension to the image route; exactly the unsupported
      paths give the unsupported message; a successful result has no surrounding whitespace and is saved
      under the artifact of its route; a missing file gives its route's
      "not found" message (the extension is examined first, so a missing
      file with an unsupported extension is reported as unsupported). */
  function Extract(env: Env, path: string): (e: Extraction)
    ensures Classify(path) == Pdf ==> e == PdfExtraction(env, path)
    ensures Classify(path) == Image ==> e == ImageExtraction(env, path)
    ensures Classify(path) == Unsupported <==> e == Failed(UnsupportedFormat)
    ensures e.Extracted? ==>
              env.pathExists(path) && NoEdgeSpace(e.text)
              && e.artifact == if Classify(path) == Pdf then PdfArtifact else ImageArtifact
    ensures !env.pathExists(path) ==>
              e == Failed(match Classify(path)
                          case Pdf => PdfNotFound
                          case Image => ImageNotFound
                          case Unsupported => UnsupportedFormat)
  {
    match Classify(path)
    case Pdf => PdfExtraction(env, path)
    case Image => ImageExtraction(env, path)
    case Unsupported => Failed(UnsupportedFormat)
  }

  // ---------------------------------------------------------------------------
  // properties of extraction

  /** For a missing file the OCR engine, the rasteriser and the decoder are
      never consulted: any two environments that agree the file is missing
      give the same result. */
  lemma MissingFileConsultsNoEngine(env1: Env, env2: Env, path: string)
    requires !env1.pathExists(path) && !env2.pathExists(path)
    ensures Extract(env1, path) == Extract(env2, path)
    ensures Extract(env1, path).Failed?
  {
  }

  /** A failed extraction, whatever its cause, writes no file. */
  lemma FailureWritesNothing(files: Files, unwritable: set<string>, env: Env, path: string)
    requires Extract(env, path).Failed?
    ensures Persisted(files, unwritable, Extract(env, path)) == files
  {
  }

  /** On success the artifacts hold exactly the returned string: the text
      file has it and the JSON record maps "extracted_text" to it. */
  lemma PersistedHoldsReply(files: Files, unwritable: set<string>, env: Env, path: string)
    requires Extract(env, path).Extracted?
    requires TxtPath(Extract(env, path).artifact) !in unwritable
    requires JsonPath(Extract(env, path).artifact) !in unwritable
    ensures var e := Extract(env, path);
            var r := Persisted(files, unwritable, e);
            Paired(r, e.artifact) && r[TxtPath(e.artifact)] == PlainText(Reply(e))
  {
    var e := Extract(env, path);
    SaveRoundTrip(files, unwritable, e.text, e.artifact);
  }

  /** An extraction writes at most the four artifact files. */
  lemma OnlyArtifactsWritten(files: Files, unwritable: set<string>, env: Env, path: string)
    ensures ElsewhereUnchanged(files, Persisted(files, unwritable, Extract(env, path)),
                               {"pdf_text.txt", "pdf_text.json", "image_text.txt", "image_text.json"})
  {
    assert TxtPath(PdfArtifact) == "pdf_text.txt" && JsonPath(PdfArtifact) == "pdf_text.json";
    assert TxtPath(ImageArtifact) == "image_text.txt" && JsonPath(ImageArtifact) == "image_text.json";
  }

  /** When every page reads successfully, the page texts are those readings
      in page order. */
  lemma PageTextsAllSucceed(env: Env, images: seq<Raster>, texts: seq<string>)
    requires |texts| == |images|
    requires forall k :: 0 <= k < |images| ==> OcrPage(env, images[k]) == Some(texts[k])
    ensures PageTexts(env, images) == Some(texts)
  {
    var r := PageTexts(env, images).value;
    assert forall k :: 0 <= k < |r| ==> r[k] == texts[k];
    assert r == texts;
  }

  /** A PDF whose pages read as `texts` extracts to their page blocks,
      numbered from 1 in page order and stripped. */
  lemma PdfAllPages(env: Env, path: string, images: seq<Raster>, texts: seq<string>)
    requires Classify(path) == Pdf && env.pathExists(path) && env.rasterize(path) == Some(images)
    requires |texts| == |images|
    requires forall k :: 0 <= k < |images| ==> OcrPage(env, images[k]) == Some(texts[k])
    ensures Extract(env, path) == Extracted(PdfText(texts), PdfArtifact)
  {
    PageTextsAllSucceed(env, images, texts);
  }

  /** One page whose OCR raises fails the whole PDF, and no "pdf_text"
      artifact is written: the save comes after the last page. */
  lemma PdfPageFails(files: Files, unwritable: set<string>, env: Env, path: string, images: seq<Raster>, k: nat)
    requires Classify(path) == Pdf && env.pathExists(path) && env.rasterize(path) == Some(images)
    requires k < |images| && OcrPage(env, images[k]).None?
    ensures Extract(env, path) == Failed(PdfFailed)
    ensures Persisted(files, unwritable, Extract(env, path)) == files
  {
  }

  /** A PDF of two pages read as `a` and `b`, `b` not ending in whitespace,
      extracts to "Page 1:\n{a}\n\nPage 2:\n{b}" (pages read as "A" and "B"
      give "Page 1:\nA\n\nPage 2:\nB"), which both artifacts then hold. */
  lemma PdfScenario(files: Files, env: Env, path: string, page1: Raster, page2: Raster, a: string, b: string)
    requires Classify(path) == Pdf && env.pathExists(path) && env.rasterize(path) == Some([page1, page2])
    requires OcrPage(env, page1) == Some(a) && OcrPage(env, page2) == Some(b)
    requires |b| > 0 && !IsSpace(b[|b| - 1])
    ensures Extract(env, path) == Extracted("Page 1:\n" + a + "\n\nPage 2:\n" + b, PdfArtifact)
    ensures Paired(Persisted(files, {}, Extract(env, path)), PdfArtifact)
    ensures Persisted(files, {}, Extract(env, path))[TxtPath(PdfArtifact)]
            == PlainText("Page 1:\n" + a + "\n\nPage 2:\n" + b)
  {
    PdfAllPages(env, path, [page1, page2], [a, b]);
    TwoPages(a, b);
    SaveRoundTrip(files, {}, "Page 1:\n" + a + "\n\nPage 2:\n" + b, PdfArtifact);
  }

  /** An image read as a text without surrounding whitespace (say "Hello")
      extracts to exactly that text, saved under "image_text"
      (PersistedHoldsReply then says what both artifacts hold). */
  lemma ImageScenario(env: Env, path: string, img: Raster, t: string)
    requires Classify(path) == Image && env.pathExists(path) && env.openImage(path) == Some(img)
    requires OcrPage(env, img) == Some(t) && NoEdgeSpace(t)
    ensures Extract(env, path) == Extracted(t, ImageArtifact)
  {
    calc {
      Extract(env, path);
      ImageExtraction(env, path);
      Extracted(Strip(t), ImageArtifact);
      { StripNoop(t); }
      Extracted(t, ImageArtifact);
    }
  }

  // ---------------------------------------------------------------------------
  // the program's steps

  /** The page loop of `extract_text_from_pdf`: preprocess and OCR each page
      in order and append its block to the accumulator; `complete` is false
      when a page's OCR raises, which ends the loop. */
  method OcrPages(env: Env, images: seq<Raster>) returns (acc: string, complete: bool)
    ensures complete <==> PageTexts(env, images).Some?
    ensures complete ==> acc == Blocks(PageTexts(env, images).value)
  {
    acc := "";
    for i := 0 to |images|
      invariant PageTexts(env, images[..i]).Some?
      invariant acc == Blocks(PageTexts(env, images[..i]).value)
    {
      var text := OcrPage(env, images[i]);
      if text.None? {
        return acc, false;
      }
      ghost var before := PageTexts(env, images[..i]).value;
      assert images[..i + 1][..i] == images[..i];
      assert (before + [text.value])[..i] == before;
      acc := acc + Block(i + 1, text.value);
    }
    assert images[..|images|] == images;
    complete := true;
  }

  /** `extract_text_from_pdf(path)`. */
  method ExtractTextFromPdf(fs: FileSystem, env: Env, path: string) returns (text: string)
    modifies fs
    ensures text == Reply(PdfExtraction(env, path))
    ensures fs.files == Persisted(old(fs.files), fs.unwritable, PdfExtraction(env, path))
  {
    if !env.pathExists(path) {
      return PdfNotFound;
    }
    var images := env.rasterize(path);
    if images.None? {
      return PdfFailed;
    }
    var acc, complete := OcrPages(env, images.value);
    if !complete {
      return PdfFailed;
    }
    text := Strip(acc);
    fs.SaveTextToFile(text, PdfArtifact);
  }

  /** `extract_text_from_image(path)`. */
  method ExtractTextFromImage(fs: FileSystem, env: Env, path: string) returns (text: string)
    modifies fs
    ensures text == Reply(ImageExtraction(env, path))
    ensures fs.files == Persisted(old(fs.files), fs.unwritable, ImageExtraction(env, path))
  {
    if !env.pathExists(path) {
      return ImageNotFound;
    }
    var img := env.openImage(path);
    if img.None? {
      return ImageFailed;
    }
    var ocrText := OcrPage(env, img.value);
    if ocrText.None? {
      return ImageFailed;
    }
    text := Strip(ocrText.value);
    fs.SaveTextToFile(text, ImageArtifact);
  }

  /** `extract_text(path)`: route on the lower-cased extension. */
  method ExtractText(fs: FileSystem, env: Env, path: string) returns (text: string)
    modifies fs
    ensures text == Reply(Extract(env, path))
    ensures fs.files == Persisted(old(fs.files), fs.unwritable, Extract(env, path))
  {
    var ext := Lower(Extension(path));
    if ext == ".pdf" {
      text := ExtractTextFromPdf(fs, env, path);
    } else if ext == ".jpg" || ext == ".jpeg" || ext == ".png" {
      text := ExtractTextFromImage(fs, env, path);
    } else {
      text := UnsupportedFormat;
    }
  }
}
