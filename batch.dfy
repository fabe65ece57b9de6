/** Extraction of several selected files at once (convert_pdf_to_images.py,
    extract_and_display_text): the entry holding the selected paths is split
    on ", ", every piece is extracted in order, and the results are shown one
    after the other, each followed by a blank line. */
module Batch {

  import opened Wrappers
  import opened PyStr
  import opened Paths
  import opened Binarize
  import opened Storage
  import opened Extractor

  /** What follows each file's result in the display. */
  const BlankLine: string := "\n\n"

  /** The outcome of extracting each path, in order. Extraction reads only
      the selected files and writes only ".txt" and ".json" artifacts, so each
      outcome depends on the environment and its own path alone. */
  function Outcomes(env: Env, paths: seq<string>): (r: seq<Extraction>)
    ensures |r| == |paths|
  {
    seq(|paths|, i requires 0 <= i < |paths| => Extract(env, paths[i]))
  }

  /** What `extract_text` returns for each path, in order. */
  function Replies(env: Env, paths: seq<string>): (r: seq<string>)
    ensures |r| == |paths|
  {
    seq(|paths|, i requires 0 <= i < |paths| => Reply(Extract(env, paths[i])))
  }

  /** The display built from a run of results: each followed by a blank
      line. */
  function Shown(results: seq<string>): string
    decreases |results|
  {
    if results == [] then ""
    else Shown(results[..|results| - 1]) + results[|results| - 1] + BlankLine
  }

  /** The file state after a run of outcomes: each successful extraction
      saves over what the earlier ones left. */
  function PersistAll(files: Files, unwritable: set<string>, es: seq<Extraction>): Files
    decreases |es|
  {
    if es == [] then files
    else Persisted(PersistAll(files, unwritable, es[..|es| - 1]), unwritable, es[|es| - 1])
  }

  /** The text shown after extracting `paths` in order. */
  function DisplayText(env: Env, paths: seq<string>): string {
    Shown(Replies(env, paths))
  }

  /** The file state after extracting `paths` in order. */
  function BatchFiles(files: Files, unwritable: set<string>, env: Env, paths: seq<string>): Files {
    PersistAll(files, unwritable, Outcomes(env, paths))
  }

  /** The display of two runs of outcomes is the two displays one after the
      other. */
  lemma {:induction false} ShownAppend(a: seq<string>, b: seq<string>)
    ensures Shown(a + b) == Shown(a) + Shown(b)
    decreases |b|
  {
    if b == [] {
      assert a + b == a;
    } else {
      var n := |b|;
      DropLast(a, b);
      ShownAppend(a, b[..n - 1]);
    }
  }

  /** The display of one result. */
  lemma ShownOne(x: string)
    ensures Shown([x]) == x + BlankLine
  {
    assert [x][..0] == [];
    assert Shown([x]) == Shown([]) + x + BlankLine;
    assert [] + x == x;
  }

  /** The display of two results. */
  lemma ShownTwo(x: string, y: string)
    ensures Shown([x, y]) == x + BlankLine + y + BlankLine
  {
    assert [x, y][..1] == [x];
    ShownOne(x);
  }

  /** Two outcomes are persisted one after the other. */
  lemma PersistTwo(files: Files, unwritable: set<string>, x: Extraction, y: Extraction)
    ensures PersistAll(files, unwritable, [x, y]) == Persisted(Persisted(files, unwritable, x), unwritable, y)
  {
    assert [x, y][..1] == [x];
    assert [x][..0] == [];
    assert PersistAll(files, unwritable, [x]) == Persisted(files, unwritable, x);
  }

  lemma SplitAt<T>(s: seq<T>, k: nat)
    requires k < |s|
    ensures s == s[..k] + ([s[k]] + s[k + 1..])
  {
    assert s[k..] == [s[k]] + s[k + 1..];
    assert s == s[..k] + s[k..];
  }

  lemma DropLast<T>(a: seq<T>, b: seq<T>)
    requires |b| > 0
    ensures (a + b)[..|a + b| - 1] == a + b[..|b| - 1]
  {
  }

  lemma PrefixGrows<T>(s: seq<T>, i: nat)
    requires i < |s|
    ensures s[..i + 1][..i] == s[..i] && s[..i + 1][i] == s[i]
  {
  }

  lemma PrefixWhole<T>(s: seq<T>)
    ensures s[..|s|] == s
  {
  }

  /** The outcomes of two paths. */
  lemma OutcomesOfTwo(env: Env, p: string, q: string)
    ensures Outcomes(env, [p, q]) == [Extract(env, p), Extract(env, q)]
  {
    var r := Outcomes(env, [p, q]);
    assert r[0] == Extract(env, p) && r[1] == Extract(env, q);
  }

  /** The results of two paths. */
  lemma RepliesOfTwo(env: Env, p: string, q: string)
    ensures Replies(env, [p, q]) == [Reply(Extract(env, p)), Reply(Extract(env, q))]
  {
    var r := Replies(env, [p, q]);
    assert r[0] == Reply(Extract(env, p)) && r[1] == Reply(Extract(env, q));
  }

  /** The outcome and result of one path. */
  lemma OfOne(env: Env, p: string)
    ensures Replies(env, [p]) == [Reply(Extract(env, p))]
  {
  }

  lemma Regroup(a: string, b: string, c: string, d: string)
    ensures a + (b + c + d) == a + b + c + d
  {
  }

  /** The display of a run of outcomes is the display of those before
      outcome k, then its reply and a blank line, then the display of those
      after it. */
  lemma ShownSplit(results: seq<string>, k: nat)
    requires k < |results|
    ensures Shown(results) == Shown(results[..k]) + results[k] + BlankLine + Shown(results[k + 1..])
  {
    var x, front, back := results[k], results[..k], results[k + 1..];
    SplitAt(results, k);
    calc {
      Shown(results);
      Shown(front + ([x] + back));
      == { ShownAppend(front, [x] + back); }
      Shown(front) + Shown([x] + back);
      == { ShownAppend([x], back); ShownOne(x); }
      Shown(front) + (x + BlankLine + Shown(back));
      == { Regroup(Shown(front), x, BlankLine, Shown(back)); }
      Shown(front) + x + BlankLine + Shown(back);
    }
  }

  /** The results of a slice of the paths are that slice of the results. */
  lemma RepliesSlice(env: Env, paths: seq<string>, k: nat)
    requires k < |paths|
    ensures Replies(env, paths[..k]) == Replies(env, paths)[..k]
    ensures Replies(env, paths[k + 1..]) == Replies(env, paths)[k + 1..]
  {
  }

  /** File k's result appears in the display after the results of the files
      before it and before those of the files after it, followed by a blank
      line: results keep selection order. */
  lemma ResultInDisplay(env: Env, paths: seq<string>, k: nat)
    requires k < |paths|
    ensures DisplayText(env, paths)
            == DisplayText(env, paths[..k]) + Reply(Extract(env, paths[k])) + BlankLine + DisplayText(env, paths[k + 1..])
  {
    var rs := Replies(env, paths);
    RepliesSlice(env, paths, k);
    assert rs[k] == Reply(Extract(env, paths[k]));
    ShownSplit(rs, k);
  }

  /** Splitting always yields at least one piece, so the program's "no file
      selected" branch cannot be taken. */
  lemma GuardNeverFires(entry: string)
    ensures Split(entry, ListSep) != []
  {
  }

  /** An empty entry is extracted as the single path "", which has no
      extension: the display is the unsupported-format message. */
  lemma EmptyEntry(env: Env)
    ensures DisplayText(env, Split("", ListSep)) == UnsupportedFormat + BlankLine
  {
    assert Split("", ListSep) == [""];
    var x := Extract(env, "");
    assert x == Failed(UnsupportedFormat) by {
      assert Extension("") == [];
      assert Lower([]) == [];
    }
    OfOne(env, "");
    ShownOne(Reply(x));
  }

  /** An entry built by joining the selected paths with ", " (as the file
      dialog's selection is entered) is extracted path by path, provided no
      path itself contains ", ". */
  lemma SelectionRoundTrip(env: Env, paths: seq<string>)
    requires |paths| >= 1
    requires forall k :: 0 <= k < |paths| ==> IndexOf(paths[k], ListSep).None?
    ensures DisplayText(env, Split(Join(paths, ListSep), ListSep)) == DisplayText(env, paths)
  {
    SplitJoin(paths);
  }

  /** A single selected file whose path holds no ", " is shown alone. */
  lemma SingleFile(env: Env, path: string)
    requires IndexOf(path, ListSep).None?
    ensures DisplayText(env, Split(path, ListSep)) == Reply(Extract(env, path)) + BlankLine
  {
    assert Split(path, ListSep) == [path] by {
      SplitJoin([path]);
    }
    var x := Extract(env, path);
    OfOne(env, path);
    ShownOne(Reply(x));
  }

  /** A selected file whose name contains ", " is taken for two files. */
  lemma CommaInPathSplits(p: string, q: string)
    requires IndexOf(p, ListSep).None? && IndexOf(q, ListSep).None?
    ensures Split(p + ListSep + q, ListSep) == [p, q]
  {
    SplitJoin([p, q]);
    assert Join([p, q], ListSep) == p + ListSep + q;
  }

  /** A PDF whose rasterisation raises followed by an image read as `t`: the
      display shows the PDF failure message, then `t`, and the only artifact
      written is the image's. */
  lemma BatchScenario(files: Files, env: Env, pdf: string, png: string, img: Raster, t: string)
    requires IndexOf(pdf, ListSep).None? && IndexOf(png, ListSep).None?
    requires Classify(pdf) == Pdf && env.pathExists(pdf) && env.rasterize(pdf).None?
    requires Classify(png) == Image && env.pathExists(png) && env.openImage(png) == Some(img)
    requires OcrPage(env, img) == Some(t) && NoEdgeSpace(t)
    ensures DisplayText(env, Split(pdf + ListSep + png, ListSep)) == PdfFailed + BlankLine + t + BlankLine
    ensures BatchFiles(files, {}, env, Split(pdf + ListSep + png, ListSep)) == Save(files, {}, t, ImageArtifact)
  {
    assert Split(pdf + ListSep + png, ListSep) == [pdf, png] by {
      CommaInPathSplits(pdf, png);
    }
    var x, y := Extract(env, pdf), Extract(env, png);
    assert x == Failed(PdfFailed);
    assert y == Extracted(t, ImageArtifact) by {
      ImageScenario(env, png, img, t);
    }
    OutcomesOfTwo(env, pdf, png);
    RepliesOfTwo(env, pdf, png);
    ShownTwo(Reply(x), Reply(y));
    PersistTwo(files, {}, x, y);
  }

  /** `extract_and_display_text()`, given the entry's content: extract each
      piece in turn and append its result and a blank line to the display. */
  method ExtractAndDisplayText(fs: FileSystem, env: Env, entry: string) returns (display: string)
    modifies fs
    ensures display == DisplayText(env, Split(entry, ListSep))
    ensures fs.files == BatchFiles(old(fs.files), fs.unwritable, env, Split(entry, ListSep))
  {
    var paths := Split(entry, ListSep);
    ghost var es, rs := Outcomes(env, paths), Replies(env, paths);
    display := "";
    for i := 0 to |paths|
      invariant display == Shown(rs[..i])
      invariant fs.files == PersistAll(old(fs.files), fs.unwritable, es[..i])
    {
      var text := ExtractText(fs, env, paths[i]);
      PrefixGrows(es, i);
      PrefixGrows(rs, i);
      display := display + text + BlankLine;
    }
    PrefixWhole(es);
    PrefixWhole(rs);
  }
}
