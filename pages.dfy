/** The text a PDF turns into (convert_pdf_to_images.py, extract_text_from_pdf):
    one block "Page {n}:\n{text}\n\n" per page, in page order, and the whole
    stripped of surrounding whitespace. */
module Pages {

  import opened PyStr

  /** "Page n:", the heading of page n (counted from 1). */
  function Heading(n: nat): string {
    "Page " + NatToString(n) + ":"
  }

  /** The block appended for page n whose OCR text is `text`. */
  function Block(n: nat, text: string): string {
    Heading(n) + "\n" + text + "\n\n"
  }

  /** The accumulator after the pages whose texts are `texts`: page k of the
      document is block k, numbered k. */
  function Blocks(texts: seq<string>): string
    decreases |texts|
  {
    if texts == [] then "" else Blocks(texts[..|texts| - 1]) + Block(|texts|, texts[|texts| - 1])
  }

  /** Where the block of page k + 1 starts in the accumulator. */
  function Offset(texts: seq<string>, k: nat): nat
    requires k <= |texts|
  {
    |Blocks(texts[..k])|
  }

  /** The text a PDF with these page texts extracts to. */
  function PdfText(texts: seq<string>): string {
    Strip(Blocks(texts))
  }

  /** Page k + 1's block sits whole in the accumulator at Offset(texts, k),
      right after the blocks of the pages before it. */
  lemma {:induction false} BlockAt(texts: seq<string>, k: nat)
    requires k < |texts|
    ensures Offset(texts, k) + |Block(k + 1, texts[k])| <= |Blocks(texts)|
    ensures Blocks(texts)[Offset(texts, k)..Offset(texts, k) + |Block(k + 1, texts[k])|]
            == Block(k + 1, texts[k])
    decreases |texts|
  {
    var n := |texts|;
    var front := texts[..n - 1];
    if k == n - 1 {
      assert texts[..k] == front;
    } else {
      BlockAt(front, k);
      assert front[..k] == texts[..k];
      assert front[k] == texts[k];
    }
  }

  /** Each block is longer than its heading, so page offsets strictly grow. */
  lemma OffsetsIncrease(texts: seq<string>, j: nat, k: nat)
    requires j < k <= |texts|
    ensures Offset(texts, j) + |Block(j + 1, texts[j])| <= Offset(texts, k)
  {
    BlockAt(texts[..k], j);
    assert texts[..k][..j] == texts[..j];
  }

  /** The accumulator of a non-empty document starts with "P". */
  lemma BlocksStart(texts: seq<string>)
    requires |texts| >= 1
    ensures |Blocks(texts)| > 0 && Blocks(texts)[0] == 'P'
  {
    BlockAt(texts, 0);
    assert texts[..0] == [];
  }

  lemma ConcatRegroup(x: string, h: string, t: string, w: string)
    ensures x + (h + "\n" + t + w) == x + h + ("\n" + t) + w
  {
  }

  /** The accumulator ends with the last page's block. */
  lemma BlocksLast(texts: seq<string>)
    requires |texts| >= 1
    ensures var n := |texts|;
            Blocks(texts) == Blocks(texts[..n - 1]) + Heading(n) + ("\n" + texts[n - 1]) + "\n\n"
  {
    var n := |texts|;
    var t := texts[n - 1];
    assert Blocks(texts) == Blocks(texts[..n - 1]) + Block(n, t);
    ConcatRegroup(Blocks(texts[..n - 1]), Heading(n), t, "\n\n");
  }

  /** Stripping the accumulator of a non-empty document only trims its end. */
  lemma PdfTextTrimsEnd(texts: seq<string>)
    requires |texts| >= 1
    ensures PdfText(texts) == TrimEnd(Blocks(texts))
  {
    var all := Blocks(texts);
    BlocksStart(texts);
    TrimStartNoop(all);
    StripIsTrims(all);
  }

  lemma TrimEndBlocks(texts: seq<string>)
    requires |texts| >= 1
    ensures var n := |texts|;
            TrimEnd(Blocks(texts)) == Blocks(texts[..n - 1]) + Heading(n) + TrimEnd("\n" + texts[n - 1])
  {
    var n := |texts|;
    BlocksLast(texts);
    var head := Blocks(texts[..n - 1]) + Heading(n);
    assert head[|head| - 1] == ':';
    BlankLineIsSpace();
    TrimEndBetween(Blocks(texts), head, "\n" + texts[n - 1], "\n\n");
  }

  /** The stripped text of a document of N >= 1 pages is every block but the
      last, whole, then "Page N:", then the last page's text with its trailing
      whitespace removed (preceded by the heading's newline unless that text is
      blank). */
  lemma PdfTextLayout(texts: seq<string>)
    requires |texts| >= 1
    ensures var n := |texts|;
            PdfText(texts) == Blocks(texts[..n - 1]) + Heading(n) + TrimEnd("\n" + texts[n - 1])
  {
    PdfTextTrimsEnd(texts);
    TrimEndBlocks(texts);
  }

  /** A document without pages extracts to the empty string. */
  lemma PdfTextEmpty()
    ensures PdfText([]) == ""
  {
  }

  /** The extracted text is a prefix of the accumulator that reaches at least
      to the end of the last page's heading. */
  lemma PdfTextIsPrefix(texts: seq<string>)
    requires |texts| >= 1
    ensures var n := |texts|;
            Offset(texts, n - 1) + |Heading(n)| <= |PdfText(texts)| <= |Blocks(texts)|
    ensures PdfText(texts) == Blocks(texts)[..|PdfText(texts)|]
  {
    var n := |texts|;
    PdfTextTrimsEnd(texts);
    TrimEndBlocks(texts);
    assert texts[..n - 1] == texts[..n - 1];
  }

  /** A window of the whole that lies inside a prefix is that window of the
      prefix. */
  lemma WindowInPrefix(r: string, s: string, off: nat, w: string)
    requires |r| <= |s| && r == s[..|r|] && off + |w| <= |r|
    requires s[off..off + |w|] == w
    ensures r[off..off + |w|] == w
  {
    assert r[off..off + |w|] == s[off..off + |w|];
  }

  /** Every block but the last lies whole inside any prefix of the
      accumulator that reaches the last block. */
  lemma PageInPrefix(texts: seq<string>, r: string, k: nat)
    requires k + 1 < |texts|
    requires |r| <= |Blocks(texts)| && r == Blocks(texts)[..|r|] && Offset(texts, |texts| - 1) <= |r|
    ensures Offset(texts, k) + |Block(k + 1, texts[k])| <= |r|
    ensures r[Offset(texts, k)..Offset(texts, k) + |Block(k + 1, texts[k])|] == Block(k + 1, texts[k])
  {
    OffsetsIncrease(texts, k, |texts| - 1);
    BlockAt(texts, k);
    WindowInPrefix(r, Blocks(texts), Offset(texts, k), Block(k + 1, texts[k]));
  }

  lemma BlockStartsWithHeading(n: nat, text: string)
    ensures |Heading(n)| <= |Block(n, text)| && Block(n, text)[..|Heading(n)|] == Heading(n)
  {
  }

  lemma HeadingInBlocks(texts: seq<string>, k: nat)
    requires k < |texts|
    ensures Offset(texts, k) + |Heading(k + 1)| <= |Blocks(texts)|
    ensures Blocks(texts)[Offset(texts, k)..Offset(texts, k) + |Heading(k + 1)|] == Heading(k + 1)
  {
    var off := Offset(texts, k);
    var h := Heading(k + 1);
    var blk := Block(k + 1, texts[k]);
    BlockAt(texts, k);
    BlockStartsWithHeading(k + 1, texts[k]);
    assert Blocks(texts)[off..off + |h|] == Blocks(texts)[off..off + |blk|][..|h|];
  }

  /** Every page but the last appears in the extracted text whole, heading,
      text and blank line, at its offset: page texts keep document order. */
  lemma {:induction false} PageInPdfText(texts: seq<string>, k: nat)
    requires k + 1 < |texts|
    ensures Offset(texts, k) + |Block(k + 1, texts[k])| <= |PdfText(texts)|
    ensures PdfText(texts)[Offset(texts, k)..Offset(texts, k) + |Block(k + 1, texts[k])|]
            == Block(k + 1, texts[k])
  {
    PdfTextIsPrefix(texts);
    PageInPrefix(texts, PdfText(texts), k);
  }

  lemma HeadingFits(texts: seq<string>, k: nat)
    requires k < |texts|
    ensures Offset(texts, k) + |Heading(k + 1)| <= |PdfText(texts)|
  {
    if k < |texts| - 1 {
      PageInPdfText(texts, k);
      BlockStartsWithHeading(k + 1, texts[k]);
    } else {
      PdfTextIsPrefix(texts);
    }
  }

  /** Every page's heading "Page k:" survives stripping, at that page's
      offset, so the headings appear in ascending page order. */
  lemma {:induction false} HeadingInPdfText(texts: seq<string>, k: nat)
    requires k < |texts|
    ensures Offset(texts, k) + |Heading(k + 1)| <= |PdfText(texts)|
    ensures PdfText(texts)[Offset(texts, k)..Offset(texts, k) + |Heading(k + 1)|] == Heading(k + 1)
  {
    HeadingFits(texts, k);
    PdfTextIsPrefix(texts);
    HeadingInPrefix(texts, PdfText(texts), k);
  }

  /** A heading lies whole inside any prefix of the accumulator long enough
      to hold it. */
  lemma HeadingInPrefix(texts: seq<string>, r: string, k: nat)
    requires k < |texts|
    requires |r| <= |Blocks(texts)| && r == Blocks(texts)[..|r|] && Offset(texts, k) + |Heading(k + 1)| <= |r|
    ensures r[Offset(texts, k)..Offset(texts, k) + |Heading(k + 1)|] == Heading(k + 1)
  {
    HeadingInBlocks(texts, k);
    WindowInPrefix(r, Blocks(texts), Offset(texts, k), Heading(k + 1));
  }

  /** Distinct pages have distinct headings. */
  lemma HeadingsDistinct(m: nat, n: nat)
    requires Heading(m) == Heading(n)
    ensures m == n
  {
    var hm, hn := Heading(m), Heading(n);
    assert NatToString(m) == hm[5..|hm| - 1];
    assert NatToString(n) == hn[5..|hn| - 1];
    NatToStringInjective(m, n);
  }

  lemma OneBlock(a: string)
    ensures Blocks([a]) == "Page 1:\n" + a + "\n\n"
  {
    assert NatToString(1) == "1";
    assert [a][..0] == [];
  }

  lemma SecondHeading()
    ensures Heading(2) == "Page 2:"
  {
    assert NatToString(2) == "2";
  }

  lemma Regroup(p: string, a: string, m: string, h: string, n: string, b: string)
    ensures (p + a + m) + h + (n + b) == p + a + (m + h + n) + b
  {
  }

  lemma BetweenPages()
    ensures "\n\n" + "Page 2:" + "\n" == "\n\nPage 2:\n"
  {
  }

  /** Two pages, the second ending in a non-blank character, extract to
      "Page 1:\n{a}\n\nPage 2:\n{b}". */
  lemma TwoPages(a: string, b: string)
    requires |b| > 0 && !IsSpace(b[|b| - 1])
    ensures PdfText([a, b]) == "Page 1:\n" + a + "\n\nPage 2:\n" + b
  {
    var texts := [a, b];
    assert PdfText(texts) == Blocks(texts[..1]) + Heading(2) + TrimEnd("\n" + b) by {
      PdfTextLayout(texts);
    }
    assert texts[..1] == [a];
    OneBlock(a);
    SecondHeading();
    TrimEndNoop("\n" + b);
    Regroup("Page 1:\n", a, "\n\n", "Page 2:", "\n", b);
    BetweenPages();
  }
}
