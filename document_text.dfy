/** The text of the two supported document formats, as `ResumeParser` collects it. */
module DocumentText {
  import opened Wrappers
  import opened Strings

  /** A PDF as the PDF library reads it: the text of each page (`None` when a page has none),
      or `PdfBroken` when opening the document or extracting any page raises. */
  datatype PdfDoc = Pdf(pages: seq<Option<string>>) | PdfBroken

  /** A Word document as the DOCX library reads it: the paragraph texts, then each table as rows
      of cell texts; `DocxBroken` when it cannot be opened or read. */
  datatype DocxDoc = Docx(paragraphs: seq<string>, tables: seq<seq<seq<string>>>) | DocxBroken

  // ---------------------------------------------------------------- PDF

  /** The page texts that are present and not empty, in page order. */
  function PageTexts(pages: seq<Option<string>>): (r: seq<string>)
    ensures |r| <= |pages|
    ensures forall k | 0 <= k < |r| :: r[k] != ""
  {
    if pages == [] then []
    else
      var last := pages[|pages| - 1];
      if last.Some? && last.value != "" then PageTexts(pages[..|pages| - 1]) + [last.value]
      else PageTexts(pages[..|pages| - 1])
  }

  lemma {:induction false} PageTextsAppend(xs: seq<Option<string>>, ys: seq<Option<string>>)
    ensures PageTexts(xs + ys) == PageTexts(xs) + PageTexts(ys)
    decreases |ys|
  {
    if ys == [] {
      assert xs + ys == xs;
    } else {
      assert (xs + ys)[..|xs + ys| - 1] == xs + ys[..|ys| - 1];
      PageTextsAppend(xs, ys[..|ys| - 1]);
    }
  }

  /** A page's text is kept exactly when it is present and not empty. */
  lemma {:induction false} PageTextsIff(pages: seq<Option<string>>, t: string)
    ensures t in PageTexts(pages) <==> t != "" && Some(t) in pages
  {
    if pages != [] {
      var init := pages[..|pages| - 1];
      PageTextsIff(init, t);
      assert pages == init + [pages[|pages| - 1]];
    }
  }

  /** The text `_extract_text_from_pdf` returns. */
  function PdfTextOf(doc: PdfDoc): string {
    match doc
    case Pdf(pages) => Join(PageTexts(pages), "\n")
    case PdfBroken => ""
  }

  /** `_extract_text_from_pdf`: collects the non-empty page texts and joins them with newlines. */
  method PdfText(doc: PdfDoc) returns (text: string)
    ensures text == PdfTextOf(doc)
  {
    match doc {
      case PdfBroken =>
        return "";
      case Pdf(pages) =>
        var parts: seq<string> := [];
        for i := 0 to |pages|
          invariant parts == PageTexts(pages[..i])
        {
          PageTextsAppend(pages[..i], [pages[i]]);
          assert pages[..i + 1] == pages[..i] + [pages[i]];
          var pageText := pages[i];
          if pageText.Some? && pageText.value != "" {
            parts := parts + [pageText.value];
          }
        }
        assert pages[..|pages|] == pages;
        return Join(parts, "\n");
    }
  }

  /** The PDF text is empty exactly when no page has text, and every page's text is in it. */
  lemma PdfTextContents(pages: seq<Option<string>>)
    ensures PdfTextOf(Pdf(pages)) == "" <==> forall k | 0 <= k < |pages| :: pages[k] in {None, Some("")}
    ensures forall k | 0 <= k < |pages| && pages[k].Some? :: Contains(PdfTextOf(Pdf(pages)), pages[k].value)
  {
    var parts := PageTexts(pages);
    if parts != [] {
      JoinPrefix(parts, "\n");
      PageTextsIff(pages, parts[0]);
    }
    forall k | 0 <= k < |pages| && pages[k].Some?
      ensures Contains(PdfTextOf(Pdf(pages)), pages[k].value)
    {
      var t := pages[k].value;
      if t == "" {
        assert OccursAt(PdfTextOf(Pdf(pages)), t, 0);
      } else {
        PageTextsIff(pages, t);
        var j :| 0 <= j < |parts| && parts[j] == t;
        JoinPartOccurs(parts, "\n", j);
      }
    }
    forall k | 0 <= k < |pages| && pages[k] !in {None, Some("")}
      ensures PdfTextOf(Pdf(pages)) != ""
    {
      PageTextsIff(pages, pages[k].value);
    }
  }

  /** When no page text holds a newline, splitting the PDF text at newlines gives the page texts
      back. */
  lemma PdfPagesRecoverable(pages: seq<Option<string>>)
    requires PageTexts(pages) != []
    requires forall k | 0 <= k < |pages| && pages[k].Some? :: '\n' !in pages[k].value
    ensures Split(PdfTextOf(Pdf(pages)), '\n') == PageTexts(pages)
  {
    var parts := PageTexts(pages);
    forall k | 0 <= k < |parts|
      ensures '\n' !in parts[k]
    {
      PageTextsIff(pages, parts[k]);
    }
    SplitJoin(parts, '\n');
  }

  // ---------------------------------------------------------------- DOCX

  /** Not empty, and neither starting nor ending with whitespace: what `strip()` leaves of a
      text that is not blank. */
  predicate Trimmed(s: string) {
    s != "" && !IsSpace(s[0]) && !IsSpace(s[|s| - 1])
  }

  /** A text's stripped form when that is not blank, else nothing. */
  function KeptOne(text: string): (r: seq<string>)
    ensures |r| <= 1
  {
    if Strip(text) != "" then [Strip(text)] else []
  }

  /** The concatenation of `f` applied to each text, in order. */
  function ConcatMap(texts: seq<string>, f: string -> seq<string>): seq<string> {
    if texts == [] then []
    else ConcatMap(texts[..|texts| - 1], f) + f(texts[|texts| - 1])
  }

  lemma {:induction false} ConcatMapAppend(xs: seq<string>, ys: seq<string>, f: string -> seq<string>)
    ensures ConcatMap(xs + ys, f) == ConcatMap(xs, f) + ConcatMap(ys, f)
    decreases |ys|
  {
    if ys == [] {
      assert xs + ys == xs;
    } else {
      assert (xs + ys)[..|xs + ys| - 1] == xs + ys[..|ys| - 1];
      ConcatMapAppend(xs, ys[..|ys| - 1], f);
    }
  }

  /** The stripped texts that are not blank, in order. */
  function KeptStripped(texts: seq<string>): seq<string> {
    ConcatMap(texts, KeptOne)
  }

  /** Every kept text is trimmed. */
  lemma {:induction false} KeptTrimmed(texts: seq<string>)
    ensures forall k | 0 <= k < |KeptStripped(texts)| :: Trimmed(KeptStripped(texts)[k])
  {
    if texts != [] {
      var n := |texts| - 1;
      KeptTrimmed(texts[..n]);
      KeptStrippedSnoc(texts, n);
      assert texts[..n + 1] == texts;
      var last := KeptOne(texts[n]);
      assert forall k | 0 <= k < |last| :: Trimmed(last[k]);
    }
  }

  /** Keeping works text by text: the kept texts of two lists are those of each, in order. */
  lemma KeptStrippedAppend(xs: seq<string>, ys: seq<string>)
    ensures KeptStripped(xs + ys) == KeptStripped(xs) + KeptStripped(ys)
  {
    ConcatMapAppend(xs, ys, KeptOne);
  }

  /** Handling one more text adds its stripped form when that is not blank. */
  lemma KeptStrippedSnoc(texts: seq<string>, i: nat)
    requires i < |texts|
    ensures KeptStripped(texts[..i + 1]) == KeptStripped(texts[..i]) + KeptOne(texts[i])
  {
    assert texts[..i + 1][..i] == texts[..i];
  }

  /** Every cell of every row of every table, in reading order. */
  function Cells(tables: seq<seq<seq<string>>>): seq<string> {
    Flatten(Flatten(tables))
  }

  /** The pieces `_extract_text_from_docx` collects: paragraphs first, then table cells. */
  function DocxParts(doc: DocxDoc): (r: seq<string>)
    requires doc.Docx?
  {
    KeptStripped(doc.paragraphs) + KeptStripped(Cells(doc.tables))
  }

  /** The text `_extract_text_from_docx` returns. */
  function DocxTextOf(doc: DocxDoc): string {
    match doc
    case Docx(_, _) => Join(DocxParts(doc), "\n")
    case DocxBroken => ""
  }

  lemma AppendAssoc(a: seq<string>, b: seq<string>, c: seq<string>)
    ensures a + b + c == a + (b + c)
  {
  }

  /** Finishing row `r` adds that row's kept cells. */
  lemma RowStep(rows: seq<seq<string>>, r: nat)
    requires r < |rows|
    ensures KeptStripped(Flatten(rows[..r + 1])) == KeptStripped(Flatten(rows[..r])) + KeptStripped(rows[r])
  {
    FlattenSnoc(rows, r);
    KeptStrippedAppend(Flatten(rows[..r]), rows[r]);
  }

  /** Finishing table `t` adds that table's kept cells. */
  lemma TableStep(tables: seq<seq<seq<string>>>, t: nat)
    requires t < |tables|
    ensures KeptStripped(Cells(tables[..t + 1])) == KeptStripped(Cells(tables[..t])) + KeptStripped(Flatten(tables[t]))
  {
    FlattenSnoc(tables, t);
    FlattenAppend(Flatten(tables[..t]), tables[t]);
    KeptStrippedAppend(Cells(tables[..t]), Flatten(tables[t]));
  }

  /** One `for` loop of `_extract_text_from_docx` over paragraphs or over the cells of a row:
      appends each stripped text that is not blank. */
  method AppendKept(parts: seq<string>, texts: seq<string>) returns (r: seq<string>)
    ensures r == parts + KeptStripped(texts)
  {
    r := parts;
    for i := 0 to |texts|
      invariant r == parts + KeptStripped(texts[..i])
    {
      KeptStrippedSnoc(texts, i);
      AppendAssoc(parts, KeptStripped(texts[..i]), KeptOne(texts[i]));
      var stripped := Strip(texts[i]);
      if stripped != "" {
        r := r + [stripped];
      }
    }
    assert texts[..|texts|] == texts;
  }

  /** `_extract_text_from_docx`: the stripped non-blank paragraphs, then the stripped non-blank
      cells of each row of each table, joined with newlines. */
  method DocxText(doc: DocxDoc) returns (text: string)
    ensures text == DocxTextOf(doc)
  {
    match doc {
      case DocxBroken =>
        return "";
      case Docx(paragraphs, tables) =>
        var parts := AppendKept([], paragraphs);
        assert parts == KeptStripped(paragraphs);
        ghost var before := parts;
        for t := 0 to |tables|
          invariant parts == before + KeptStripped(Cells(tables[..t]))
        {
          var table := tables[t];
          ghost var atTable := parts;
          for r := 0 to |table|
            invariant parts == atTable + KeptStripped(Flatten(table[..r]))
          {
            parts := AppendKept(parts, table[r]);
            RowStep(table, r);
            AppendAssoc(atTable, KeptStripped(Flatten(table[..r])), KeptStripped(table[r]));
          }
          assert table[..|table|] == table;
          TableStep(tables, t);
          AppendAssoc(before, KeptStripped(Cells(tables[..t])), KeptStripped(Flatten(table)));
        }
        assert tables[..|tables|] == tables;
        return Join(parts, "\n");
    }
  }

  /** A Word document reads as blank exactly when it has no non-blank paragraph or cell. */
  lemma DocxBlank(doc: DocxDoc)
    requires doc.Docx?
    ensures Strip(DocxTextOf(doc)) == "" <==> DocxParts(doc) == []
  {
    var parts := DocxParts(doc);
    BlankIsAllSpace(DocxTextOf(doc));
    if parts != [] {
      KeptTrimmed(doc.paragraphs);
      KeptTrimmed(Cells(doc.tables));
      JoinPrefix(parts, "\n");
      assert !IsSpace(parts[0][0]);
      assert DocxTextOf(doc)[0] == parts[0][0];
    }
  }
}
