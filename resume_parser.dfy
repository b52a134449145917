/** Turning one resume file into extracted data: text from the document, then the language
    model, then the rule-based extractors. */
module ResumeParser {
  import opened Wrappers
  import opened Strings
  import opened Paths
  import opened Schemas
  import opened TextExtractors
  import opened DocumentText

  /** What a `ResumeParser` relies on: the two document readers, the language-model extractor
      (`None` when it is disabled or fails) and the rule-based extractor (`None` when it
      raises). */
  datatype Parser = Parser(
    openPdf: Bytes -> PdfDoc,
    openDocx: Bytes -> DocxDoc,
    llm: string -> Option<ExtractedData>,
    rules: string -> Option<ExtractedData>)

  /** The rule-based extractor is `TextExtractors.ExtractData` over a sound engine. */
  ghost predicate UsesTextExtractor(p: Parser, engine: Engine) {
    Sound(engine) && forall t :: p.rules(t) == ExtractData(engine, t)
  }

  // ---------------------------------------------------------------- parse_resume

  /** The extension `parse_resume` dispatches on. */
  function Extension(filename: string): string {
    Lower(Suffix(PathName(filename)))
  }

  /** The text of a supported file, or `None` for any other extension. */
  function TextOf(p: Parser, filename: string, content: Bytes): (r: Option<string>)
    ensures r.Some? <==> Extension(filename) in {".pdf", ".docx"}
  {
    if Extension(filename) == ".pdf" then Some(PdfTextOf(p.openPdf(content)))
    else if Extension(filename) == ".docx" then Some(DocxTextOf(p.openDocx(content)))
    else None
  }

  /** The data taken from a document's text: none from a blank text, else the language model's
      answer, else the rule-based extractors' (none when they raise). */
  function FromText(p: Parser, text: string): ExtractedData
  {
    if Strip(text) == "" then NoData
    else match p.llm(text)
      case Some(d) => d
      case None =>
        match p.rules(text)
        case Some(d) => d
        case None => NoData
  }

  /** What `parse_resume` returns for one file. */
  function Parsed(p: Parser, filename: string, content: Bytes): ExtractedData
  {
    match TextOf(p, filename, content)
    case Some(text) => FromText(p, text)
    case None => NoData
  }

  /** `parse_resume`: reads the text by extension and hands it to the extractors. */
  method ParseResume(p: Parser, filename: string, content: Bytes) returns (r: ExtractedData)
    ensures r == Parsed(p, filename, content)
  {
    var ext := Lower(Suffix(PathName(filename)));
    var text: string;
    if ext == ".pdf" {
      text := PdfText(p.openPdf(content));
    } else if ext == ".docx" {
      text := DocxText(p.openDocx(content));
    } else {
      return NoData;
    }
    if Strip(text) == "" {
      return NoData;
    }
    var fromLlm := p.llm(text);
    if fromLlm.Some? {
      return fromLlm.value;
    }
    var fromRules := p.rules(text);
    match fromRules {
      case Some(d) => r := d;
      case None => r := NoData;
    }
  }

  /** Files with any other extension give no data, whatever their content. */
  lemma UnsupportedGivesNoData(p: Parser, filename: string, content: Bytes)
    requires Extension(filename) !in {".pdf", ".docx"}
    ensures Parsed(p, filename, content) == NoData
  {
  }

  /** The extension is read from the file's base name, in any letter case. */
  lemma ExtensionOfPath(dir: string, stem: string, ext: string)
    requires '/' !in stem && stem != "" && stem != "." && ext != "" && '.' !in ext && '/' !in ext
    ensures Extension(dir + "/" + stem + "." + ext) == Lower("." + ext)
  {
    var name := stem + "." + ext;
    var path := dir + "/" + stem + "." + ext;
    assert path == dir + "/" + name;
    assert '/' !in name;
    PathNameAfterSlash(dir, name);
    SuffixOf(stem, ext);
  }

  /** The base name of `dir/name` is `name` when `name` is a component. */
  lemma PathNameAfterSlash(dir: string, name: string)
    requires '/' !in name && name != "" && name != "."
    ensures PathName(dir + "/" + name) == name
  {
    SplitAfterLastSlash(dir, name);
  }

  lemma {:induction false} SplitAfterLastSlash(dir: string, name: string)
    requires '/' !in name
    ensures var pieces := Split(dir + "/" + name, '/');
      |pieces| >= 2 && pieces[|pieces| - 1] == name
    decreases |dir|
  {
    if dir == [] {
      SplitAfterPiece([], "/" + name, '/');
      assert [] + ("/" + name) == dir + "/" + name;
      assert ("/" + name)[1..] == name;
      SplitWithoutSep(name, '/');
    } else {
      assert (dir + "/" + name)[1..] == dir[1..] + "/" + name;
      SplitAfterLastSlash(dir[1..], name);
    }
  }

  /** A document that yields no text gives no data, whatever the language model would say. */
  lemma NoTextGivesNoData(p: Parser, filename: string, content: Bytes)
    requires TextOf(p, filename, content).Some? && Strip(TextOf(p, filename, content).value) == ""
    ensures Parsed(p, filename, content) == NoData
  {
  }

  /** A Word document without a non-blank paragraph or cell gives no data. */
  lemma EmptyDocxGivesNoData(p: Parser, filename: string, content: Bytes)
    requires Extension(filename) == ".docx"
    requires p.openDocx(content).Docx? && DocxParts(p.openDocx(content)) == []
    ensures Parsed(p, filename, content) == NoData
  {
    DocxBlank(p.openDocx(content));
  }

  /** A PDF none of whose pages has text gives no data. */
  lemma EmptyPdfGivesNoData(p: Parser, filename: string, content: Bytes)
    requires Extension(filename) == ".pdf"
    requires p.openPdf(content).Pdf?
    requires forall k | 0 <= k < |p.openPdf(content).pages| :: p.openPdf(content).pages[k] in {None, Some("")}
    ensures Parsed(p, filename, content) == NoData
  {
    PdfTextContents(p.openPdf(content).pages);
    BlankIsAllSpace("");
  }

  /** When the language model answers, its answer is the result unchanged. */
  lemma LanguageModelFirst(p: Parser, text: string)
    requires Strip(text) != "" && p.llm(text).Some?
    ensures FromText(p, text) == p.llm(text).value
  {
  }

  /** Without the language model, an email or contact number found by the rules occurs verbatim
      in the normalised text, and a failing entity recogniser leaves every field empty. */
  lemma RulesFallback(p: Parser, engine: Engine, text: string)
    requires UsesTextExtractor(p, engine) && Strip(text) != "" && p.llm(text).None?
    ensures var d := FromText(p, text);
      && (d.email.Some? ==> Contains(Normalize(text), d.email.value))
      && (d.contactNumber.Some? ==> Contains(Normalize(text), d.contactNumber.value))
      && (engine.ner(Normalize(text)).None? ==> d == NoData)
  {
  }
}
