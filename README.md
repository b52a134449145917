# Resume analyzer: a verified model of the extraction pipeline

The resume analyzer is a small web service. It accepts a ZIP archive of resumes (PDF or
DOCX) and checks the upload's name and size. It takes the resume files out of the archive,
reads each file's text and extracts six fields from that text. It returns the fields as a
CSV report with one numbered row per resume. The six fields are name, address, email,
contact number, last qualification and last institution.

This project models that pipeline in Dafny and proves what each stage promises.

- `TextExtractors` (`text_extractors.dfy`) is the rule-based extractor. Each field rule is a
  pure function. The named-entity recogniser and the regular-expression engine enter as an
  `Engine` value.
- `Patterns` (`patterns.dfy`) gives the regular expressions a meaning. Each pattern is a
  sequence of bounded character-class repetitions. `re.findall` becomes a list of ordered,
  non-overlapping spans, each a match of the pattern. The plain digit pattern `\d{10,15}` is
  a concrete leftmost, greedy scan, proved sound and complete.
- `Strings` and `Paths` hold the parts of Python's `str`, `re.sub`, `split`, `join` and
  `pathlib` that the code relies on. `Paths.Suffix` follows CPython's rule for `suffix`: the
  text from the last dot of the name, when that dot is neither first nor last.
- `FileService` covers upload validation and the loop that picks resumes out of an archive.
  The loop is a method, proved against a specification function (`Selected`).
- `DocumentText` covers the PDF and DOCX text-joining loops. Each is a method, proved
  against a function of the page, paragraph and cell lists.
- `ResumeParser` covers the per-file dispatch: by extension, then the blank-text check,
  then the language model, then the rule-based extractor.
- `Endpoint` covers the `POST /api/download-csv` handler. Its parts are the size checks, the
  record loop that numbers resumes from 1 and the row mapping that turns a missing field
  into `''`.
- `AppConfig` and `Schemas` hold the settings and the records.

**Normalisation makes the resume one line.** `_normalize_text` first replaces every
whitespace run with a single space, and line feeds are whitespace. No line feed survives, so
the second substitution (`\n+` to `\n`) never changes anything. Every `text.split('\n')` in
the extractors therefore yields one "line", the whole normalised text. The comments and the
per-line loops suggest otherwise, but the model follows the code.
`TextExtractors.NormalizedIsOneLine` and `TextExtractors.LineFieldsAreWholeText` state the
consequences:

- the address and the qualification are the whole normalised text or nothing;
- a name taken from the lines is the whole normalised text or nothing;
- the institution is the whole normalised text whenever that text holds an institution
  keyword.

The per-line rules themselves are modelled over arbitrary lists of lines. Their contracts
say which line wins: the first qualifying line for the name fallback and for each address
tier, and the last qualifying line for the qualification and the institution. These
contracts would hold unchanged if normalisation kept line breaks.

## Model

| member | source | states |
|---|---|---|
| TextExtractors.Normalize | app/services/text_extractors.py:61-66 | the result has no leading or trailing whitespace; it is single-spaced (only `' '`, never two in a row); it keeps every non-whitespace character and every word of the input, in order |
| TextExtractors.NormalizeIsJoinedWords | app/services/text_extractors.py:61-66 | normalised text is the input's words (`str.split()`) joined with exactly one space each |
| TextExtractors.NormalizedIsOneLine | app/services/text_extractors.py:61-66 | normalised text holds no line feed, and splitting it at line feeds gives exactly one line, the whole text |
| TextExtractors.NormalizeIdempotent | app/services/text_extractors.py:61-66 | normalising normalised text changes nothing |
| TextExtractors.NormalizeBlank | app/services/text_extractors.py:61-66 | normalised text is empty exactly when the input is all whitespace |
| TextExtractors.FirstLine | app/services/text_extractors.py:131-135 | a top-down search returns the first line that satisfies the test, stripped, and `None` exactly when no line does |
| TextExtractors.LastLine | app/services/text_extractors.py:141-148 | a bottom-up search returns the last line that satisfies the test, stripped, and `None` exactly when no line does |
| TextExtractors.FirstKeyword | app/services/text_extractors.py:146-147 | the keyword loop returns a keyword of the enumeration that occurs in the lower-cased line, or `None` when none of them does |
| TextExtractors.IterationOrderIrrelevant | app/services/text_extractors.py:144-148 | whatever order the keyword set is iterated in, the loop finds a keyword exactly when one occurs in the line |
| TextExtractors.Labelled | app/services/text_extractors.py:155 | the entity texts with the given labels are empty exactly when no entity carries one of those labels |
| TextExtractors.LabelledFirst | app/services/text_extractors.py:71-75 | the first kept entity text is that of the first entity with such a label |
| TextExtractors.LabelledLast | app/services/text_extractors.py:173-174 | the last kept entity text is that of the last entity with such a label |
| TextExtractors.ExtractName | app/services/text_extractors.py:68-86 | without a `PERSON` entity, a name is the first of the first five lines, stripped, that has two to four words, each alphabetic once its dots are removed; `None` only when there is no `PERSON` entity and none of the first five lines qualifies |
| TextExtractors.NameFromFirstPerson | app/services/text_extractors.py:71-75 | the first `PERSON` entity, stripped, is the name, whatever the lines hold |
| TextExtractors.NameFallbackShape | app/services/text_extractors.py:77-84 | a name taken from the lines has two to four words and no surrounding whitespace |
| TextExtractors.ExtractEmail | app/services/text_extractors.py:88-92 | `None` exactly when the pattern has no match; otherwise the whole first match `text[lo..hi]` of the first span, which is the leftmost one, lies in the email pattern's language and occurs in the text where it was found |
| TextExtractors.EmailHasOneAtSign | app/services/text_extractors.py:90-92 | a found email address holds exactly one `@` |
| TextExtractors.EmailNeedsAtSign | app/services/text_extractors.py:90-92 | a text without `@` yields no email address |
| TextExtractors.FirstPlausible | app/services/text_extractors.py:107-111 | returns the first match (stripped) that holds 7 to 15 digits and plus signs, no earlier match doing so; `None` exactly when no match does |
| TextExtractors.FirstPlausibleOf | app/services/text_extractors.py:103-113 | over the patterns in the order they are tried, the result is the first plausible match of the first pattern that has one, stripped: every match of an earlier pattern and every earlier match of the same pattern fails the 7-to-15 filter; `None` exactly when no match passes |
| TextExtractors.PhoneMatches | app/services/text_extractors.py:97-104 | the matches of the three patterns, in the order they are tried: match `k` of the international and US lists is the text of span `k`, and every entry of the third list is in the language of `\d{10,15}`, one per digit run the scan reports |
| TextExtractors.ExtractContact | app/services/text_extractors.py:94-113 | `None` exactly when no match of any of the three patterns holds 7 to 15 digits and plus signs; otherwise the first plausible match in the order international, US, plain digits, and within a pattern in `findall` order |
| TextExtractors.ContactPatternOrder | app/services/text_extractors.py:103-111 | a plausible international match wins over everything else; the US pattern is tried only when no international match is plausible, and the digit pattern only after both |
| TextExtractors.FirstPlausibleOfThree | app/services/text_extractors.py:103-111 | over three pattern lists the search returns the first list's first plausible match if it has one, else the second's, else the third's |
| TextExtractors.PlausibleMatchVerbatim | app/services/text_extractors.py:107-111 | the `strip()` changes nothing: the returned number is a plausible match of the pattern, verbatim, and occurs in the text |
| TextExtractors.ContactIsMatch | app/services/text_extractors.py:94-113 | a contact number is, verbatim, a match of one of the phone patterns, holds 7 to 15 digits and plus signs, and occurs in the text |
| TextExtractors.PlainDigitsVerbatim | app/services/text_extractors.py:100-111 | a number taken from the digit pattern is a 10-to-15-digit run, plausible and in the text |
| TextExtractors.ContactFromTenDigits | app/services/text_extractors.py:100-111 | ten consecutive digits anywhere in the text guarantee a contact number |
| TextExtractors.TenDigitsPlausible | app/services/text_extractors.py:100-111 | ten consecutive digits lie inside a plausible match of the digit pattern |
| TextExtractors.RunPlausible | app/services/text_extractors.py:109-110 | a run of ten to fifteen digits passes the 7-to-15 length filter |
| TextExtractors.NoPhoneMatchWithoutDigits | app/services/text_extractors.py:97-104 | no phone pattern matches anywhere in a text without digits |
| TextExtractors.ContactNeedsDigits | app/services/text_extractors.py:94-113 | a text without digits yields no contact number |
| TextExtractors.ExtractAddress | app/services/text_extractors.py:115-137 | when some line mentions a `GPE`/`LOC` entity (case-insensitively), the address is the first such line, stripped; otherwise it is the first line holding an address keyword as a plain substring, stripped; `None` exactly when no line does either |
| TextExtractors.AddressPrefersLocations | app/services/text_extractors.py:118-127 | when some line mentions a location, the address is the first such line, tried before any keyword line |
| TextExtractors.ExtractQualification | app/services/text_extractors.py:139-150 | the bottom-most line holding a degree keyword (case-insensitive substring), stripped; `None` exactly when no line holds one |
| TextExtractors.ExtractInstitution | app/services/text_extractors.py:152-176 | when a line holds an institution keyword, the bottom-most such line, stripped, whatever the `ORG` entities; `None` exactly when there is neither such a line nor an `ORG` entity |
| TextExtractors.LastLineOr | app/services/text_extractors.py:157-176 | the bottom-most line satisfying the test, stripped, when there is one; otherwise the fallback; `None` exactly when there is neither |
| TextExtractors.LastOrganization | app/services/text_extractors.py:172-176 | `None` exactly when there is no `ORG` entity |
| TextExtractors.InstitutionFromLastOrganization | app/services/text_extractors.py:172-176 | without a keyword line, the institution is the last `ORG` entity's text, unstripped |
| TextExtractors.ExtractData | app/services/text_extractors.py:36-59 | fails exactly when the entity recogniser fails on the normalised text; a found email or contact number occurs verbatim in the normalised text |
| TextExtractors.ContactContained | app/services/text_extractors.py:94-113 | a found contact number occurs in the text |
| TextExtractors.LineFieldsAreWholeText | app/services/text_extractors.py:36-66 | after normalisation, the address and qualification are the whole text or nothing; a line-based name is the whole text or nothing; a keyword-bearing text is its own institution |
| TextExtractors.SearchOneLine | app/services/text_extractors.py:122-148 | on a one-line text, each line search returns the whole text or nothing |
| Patterns.EmailHasOneAt | app/services/text_extractors.py:90 | every string in the email pattern's language holds exactly one `@` |
| Patterns.PhoneMatchEdges | app/services/text_extractors.py:98-100 | every phone match is non-empty and starts and ends with a non-blank character |
| Patterns.PhoneMatchHasDigit | app/services/text_extractors.py:98-100 | every phone match holds a digit |
| Patterns.DigitRunSpansSound | app/services/text_extractors.py:100 | the digit scan reports ordered, non-overlapping runs of 10 to 15 digits, each as long as the digits and the cap allow |
| Patterns.DigitRunSpansMatch | app/services/text_extractors.py:100 | every span of the digit scan is a match of `\d{10,15}` |
| Patterns.DigitRunSpansCover | app/services/text_extractors.py:100 | every position where ten digits begin lies inside a reported run |
| AppConfig.MaxZipSizeBytes | app/config.py:12-13 | the byte limit is a whole number of mebibytes, and that number is the configured `MAX_ZIP_SIZE_MB` |
| AppConfig.DefaultsDisableLlm | app/config.py:30-32 | with the default blank API key the language model is disabled |
| AppConfig.Decimal | app/services/file_service.py:36 | the decimal text of a number is non-empty, all digits and without a leading zero |
| AppConfig.IntToString | app/services/file_service.py:36 | `str(n)` is non-empty and starts with `-` exactly for negative numbers |
| AppConfig.DecimalRoundTrip | app/services/file_service.py:36 | reading back the decimal text of a number gives the number |
| AppConfig.DecimalInjective | app/services/file_service.py:36 | different natural numbers have different decimal texts |
| AppConfig.IntToStringInjective | app/services/file_service.py:36 | `str` is injective on integers, negative ones included |
| Paths.Components | app/services/file_service.py:75 | the components of a path are non-empty, never `.` and pieces of the path |
| Paths.PathName | app/services/file_service.py:75 | a path's name holds no slash |
| Paths.NameIsItsOwnName | app/services/file_service.py:75 | a name without slashes, other than `.`, is its own name |
| Paths.PathNameIdempotent | app/services/file_service.py:75 | taking the name of a name changes nothing |
| Paths.LastIndexOf | app/services/file_service.py:69 | `rfind`: the position of the last occurrence, with none after it, or `None` when there is none |
| Paths.Suffix | app/services/file_service.py:69 | a non-empty suffix starts with its only dot, is at least two characters long, is shorter than the name and ends it |
| Paths.SuffixOf | app/services/file_service.py:69 | the suffix of `stem.ext` is `.ext` |
| Paths.NoSuffixWithoutInnerDot | app/services/file_service.py:69 | a name without a dot after its first character (`README`, `.bashrc`) has no suffix |
| FileService.SizeExceededNamesLimit | app/services/file_service.py:33-37 | the size message determines the configured limit: two settings with the same message have the same `MAX_ZIP_SIZE_MB` |
| FileService.ValidateZipFile | app/services/file_service.py:17-37 | the upload is accepted exactly when its name is present and ends in `.zip` in any case and its reported size is at most the limit; a bad name gives the 400 "Only ZIP files are allowed", an oversize upload the 400 size message |
| FileService.ValidateIgnoresCase | app/services/file_service.py:20 | a name and its lower-case form are judged alike |
| FileService.LimitIsInclusive | app/services/file_service.py:33 | a size equal to the limit is accepted and one byte more is refused |
| FileService.Pick | app/services/file_service.py:58-80 | a picked member gives a slash-free name with a `.pdf` or `.docx` suffix in any case |
| FileService.Selected | app/services/file_service.py:58-82 | at most one file per archive member |
| FileService.SelectedIff | app/services/file_service.py:58-82 | a file is selected exactly when some member is not a directory, has no `..` and no leading `/`, has an allowed suffix, was read successfully, and gives the file's name (its last path component) and content |
| FileService.SelectedAreResumes | app/services/file_service.py:69-75 | every selected file has a slash-free name with a `.pdf` or `.docx` suffix |
| FileService.SelectedAppend | app/services/file_service.py:58-82 | selection keeps archive order and handles each member independently, so an unreadable member affects no other |
| FileService.Extracted | app/services/file_service.py:40-106 | success means an archive with at least one selected file, returned in order; every failure is a 400 or a 500 |
| FileService.ExtractedSucceeds | app/services/file_service.py:56-106 | the archive is accepted exactly when some member is eligible and readable; otherwise it never yields an empty list |
| FileService.ExtractResumeFiles | app/services/file_service.py:40-106 | the loop returns exactly `Extracted`: a 400 for a bad archive, a 500 for any other failure, a 400 when no resume is found, else the selected files |
| DocumentText.PageTexts | app/services/resume_parser.py:75-78 | at most one text per page, and none of them empty |
| DocumentText.PageTextsAppend | app/services/resume_parser.py:75-78 | the kept page texts of a split page list are those of each part, in order |
| DocumentText.PageTextsIff | app/services/resume_parser.py:75-78 | a page's text is kept exactly when it is present and non-empty, including whitespace-only text |
| DocumentText.PdfText | app/services/resume_parser.py:68-84 | the loop returns the PDF text: the newline-join of the kept page texts, or `""` when reading fails |
| DocumentText.PdfTextContents | app/services/resume_parser.py:68-84 | the PDF text is empty exactly when no page has non-empty text, and every page's text occurs in it |
| DocumentText.PdfPagesRecoverable | app/services/resume_parser.py:75-80 | when no page text holds a newline, splitting the PDF text at newlines gives the page texts back |
| DocumentText.KeptOne | app/services/resume_parser.py:101-102 | at most one text is kept per paragraph or cell |
| DocumentText.KeptTrimmed | app/services/resume_parser.py:101-102 | every kept text is non-empty, with no leading or trailing whitespace |
| DocumentText.KeptStrippedAppend | app/services/resume_parser.py:100-109 | the kept texts of a split list are those of each part, in order |
| DocumentText.AppendKept | app/services/resume_parser.py:100-102 | one paragraph or cell loop appends the stripped non-blank texts, in order |
| DocumentText.DocxText | app/services/resume_parser.py:86-119 | the loops return the DOCX text: the stripped non-blank paragraphs, then the stripped non-blank cells by table, row and cell, joined with newlines; `""` when reading fails |
| DocumentText.DocxBlank | app/services/resume_parser.py:86-119 | the DOCX text is blank exactly when no paragraph or cell is non-blank |
| ResumeParser.TextOf | app/services/resume_parser.py:36-44 | a text is read exactly when the lower-cased suffix is `.pdf` or `.docx` |
| ResumeParser.ParseResume | app/services/resume_parser.py:23-66 | the dispatch returns `Parsed`: no data for other extensions or blank text, else the language model's answer, else the rule-based extractor's, with no data when that fails |
| ResumeParser.UnsupportedGivesNoData | app/services/resume_parser.py:42-44 | other extensions give an all-`None` record, whatever the content |
| ResumeParser.ExtensionOfPath | app/services/resume_parser.py:36 | the extension is taken from the base name and lower-cased |
| ResumeParser.PathNameAfterSlash | app/services/resume_parser.py:36 | the name of `dir/name` is `name` |
| ResumeParser.NoTextGivesNoData | app/services/resume_parser.py:46-48 | blank text gives an all-`None` record; neither extractor is consulted |
| ResumeParser.EmptyDocxGivesNoData | app/services/resume_parser.py:46-48 | a Word document without a non-blank paragraph or cell gives an all-`None` record |
| ResumeParser.EmptyPdfGivesNoData | app/services/resume_parser.py:46-48 | a PDF without page text gives an all-`None` record |
| ResumeParser.LanguageModelFirst | app/services/resume_parser.py:53-62 | the language model's answer, when there is one, is returned unchanged |
| ResumeParser.RulesFallback | app/services/resume_parser.py:55-66 | without the language model, the rules' email and contact number occur in the normalised text, and a failing recogniser gives an all-`None` record |
| Endpoint.OrEmpty | app/main.py:107-112 | `value or ''`: empty exactly for `None` or `''`, else the value itself |
| Endpoint.RecordOf | app/main.py:83-91 | the record carries the given serial number and copies each of the six extracted fields unchanged; empty data gives a record with only that number |
| Endpoint.FailedRecordIsEmpty | app/main.py:96-100 | the record written for a failed file equals the record of an empty extraction |
| Endpoint.RowOf | app/main.py:105-113 | the row carries the serial number and six cells in column order; a cell is blank exactly when its field is missing or empty, and otherwise holds the field's value |
| Endpoint.RowKeepsFields | app/main.py:103-113 | reading a row's cells back (blank as missing) gives the record's fields, except that an empty field comes back missing; the row is all blank exactly when every field is missing or empty |
| Endpoint.EmptyRecordRow | app/main.py:99-113 | a record without data gives six blank cells |
| Endpoint.Records | app/main.py:73-100 | one record per resume file |
| Endpoint.RecordsAt | app/main.py:75-93 | the `k`-th record, counting from 1, holds the parse of the `k`-th file and serial number `k` |
| Endpoint.RecordsSnoc | app/main.py:75-93 | handling one more file appends exactly its record |
| Endpoint.BuildRecords | app/main.py:73-100 | the loop returns `Records`: one record per file, in order, numbered from 1 |
| Endpoint.ToRows | app/main.py:103-113 | one row per record, in order, each the record's row |
| Endpoint.CheckUpload | app/main.py:53-63 | the upload passes exactly when its name is a `.zip` name, its reported size (if any) is at most the limit and its content is at most the limit, so content of exactly the limit passes; every rejection is a 400 |
| Endpoint.ContentSizeChecked | app/main.py:59-63 | content longer than the limit is refused with the size message, whatever size the stream reported |
| Endpoint.DownloadCsv | app/main.py:46-138 | a failed check or extraction ends the request with that error; otherwise one row per extracted file (at least one), the `k`-th holding the record of the `k`-th file |
| Endpoint.ExtractedFilesAreReadable | app/main.py:68-80 | every file taken from the archive has an extension the parser reads |
| Endpoint.ReportRows | app/main.py:75-113 | row `k` has serial number `k + 1` and holds the parse of the `k`-th file |

## Left out

- The spaCy model is not modelled. It is loaded in `app/services/text_extractors.py:13-19`
  and called at line 42. The model takes its result as the `ner` field of `Engine`: a list of
  (text, label) entities, or `None` when it raises.
- Full `re` semantics for the email pattern and the first two phone patterns are left out.
  `findall` is an input of `Engine`: spans that are ordered, non-overlapping and each in the
  pattern's language. The model does not prove that these spans are the leftmost matches
  Python's backtracking engine would report, or what the `\b` anchors exclude. The digit
  pattern `\d{10,15}` is modelled concretely.
- `str.isspace`, `str.isalpha`, `str.lower` and `\d` are restricted to ASCII. Whitespace also
  includes the Latin-1 characters U+0085 and U+00A0. Other Unicode letters, digits and spaces
  are not modelled.
- `app/services/llm_extractor.py` is not part of this model. The OpenAI call and its JSON
  reply enter as the parser's `llm` function, which returns data or `None`.
- pdfplumber, python-docx, zipfile and tempfile are left out as I/O. A document is an input
  list of page texts, or of paragraphs and table cells, or a broken-document value; an archive
  is a list of member paths with their contents.
- A failure partway through reading a PDF or DOCX is modelled as a broken document, which
  yields `""`. Which page failed is not modelled.
- Logging, temporary-file cleanup, FastAPI routing, the stream seeks of `validate_zip_file`,
  pandas CSV serialisation, `StreamingResponse`, templates, `/health` and environment loading
  are left out. The stream's reported size is an input.
- The 500 "unexpected error" path of `app/main.py:139-144` is left out. Nothing in the model
  raises outside the HTTP errors.
- Endpoint.BuildRecords: does not take the `except` branch of `app/main.py:96-100`.
  `parse_resume` catches every `Exception` itself, and building a record from its result
  cannot fail, so that branch is never reached. `Endpoint.FailedRecordIsEmpty` shows that the
  record it would write equals the record of an empty extraction.
- ResumeParser.ParseResume: any exception that the model's collaborators do not already
  report is not modelled. A broken document, a failing recogniser and a language model
  without an answer are each modelled and give an all-`None` record; the extraction rules
  themselves cannot raise.
- The inner `ORG` loop of `_extract_last_institution` (`app/services/text_extractors.py:166-168`)
  returns the same line as line 170, so it is folded into one return. The `if locations`
  guard of `_extract_address` (line 120) is subsumed: no line mentions an empty list of
  locations.
