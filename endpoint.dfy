/** The `POST /api/download-csv` endpoint: validate the upload, take the resumes out of the
    archive, parse each one and lay the results out as report rows. */
module Endpoint {
  import opened Wrappers
  import opened Strings
  import opened Paths
  import opened Schemas
  import opened AppConfig
  import opened FileService
  import opened TextExtractors
  import opened ResumeParser

  /** The uploaded file: its name, the size its stream reports (`None` when it cannot seek) and
      its content. */
  datatype Upload = Upload(filename: Option<string>, reportedSize: Option<int>, content: Bytes)

  /** The report's column headers, in order. */
  const Columns: seq<string> :=
    ["S. No", "Name", "Address", "Email", "Contact Number", "Last Qualification", "Last Institution Attended"]

  /** One report row: the serial number, then the six text cells in column order. */
  datatype Row = Row(sNo: int, cells: seq<string>)

  /** `value or ''`. */
  function OrEmpty(value: Option<string>): (r: string)
    ensures r == "" <==> value.None? || value == Some("")
    ensures value.Some? ==> r == value.value
  {
    match value
    case Some(s) => s
    case None => ""
  }

  /** The record of the `idx`-th resume. */
  function RecordOf(idx: int, d: ExtractedData): (r: ResumeRecord)
    ensures r.sNo == idx
    ensures r.name == d.name && r.address == d.address && r.email == d.email
    ensures r.contactNumber == d.contactNumber
    ensures r.lastQualification == d.lastQualification && r.lastInstitution == d.lastInstitution
    ensures d == NoData ==> r == ResumeRecord(idx, None, None, None, None, None, None)
  {
    ResumeRecord(idx, d.name, d.address, d.email, d.contactNumber, d.lastQualification, d.lastInstitution)
  }

  /** The record of a resume that could not be processed carries only its number, which is
      what an empty extraction gives as well. */
  lemma FailedRecordIsEmpty(idx: int)
    ensures RecordOf(idx, NoData) == ResumeRecord(idx, None, None, None, None, None, None)
    ensures RecordOf(idx, NoData) == RecordOf(idx, ExtractedData(None, None, None, None, None, None))
  {
  }

  /** The six fields of a record, in the order of the columns after `S. No`. */
  function Fields(rec: ResumeRecord): (r: seq<Option<string>>)
    ensures |r| == |Columns| - 1
  {
    [rec.name, rec.address, rec.email, rec.contactNumber, rec.lastQualification, rec.lastInstitution]
  }

  /** The row of one record: a cell under every column after the first, missing fields blank. */
  function RowOf(rec: ResumeRecord): (r: Row)
    ensures r.sNo == rec.sNo && |r.cells| == |Columns| - 1
    ensures forall i | 0 <= i < |r.cells| ::
      r.cells[i] == "" <==> Fields(rec)[i].None? || Fields(rec)[i] == Some("")
    ensures forall i | 0 <= i < |r.cells| :: Fields(rec)[i].Some? ==> r.cells[i] == Fields(rec)[i].value
  {
    Row(rec.sNo, [OrEmpty(rec.name), OrEmpty(rec.address), OrEmpty(rec.email), OrEmpty(rec.contactNumber),
                  OrEmpty(rec.lastQualification), OrEmpty(rec.lastInstitution)])
  }

  /** The value a report cell stands for: a blank cell is a missing field. */
  function CellValue(cell: string): (v: Option<string>)
    ensures v.None? <==> cell == ""
  {
    if cell == "" then None else Some(cell)
  }

  /** Reading the cells back gives the record's fields, unless a field was present but
      empty: the row loses only the difference between a missing and an empty field. */
  lemma RowKeepsFields(rec: ResumeRecord)
    ensures forall i | 0 <= i < |Columns| - 1 ::
      CellValue(RowOf(rec).cells[i]) == (if Fields(rec)[i] == Some("") then None else Fields(rec)[i])
    ensures (forall i | 0 <= i < |Columns| - 1 :: RowOf(rec).cells[i] == "") <==>
      forall i | 0 <= i < |Columns| - 1 :: Fields(rec)[i].None? || Fields(rec)[i] == Some("")
  {
  }

  /** A record without data gives a row of blank cells. */
  lemma EmptyRecordRow(idx: int)
    ensures RowOf(RecordOf(idx, NoData)) == Row(idx, ["", "", "", "", "", ""])
  {
  }

  /** The records of `files`, numbered from 1 in order. */
  function Records(p: Parser, files: seq<ResumeFile>): (r: seq<ResumeRecord>)
    ensures |r| == |files|
  {
    if files == [] then []
    else
      var last := files[|files| - 1];
      Records(p, files[..|files| - 1]) + [RecordOf(|files|, Parsed(p, last.name, last.content))]
  }

  /** The `k`-th record holds the parse of the `k`-th file under serial number `k + 1`. */
  lemma {:induction false} RecordsAt(p: Parser, files: seq<ResumeFile>, k: nat)
    requires k < |files|
    ensures Records(p, files)[k] == RecordOf(k + 1, Parsed(p, files[k].name, files[k].content))
  {
    if k < |files| - 1 {
      RecordsAt(p, files[..|files| - 1], k);
    }
  }

  lemma RecordsSnoc(p: Parser, files: seq<ResumeFile>, n: nat)
    requires n < |files|
    ensures Records(p, files[..n + 1]) ==
      Records(p, files[..n]) + [RecordOf(n + 1, Parsed(p, files[n].name, files[n].content))]
  {
    assert files[..n + 1][..n] == files[..n];
  }

  /** The loop over the files: parses each in turn and numbers the records from 1. */
  method BuildRecords(p: Parser, files: seq<ResumeFile>) returns (records: seq<ResumeRecord>)
    ensures records == Records(p, files)
  {
    records := [];
    var idx := 1;
    while idx <= |files|
      invariant 1 <= idx <= |files| + 1
      invariant records == Records(p, files[..idx - 1])
    {
      var file := files[idx - 1];
      var extracted := ParseResume(p, file.name, file.content);
      RecordsSnoc(p, files, idx - 1);
      records := records + [RecordOf(idx, extracted)];
      idx := idx + 1;
    }
    assert files[..|files|] == files;
  }

  /** The loop that turns the records into rows. */
  method ToRows(records: seq<ResumeRecord>) returns (rows: seq<Row>)
    ensures |rows| == |records|
    ensures forall k | 0 <= k < |records| :: rows[k] == RowOf(records[k])
  {
    rows := [];
    for k := 0 to |records|
      invariant |rows| == k
      invariant forall j | 0 <= j < k :: rows[j] == RowOf(records[j])
    {
      rows := rows + [RowOf(records[k])];
    }
  }

  /** The checks before any resume is read: the upload's own validation, then the size of the
      content actually read. */
  function CheckUpload(c: Config, upload: Upload): (r: Option<HttpError>)
    ensures r.None? <==>
      && ZipName(upload.filename)
      && (upload.reportedSize.None? || upload.reportedSize.value <= MaxZipSizeBytes(c))
      && |upload.content| <= MaxZipSizeBytes(c)
    ensures r.Some? ==> r.value.status == 400
  {
    match ValidateZipFile(c, upload.filename, upload.reportedSize)
    case Some(e) => Some(e)
    case None => if |upload.content| > MaxZipSizeBytes(c) then Some(SizeExceeded(c)) else None
  }

  /** A size reported within the limit does not let a larger content through. */
  lemma ContentSizeChecked(c: Config, upload: Upload)
    requires ZipName(upload.filename) && |upload.content| > MaxZipSizeBytes(c)
    ensures CheckUpload(c, upload) == Some(SizeExceeded(c))
  {
  }

  /** `download_csv`: the report rows, or the HTTP error that ends the request. */
  method DownloadCsv(c: Config, upload: Upload, openZip: Bytes -> Archive, p: Parser)
    returns (r: Result<seq<Row>, HttpError>)
    ensures CheckUpload(c, upload).Some? ==> r == Failure(CheckUpload(c, upload).value)
    ensures CheckUpload(c, upload).None? && Extracted(openZip(upload.content)).Failure? ==>
      r == Failure(Extracted(openZip(upload.content)).error)
    ensures r.Success? <==> CheckUpload(c, upload).None? && Extracted(openZip(upload.content)).Success?
    ensures r.Success? ==>
      var files := Extracted(openZip(upload.content)).value;
      && |r.value| == |files| >= 1
      && forall k | 0 <= k < |files| :: r.value[k] == RowOf(Records(p, files)[k])
  {
    var invalid := ValidateZipFile(c, upload.filename, upload.reportedSize);
    if invalid.Some? {
      return Failure(invalid.value);
    }
    if |upload.content| > MaxZipSizeBytes(c) {
      return Failure(SizeExceeded(c));
    }
    var extracted := ExtractResumeFiles(openZip(upload.content));
    if extracted.Failure? {
      return Failure(extracted.error);
    }
    var records := BuildRecords(p, extracted.value);
    var rows := ToRows(records);
    return Success(rows);
  }

  /** Every file taken from the archive is read as a PDF or a Word document: none reaches the
      parser with an extension it does not handle. */
  lemma ExtractedFilesAreReadable(archive: Archive, p: Parser)
    requires Extracted(archive).Success?
    ensures forall f | f in Extracted(archive).value ::
      Extension(f.name) in AllowedResumeExtensions && TextOf(p, f.name, f.content).Some?
  {
    forall f | f in Extracted(archive).value
      ensures Extension(f.name) in AllowedResumeExtensions
    {
      SelectedAreResumes(archive.entries);
      NameIsItsOwnName(f.name);
    }
  }

  /** The rows are numbered 1, 2, ... in archive order, one per extracted file, and each holds
      that file's parse. */
  lemma ReportRows(rows: seq<Row>, files: seq<ResumeFile>, p: Parser)
    requires |rows| == |files|
    requires forall k | 0 <= k < |files| :: rows[k] == RowOf(Records(p, files)[k])
    ensures forall k | 0 <= k < |rows| :: rows[k].sNo == k + 1
    ensures forall k | 0 <= k < |rows| ::
      rows[k] == RowOf(RecordOf(k + 1, Parsed(p, files[k].name, files[k].content)))
  {
    forall k | 0 <= k < |rows|
      ensures rows[k] == RowOf(RecordOf(k + 1, Parsed(p, files[k].name, files[k].content)))
    {
      RecordsAt(p, files, k);
    }
  }
}
