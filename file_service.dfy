/** Checking the uploaded archive and picking the resumes out of it. */
module FileService {
  import opened Wrappers
  import opened Strings
  import opened Paths
  import opened Schemas
  import opened AppConfig

  const OnlyZipDetail := "Only ZIP files are allowed"
  const BadZipDetail := "Invalid or corrupted ZIP file"
  const ZipProcessingDetail := "Error processing ZIP file"
  const NoResumesDetail := "No valid resume files (PDF or DOCX) found in ZIP"

  /** The rejection of an upload larger than the configured limit. */
  function SizeExceeded(c: Config): (e: HttpError)
    ensures e.status == 400
    ensures e.detail == "File size exceeds maximum allowed size of " + IntToString(c.maxZipSizeMb) + "MB"
  {
    HttpError(400, "File size exceeds maximum allowed size of " + IntToString(c.maxZipSizeMb) + "MB")
  }

  /** The upload's name is present and ends in `.zip`, in any letter case. */
  predicate ZipName(filename: Option<string>) {
    filename.Some? && filename.value != "" && EndsWith(Lower(filename.value), ".zip")
  }

  /** `validate_zip_file`: `None` when the upload is accepted. `size` is the size the upload
      reports, or `None` when its stream cannot seek. */
  function ValidateZipFile(c: Config, filename: Option<string>, size: Option<int>): (r: Option<HttpError>)
    ensures r.None? <==> ZipName(filename) && (size.None? || size.value <= MaxZipSizeBytes(c))
    ensures r.Some? ==> r.value.status == 400
    ensures !ZipName(filename) ==> r == Some(HttpError(400, OnlyZipDetail))
    ensures ZipName(filename) && r.Some? ==> r == Some(SizeExceeded(c))
  {
    if !ZipName(filename) then Some(HttpError(400, OnlyZipDetail))
    else if size.Some? && size.value > MaxZipSizeBytes(c) then Some(SizeExceeded(c))
    else None
  }

  /** The size message names the limit unambiguously: two settings that give the same
      message have the same limit. */
  lemma SizeExceededNamesLimit(c1: Config, c2: Config)
    requires SizeExceeded(c1) == SizeExceeded(c2)
    ensures c1.maxZipSizeMb == c2.maxZipSizeMb
  {
    var pre := "File size exceeds maximum allowed size of ";
    var s1 := IntToString(c1.maxZipSizeMb);
    var s2 := IntToString(c2.maxZipSizeMb);
    var m1 := SizeExceeded(c1).detail;
    assert m1 == pre + s1 + "MB" && m1 == pre + s2 + "MB";
    assert |s1| == |s2|;
    assert s1 == m1[|pre|..|pre| + |s1|];
    assert s2 == m1[|pre|..|pre| + |s2|];
    IntToStringInjective(c1.maxZipSizeMb, c2.maxZipSizeMb);
  }

  /** The name check ignores letter case: a name and its lower-case form are judged alike. */
  lemma ValidateIgnoresCase(c: Config, name: string, size: Option<int>)
    ensures ValidateZipFile(c, Some(name), size) == ValidateZipFile(c, Some(Lower(name)), size)
  {
    LowerIdempotent(name);
  }

  /** An upload of exactly the limit is accepted; one byte more is refused. */
  lemma LimitIsInclusive(c: Config, name: string)
    requires ZipName(Some(name))
    ensures ValidateZipFile(c, Some(name), Some(MaxZipSizeBytes(c))).None?
    ensures ValidateZipFile(c, Some(name), Some(MaxZipSizeBytes(c) + 1)) == Some(SizeExceeded(c))
  {
  }

  /** One member of the archive, as `namelist()` gives it, with its content or `None` when
      reading it raises. */
  datatype ZipEntry = ZipEntry(path: string, data: Option<Bytes>)

  /** What opening the uploaded bytes as a ZIP archive gives: its members, a `BadZipFile`, or
      any other failure (writing the temporary copy, reading the directory). */
  datatype Archive = Entries(entries: seq<ZipEntry>) | BadZip | IoFailure

  /** A resume taken from the archive: its base name and its content. */
  datatype ResumeFile = ResumeFile(name: string, content: Bytes)

  /** A member path worth reading: not a directory, not `..` anywhere, not absolute, and with a
      `.pdf` or `.docx` suffix in any letter case. */
  predicate Eligible(path: string) {
    && !EndsWith(path, "/")
    && !Contains(path, "..")
    && !(|path| > 0 && path[0] == '/')
    && Lower(Suffix(PathName(path))) in AllowedResumeExtensions
  }

  /** What the loop keeps of one member: its base name and content when its path is eligible
      and it can be read. */
  function Pick(e: ZipEntry): (r: Option<ResumeFile>)
    ensures r.Some? ==> '/' !in r.value.name && Lower(Suffix(r.value.name)) in AllowedResumeExtensions
  {
    if Eligible(e.path) && e.data.Some? then
      PathNameIdempotent(e.path);
      Some(ResumeFile(PathName(e.path), e.data.value))
    else None
  }

  /** The values `pick` keeps from `entries`, in order. */
  function Collect(entries: seq<ZipEntry>, pick: ZipEntry -> Option<ResumeFile>): (r: seq<ResumeFile>)
    ensures |r| <= |entries|
  {
    if entries == [] then []
    else
      var last := pick(entries[|entries| - 1]);
      Collect(entries[..|entries| - 1], pick) + (if last.Some? then [last.value] else [])
  }

  /** A value is collected exactly when `pick` keeps it from some member. */
  lemma {:induction false} CollectIff(entries: seq<ZipEntry>, pick: ZipEntry -> Option<ResumeFile>, f: ResumeFile)
    ensures f in Collect(entries, pick) <==> exists i | 0 <= i < |entries| :: pick(entries[i]) == Some(f)
  {
    if entries != [] {
      var init := entries[..|entries| - 1];
      CollectIff(init, pick, f);
      assert forall i | 0 <= i < |init| :: init[i] == entries[i];
    }
  }

  /** Collecting works member by member, so it keeps the archive order. */
  lemma {:induction false} CollectAppend(xs: seq<ZipEntry>, ys: seq<ZipEntry>, pick: ZipEntry -> Option<ResumeFile>)
    ensures Collect(xs + ys, pick) == Collect(xs, pick) + Collect(ys, pick)
    decreases |ys|
  {
    if ys == [] {
      assert xs + ys == xs;
    } else {
      assert (xs + ys)[..|xs + ys| - 1] == xs + ys[..|ys| - 1];
      CollectAppend(xs, ys[..|ys| - 1], pick);
    }
  }

  /** The resumes the loop collects from `entries`, in archive order. */
  function Selected(entries: seq<ZipEntry>): (r: seq<ResumeFile>)
    ensures |r| <= |entries|
  {
    Collect(entries, Pick)
  }

  /** A file is selected exactly when an eligible, readable member gave its name and content. */
  lemma SelectedIff(entries: seq<ZipEntry>, f: ResumeFile)
    ensures f in Selected(entries) <==>
      exists i | 0 <= i < |entries| ::
        && Eligible(entries[i].path) && entries[i].data == Some(f.content)
        && f.name == PathName(entries[i].path)
  {
    CollectIff(entries, Pick, f);
  }

  /** Every selected file has a base name (no slash in it) with a PDF or DOCX suffix. */
  lemma SelectedAreResumes(entries: seq<ZipEntry>)
    ensures forall f | f in Selected(entries) ::
      '/' !in f.name && Lower(Suffix(f.name)) in AllowedResumeExtensions
  {
    forall f | f in Selected(entries)
      ensures '/' !in f.name && Lower(Suffix(f.name)) in AllowedResumeExtensions
    {
      CollectIff(entries, Pick, f);
    }
  }

  /** Selection keeps the archive order: the files of a split archive are the files of its parts. */
  lemma SelectedAppend(xs: seq<ZipEntry>, ys: seq<ZipEntry>)
    ensures Selected(xs + ys) == Selected(xs) + Selected(ys)
  {
    CollectAppend(xs, ys, Pick);
  }

  /** `extract_resume_files` as a value: the error for a broken archive or an archive without
      resumes, else the selected files. */
  function Extracted(archive: Archive): (r: Result<seq<ResumeFile>, HttpError>)
    ensures r.Success? ==> archive.Entries? && r.value != [] && r.value == Selected(archive.entries)
    ensures r.Failure? ==> r.error.status in {400, 500}
  {
    match archive
    case BadZip => Failure(HttpError(400, BadZipDetail))
    case IoFailure => Failure(HttpError(500, ZipProcessingDetail))
    case Entries(entries) =>
      if Selected(entries) == [] then Failure(HttpError(400, NoResumesDetail)) else Success(Selected(entries))
  }

  /** The archive is accepted exactly when some member is eligible and readable. */
  lemma ExtractedSucceeds(archive: Archive)
    ensures Extracted(archive).Success? <==>
      archive.Entries? &&
      exists i | 0 <= i < |archive.entries| ::
        Eligible(archive.entries[i].path) && archive.entries[i].data.Some?
  {
    if archive.Entries? {
      var es := archive.entries;
      if Selected(es) != [] {
        CollectIff(es, Pick, Selected(es)[0]);
      }
      forall i | 0 <= i < |es| && Eligible(es[i].path) && es[i].data.Some?
        ensures Selected(es) != []
      {
        CollectIff(es, Pick, Pick(es[i]).value);
      }
    }
  }

  /** `extract_resume_files`: walks the members in order and keeps the readable resumes. */
  method ExtractResumeFiles(archive: Archive) returns (r: Result<seq<ResumeFile>, HttpError>)
    ensures r == Extracted(archive)
  {
    match archive {
      case BadZip =>
        return Failure(HttpError(400, BadZipDetail));
      case IoFailure =>
        return Failure(HttpError(500, ZipProcessingDetail));
      case Entries(entries) =>
        var files: seq<ResumeFile> := [];
        for i := 0 to |entries|
          invariant files == Selected(entries[..i])
        {
          var e := entries[i];
          CollectAppend(entries[..i], [e], Pick);
          assert entries[..i + 1] == entries[..i] + [e];
          assert Collect([e], Pick) == (if Pick(e).Some? then [Pick(e).value] else []);
          if EndsWith(e.path, "/") {
            continue;
          }
          if Contains(e.path, "..") || (|e.path| > 0 && e.path[0] == '/') {
            continue;
          }
          var ext := Lower(Suffix(PathName(e.path)));
          if ext in AllowedResumeExtensions {
            match e.data {
              case Some(content) =>
                files := files + [ResumeFile(PathName(e.path), content)];
              case None =>
            }
          }
        }
        assert entries[..|entries|] == entries;
        if files == [] {
          return Failure(HttpError(400, NoResumesDetail));
        }
        return Success(files);
    }
  }
}
