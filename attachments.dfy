/**
 * `getFiles`: the file list and target directory of one item, computed
 * from the rows of its two attachment queries (the primary documents,
 * whose content type is in the whitelist, and all of its attachments).
 * The copying itself is I/O; the model yields the (original, destination)
 * pairs that the copy step is asked about, and the copy decision.
 */
module Attachments {
  import opened Common
  import opened PosixPath

  /** One row of either attachment query: `items.key, path, contentType, parentItemID`. */
  datatype AttachmentRow = AttachmentRow(key: string, path: string, contentType: string, parentItemID: int)

  /** A stored attachment's place in Zotero's storage and its place in the archive. */
  datatype CopyJob = CopyJob(original: string, dest: string)

  /**
   * What `getFiles` returns: the "files" list and the target directory,
   * plus the copy candidates and those of them the copy step copies.
   */
  datatype Files = Files(names: seq<string>, targetDir: string, jobs: seq<CopyJob>, copies: seq<CopyJob>)

  /**
   * With no primary row the loop variable `path` is never bound, so
   * reading it after the loop raises and the whole run stops.
   */
  datatype FilesError = PathUnbound

  /** The content types of a primary document, with their file extensions. */
  const IncludedAttachments: map<string, string> := map[
    "application/vnd.ms-htmlhelp" := "chm",
    "image/vnd.djvu" := "djvu",
    "application/msword" := "doc",
    "application/vnd.openxmlformats-officedocument.wordprocessingml.document" := "docx",
    "application/epub+zip" := "epub",
    "application/octet-stream" := "fb2",
    "application/x-mobipocket-ebook" := "mobi",
    "application/pdf" := "pdf",
    "text/rtf" := "rtf",
    "application/zip" := "zip"]

  /**
   * The first attachment query: the item's attachments whose content type
   * is one of the whitelisted ones, in the order of the second query.
   */
  function PrimaryRows(rows: seq<AttachmentRow>): seq<AttachmentRow>
  {
    if rows == [] then []
    else PrimaryRows(rows[..|rows| - 1])
         + (if rows[|rows| - 1].contentType in IncludedAttachments then [rows[|rows| - 1]] else [])
  }

  /** The primary rows are exactly the whitelisted attachments; there are none when no attachment is whitelisted. */
  lemma {:induction false} PrimaryRowsSpec(rows: seq<AttachmentRow>)
    ensures |PrimaryRows(rows)| <= |rows|
    ensures forall r :: r in PrimaryRows(rows) <==> r in rows && r.contentType in IncludedAttachments
    decreases |rows|
  {
    if rows != [] {
      PrimaryRowsSpec(rows[..|rows| - 1]);
      assert rows == rows[..|rows| - 1] + [rows[|rows| - 1]];
    }
  }

  const StoragePrefix: string := "storage:"

  /** `path[:8] == "storage:"`. */
  predicate IsStored(path: string)
  {
    |path| >= |StoragePrefix| && path[..|StoragePrefix|] == StoragePrefix
  }

  /** The two ways an attachment path is written. */
  datatype PathScheme = Stored(relative: string) | Legacy(path: string)

  function Scheme(path: string): PathScheme
  {
    if IsStored(path) then Stored(path[|StoragePrefix|..]) else Legacy(path)
  }

  function Render(scheme: PathScheme): string
  {
    match scheme
    case Stored(relative) => StoragePrefix + relative
    case Legacy(path) => path
  }

  /** Every path reads as exactly one scheme, and writing that scheme back gives the path. */
  lemma SchemeRoundTrip(path: string)
    ensures Render(Scheme(path)) == path
    ensures Scheme(path).Stored? <==> IsStored(path)
  {
    if IsStored(path) {
      assert path == path[..|StoragePrefix|] + path[|StoragePrefix|..];
    }
  }

  /** A scheme is recovered from its rendering, unless a legacy path looks like a stored one. */
  lemma RenderRoundTrip(scheme: PathScheme)
    requires scheme.Legacy? ==> !IsStored(scheme.path)
    ensures Scheme(Render(scheme)) == scheme
  {
    if scheme.Stored? {
      var p := Render(scheme);
      assert p[..|StoragePrefix|] == StoragePrefix;
      assert p[|StoragePrefix|..] == scheme.relative;
    }
  }

  /** `os.path.join(out_dir, os.path.basename(os.path.dirname(path)))`. */
  function TargetDir(outDir: string, path: string): string
  {
    Join(outDir, Basename(Dirname(path)))
  }

  /** `os.path.join(zot_dir, "storage", key, filename)`. */
  function StorageSource(zotDir: string, key: string, filename: string): string
  {
    Join(Join(Join(zotDir, "storage"), key), filename)
  }

  /** The names the primary loop appends. */
  function PrimaryNames(primary: seq<AttachmentRow>): (names: seq<string>)
    ensures |names| == |primary|
  {
    if primary == [] then []
    else PrimaryNames(primary[..|primary| - 1]) + [Basename(primary[|primary| - 1].path)]
  }

  /** One basename per primary row, in row order. */
  lemma {:induction false} PrimaryNamesAt(primary: seq<AttachmentRow>, i: nat)
    requires i < |primary|
    ensures PrimaryNames(primary)[i] == Basename(primary[i].path)
    decreases |primary|
  {
    if i < |primary| - 1 {
      PrimaryNamesAt(primary[..|primary| - 1], i);
    }
  }

  /** The rows the second loop keeps: those with a stored path, in row order. */
  function StoredRows(rows: seq<AttachmentRow>): seq<AttachmentRow>
  {
    if rows == [] then []
    else StoredRows(rows[..|rows| - 1])
         + (if IsStored(rows[|rows| - 1].path) then [rows[|rows| - 1]] else [])
  }

  /** The names the second loop appends: the relative part of every stored path, in row order. */
  function StoredNames(rows: seq<AttachmentRow>): seq<string>
  {
    if rows == [] then []
    else StoredNames(rows[..|rows| - 1])
         + (if IsStored(rows[|rows| - 1].path) then [rows[|rows| - 1].path[|StoragePrefix|..]] else [])
  }

  /** The copy candidates of the second loop, in row order. */
  function StoredJobs(zotDir: string, targetDir: string, rows: seq<AttachmentRow>): seq<CopyJob>
  {
    if rows == [] then []
    else
      var row := rows[|rows| - 1];
      StoredJobs(zotDir, targetDir, rows[..|rows| - 1])
      + (if IsStored(row.path)
         then var filename := row.path[|StoragePrefix|..];
              [CopyJob(StorageSource(zotDir, row.key, filename), Join(targetDir, filename))]
         else [])
  }

  /** The target directory after the primary loop has seen `primary`: that of the last row, if any. */
  function LastTarget(outDir: string, primary: seq<AttachmentRow>): Option<string>
  {
    if primary == [] then None else Some(TargetDir(outDir, primary[|primary| - 1].path))
  }

  /** One more row adds its stored name and copy candidate, if its path is stored. */
  lemma StoredStep(zotDir: string, targetDir: string, rows: seq<AttachmentRow>, i: nat)
    requires i < |rows|
    ensures !IsStored(rows[i].path) ==> StoredNames(rows[..i + 1]) == StoredNames(rows[..i])
    ensures !IsStored(rows[i].path) ==> StoredJobs(zotDir, targetDir, rows[..i + 1]) == StoredJobs(zotDir, targetDir, rows[..i])
    ensures IsStored(rows[i].path) ==>
      var filename := rows[i].path[|StoragePrefix|..];
      && StoredNames(rows[..i + 1]) == StoredNames(rows[..i]) + [filename]
      && StoredJobs(zotDir, targetDir, rows[..i + 1])
         == StoredJobs(zotDir, targetDir, rows[..i]) + [CopyJob(StorageSource(zotDir, rows[i].key, filename), Join(targetDir, filename))]
  {
    assert rows[..i + 1][..i] == rows[..i];
  }

  /** The outcome of `getFiles`. */
  function FilesOf(attachments: seq<AttachmentRow>, zotDir: string, outDir: string, existing: set<string>)
    : Result<Files, FilesError>
  {
    var primary := PrimaryRows(attachments);
    if primary == [] then Failure(PathUnbound)
    else
      var targetDir := TargetDir(outDir, primary[|primary| - 1].path);
      var jobs := StoredJobs(zotDir, targetDir, attachments);
      Success(Files(PrimaryNames(primary) + StoredNames(attachments), targetDir, jobs, CopiesAsWritten(jobs, existing)))
  }

  /**
   * The copy test as written: copy only when both the original and the
   * destination already exist, and otherwise report "Already exists".
   */
  predicate CopyAsWritten(job: CopyJob, existing: set<string>)
  {
    job.original in existing && job.dest in existing
  }

  /** The copy test as intended: copy an existing original unless the destination already exists. */
  predicate CopyWanted(job: CopyJob, existing: set<string>)
  {
    job.original in existing && job.dest !in existing
  }

  /** The candidates the copy step copies, in order, with `existing` the paths that exist beforehand. */
  function Copies(jobs: seq<CopyJob>, existing: set<string>): seq<CopyJob>
  {
    if jobs == [] then []
    else Copies(jobs[..|jobs| - 1], existing)
         + (if CopyWanted(jobs[|jobs| - 1], existing) then [jobs[|jobs| - 1]] else [])
  }

  /** The candidates the written test would copy. */
  function CopiesAsWritten(jobs: seq<CopyJob>, existing: set<string>): seq<CopyJob>
  {
    if jobs == [] then []
    else CopiesAsWritten(jobs[..|jobs| - 1], existing)
         + (if CopyAsWritten(jobs[|jobs| - 1], existing) then [jobs[|jobs| - 1]] else [])
  }

  /**
   * As written, the copy step only ever overwrites: every copy goes to a
   * destination that already exists, so an attachment missing from the
   * archive is never copied into it.
   */
  lemma {:induction false} AsWrittenOnlyOverwrites(jobs: seq<CopyJob>, existing: set<string>)
    ensures forall j :: j in CopiesAsWritten(jobs, existing) <==> j in jobs && CopyAsWritten(j, existing)
    ensures forall j :: j in CopiesAsWritten(jobs, existing) ==> j.dest in existing
    decreases |jobs|
  {
    if jobs != [] {
      AsWrittenOnlyOverwrites(jobs[..|jobs| - 1], existing);
      assert jobs == jobs[..|jobs| - 1] + [jobs[|jobs| - 1]];
    }
  }

  /** A stored file present in Zotero but not yet in the archive is reported as already there and not copied. */
  lemma FreshAttachmentNotCopied()
    ensures CopiesAsWritten([CopyJob("a", "b")], {"a"}) == []
    ensures Copies([CopyJob("a", "b")], {"a"}) == [CopyJob("a", "b")]
  {
    assert [CopyJob("a", "b")][..0] == [];
  }

  /**
   * The intended copy step copies exactly the candidates whose original
   * exists and whose destination does not: it never overwrites, and every
   * candidate with an existing original ends up copied or already present.
   */
  lemma {:induction false} CopiesSpec(jobs: seq<CopyJob>, existing: set<string>)
    ensures |Copies(jobs, existing)| <= |jobs|
    ensures forall j :: j in Copies(jobs, existing) <==> j in jobs && CopyWanted(j, existing)
    ensures forall j :: j in jobs && j.original in existing ==> j.dest in existing || j in Copies(jobs, existing)
    decreases |jobs|
  {
    if jobs != [] {
      CopiesSpec(jobs[..|jobs| - 1], existing);
      assert jobs == jobs[..|jobs| - 1] + [jobs[|jobs| - 1]];
    }
  }

  /**
   * Of the candidates whose original exists, the written test copies exactly
   * those the intended test skips: the two decisions are complementary.
   */
  lemma DecisionsComplementary(jobs: seq<CopyJob>, existing: set<string>)
    ensures forall j :: j in jobs && j.original in existing ==>
      (j in Copies(jobs, existing) <==> j !in CopiesAsWritten(jobs, existing))
  {
    CopiesSpec(jobs, existing);
    AsWrittenOnlyOverwrites(jobs, existing);
  }

  /** One more candidate is copied after the others exactly when the written test lets it through. */
  lemma CopiesAsWrittenStep(jobs: seq<CopyJob>, job: CopyJob, existing: set<string>)
    ensures CopiesAsWritten(jobs + [job], existing)
            == CopiesAsWritten(jobs, existing) + (if CopyAsWritten(job, existing) then [job] else [])
  {
    assert (jobs + [job])[..|jobs|] == jobs;
  }

  /** The first loop of `getFiles`: one basename per primary row; the last row sets the target directory. */
  method ScanPrimary(primary: seq<AttachmentRow>, outDir: string) returns (files: seq<string>, targetDir: Option<string>)
    ensures files == PrimaryNames(primary)
    ensures targetDir == LastTarget(outDir, primary)
  {
    files := [];
    // `target_dir` and `path` stay unbound until the first primary row
    targetDir := None;
    for i := 0 to |primary|
      invariant files == PrimaryNames(primary[..i])
      invariant targetDir == LastTarget(outDir, primary[..i])
    {
      var path := primary[i].path;
      targetDir := Some(TargetDir(outDir, path));
      files := files + [Basename(path)];
      assert primary[..i + 1][..i] == primary[..i];
    }
    assert primary[..|primary|] == primary;
  }

  /**
   * The second loop of `getFiles`: every stored attachment appends its
   * relative name to `files` and becomes a copy candidate into `targetDir`.
   */
  method ScanStored(files0: seq<string>, attachments: seq<AttachmentRow>, zotDir: string, targetDir: string,
                    existing: set<string>)
    returns (files: seq<string>, jobs: seq<CopyJob>, copies: seq<CopyJob>)
    ensures files == files0 + StoredNames(attachments)
    ensures jobs == StoredJobs(zotDir, targetDir, attachments)
    ensures copies == CopiesAsWritten(jobs, existing)
  {
    files := files0;
    jobs := [];
    copies := [];
    for i := 0 to |attachments|
      invariant files == files0 + StoredNames(attachments[..i])
      invariant jobs == StoredJobs(zotDir, targetDir, attachments[..i])
      invariant copies == CopiesAsWritten(jobs, existing)
    {
      StoredStep(zotDir, targetDir, attachments, i);
      var key, path := attachments[i].key, attachments[i].path;
      var scheme := Scheme(path);
      if scheme.Legacy? {
        continue;
      }
      var filename := scheme.relative;
      var original := StorageSource(zotDir, key, filename);
      var dest := Join(targetDir, filename);
      files := files + [filename];
      CopiesAsWrittenStep(jobs, CopyJob(original, dest), existing);
      jobs := jobs + [CopyJob(original, dest)];
      // the test of the converter: both the original and the destination must exist
      if original in existing && dest in existing {
        copies := copies + [CopyJob(original, dest)];
      }
    }
    assert attachments[..|attachments|] == attachments;
  }

  /** `getFiles`: both loops; reading the target directory fails when the first loop bound nothing. */
  method GetFiles(attachments: seq<AttachmentRow>, zotDir: string, outDir: string, existing: set<string>)
    returns (r: Result<Files, FilesError>)
    ensures r == FilesOf(attachments, zotDir, outDir, existing)
  {
    var primary := PrimaryRows(attachments);
    var files, targetDir := ScanPrimary(primary, outDir);
    if targetDir.None? {
      return Failure(PathUnbound);
    }
    var jobs, copies;
    files, jobs, copies := ScanStored(files, attachments, zotDir, targetDir.value, existing);
    r := Success(Files(files, targetDir.value, jobs, copies));
  }

  /** No deduplication: the stored names of a concatenation are those of each part, in turn. */
  lemma {:induction false} StoredNamesAppend(a: seq<AttachmentRow>, b: seq<AttachmentRow>)
    ensures StoredNames(a + b) == StoredNames(a) + StoredNames(b)
    decreases |b|
  {
    if b == [] {
      assert a + b == a;
    } else {
      assert (a + b)[..|a + b| - 1] == a + b[..|b| - 1];
      StoredNamesAppend(a, b[..|b| - 1]);
    }
  }

  /**
   * The stored names and the copy candidates line up with the stored rows:
   * the k-th candidate copies the k-th stored row's file from the storage
   * directory of its key into the target directory, under the k-th name.
   */
  lemma {:induction false} JobsMatchNames(zotDir: string, targetDir: string, rows: seq<AttachmentRow>)
    ensures |StoredNames(rows)| == |StoredRows(rows)| == |StoredJobs(zotDir, targetDir, rows)|
    ensures forall k :: 0 <= k < |StoredRows(rows)| ==>
      && IsStored(StoredRows(rows)[k].path)
      && StoredNames(rows)[k] == StoredRows(rows)[k].path[|StoragePrefix|..]
      && StoredJobs(zotDir, targetDir, rows)[k]
         == CopyJob(StorageSource(zotDir, StoredRows(rows)[k].key, StoredNames(rows)[k]),
                    Join(targetDir, StoredNames(rows)[k]))
    decreases |rows|
  {
    if rows != [] {
      JobsMatchNames(zotDir, targetDir, rows[..|rows| - 1]);
    }
  }

  /** The kept rows are exactly the stored ones, in their original order (a subsequence). */
  lemma {:induction false} StoredRowsSpec(rows: seq<AttachmentRow>)
    ensures |StoredRows(rows)| <= |rows|
    ensures forall r :: r in StoredRows(rows) <==> r in rows && IsStored(r.path)
    ensures StoredRows(rows) == [] <==> forall i :: 0 <= i < |rows| ==> !IsStored(rows[i].path)
    decreases |rows|
  {
    if rows != [] {
      var init := rows[..|rows| - 1];
      StoredRowsSpec(init);
      assert rows == init + [rows[|rows| - 1]];
    }
  }

  /**
   * The "files" list: the basename of every primary row, in order, then the
   * stored names, in order; it fails exactly when there is no primary row.
   * A candidate is copied exactly when its original and its destination
   * both exist beforehand.
   */
  lemma FilesOfSpec(attachments: seq<AttachmentRow>, zotDir: string, outDir: string, existing: set<string>)
    ensures var primary := PrimaryRows(attachments);
      FilesOf(attachments, zotDir, outDir, existing).Failure? <==> primary == []
    ensures var primary := PrimaryRows(attachments);
      primary != [] ==>
      var files := FilesOf(attachments, zotDir, outDir, existing).value;
      && |files.names| == |primary| + |StoredNames(attachments)|
      && (forall i :: 0 <= i < |primary| ==> files.names[i] == Basename(primary[i].path))
      && files.names[|primary|..] == StoredNames(attachments)
      && files.targetDir == Join(outDir, Basename(Dirname(primary[|primary| - 1].path)))
      && |files.jobs| == |StoredNames(attachments)|
      && (forall k :: 0 <= k < |files.jobs| ==> files.jobs[k].dest == Join(files.targetDir, files.names[|primary| + k]))
      && (forall j :: j in files.copies <==> j in files.jobs && j.original in existing && j.dest in existing)
  {
    var primary := PrimaryRows(attachments);
    if primary != [] {
      var targetDir := TargetDir(outDir, primary[|primary| - 1].path);
      JobsMatchNames(zotDir, targetDir, attachments);
      AsWrittenOnlyOverwrites(StoredJobs(zotDir, targetDir, attachments), existing);
      forall i | 0 <= i < |primary| ensures PrimaryNames(primary)[i] == Basename(primary[i].path) {
        PrimaryNamesAt(primary, i);
      }
    }
  }

  /**
   * A primary document whose path is in the stored scheme is listed twice,
   * under two different names: first the whole path, prefix included (it
   * has no '/', so it is its own basename), which names no file of the
   * target directory, then its relative name.
   */
  lemma StoredPrimaryListedTwice(row: AttachmentRow, zotDir: string, outDir: string, existing: set<string>)
    requires row.contentType in IncludedAttachments && IsStored(row.path) && '/' !in row.path
    ensures FilesOf([row], zotDir, outDir, existing).Success?
    ensures FilesOf([row], zotDir, outDir, existing).value.names == [row.path, row.path[|StoragePrefix|..]]
    ensures row.path != row.path[|StoragePrefix|..]
  {
    assert [row][..0] == [];
    assert PrimaryRows([row]) == [row];
    BasenameSplit(row.path);
    assert StoredNames([row]) == [row.path[|StoragePrefix|..]];
  }

  /**
   * Every stored file lands in the target directory under its own name,
   * when the target directory has no trailing '/' and the name is a plain
   * file name.
   */
  lemma DestInTargetDir(targetDir: string, filename: string)
    requires targetDir != [] && targetDir[|targetDir| - 1] != '/'
    requires filename != [] && '/' !in filename
    ensures Dirname(Join(targetDir, filename)) == targetDir
    ensures Basename(Join(targetDir, filename)) == filename
  {
    DirnameOfJoin(targetDir, filename);
    BasenameOfJoin(targetDir, filename);
  }

  /** A legacy path `/lib/X/Y/Title-abc.pdf` puts the item under `Y`. */
  lemma LegacyTargetExample(outDir: string)
    ensures Basename(TargetDir(outDir, "/lib/X/Y/Title-abc.pdf")) == "Y"
  {
    LegacyDirectoryExample();
    BasenameOfJoin(outDir, "Y");
  }

  /**
   * A primary path written in the stored scheme has no '/', so its
   * directory part is empty and the target directory is `out_dir + "/"`
   * (or `out_dir` itself when that already ends in '/').
   */
  lemma StoredPrimaryTarget(outDir: string, path: string)
    requires IsStored(path) && '/' !in path
    ensures TargetDir(outDir, path) == Join(outDir, "")
  {
    DirnameSpec(path);
  }
}
