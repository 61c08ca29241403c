/** Choosing the files of an upload (`processFiles`,
    src/components/FileUpload.tsx): a series name must be given; archives are
    expanded in place; other files are kept by suffix or MIME type. */
module FileUpload {
  import opened Types
  import opened Strings

  /** One entry the archive library enumerates: its full path inside the
      archive and whether it is a directory. */
  datatype ZipEntry = ZipEntry(path: string, dir: bool)

  /** A `File`: its name and MIME type. `archive` is what the archive library
      reads from it when it is opened as a zip: its entries in enumeration
      order, or None when the library rejects it. */
  datatype File = File(name: string, mime: string, archive: Option<seq<ZipEntry>>)

  const DicomMime := "application/dicom"

  /** What an upload attempt ends in. */
  datatype Outcome =
    | BlankSeriesName                                    // alert, nothing examined
    | ArchiveUnreadable                                  // the archive read throws
    | NoDicomFiles                                       // alert "No DICOM files found"
    | Submitted(files: seq<File>, seriesName: string)    // the callback is called once

  predicate IsArchive(f: File) {
    EndsWith(f.name, ".zip")
  }

  predicate KeepTopLevel(f: File) {
    EndsWith(f.name, ".dcm") || f.mime == DicomMime
  }

  predicate KeepEntry(e: ZipEntry) {
    !e.dir && (EndsWith(e.path, ".dcm") || '.' !in e.path)
  }

  /** The file made from a kept archive entry. */
  function EntryFile(e: ZipEntry): File {
    File(e.path, DicomMime, None)
  }

  /** The kept entries of an archive, in enumeration order. */
  function KeptEntries(entries: seq<ZipEntry>): seq<File>
    decreases |entries|
  {
    if |entries| == 0 then []
    else
      var last := entries[|entries| - 1];
      KeptEntries(entries[..|entries| - 1]) + (if KeepEntry(last) then [EntryFile(last)] else [])
  }

  /** What one picked file contributes: its kept entries for a readable
      archive, itself when kept by suffix or type, nothing otherwise. */
  function Contribution(f: File): seq<File> {
    if IsArchive(f) then (if f.archive.Some? then KeptEntries(f.archive.value) else [])
    else if KeepTopLevel(f) then [f]
    else []
  }

  /** The contributions of the files of a list, concatenated in order. */
  function Gathered(fileList: seq<File>, contribution: File -> seq<File>): seq<File>
    decreases |fileList|
  {
    if |fileList| == 0 then []
    else Gathered(fileList[..|fileList| - 1], contribution) + contribution(fileList[|fileList| - 1])
  }

  /** The kept files of a whole selection, in input order. */
  function Selected(fileList: seq<File>): seq<File> {
    Gathered(fileList, Contribution)
  }

  predicate HasUnreadableArchive(fileList: seq<File>) {
    exists i :: 0 <= i < |fileList| && IsArchive(fileList[i]) && fileList[i].archive.None?
  }

  /** The outcome `processFiles` reaches. */
  function Upload(seriesName: string, fileList: seq<File>): Outcome {
    if Trim(seriesName) == "" then BlankSeriesName
    else if HasUnreadableArchive(fileList) then ArchiveUnreadable
    else if |Selected(fileList)| == 0 then NoDicomFiles
    else Submitted(Selected(fileList), seriesName)
  }

  /** `processFiles`: the series-name check, then one pass over the picked
      files that expands each archive in place, then the final branch. */
  method ProcessFiles(seriesName: string, fileList: seq<File>) returns (outcome: Outcome)
    ensures outcome == Upload(seriesName, fileList)
  {
    if Trim(seriesName) == "" {
      return BlankSeriesName;
    }
    var unreadable, files := CollectFiles(fileList);
    if unreadable {
      return ArchiveUnreadable;
    }
    if |files| > 0 {
      outcome := Submitted(files, seriesName);
    } else {
      outcome := NoDicomFiles;
    }
  }

  /** The pass over the picked files: stops at the first archive that cannot
      be read, otherwise gathers every file's contribution in order. */
  method CollectFiles(fileList: seq<File>) returns (unreadable: bool, files: seq<File>)
    ensures unreadable <==> HasUnreadableArchive(fileList)
    ensures !unreadable ==> files == Selected(fileList)
  {
    files := [];
    var i := 0;
    while i < |fileList|
      invariant 0 <= i <= |fileList|
      invariant files == Selected(fileList[..i])
      invariant forall k :: 0 <= k < i ==> !(IsArchive(fileList[k]) && fileList[k].archive.None?)
    {
      var file := fileList[i];
      assert fileList[..i + 1][..i] == fileList[..i];
      if IsArchive(file) {
        if file.archive.None? {
          assert IsArchive(fileList[i]) && fileList[i].archive.None?;
          return true, files;
        }
        var kept := ExpandArchive(file.archive.value);
        files := files + kept;
      } else if KeepTopLevel(file) {
        files := files + [file];
      }
      i := i + 1;
    }
    assert fileList[..i] == fileList;
    unreadable := false;
  }

  /** The inner loop of `processFiles` over one archive's entries. */
  method ExpandArchive(entries: seq<ZipEntry>) returns (kept: seq<File>)
    ensures kept == KeptEntries(entries)
  {
    kept := [];
    var j := 0;
    while j < |entries|
      invariant 0 <= j <= |entries|
      invariant kept == KeptEntries(entries[..j])
    {
      var entry := entries[j];
      assert entries[..j + 1][..j] == entries[..j];
      if !entry.dir && (EndsWith(entry.path, ".dcm") || '.' !in entry.path) {
        kept := kept + [File(entry.path, DicomMime, None)];
      }
      j := j + 1;
    }
    assert entries[..j] == entries;
  }

  // ---------------------------------------------------------------------
  // Properties

  /** Selection distributes over concatenation: a file's contribution does
      not depend on its neighbours, and order is kept. */
  lemma SelectedAppend(a: seq<File>, b: seq<File>)
    ensures Selected(a + b) == Selected(a) + Selected(b)
  {
    GatheredAppend(a, b, Contribution);
  }

  lemma {:induction false} GatheredAppend(a: seq<File>, b: seq<File>, contribution: File -> seq<File>)
    ensures Gathered(a + b, contribution) == Gathered(a, contribution) + Gathered(b, contribution)
    decreases |b|
  {
    if |b| == 0 {
      assert a + b == a;
    } else {
      var init, last := b[..|b| - 1], b[|b| - 1];
      var ab := a + b;
      assert ab[..|ab| - 1] == a + init && ab[|ab| - 1] == last;
      calc {
        Gathered(ab, contribution);
        Gathered(a + init, contribution) + contribution(last);
        { GatheredAppend(a, init, contribution); }
        Gathered(a, contribution) + Gathered(init, contribution) + contribution(last);
        Gathered(a, contribution) + (Gathered(init, contribution) + contribution(last));
        Gathered(a, contribution) + Gathered(b, contribution);
      }
    }
  }

  /** An entry is kept exactly when it is not a directory and its path ends
      in ".dcm" or has no '.' anywhere; kept entries are named by their path
      and typed DICOM. */
  lemma {:induction false} KeptEntriesMembership(entries: seq<ZipEntry>, f: File)
    ensures f in KeptEntries(entries) <==>
      exists k :: 0 <= k < |entries| && KeepEntry(entries[k]) && f == EntryFile(entries[k])
    decreases |entries|
  {
    if |entries| > 0 {
      var init := entries[..|entries| - 1];
      KeptEntriesMembership(init, f);
      if f in KeptEntries(init) {
        var k :| 0 <= k < |init| && KeepEntry(init[k]) && f == EntryFile(init[k]);
        assert entries[k] == init[k];
      }
      if k :| 0 <= k < |entries| && KeepEntry(entries[k]) && f == EntryFile(entries[k]) {
        if k < |init| {
          assert init[k] == entries[k];
        }
      }
    }
  }

  /** How a picked file yields `f`: a file that is not an archive is kept
      itself when its suffix or type says DICOM; a readable archive yields
      its kept entries. */
  predicate YieldedBy(g: File, f: File) {
    || (!IsArchive(g) && KeepTopLevel(g) && f == g)
    || (IsArchive(g) && g.archive.Some? && f in KeptEntries(g.archive.value))
  }

  /** A file is handed to the viewer exactly when some picked file yields
      it: a non-archive kept by suffix or type, or a kept entry of a
      readable archive. */
  lemma {:induction false} SelectedMembership(fileList: seq<File>, f: File)
    ensures f in Selected(fileList) <==> exists i :: 0 <= i < |fileList| && YieldedBy(fileList[i], f)
    decreases |fileList|
  {
    if |fileList| > 0 {
      var init, last := fileList[..|fileList| - 1], fileList[|fileList| - 1];
      SelectedMembership(init, f);
      assert f in Contribution(last) <==> YieldedBy(last, f);
      if f in Selected(init) {
        var i :| 0 <= i < |init| && YieldedBy(init[i], f);
        assert fileList[i] == init[i];
      }
      if i :| 0 <= i < |fileList| && YieldedBy(fileList[i], f) {
        if i < |init| {
          assert init[i] == fileList[i];
        }
      }
    }
  }

  /** The outcomes, both ways: the callback is called exactly when the name
      is not blank, every archive was readable and something was kept, and
      then with the kept files and the name as typed (not trimmed). */
  lemma UploadOutcomes(seriesName: string, fileList: seq<File>)
    ensures Upload(seriesName, fileList) == BlankSeriesName <==>
      forall i :: 0 <= i < |seriesName| ==> IsWhitespace(seriesName[i])
    ensures Upload(seriesName, fileList).Submitted? <==>
      Trim(seriesName) != "" && !HasUnreadableArchive(fileList) && |Selected(fileList)| > 0
    ensures Upload(seriesName, fileList).Submitted? ==>
      Upload(seriesName, fileList) == Submitted(Selected(fileList), seriesName)
  {
    TrimEmptyIff(seriesName);
  }

  /** A folder name with a '.' hides its extension-less files; a ".dcm"
      entry is kept wherever it sits; directories and other suffixes are
      dropped. */
  lemma EntryRuleExamples()
    ensures KeepEntry(ZipEntry("scans/IM0001", false))
    ensures !KeepEntry(ZipEntry("study.v2/IM0001", false))
    ensures KeepEntry(ZipEntry("study.v2/IM0001.dcm", false))
    ensures !KeepEntry(ZipEntry("scans/", true))
    ensures !KeepEntry(ZipEntry("scans/readme.txt", false))
  {
    DottedFolderHidesFile();
    OtherSuffixDropped();
  }

  lemma DottedFolderHidesFile()
    ensures !KeepEntry(ZipEntry("study.v2/IM0001", false))
  {
    assert "study.v2/IM0001"[5] == '.';
  }

  lemma OtherSuffixDropped()
    ensures !KeepEntry(ZipEntry("scans/readme.txt", false))
  {
    assert "scans/readme.txt"[12] == '.';
    assert !EndsWith("scans/readme.txt", ".dcm") by {
      assert "scans/readme.txt"[12..] == ".txt";
    }
  }

}
