/**
 The approval step `DocAsTest::approve`: read the approved baseline, trim both
 sides, clear a stale received file, then pass, or record the received file
 and fail.

 The filesystem is a map from path to file contents; whether each of the
 three I/O calls succeeds is an input, since the model cannot see the disk.
 A Rust panic becomes a failing `Outcome`.
 */
module Approval {
  import opened Options
  import opened Trim
  import opened Doc
  import opened Paths

  type FileSystem = map<string, string>

  /** Whether reading the approved file, removing the stale received file
      and writing the new received file would succeed. */
  datatype IoResults = IoResults(readOk: bool, removeOk: bool, writeOk: bool)

  /** Passed: `approve` returns. Mismatch: it panics after recording the
      received file. ReadFailed / WriteFailed: it panics on an I/O error. */
  datatype Outcome = Passed | Mismatch | ReadFailed | WriteFailed

  datatype Step = Step(fs: FileSystem, outcome: Outcome)

  /** The text an approved file stands for: its contents, or "" when absent. */
  function Baseline(fs: FileSystem, path: string): string
  {
    if path in fs then fs[path] else ""
  }

  /** Reads a file, treating a missing one as empty; `None` when an existing
      file cannot be read. */
  function GetFileContents(fs: FileSystem, path: string, readOk: bool): (r: Option<string>)
    ensures path !in fs ==> r == Some("")
    ensures path in fs ==> (r.Some? <==> readOk)
    ensures path in fs && readOk ==> r == Some(fs[path])
  {
    if path in fs then
      if readOk then Some(fs[path]) else None
    else Some("")
  }

  /** Deletes `path` if it exists and the removal succeeds; a failed removal
      is only reported, so the file simply stays. */
  function RemoveStale(fs: FileSystem, path: string, removeOk: bool): (fs': FileSystem)
    ensures path in fs' <==> path in fs && !removeOk
    ensures path in fs' ==> fs'[path] == fs[path]
    ensures forall p :: p != path ==> (p in fs' <==> p in fs)
    ensures forall p :: p != path && p in fs ==> fs'[p] == fs[p]
  {
    if path in fs && removeOk then fs - {path} else fs
  }

  /** Whether the approved file of `d` can be read (or is absent). */
  predicate Readable(d: DocAsTest, fs: FileSystem, io: IoResults)
  {
    ApprovedFilename(d) !in fs || io.readOk
  }

  /** Whether the rendered case matches its baseline once trailing newlines
      are ignored on both sides. */
  predicate Matches(d: DocAsTest, fs: FileSystem)
  {
    TrimEndNewlines(Content(d)) == TrimEndNewlines(Baseline(fs, ApprovedFilename(d)))
  }

  /** `DocAsTest::approve`: the filesystem it leaves behind and how it ends. */
  function Approve(d: DocAsTest, fs: FileSystem, io: IoResults): (s: Step)
    // The outcome
    ensures s.outcome == ReadFailed <==> !Readable(d, fs, io)
    ensures s.outcome == Passed <==> Readable(d, fs, io) && Matches(d, fs)
    ensures s.outcome == Mismatch <==> Readable(d, fs, io) && !Matches(d, fs) && io.writeOk
    ensures s.outcome == WriteFailed <==> Readable(d, fs, io) && !Matches(d, fs) && !io.writeOk
    // A read failure happens before anything is touched
    ensures s.outcome == ReadFailed ==> s.fs == fs
    // Only the received file can change; the approved file is never written
    ensures forall p :: p != ReceivedFilename(d) ==> (p in s.fs <==> p in fs)
    ensures forall p :: p != ReceivedFilename(d) && p in fs ==> s.fs[p] == fs[p]
    // The received file: removed if stale, written with the trimmed render on a mismatch
    ensures s.outcome == Mismatch ==>
              ReceivedFilename(d) in s.fs && s.fs[ReceivedFilename(d)] == TrimEndNewlines(Content(d))
    ensures s.outcome in {Passed, WriteFailed} ==>
              (ReceivedFilename(d) in s.fs <==> ReceivedFilename(d) in fs && !io.removeOk)
    ensures s.outcome in {Passed, WriteFailed} && ReceivedFilename(d) in s.fs ==>
              s.fs[ReceivedFilename(d)] == fs[ReceivedFilename(d)]
  {
    var received := ReceivedFilename(d);
    var approved := ApprovedFilename(d);
    ReceivedIsNotApproved(d);
    match GetFileContents(fs, approved, io.readOk)
    case None => Step(fs, ReadFailed)
    case Some(baseline) =>
      var expected := TrimEndNewlines(baseline);
      var current := TrimEndNewlines(Content(d));
      var cleaned := RemoveStale(fs, received, io.removeOk);
      if current == expected then Step(cleaned, Passed)
      else if !io.writeOk then Step(cleaned, WriteFailed)
      else Step(cleaned[received := current], Mismatch)
  }

  /** A baseline that differs from the rendered case only in its trailing
      newlines (both are some text `c` followed by newlines) passes, and a
      stale received file is cleared when its removal succeeds. */
  lemma ApprovePassesOnSameUpToTrailingNewlines(d: DocAsTest, fs: FileSystem, io: IoResults, c: string, i: nat, j: nat)
    requires ApprovedFilename(d) in fs && io.readOk
    requires fs[ApprovedFilename(d)] == c + Newlines(i) && Content(d) == c + Newlines(j)
    ensures Approve(d, fs, io).outcome == Passed
    ensures io.removeOk ==> ReceivedFilename(d) !in Approve(d, fs, io).fs
  {
    TrimIgnoresTrailingNewlines(c, i);
    TrimIgnoresTrailingNewlines(c, j);
  }

  /** An approved file saved with one final newline after the rendered case
      passes. */
  lemma ApprovePassesWithFinalNewline(d: DocAsTest, fs: FileSystem, io: IoResults)
    requires ApprovedFilename(d) in fs && fs[ApprovedFilename(d)] == Content(d) + "\n"
    requires io.readOk
    ensures Approve(d, fs, io).outcome == Passed
  {
  }

  /** Without an approved file a case never passes; when the write succeeds
      the received file holds the whole trimmed render. */
  lemma ApproveFirstRunFails(d: DocAsTest, fs: FileSystem, io: IoResults)
    requires ApprovedFilename(d) !in fs
    ensures Approve(d, fs, io).outcome != Passed
    ensures io.writeOk ==> Approve(d, fs, io).outcome == Mismatch
    ensures io.writeOk ==> Approve(d, fs, io).fs[ReceivedFilename(d)] == TrimEndNewlines(Content(d))
  {
    ContentNeverTrimsEmpty(d);
  }

  /** Accepting the received file as the new approved file makes the next
      run pass, and clear the received file when its removal succeeds. */
  lemma ApproveAfterAcceptingReceived(d: DocAsTest, fs: FileSystem, io: IoResults, io': IoResults)
    requires Approve(d, fs, io).outcome == Mismatch
    requires io'.readOk
    ensures var fs1 := Approve(d, fs, io).fs;
            var fs2 := fs1[ApprovedFilename(d) := fs1[ReceivedFilename(d)]];
            Approve(d, fs2, io').outcome == Passed
            && (io'.removeOk ==> ReceivedFilename(d) !in Approve(d, fs2, io').fs)
  {
  }

  /** Re-running a case against the files it left behind changes nothing
      when every I/O call succeeds: a pass stays a pass with no received
      file, and a mismatch leaves the same received file. */
  lemma ApproveRerunIsStable(d: DocAsTest, fs: FileSystem, io: IoResults)
    requires io.readOk && io.removeOk && io.writeOk
    requires Approve(d, fs, io).outcome in {Passed, Mismatch}
    ensures Approve(d, Approve(d, fs, io).fs, io) == Approve(d, fs, io)
  {
    var s := Approve(d, fs, io);
    var s' := Approve(d, s.fs, io);
    assert Baseline(s.fs, ApprovedFilename(d)) == Baseline(fs, ApprovedFilename(d)) by {
      ReceivedIsNotApproved(d);
    }
    assert s'.fs.Keys == s.fs.Keys;
  }

  /** Two cases with different test names under the same directory and
      extension never touch each other's paths. */
  lemma ApproveIsolatesCases(d: DocAsTest, other: DocAsTest, fs: FileSystem, io: IoResults, kind: FileKind)
    requires d.docsPath == other.docsPath && d.docsExtension == other.docsExtension
    requires d.testName != other.testName
    ensures var p := Filename(other.docsPath, other.testName, kind, other.docsExtension);
            (p in Approve(d, fs, io).fs <==> p in fs)
            && (p in fs ==> Approve(d, fs, io).fs[p] == fs[p])
  {
    FilenameInjective(d.docsPath, d.docsExtension, d.testName, Received, other.testName, kind);
  }
}
