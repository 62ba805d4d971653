# DocAsTest approval engine, in Dafny

This project models the approval engine of the `doc_as_test` Rust crate: the
`DocAsTest` case record and its operations.

- `new` creates a case from a title and a test name.
- `write` appends text fragments.
- `content` renders the document as `= {name}`, a blank line, then the body.
- `approve` compares the rendered document with the approved file and then
  either returns or fails.

The comparison works like this. The approved file is read, and a missing file
counts as empty. Trailing `'\n'` characters are stripped from both sides. Any
stale received file is deleted. Then the texts are compared. When they are
equal, `approve` returns. Otherwise it writes the trimmed render to the
received file and panics.

The modules follow the structure of the crate:

- `Trim` (`trim.dfy`) models `trim_end_matches('\n')` and proves its properties.
- `Doc` (`doc.dfy`) holds the case record with `new`, `write` and `content`.
- `Paths` (`paths.dfy`) derives the received and approved file names. It also
  has an inverse parser, used to prove that distinct test names never yield
  the same path string.
- `Options` (`options.dfy`) is the `Option` type used for a read that may fail.
- `Approval` (`approval.dfy`) holds `get_file_contents`, stale-file removal
  and `approve`. `approve` is a pure function from a filesystem to a new
  filesystem plus an outcome.

The filesystem is a `map<string, string>` from path to contents. It has no
directories. `Path::exists` is membership in the map. The caller supplies, as
the flags of `IoResults`, whether each of the three I/O calls succeeds:
`read_to_string`, `remove_file` and `write`. Each panic becomes an `Outcome`:

- `Passed`: `approve` returns.
- `Mismatch`: it panics with "Strings are not identical" after writing the
  received file.
- `ReadFailed`: reading an existing approved file failed.
- `WriteFailed`: writing the received file failed.

The code does not capitalise the title, keeps `::` in the test name, creates
no directory and computes no line diff:

- The title is rendered exactly as given. It is not capitalised and
  underscores are not replaced.
- The test name goes into the file name verbatim. The `::` that the attribute
  macro puts into it (`module_path::fn_name`, doc_as_test_derive/src/lib.rs:19)
  is not turned into `/`. `Paths.ExampleFilenames` shows this.
- No parent directory is created. If `./docs` is missing, the write fails and
  the case ends as `WriteFailed`.
- No line-level diff is computed. The mismatch panic carries a fixed message.

## Model

| member | source | states |
|---|---|---|
| Doc.New | doc_as_test/src/lib.rs:14-22 | a fresh case stores name and test name verbatim, has an empty body, and uses directory "./docs" and extension "adoc" |
| Doc.Write | doc_as_test/src/lib.rs:24-26 | the new body is the old body followed by the fragment; name, test name, directory and extension are unchanged |
| Doc.WriteAllAppends | doc_as_test/src/lib.rs:24-26 | a sequence of writes appends the fragments in call order with no separator and changes no other field |
| Doc.Content | doc_as_test/src/lib.rs:28-30 | the render is "= ", the name, "\n\n", then the body, and its length is the sum of those parts |
| Doc.ContentNeverTrimsEmpty | doc_as_test/src/lib.rs:28-30 | a rendered document never trims to the empty string, because it starts with '=' |
| Doc.ContentAfterWrite | doc_as_test/src/lib.rs:24-30 | rendering after a write equals the earlier render followed by the fragment |
| Doc.ContentOfNewCase | doc_as_test/src/lib.rs:14-30 | a new case plus writes renders as its title header followed by the concatenated fragments |
| Doc.ExampleThreeWrites | doc_as_test/src/lib.rs:104-112 | the crate's test writing "x", "y", "z" renders "= Using DocAsTest\n\nxyz" |
| Trim.TrimEndNewlines | doc_as_test/src/lib.rs:45-49 | the result is a prefix of the input that does not end in '\n', and everything removed is '\n' |
| Trim.TrimEndNewlinesUnique | doc_as_test/src/lib.rs:45-49 | any prefix with those three properties is the trimmed string, so the contract defines trimming completely |
| Trim.TrimKeepsNonNewlines | doc_as_test/src/lib.rs:45-49 | every character that is not '\n' keeps its position inside the trimmed string, so leading and interior text is untouched |
| Trim.TrimIdempotent | doc_as_test/src/lib.rs:45-49 | trimming twice gives the same result as trimming once |
| Trim.TrimIgnoresTrailingNewlines | doc_as_test/src/lib.rs:45-49 | appending any number of newlines does not change the trimmed string |
| Trim.TrimDecomposes | doc_as_test/src/lib.rs:45-49 | every string is its trimmed form followed only by newlines |
| Trim.SameTrimIff | doc_as_test/src/lib.rs:45-49 | two strings trim to the same text exactly when they differ only in their runs of trailing newlines |
| Paths.ParseFilename | doc_as_test/src/lib.rs:34-41 | a file name the parser accepts is exactly the file name built from the test name and kind it returns |
| Paths.ParseFilenameRoundTrip | doc_as_test/src/lib.rs:34-41 | parsing "{dir}/{test}_received.{ext}" or "{dir}/{test}_approved.{ext}" gives back the test name and the kind |
| Paths.FilenameInjective | doc_as_test/src/lib.rs:34-41 | in one directory with one extension, two file names are equal exactly when the test names and the kinds are equal |
| Paths.ReceivedIsNotApproved | doc_as_test/src/lib.rs:34-41 | a case's received and approved file names always differ |
| Paths.ExampleFilenames | doc_as_test/src/lib.rs:34-41 | for test name "tests::t" the files are "./docs/tests::t_received.adoc" and "./docs/tests::t_approved.adoc", with "::" kept |
| Approval.GetFileContents | doc_as_test/src/lib.rs:75-83 | a missing file reads as ""; an existing file yields its contents when the read succeeds and a failure otherwise |
| Approval.RemoveStale | doc_as_test/src/lib.rs:51-58 | the received file is gone afterwards unless its removal failed; every other file is unchanged |
| Approval.Approve | doc_as_test/src/lib.rs:32-73 | a read failure aborts before anything changes; the case passes exactly when the trimmed render equals the trimmed baseline; a mismatch leaves the trimmed render in the received file; a pass or a failed write leaves no received file unless removal failed; no file other than the received one ever changes, so the approved file is never written |
| Approval.ApprovePassesOnSameUpToTrailingNewlines | doc_as_test/src/lib.rs:45-62 | a baseline that differs from the render only in trailing newlines passes, and the stale received file is cleared when removal succeeds |
| Approval.ApprovePassesWithFinalNewline | doc_as_test/src/lib.rs:45-62 | an approved file holding the render plus one final newline passes |
| Approval.ApproveFirstRunFails | doc_as_test/src/lib.rs:75-83 | with no approved file a case never passes; when the write succeeds it is a mismatch and the received file holds the whole trimmed render |
| Approval.ApproveAfterAcceptingReceived | doc_as_test/src/lib.rs:45-72 | copying the received file over the approved file makes the next run pass, and clear the received file when its removal succeeds |
| Approval.ApproveRerunIsStable | doc_as_test/src/lib.rs:51-72 | when all I/O succeeds, a rerun against the files a pass or a mismatch left behind gives the same files and the same outcome |
| Approval.ApproveIsolatesCases | doc_as_test/src/lib.rs:34-72 | approving one case never changes the map entry at any path of a case with a different test name in the same directory with the same extension |

## Left out

- The attribute macro in doc_as_test_derive/src/lib.rs is compile-time token rewriting. It builds the case from the attribute text as the title and `module_path::fn_name` as the test name, then calls `approve` after the body. The model covers only the calls it makes.
- Real filesystem I/O is replaced by the map and the `IoResults` flags. These flags also cover `read_to_string` rejecting a file that is not UTF-8. Directories, permissions and `Path::exists` on a directory are not modelled.
- Approval.Approve: when `fs::write` fails, the filesystem is taken to be as it was after the stale-file removal. The model has no partially written file.
- The text of the panic messages and the `println!` after a failed removal are not modelled. The outcome constructors stand for them.
- The `approvals` crate test (doc_as_test/src/lib.rs:94-101) calls a foreign library, so it is not modelled.
- Paths are compared as exact strings: no `..` resolution, no case folding, no platform name rules (such as `:` on Windows). Two different path strings that name one file on disk are two files in the model.
- Concurrent cases sharing one test name are not modelled. `Approval.ApproveIsolatesCases` covers cases with distinct test names.
