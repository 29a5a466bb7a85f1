# comparePackages: the two comparison engines, modelled in Dafny

comparePackages compares two successive snapshots of a record export. Each snapshot is a
directory of newline-delimited JSON record files plus `dict*.json` dictionary files. The
program writes a terse and a verbose update report and a final package report. This project
models the two engines that do the comparing and proves their properties:

- **Record-diff engine** (`updates`, `records.dfy` and `record_diff.dfy`). The old record file
  is read into a map keyed by `id`; the last line with a given id wins. The new file is then
  streamed in file order:
  - an id missing from the map is reported `NEW`;
  - a matched id is deleted from the map, and the first differing field, in the code's fixed
    order, is reported;
  - every id still in the map at the end is reported `DEL`.
- **Schema-diff engine** (the dictionary loop of `report`, `schema_diff.dfy`). Every old field
  is looked up in a working copy of the new document. A found field is deleted from that copy,
  and a type change is recorded when the labels differ. A field that is not found is removed.
  Whatever is left in the copy is added.

Both engines are written as methods with loops over local maps, following the Go code.
Go's `range` over a map has no fixed order, so those loops pick the next key with
`:|` (any key not yet visited). Pure specification functions give each result a meaning:
`IndexOf`, `Stream` and `Judged` for records, `Diff` for dictionaries. The lemmas are about
those functions.

Modules: `Wrappers` (Option, Result), `Records` (the `entry`/`Location` records, the `Reason`
tags, the field-priority chain), `RecordDiff` (index, stream, DEL sweep, the per-file loop),
`SchemaDiff` (document comparison, report names, the per-dictionary loop).

Behaviour of the code that the model keeps, though a reader might expect otherwise:

- Specialties are compared with `reflect.DeepEqual`, so order matters: the same values in
  another order are reported `SPL`. The code's own comment says so. A nil list (missing or
  `null`) also differs from an empty one, so `specialties` is an `Option<seq<string>>`.
- A new file with one id on two lines reports the second copy `NEW`, because the first copy
  already removed the id from the map (`DuplicateNewIdIsNew`).
- A dictionary file that exists only in the old package still gets a section in the report,
  with all three buckets empty. A dictionary only in the new package gets no section.
- Sections are filed under the file name with every `.json` removed. When two old files map
  to the same name, the later file's section replaces the earlier one.

## Model

| member | source | states |
|---|---|---|
| `Records.FirstDiff` | main.go:166-229 | The reported reason is a field that really differs, and every field inspected before it (by `Rank`, the order of the if/else chain) agrees; `None` only when no compared field differs |
| `Records.FirstDiffNoneIffSame` | main.go:222-229 | A matched pair produces no line exactly when the records agree on everything except the ranking position, which is never compared |
| `Records.NpiHidesLaterFields` | main.go:166-170 | A differing Npi is reported as `Npi` whatever else differs (first match wins) |
| `Records.SpecialtiesCompareInOrder` | main.go:223-228 | Reordered specialties are reported `SPL`, and so is a missing list against an empty one |
| `RecordDiff.IndexOf` | main.go:135-142 | The index built from the old file stores each record under its own id, and only records of that file |
| `RecordDiff.Step` | main.go:157-229 | Reading one new record removes its id from the index, and nothing else; it is `NEW` exactly when the id was not indexed, and it is never `DEL`; a matched record's tag is the field chain's verdict `FirstDiff` on the indexed and the new record |
| `RecordDiff.Stream` | main.go:148-232 | Streaming the new file only ever removes entries from the index: every id left was indexed, and its entry is unchanged |
| `RecordDiff.IndexOfKeys` | main.go:135-142 | The old-file index holds exactly the ids of the old file |
| `RecordDiff.IndexLastWins` | main.go:135-142 | An id is indexed to the last line of the old file that carries it |
| `RecordDiff.BuildIndex` | main.go:135-142 | The scanner loop builds exactly `IndexOf(oldFile)` |
| `RecordDiff.ReadNext` | main.go:157-229 | The body of the stream loop for one record is exactly `Step`: `NEW` with the index untouched for an unknown id, otherwise the id deleted and the pair compared |
| `RecordDiff.StreamRest` | main.go:157-164 | After streaming, the index is the old index minus exactly the ids of the new file; entries for other ids are unchanged |
| `RecordDiff.StreamLines` | main.go:148-232 | Streaming never writes `DEL`, and every line it writes names an id of the new file |
| `RecordDiff.StreamIsJudged` | main.go:157-229 | When the new file's ids are distinct, deleting matched ids while streaming gives the same lines as judging every record against the original index |
| `RecordDiff.JudgedNew` | main.go:157-160 | An id is reported `NEW` if and only if it occurs in the new file and not in the index |
| `RecordDiff.JudgedChanged` | main.go:161-229 | A non-`NEW` line names an indexed id with a new record whose comparison gives exactly that reason |
| `RecordDiff.JudgedComplete` | main.go:157-229 | Every new record whose comparison gives a tag is reported with that tag |
| `RecordDiff.StreamIdsDistinct` | main.go:148-232 | When the new file's ids are distinct, no id appears on two streamed lines |
| `RecordDiff.ReportIdsDistinct` | main.go:148-240 | When the new file's ids are distinct, no id appears twice in a file's whole report, DEL lines included |
| `RecordDiff.DuplicateNewIdIsNew` | main.go:157-164 | An unchanged record repeated in the new file is reported `NEW` on its second copy, while the stateless reference reports nothing |
| `RecordDiff.DisjointFiles` | main.go:157-160 | With no id in common, every new record is `NEW` in file order and the whole index is left for the DEL sweep |
| `RecordDiff.IdenticalFiles` | main.go:135-240 | A file with distinct ids compared with itself reports nothing and leaves nothing to delete |
| `RecordDiff.SweepDeleted` | main.go:237-240 | Every id left in the index is reported `DEL` exactly once, in no fixed order, and nothing else is reported |
| `RecordDiff.Updates` | main.go:134-240 | A file's report is the streamed lines in new-file order followed by a DEL sweep of what is left; an id is reported `DEL` if and only if it is in the old file and not in the new one |
| `RecordDiff.UpdatesAll` | main.go:119-132 | Every listed file pair yields its lines, in listing order; the run's terse and verbose reports are these lines joined in order, after one header, and with no listed file no report file is written (the model returns no reports); the run fails at the first file that is missing from either package, and only then |
| `SchemaDiff.FindField` | main.go:300-318 | The inner scan finds the old field's name exactly when it is a key of the working copy |
| `SchemaDiff.CompareDicts` | main.go:294-333 | The loops produce `Diff`: added = new fields not in the old document, removed = old fields not in the new one, changes = fields in both with different labels, mapped from the old label to the new one |
| `SchemaDiff.DiffPartition` | main.go:305-333 | Every field name of either document lands in exactly one of added, removed, changed and unchanged; any other name lands in none |
| `SchemaDiff.DiffSelf` | main.go:305-316 | A document compared with itself reports nothing |
| `SchemaDiff.DiffScenarios` | main.go:305-333 | A field kept with the same label is not reported (a document is a map in the model, so the order of its fields, and hence a moved field, is not represented); a changed label is recorded with the old label as `from` and the new one as `to` |
| `SchemaDiff.ReportNameDropsSuffix` | main.go:268 | Removing every `.json` from `name.json` gives the same section name as removing it from `name` |
| `SchemaDiff.ReportName` | main.go:268 | Every non-overlapping `.json`, scanned left to right, is removed, so a file name containing no `.json` is filed under itself, unchanged |
| `SchemaDiff.Sections` | main.go:267-336 | Every old dictionary gets a section under its report name, the last file winning a shared name; the first old dictionary whose pair cannot be read aborts the run, and only an unreadable pair does |
| `SchemaDiff.FileNext` | main.go:267-336 | One turn of the loop over old dictionaries: the section of file `i` is filed under its report name and keeps every earlier section that no later file replaces; an unreadable pair is the first one and makes the listing unreadable |
| `SchemaDiff.CompareSection` | main.go:275-335 | For one old dictionary: if a same-named new file exists and both documents are readable, the section is their `Diff`; with no counterpart it is empty; an unreadable pair is reported as such |
| `SchemaDiff.Report` | main.go:244-336 | No report when either listing is empty; otherwise the run aborts at the first old dictionary whose pair cannot be read, and only then; else every old dictionary has a section under its report name holding its comparison, the last file winning a shared name |

## Left out

- Archive extraction (`untar`), its goroutines and the channel rendezvous: concurrency and a foreign archive library.
- Opening files, `bufio` scanning and writing, creating the report files, their header lines and their names, and removing the temporary directories: I/O. Each file's report is returned as a sequence of (id, reason) lines. The terse report is that sequence's ids; the verbose report adds the tag to each line.
- The old and new values that the verbose report writes after a scalar tag (for example `NPI 111!=222`): string formatting of values the model already carries.
- JSON decoding of records and dictionaries: the inputs are already-decoded `Entry` values and `map<string, string>` documents. The source ignores decoding errors: a line that is not valid JSON becomes an all-zero record with id 0, and a valid line with a field of the wrong type keeps its other fields and leaves only that field at its zero value. A caller of this model would pass the record as decoded, whichever case applies.
- `UpdatesAll` on a missing file: the source stops with `log.Fatal`, which skips the deferred flushes of the report writers, so the lines of earlier files reach disk only as far as buffering had already written them. The model's `Failure` returns none of those lines, so partly written report files are not captured.
- The runtime type assertions on dictionary descriptors. Each descriptor is reduced to its type label, and a caller passes equal labels for two descriptors that Go compares as equal. For example, two descriptors without `type` both compare as `nil` and get the same label, so they are not reported. The assertions panic only in some cases, which the model does not capture:
  - every old descriptor is asserted to be an object;
  - a new descriptor is asserted to be an object only when the inner scan of some old field reaches it, in map order, so old `{}` against new `{"x": 5}` asserts nothing and reports `x` added;
  - the labels are asserted to be strings only when they differ, so a missing `type` panics only against a different label;
  - two labels of the same uncomparable type (two arrays, or two objects) panic at the comparison itself, even when they are equal; an array or object label against a label of another type (a string, a missing `type`, or the other kind) compares unequal, and the panic comes from the string conversion that follows.
- `utils.FilesFromDirectory` (directory listing with a pattern) and `utils.SlicesDiff` (the added-files/removed-files diff): foreign helpers whose code is not part of this model. Listings are parameters, and the file-set buckets are not computed.
- Rendering of the final report (per-bucket counts, itemised lines). Go's map iteration order for the DEL lines and for the buckets is also left out: DEL lines are only required to be a duplicate-free enumeration, and buckets are sets and maps.
- The argument-count check, timing with `FormatFloat`, the confirmation prompt, and the code that is commented out: user-interface glue, not comparison logic.
- Scanner errors (reported to stderr for the old file, a panic for the new file) are not modelled: the inputs are whole sequences of records.
