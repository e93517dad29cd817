# jpgmover collection phase, in Dafny

This project models the collection phase of `boojongmin.jpgmover.Main`, a
tool that copies the images under a source tree into a destination tree,
bucketed by camera model and capture day, keeping only one copy of
byte-identical files. The collection phase is modelled as one sequential
pass, one file at a time in walk order:

1. **Walk and filter** (`Walker`, `Pipeline`). The directory tree is walked
   depth-first in listing order. Every non-directory entry is dispatched
   once. Only entries whose probed content type starts with `"image"` go on.
2. **Metadata selection** (`Metadata`, `ExifDate`, `Digits`). The Exif IFD0
   tags are scanned in order. A `Model` tag overwrites the camera model. A
   `Date/Time` tag is parsed with the Exif layout `yyyy:MM:dd HH:mm:ss` and
   overwrites the capture time. The first `Date/Time` tag that does not
   parse abandons the file.
3. **Dedup-and-group index** (`GroupingIndex`). The index is a set of seen
   fingerprints plus a map from group key to an ordered list of records. A
   file with a new fingerprint is marked seen and appended under
   `model + "/" + yyyyMMdd(created)`. A repeated fingerprint changes nothing.
   A file with no capture time is marked seen, but building its key throws,
   so no record is filed.
4. **Report** (`Report`). This covers the integer part of the report: the
   printed "image count" and the byte total.

The fingerprint, content type, tag list and file size are inputs of the
model (`Metadata.FileInfo`). The file tree is a value (`Walker.Entry`). The
whole phase is the pure fold `Pipeline.Organize`.

An unset camera model becomes the text `"null"` in the group key. Java
string concatenation at Main.java:171 prints a null reference that way.
The report's "total image count" is the number of group keys, not the
number of records; see Findings.

## Model

| member | source | states |
|---|---|---|
| Digits.ToNatPad | src/main/java/boojongmin/jpgmover/Main.java:170-171 | a number written with a fixed count of zero-padded digits reads back as itself when it fits |
| Digits.PadToNat | src/main/java/boojongmin/jpgmover/Main.java:148 | a digit field read as a number and written back at its width gives the original text |
| ExifDate.ParseDateTime | src/main/java/boojongmin/jpgmover/Main.java:148-156 | a successful parse yields an in-range calendar instant whose canonical `yyyy:MM:dd HH:mm:ss` text is exactly the first 19 characters of the input, and the input ends there or goes on with a non-digit |
| ExifDate.WideSecondsRejected | src/main/java/boojongmin/jpgmover/Main.java:148-156 | a seconds field wider than two digits is rejected rather than cut to its first two digits, so "2020:01:02 23:59:599999" is not read as 23:59:59 on 2 January 2020 |
| ExifDate.ParseFormat | src/main/java/boojongmin/jpgmover/Main.java:148-156 | every valid instant is parsed back from its canonical text followed by any suffix that does not start with a digit |
| ExifDate.DaySegmentFromText | src/main/java/boojongmin/jpgmover/Main.java:170-171 | the `yyyyMMdd` day segment of a parsed timestamp is its date text with the colons removed |
| ExifDate.FormatDayInjective | src/main/java/boojongmin/jpgmover/Main.java:170-171 | two timestamps get the same day segment exactly when they fall on the same year, month and day |
| ExifDate.FormatDay | src/main/java/boojongmin/jpgmover/Main.java:170-171 | the day segment is eight digits whose first four read back as the year, next two as the month and last two as the day |
| Metadata.ScanTags | src/main/java/boojongmin/jpgmover/Main.java:151-160 | the scan succeeds exactly when every `Date/Time` tag parses; on failure the error carries the description of the first `Date/Time` tag that does not parse; on success the model is the last `Model` tag's description and the timestamp the parse of the last `Date/Time` tag, each kept from before when no such tag exists |
| Metadata.SelectMeta | src/main/java/boojongmin/jpgmover/Main.java:145-160 | from an empty record: the model is set exactly when a `Model` tag exists, the capture time exactly when a `Date/Time` tag exists, each from the last such tag; failure exactly when some `Date/Time` tag does not parse, with the first such tag's description as the error |
| Metadata.ReadMetaInfo | src/main/java/boojongmin/jpgmover/Main.java:146-160 | the file is kept exactly when the reader returns a tag list and every `Date/Time` tag in it parses; a reader failure gives the reader error, any other failure names the description of the first `Date/Time` tag that does not parse; a kept record is about this file, has a model exactly when a `Model` tag exists (the last one's description) and a capture time exactly when a `Date/Time` tag exists (the parse of the last one) |
| GroupingIndex.GroupKey | src/main/java/boojongmin/jpgmover/Main.java:169-171 | a record without a capture time has no key (the format call throws); otherwise the key is the model text, then the separator, then the eight-digit day segment |
| GroupingIndex.GroupKeyInjective | src/main/java/boojongmin/jpgmover/Main.java:170-171 | two dated records share a key exactly when their model texts and capture days agree |
| GroupingIndex.PutInfo | src/main/java/boojongmin/jpgmover/Main.java:169-173 | the record is appended at the end of its key's list; a new key starts a one-element list; every other key and list is unchanged; an undated record fails |
| GroupingIndex.Register | src/main/java/boojongmin/jpgmover/Main.java:161-165 | a seen fingerprint leaves the index unchanged; a new one is added to the seen set, and the record is filed only when it has a capture time |
| GroupingIndex.MapSumPick | src/main/java/boojongmin/jpgmover/Main.java:72-78 | a sum over the group map can be taken apart at any key, so the iteration order of the map does not matter |
| GroupingIndex.PutInfoTotals | src/main/java/boojongmin/jpgmover/Main.java:172 | filing a record raises the record count by one and the byte total by its size |
| GroupingIndex.PutInfoValid | src/main/java/boojongmin/jpgmover/Main.java:161-173 | filing a dated record with an unseen fingerprint keeps the index invariant: lists are non-empty, each record is under its own key with its fingerprint seen, no two records share a fingerprint, and there are no more records than seen fingerprints |
| GroupingIndex.RegisterValid | src/main/java/boojongmin/jpgmover/Main.java:161-165 | every registration keeps the index invariant and never shrinks the seen set |
| Walker.PathAt | src/main/java/boojongmin/jpgmover/Main.java:175-181 | every dispatch position comes from a non-directory entry of the tree, found by a path of child indices |
| Walker.WalkAllSplit | src/main/java/boojongmin/jpgmover/Main.java:177-180 | the dispatches of a directory are those of its children in listing order: everything before child `j`, then child `j`'s own, then everything after |
| Walker.PositionCorrect | src/main/java/boojongmin/jpgmover/Main.java:175-193 | the file at each non-directory path is dispatched, at the position the walk order gives it |
| Walker.PositionInjective | src/main/java/boojongmin/jpgmover/Main.java:175-181 | distinct non-directory entries are dispatched at distinct positions |
| Walker.WalkDispatchesEachFileOnce | src/main/java/boojongmin/jpgmover/Main.java:175-193 | dispatches and non-directory entries correspond one to one, and each dispatch carries its entry's file |
| Pipeline.NonImageChangesNothing | src/main/java/boojongmin/jpgmover/Main.java:183-188 | a file whose content type is absent or does not start with "image" leaves the index unchanged |
| Pipeline.IsImageExamples | src/main/java/boojongmin/jpgmover/Main.java:187 | the filter is a case-sensitive prefix test: `image/jpeg` and `image` pass; `text/plain`, `Image/png`, `imag` and an absent type do not |
| Pipeline.BadMetadataChangesNothing | src/main/java/boojongmin/jpgmover/Main.java:135-160 | an unreadable metadata block or an unparsable `Date/Time` tag abandons the file before its fingerprint is examined, and the caught exception leaves seen set and map unchanged |
| Pipeline.DuplicateChangesNothing | src/main/java/boojongmin/jpgmover/Main.java:161-165 | a file whose fingerprint is already seen leaves seen set and map unchanged |
| Pipeline.NewFingerprintRegistered | src/main/java/boojongmin/jpgmover/Main.java:161-173 | an admitted file with a new fingerprint is added to the seen set; if dated, its record becomes the last element of its key's list, with that list's earlier elements and every other list unchanged and no key added but its own; if undated, the map is unchanged |
| Pipeline.Process | src/main/java/boojongmin/jpgmover/Main.java:135-143 | a metadata failure is caught and leaves the index as it was; a seen fingerprint leaves it as it was; otherwise the record read from the file is registered, and the seen set grows by the fingerprint exactly when the metadata was read |
| Pipeline.Dispatch | src/main/java/boojongmin/jpgmover/Main.java:182-192 | one dispatched file changes nothing unless it is an image whose metadata was read; the seen set gains its fingerprint exactly in that case; a seen fingerprint changes nothing |
| Pipeline.Run | src/main/java/boojongmin/jpgmover/Main.java:175-193 | dispatching files in walk order never shrinks the seen set, and a list with no admitted file leaves the index unchanged |
| Pipeline.RunIgnoresNonImages | src/main/java/boojongmin/jpgmover/Main.java:182-188 | running over a file list gives the same index as running over its image files alone |
| Pipeline.RunSeen | src/main/java/boojongmin/jpgmover/Main.java:161-163 | after a run, the seen set is the initial one plus exactly the fingerprints of the files that reached the fingerprint check |
| Pipeline.RunValid | src/main/java/boojongmin/jpgmover/Main.java:161-173 | every run keeps the index invariant |
| Pipeline.RunAppendOnly | src/main/java/boojongmin/jpgmover/Main.java:172 | a run only appends: every key survives, and each earlier list is a prefix of the later one |
| Pipeline.Organize | src/main/java/boojongmin/jpgmover/Main.java:31-34 | the index left by the collection phase over a tree satisfies the index invariant (lists non-empty, records under their own keys, fingerprints unique, no more records than seen fingerprints), and its seen set is exactly the fingerprints of the admitted files of the walk |
| Pipeline.FirstWriterWins | src/main/java/boojongmin/jpgmover/Main.java:161-173 | the first admitted, dated file with a fingerprint has its record filed under its key in the final index, and from a valid start it is the only record there with that fingerprint |
| Pipeline.MissingDateBlocksLaterCopies | src/main/java/boojongmin/jpgmover/Main.java:161-171 | when the first admitted file with a fingerprint has no `Date/Time` tag, that fingerprint ends up seen and no record anywhere in the final index carries it, so every later copy, however far down the walk, is dropped |
| Report.SumList | src/main/java/boojongmin/jpgmover/Main.java:73-76 | the per-list stream sum equals the sum of the sizes of the list's records |
| Report.SumGroups | src/main/java/boojongmin/jpgmover/Main.java:72-78 | adding per-list amounts key by key in any order gives the total over the map |
| Report.PrintReport | src/main/java/boojongmin/jpgmover/Main.java:70-79 | the printed count is the number of group keys; the byte total is the sum of the sizes of all records across all lists |
| Report.CorrectedReport | src/main/java/boojongmin/jpgmover/Main.java:71 | the count is the number of records across all groups; the byte total is as in the report |
| Report.SameKeyTwoRecords | src/main/java/boojongmin/jpgmover/Main.java:169-173 | two records with distinct fingerprints and one key, registered into an empty index, make one group of two records |
| Report.GroupCountUndercounts | src/main/java/boojongmin/jpgmover/Main.java:71 | two distinct admitted images with the same key give one group key but two records |
| Report.SameDayPhotosReportOneImage | src/main/java/boojongmin/jpgmover/Main.java:71 | two different photos from camera "X100" taken 2020:01:02 10:00:00 give a printed image count of 1 and two records |

## Findings

| source | as written | input that shows it | evidently intended | confidence | as-written member | corrected member |
|---|---|---|---|---|---|---|
| src/main/java/boojongmin/jpgmover/Main.java:71 | prints `result.size()`, the number of model/day groups, as "total image count" | two different photos from camera "X100", both taken 2020:01:02 10:00:00, give one group, so the count printed is 1 | the number of retained records, here 2 | high; not executed | Report.PrintReport, shown by Report.GroupCountUndercounts and Report.SameDayPhotosReportOneImage | Report.CorrectedReport |

## Left out

- Concurrency: the `ForkJoinPool` dispatch, the `awaitTermination` barrier and the concurrent map and set are left out. Files are processed one at a time in walk order, and check-and-insert on the seen set is one atomic step. The source's separate `contains` and `add` calls can race, and that race is not modelled.
- Copy phase (`moveJpg`, `moveJpgWithErrorHandling`): directory creation, `Files.copy` with replace semantics, and the per-group `shutdown`/`awaitTermination` calls on the common pool (a no-op and a wait for quiescence) are filesystem I/O and concurrency.
- Filesystem I/O: `listFiles`, `isDirectory`, `probeContentType`, `File.length` and `readAllBytes` are left out. The tree, content type and size are inputs. A probe that throws is treated like one that returns nothing, because both skip the file.
- Walker.Walk: an unreadable directory makes `listFiles()` return null in the source, and the resulting exception ends the walk. The model takes every directory as listable and the tree as finite and acyclic, so symbolic-link cycles are not covered.
- Fingerprint: SHA-256 is a foreign call, so the fingerprint is an opaque input string. A failure to read the bytes is not modelled.
- Exif parsing: the metadata reader is a foreign library. Its output is the ordered list of IFD0 tags from all IFD0 directories, or `None` when it throws. A null tag description is not modelled.
- ExifDate.ParseDateTime: `SimpleDateFormat` leniency is not modelled. The model parses strictly: four-digit year from 1 to 9999, in-range month, day (Gregorian days per month), hour, minute and second, with fixed-width fields. Out-of-range fields that Java would roll over, fields of other widths, blanks before a numeric field (which `SimpleDateFormat` skips even when not lenient, so " 2020:01:02 10:00:00" parses there and fails here), time zones, a default locale with another calendar or other digits (a Thai locale uses the Buddhist calendar), and the Julian calendar before 1582 count as parse failures or are out of scope. A suffix after the 19th character that does not start with a digit is ignored, as in `DateFormat.parse(String)`; a digit there would widen the seconds field, so such text is a parse failure.
- GroupingIndex.Separator: fixed to "/", the value of `File.separator` on Unix-like systems.
- Report.PrintReport: does not model the 64-bit wrap-around of the `long` sum, which would need more than 9.2 exabytes. The division into megabytes is floating point and is left out, and so is all printing.
- Report.PrintReport: the model reports over the index the whole pass ends with. The program calls `printReport` (Main.java:34) right after `walkFiles` returns and before `pool.shutdown` and `awaitTermination` (Main.java:36-38), so it prints over whatever the dispatched tasks have filed by then.
- Timing and console output (`elapsedTimeChecker`, `FacadConsumer`) and argument checking with `System.exit` (`checkInput`) are I/O.
