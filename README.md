# nidbuploader core, modelled in Dafny

nidbuploader is a desktop tool that uploads imaging and EEG files to an NiDB
server. Its window (`MainWindow`, `mainwindow.cpp`) is a Qt form, but it holds
the tool's logic as well. This project models that logic:

- the directory scan: each file is classified as DICOM, EEG, NIfTI/Analyze,
  PAR/REC or unknown; the file table is filtered by the selected modality;
  rows get their size column and EEG file names are checked;
- the "upload all" batch planner: it cuts the table into batches of at most
  100 rows and about 500,000,000 bytes;
- per batch, the copy to a temporary directory, the DICOM anonymization plan
  (hashed name and ID, birth date cut to its year or blanked) and the
  one-file anonymizer;
- the upload request, with its action and data-format fields, and the
  upload counters kept by the request and its two reply handlers;
- the transaction number, the `id|label` list replies, the connection list
  and the selected connection, and the elapsed-time display;
- the removal of the selected table rows.

The gdcm reader, writer and anonymizer, SHA-1, the date parser of the
corrected birth-year rule, the file system and the network are parameters of
the model. They appear as functions
(`Session.Codec`, `Classifier.DicomProbe`, `sizeOf`) or as values handed in,
such as a reply or the random names drawn for a batch.

Modules:

- `Text`: Qt string operations on `seq<char>`. These are trimming, case
  mapping, `split`/`join`, `contains`/`endsWith`, and `toInt` (32-bit, 0 when
  the text is not a number). Also decimal and zero-padded printing and
  upper-case hex.
- `Classifier`: `GetFileType`, the scan filter and the size and EEG-name
  rules of `AddFoundFile`.
- `BatchPlanner`: the batch loop of `on_btnUploadAll_clicked`. It also holds
  the loop as written with 32-bit arithmetic (see Findings).
- `Anonymizer`: the tag plan of `AnonymizeAndUpload` and
  `AnonymizeOneFileDumb`.
- `Protocol`: request fields, list replies, connections and `timeConversion`.
- `Removal`: the descending, duplicate-free removal order of
  `on_btnRemoveSelected_clicked`.
- `Session`: class `Uploader`. It holds the window's table and counters as
  fields, and its methods are the scan, the anonymize-and-upload step, the
  reply handlers, the transaction and the row removal.

Where the code and the product's description disagree, the model follows the
code:

- "Upload all" waits while the transaction number is ≤ 0
  (mainwindow.cpp:651-653). A transaction number of 0 never starts an upload.
- Exactly 100 small rows make a first call with rows 0..99 and then a final
  call with an empty list (mainwindow.cpp:681, 694). They are not sent as one
  batch and nothing else.

## Model

| member | source | states |
|---|---|---|
| BatchPlanner.PlanBatches | mainwindow.cpp:656-694 | The loop returns `Plan(sizes)`. The batches, concatenated in call order, are rows 0..n-1, each once and in order. There is always at least one call (the final one). No batch has more than 100 rows. Every batch of two or more rows totals at most 500,000,000 bytes. |
| BatchPlanner.PlanCoversRows | mainwindow.cpp:659-694 | The flattened plan is exactly `0, 1, …, n-1`. |
| BatchPlanner.PlanInRange | mainwindow.cpp:659-662 | Every index in every batch names a table row. |
| BatchPlanner.PlanCountBound | mainwindow.cpp:681 | The plan has at least one batch, and no batch holds more than 100 rows. |
| BatchPlanner.PlanSizeBound | mainwindow.cpp:674-688 | Because of the lookahead, a batch of two or more rows never exceeds 500,000,000 bytes. A single row larger than the limit goes alone. |
| BatchPlanner.PlanIsGreedy | mainwindow.cpp:674-688 | Every batch but the last ends exactly where the flush test first holds. The test is "total plus next row's size > 500,000,000, or 100 rows". No proper prefix of any batch meets it, and a nonempty last batch does not meet it either. |
| BatchPlanner.PlanFinalCall | mainwindow.cpp:681-694 | With no rows the only call gets an empty list. Otherwise the batch holding the last row ends with it. The final call's list is empty exactly when that batch met the flush test, i.e. it exceeded the byte limit or reached 100 rows. |
| BatchPlanner.SmallUpload | mainwindow.cpp:659-694 | Up to 99 rows within the byte limit go as one batch. Exactly 100 such rows give the batch and then an empty final call. |
| BatchPlanner.ColumnSizeReadsText | mainwindow.cpp:663 | Reading the size column back with `toInt` gives the size when it fits in 32 bits, and 0 otherwise. |
| BatchPlanner.AsWrittenWrapJoinsLargeRows | mainwindow.cpp:657-681 | As written, two rows whose sizes fit in 32 bits but whose sum does not are put in one batch: the sum wraps to a negative number. That batch exceeds the limit, whereas the intended plan sends the first row alone. |
| BatchPlanner.AsWrittenHugeRowReadsAsZero | mainwindow.cpp:663-676 | As written, a row larger than 2^31-1 bytes is read as 0 and joins the next row's batch. That batch exceeds the limit, whereas the intended plan sends it alone. |
| BatchPlanner.PlanAsWrittenAgrees | mainwindow.cpp:657-688 | When every row is at most (2^31-1 - 500,000,000)/2 bytes, the loop as written, reading sizes back through `toInt` and summing in 32 bits, gives exactly the intended plan. |
| BatchPlanner.Wrap32 | mainwindow.cpp:657-676 | The 32-bit `int` result of a sum: always in range, and equal to the sum when the sum is in range. |
| Classifier.GetFileType | mainwindow.cpp:406-473 | The classification cascade, with the PAR header read line by line, returns `FileTypeOf`. That is: DICOM when the reader parses the file, then EEG suffixes, then NIfTI suffixes, then `.par`, else Unknown. |
| Classifier.ScanParLines | mainwindow.cpp:454-466 | The line loop returns the header scan `ParScan`. The last "Patient name" line gives the ID, any MRSERIES line sets the modality to MR, and a name line without a value field stops the scan. |
| Classifier.DicomWins | mainwindow.cpp:414-427 | A file the DICOM reader parses is DICOM with the modality and patient ID of tags (0008,0060) and (0010,0020), whatever its name. |
| Classifier.NonDicomModality | mainwindow.cpp:428-470 | A non-DICOM file gets modality EEG, NIFTI, PARREC or MR (for PAR/REC), or "" (Unknown), according to its type. |
| Classifier.UpperEegSuffix | mainwindow.cpp:430 | The EEG test ignores case: `x.CNT` is EEG with the name's patient ID. |
| Classifier.UpperParSuffix | mainwindow.cpp:447-470 | The PAR test is case-sensitive: `x.PAR` is Unknown with an empty modality and keeps the previous file's patient ID. |
| Classifier.StalePatientId | mainwindow.cpp:406-473 | Unknown files, unreadable `.par` files and `.par` files without a "Patient name" line keep the patient ID the previous file left behind. |
| Classifier.ParClassified | mainwindow.cpp:457-460 | A `.par` file is classified exactly when none of its "Patient name" lines lacks a value field. Otherwise the code indexes past the end of the field list. |
| Classifier.ParScanMalformed | mainwindow.cpp:455-461 | The scan stops at a malformed name line exactly when one exists. |
| Classifier.ParScanFirstMalformed | mainwindow.cpp:455-461 | The scan stops at the first malformed name line. |
| Classifier.ParScanModality | mainwindow.cpp:462-464 | The modality is MR exactly when some line contains "MRSERIES"; otherwise it is what it was. |
| Classifier.ParPatientId | mainwindow.cpp:457-460 | The patient ID is the trimmed second non-empty ':' field of the last "Patient name" line. |
| Classifier.NamePatientIdOf | mainwindow.cpp:433-435 | A file named `<id>_<rest>` in any directory yields `id` as its patient ID: the base name's first `_` field. |
| Classifier.ValidEegNameUnderscores | mainwindow.cpp:555-566 | An EEG name is valid exactly when its base name has four or five underscores (five or six fields). |
| Classifier.AcceptsModalitySelection | mainwindow.cpp:379-397 | A selection other than DICOM, PARREC, EEG and NIFTI admits exactly the DICOM files whose modality tag equals it. |
| Classifier.AcceptsTypeSelection | mainwindow.cpp:379-397 | Selecting a type admits the files of that type, plus DICOM files whose modality tag spells it. Unknown files are never admitted. |
| Classifier.RowModality | mainwindow.cpp:383-386 | The modality written into an accepted row equals the file's own modality. |
| Classifier.RecPathOfPlainName | mainwindow.cpp:510-516 | For a plain `<stem>.par` name the REC file is `<stem>.rec`. |
| Classifier.RowSize | mainwindow.cpp:510-528 | The size column holds the file's size for a non-PAR/REC row, and at least that for a PAR/REC row. |
| Classifier.RowSizeOfPlainPar | mainwindow.cpp:510-528 | A row for `<stem>.par` counts the sizes of `<stem>.par` and `<stem>.rec`. |
| Session.FoundRow | mainwindow.cpp:506-567 | The row for an accepted file carries its path, type, modality and patient ID. Its status is "Invalid filename" exactly when EEG is selected and the name breaks the EEG rule, and "Readable" otherwise. Its size is at least the file's size. |
| Session.Uploader.AddFoundFile | mainwindow.cpp:506-545 | One row is appended to the table and one path to the file list; the found count goes up by one and the found bytes by the row's size. |
| Session.Uploader.ScanFile | mainwindow.cpp:372-397 | One file is classified as `FileTypeOf` says. The rows added so far grow by that file's row exactly when the selection accepts it, and the table, file list and found counters stay equal to the initial ones extended by those rows. |
| Session.Uploader.ScanDir | mainwindow.cpp:359-400 | The scan appends the rows of `Scan(found)` to the table and their paths to the file list, and counts them with their total size. It stops at the file whose PAR header has a malformed name line. |
| Session.ScanFromRows | mainwindow.cpp:372-397 | A scan keeps the rows found so far first and adds at most one row per file. Every added row fits the selection: it is never Unknown, it is of the selected type or DICOM, and a DICOM row under a modality selection has that modality. |
| Session.ScanFromStops | mainwindow.cpp:372-397 | A scan stops only at a file that is not DICOM, EEG or NIfTI and whose name ends in `.par`. |
| Session.Uploader.PlanUpload | mainwindow.cpp:656-694 | The batches for the current table, with exact sums, name only table rows and cover every row once, in order. When every row is at most about 820 MB they are exactly the batches of the loop as written, with its 32-bit read-back and sums. |
| Anonymizer.PseudonymNormalized | mainwindow.cpp:797-804 | The hashed value ignores surrounding ASCII whitespace and ASCII letter case: it is computed on the trimmed, lower-cased value. |
| Anonymizer.PseudonymCollisions | mainwindow.cpp:802-804 | Two values get the same pseudonym exactly when their normalized forms hash alike. |
| Anonymizer.PseudonymAlphabet | mainwindow.cpp:802-804 | A pseudonym is made of upper-case hex digits, two per hash byte. |
| Anonymizer.NormalizeIdempotent | mainwindow.cpp:800-801 | Normalizing twice is normalizing once. |
| Anonymizer.BirthYearOfDA | mainwindow.cpp:838-840 | An 8-digit date gives the number of its first four digits as the year. |
| Anonymizer.BirthYearOfDashed | mainwindow.cpp:845-848 | A date with '-' (and no ':', not 8 long) gives its first '-' field read as an integer. |
| Anonymizer.BirthDateStable | mainwindow.cpp:838-857 | Feeding a replaced date "YYYY-00-00" back through the rule gives the same year. |
| Anonymizer.BirthYearDiscardsParse | mainwindow.cpp:850-854 | As written, a date in any other form gives year 0 even when the date parser reads a year from it. The corrected rule gives that year. |
| Anonymizer.BirthYear | mainwindow.cpp:836-854 | The corrected year rule agrees with the code for 8-character, ':' and '-' dates. |
| Anonymizer.PlanBirthDateAsWritten | mainwindow.cpp:836-858 | The replacement birth date is "YYYY-00-00" with the year the code derives from a trimmed date that is 8 long or holds ':' or '-'. |
| Anonymizer.ReplaceList | mainwindow.cpp:796-876 | The plan holds one replacement per ticked box, and only for the name, ID and birth-date tags. |
| Anonymizer.AllOptionsOps | mainwindow.cpp:796-876 | With every box ticked the plan is: name pseudonym, ID pseudonym, year date, "0000-00-00", in that order. |
| Anonymizer.AllOptionsEffect | mainwindow.cpp:796-876 | With every box ticked and every operation accepted, the file is written. It carries the pseudonyms and the blanked birth date, which overrides the year date; every other tag is untouched. |
| Anonymizer.Apply | mainwindow.cpp:1016-1028 | An empty, remove or replace operation changes only its own tag. |
| Anonymizer.ApplyAllValue | mainwindow.cpp:1016-1028 | After a run of operations a tag holds what the last operation on it left, or its old value if none named it. |
| Anonymizer.RunOps | mainwindow.cpp:1015-1028 | The `success && op` loop returns `RunFrom`. |
| Anonymizer.RunFromSucceeds | mainwindow.cpp:1015-1028 | The loop reports success exactly when every operation was accepted, and then all were carried out. |
| Anonymizer.RunFromStops | mainwindow.cpp:1018-1027 | After the first refused operation no later operation is carried out. |
| Anonymizer.AnonymizeOneFileDumb | mainwindow.cpp:985-1047 | The error counter rises by exactly one when the read fails, or when there are operations and the write fails. An unreadable file fails, except in continue mode. An empty plan fails without writing. Success means every operation was accepted and the file was written with all of them. A failed write corrupts the file in place, or removes a separate output. |
| Anonymizer.InPlaceWriteFailure | mainwindow.cpp:1033-1044 | The uploader's in-place write failure leaves a corrupted file and one error. |
| Anonymizer.NoOptionsFails | mainwindow.cpp:1010-1013 | With no box ticked the anonymizer reports failure and leaves the file as it is. |
| Session.DicomResultCases | mainwindow.cpp:778-886 | An unreadable copy counts one error and stays as it is. With no box ticked a readable copy fails without an error. |
| Session.AnonErrorsBound | mainwindow.cpp:730-954 | A batch adds at most one anonymization error per row. |
| Session.UploadPathsOfRows | mainwindow.cpp:742-773 | The upload list is, row by row in batch order, one `.dcm` copy per DICOM row, a `.par` and a `.rec` copy per PAR/REC row, or the row's own path otherwise. |
| Session.KindOf | mainwindow.cpp:635-643 | Copies are DICOM copies exactly for the DICOM modalities, and PAR/REC copies exactly for PARREC. |
| Session.Uploader.AnonymizeBatch | mainwindow.cpp:728-954 | The loop returns `UploadPaths` of the batch. For DICOM it sets each row's status to "Anonymized" or "Error anonymizing" as `AnonRows` says, and adds the copies' errors; other rows and other selections are left alone. |
| Session.Uploader.AnonymizeAndUpload | mainwindow.cpp:708-963 | The batch becomes the last upload list. Its rows are anonymized, with the corrected birth-year rule, and marked as above, and with a usable connection one request goes out carrying exactly the batch's paths and the current transaction number. The sent counters and the uploaded total grow by the path count. Without a connection nothing is sent. |
| Session.Uploader.UploadFileList | mainwindow.cpp:1083-1198 | Without a usable connection it returns 0 and nothing changes. Otherwise the total sent grows by the path count, both last-send counters are set to it, a request is posted, and the uploading flag is set. |
| Session.Uploader.OnGetReplyUpload | mainwindow.cpp:235-284 | The files in flight move to the success counters and the last-send counts go to 0, so balanced counters become settled. The batch's rows read "Upload success". |
| Session.Uploader.OnNetworkError | mainwindow.cpp:295-320 | The files in flight move to the failure counters and the last-send counts go to 0. The batch's rows read "Upload fail". |
| Session.CountersBalance | mainwindow.cpp:1093-1096 | Total sent = successes + failures + files in flight holds when a request is sent with nothing in flight, and each handler settles it. |
| Session.SecondSendLosesCount | mainwindow.cpp:1093-1096 | A second request sent before the first reply breaks that balance. |
| Session.ErrorThenFinishedCounts | mainwindow.cpp:270-312 | The reply handler after the error handler leaves the counters as the error handler set them. |
| Session.FailedBatchShowsSuccess | mainwindow.cpp:280-319 | After both handlers ran for a failed reply, the batch's rows read "Upload success". |
| Session.Uploader.FailedReply | mainwindow.cpp:235-320 | A failed reply as written: failure counters, rows reading "Upload success", and the connection count down by two. |
| Session.Uploader.OnReplyFinished | mainwindow.cpp:235-284 | Corrected reply handler: a reply carrying an error changes nothing; any other reply is handled as a success. |
| Session.Uploader.FailedReplyCorrected | mainwindow.cpp:235-320 | A failed reply with the corrected handler: failure counters, rows reading "Upload fail", connection count down by one. |
| Session.Uploader.StartTransaction | mainwindow.cpp:1639-1676 | The transaction number is reset to 0. A request goes out exactly when the connection list has a selected entry and the current entry gives usable parameters. |
| Session.Uploader.OnGetReplyStartTransaction | mainwindow.cpp:1684-1706 | A blank reply keeps the number; any other reply sets it to the trimmed text read with `toInt`. |
| Session.TransactionAfter | mainwindow.cpp:1703-1706 | A 32-bit transaction number stays a 32-bit number. |
| Session.TransactionOfNumber | mainwindow.cpp:1703-1706 | A reply holding a positive 32-bit number sets it as the transaction number. |
| Session.TransactionOfError | mainwindow.cpp:1693-1706 | An error reply sets the number to 0, so the upload keeps waiting. |
| Session.Uploader.RemoveSelected | mainwindow.cpp:1853-1869 | Removing the selected rows largest first leaves exactly the unselected rows, in order. The table shrinks by the number of distinct selected rows. |
| Session.Uploader.MarkLastUpload | mainwindow.cpp:278-284 | The loop gives every row of the last batch the new status and leaves other rows alone. |
| Session.Uploader.constructor | mainwindow.cpp:6-55 | The window opens with an empty table, zero counters and nothing in flight. |
| Removal.DescendingSpec | mainwindow.cpp:1856-1864 | The removal order holds each selected row exactly once, strictly decreasing. |
| Removal.WithoutLength | mainwindow.cpp:1866-1868 | The remaining rows plus the removed rows account for the whole table. |
| Protocol.ActionOf | mainwindow.cpp:1113-1116 | Every DICOM modality, and NIFTI, is uploaded with action UploadDICOM. |
| Protocol.DataFormat | mainwindow.cpp:1146-1152 | The data format is nonempty exactly for DICOM, PARREC, EEG and NIFTI. |
| Protocol.ActionMatchesFormat | mainwindow.cpp:1113-1152 | A request is announced as non-DICOM exactly when its data format is parrec or eeg. |
| Protocol.FillList | mainwindow.cpp:1487-1503 | The parsing loop fills the drop-down with `ListItems`: one item per comma-separated entry. |
| Protocol.ItemOf | mainwindow.cpp:1494-1502 | An entry's data is its text before the first '\|'. An entry without '\|' is shown as it is. |
| Protocol.ListReplyRoundTrip | mainwindow.cpp:1487-1503 | A reply encoding entries `id\|name` gives back one item "id - name" with data `id` per entry, in order. |
| Protocol.PopulateConnections | mainwindow.cpp:107-118 | The loop lists `ConnectionNames`: one entry per line that has at least three tab-separated fields. |
| Protocol.ConnectionName | mainwindow.cpp:113-117 | A line is listed exactly when it has at least two tabs. |
| Protocol.ConnectionLine | mainwindow.cpp:107-117 | A line is listed as its first three fields joined by commas. |
| Protocol.ConnectionParms | mainwindow.cpp:1053-1076 | With no entries there are no parameters. Otherwise server, user and password are the first three comma fields of the current entry. |
| Protocol.ConnectionRoundTrip | mainwindow.cpp:1070-1074 | A connection saved as a tab-separated line and selected gives back its server, user and password. |
| Protocol.ListedConnectionsParse | mainwindow.cpp:1059-1074 | Every listed connection, once selected, yields parameters. |
| Protocol.ClockOf | mainwindow.cpp:1814-1817 | The duration splits into minutes < 60, seconds < 60 and ms < 1000, with hours·3600000 + minutes·60000 + seconds·1000 + ms = msecs. |
| Protocol.TimeConversionRoundTrip | mainwindow.cpp:1810-1825 | Reading the displayed "hh:mm:ss:mmm" back gives the duration. |
| Protocol.TimeConversionWidths | mainwindow.cpp:1819-1822 | Minutes and seconds are shown in 2 digits and milliseconds in 3. |
| Text.ToIntOfNatString | mainwindow.cpp:663-676 | `toInt` of a decimal size is the size when it fits in 32 bits, and 0 otherwise. |
| Text.FromHexUpper | mainwindow.cpp:802-804 | Upper-case hex text decodes back to the hash bytes, so no information is lost. |
| Text.TrimLowerCommute | mainwindow.cpp:800-801 | Trimming and lower-casing commute. |

## Left out

- The Qt widgets: labels, progress bars, cursors, colours and message boxes. The file table is reduced to its rows; the selected modality and connection are parameters.
- Network plumbing: the multipart body, the proxy, and the reply-reading boilerplate. The instance, project, site, equipment and match-ID-only form fields are not part of the request model.
- The gdcm reader, writer and anonymizer, SHA-1, and the date parser the corrected birth-year rule uses (the code calls `QDate::fromString` but discards its result). They are functions passed in (`Session.Codec`, the `hash` and `parseDate` parameters), with no properties assumed.
- File-system effects: the copies to the temporary directory, `mkpath`, `removeRecursively`, reading and appending `connections.txt`, `output.log` and `idmap.log`. File sizes are a `sizeOf` function passed in.
- `humanReadableSize` and the speed and percent computation in `progressChanged`: floating point.
- `GenerateRandomString`: randomness. The temporary directory and the random copy names are inputs of `Session.Uploader.AnonymizeAndUpload`.
- The commented-out PAR/REC rewrite (mainwindow.cpp:889-949): it is dead code.
- The polling waits (mainwindow.cpp:651-653, 961-963, 1169-1179) and the ordering of Qt signals. They coordinate asynchronous work. The reply handlers are methods that a caller invokes in any order; `Session.Uploader.ReadyToUpload` states the condition the first wait spins on.
- `EndTransaction`, and the connection-management buttons besides the listing: they only send a request or edit `connections.txt`.
- The undefined behaviour in the code is modelled as explicit outcomes, not as crashes. This covers a "Patient name" line without a value (`Classifier.Classified.MalformedPatientLine`, `Session.ScanEnd.Stopped`), no current connection item (`Protocol.ConnParms.NoCurrentItem`) and a connection entry with fewer than three fields (`Protocol.ConnParms.ShortEntry`). One crash is not modelled: a reply handler relabels the rows of the last batch without checking them (mainwindow.cpp:280-283, 314-317), so if rows were removed while the reply was pending it dereferences a null item. `Session.Uploader.OnGetReplyUpload`, `OnNetworkError` and `MarkLastUpload` require every row of the last batch to be in the table.
- The seven upload counters are kept as one `Session.Stats` value, the field `sent`. `numBytesSentTotal` is never changed by the code and is not modelled.
- Protocol.ClockOf: takes `msecs` as a natural number. A negative duration, where C++ division truncates toward zero, is not modelled.
- Anonymizer.ReplaceList: its contract states the plan's length and its tags. The exact contents are stated only for all boxes ticked (`Anonymizer.AllOptionsOps`).
- Session.Uploader.ScanDir: the file list comes from the directory iterator as a sequence, and directories are already skipped.
- Session.Uploader.OnGetReplyUpload: `numNetConn` is an unbounded integer; the reply text is only logged and is not modelled. It requires the last batch's rows to be in the table, so the null-item crash after a removal during the reply (see above) is not modelled.
- Anonymizer.PseudonymNormalized: trimming and lower-casing (`Text.Trim`, `Text.Lower`) cover ASCII whitespace and ASCII letters only, whereas QString's `trimmed()` and `toLower()` are Unicode-aware. "ÉMILE" and "émile", or a name padded with U+00A0, get one pseudonym from the code but two in the model. The same restriction applies to the lower-cased EEG suffix test of `Classifier.GetFileType`.
- Session.Uploader.AnonymizeAndUpload: the DICOM plan uses the corrected birth-year rule (`Anonymizer.BirthYear`). For a trimmed birth date that is not 8 long and holds neither ':' nor '-' and that the date parser reads, the model writes the parsed year where the code writes "0-00-00" (see Findings). For all other dates the two agree (`Anonymizer.PlanBirthDateAsWritten`).
- Session.Uploader.PlanUpload: it uses the corrected planner with exact sums. For a table with a row of more than about 820 MB it may differ from the code, which reads sizes back through 32 bits and sums them in 32 bits (see Findings); otherwise the two agree (`BatchPlanner.PlanAsWrittenAgrees`).

## Findings

| source | as written | input that shows it | evidently intended | confidence | as-written member | corrected member |
|---|---|---|---|---|---|---|
| mainwindow.cpp:657-676 | `currentUploadSize` and `compareSize` are 32-bit `int`; their sum wraps. | two rows of 1,500,000,000 bytes: the sum wraps negative, so both rows go in one 3 GB batch | the flush test on the true sum, sending the first row alone | not executed | BatchPlanner.AsWrittenWrapJoinsLargeRows | BatchPlanner.PlanSizeBound |
| mainwindow.cpp:663-676 | The size column is read back with `toInt`, which gives 0 above 2^31-1. | a 3,000,000,000-byte row followed by a 400,000,000-byte row: the first reads as 0 and both go in one batch | the row's true size, sending the large row alone | not executed | BatchPlanner.AsWrittenHugeRowReadsAsZero | BatchPlanner.PlanBatches |
| mainwindow.cpp:852-854 | `dob.fromString(tagVal)` discards the parsed date, so `dob` stays null and `year()` is 0. | birth date "Fri Jan 2 1970" (not 8 long, no ':' or '-'): the tag becomes "0-00-00" | the year the parser reads, here "1970-00-00" | not executed | Anonymizer.BirthYearDiscardsParse | Anonymizer.BirthYear |
| mainwindow.cpp:235-320 | A failed reply emits the error signal and then `finished()`. Both handlers run: the rows end up "Upload success" and `numNetConn` drops by two. | any upload whose network request fails | the reply handler skips a reply that carries an error | not executed | Session.Uploader.FailedReply | Session.Uploader.FailedReplyCorrected |

