/** The state of the uploader window: the file table filled by a directory
    scan, the anonymize-and-upload step for one batch of rows, the upload
    counters kept by the request and its two reply handlers, the transaction
    number, and the removal of selected rows.

    The widgets are reduced to the file table (a sequence of rows); the
    selected modality and the selected connection are parameters. */
module Session {
  import opened Text
  import opened Classifier
  import A = Anonymizer
  import P = Protocol
  import BatchPlanner
  import opened Removal

  /** One row of the file table: file, status column, type, modality,
      patient ID and the size column. */
  datatype Row = Row(path: string, status: string, fileType: string, modality: string,
                     patientId: string, size: nat)

  const Readable: string := "Readable"
  const InvalidFilename: string := "Invalid filename"
  const Anonymized: string := "Anonymized"
  const ErrorAnonymizing: string := "Error anonymizing"
  const UploadSuccess: string := "Upload success"
  const UploadFail: string := "Upload fail"

  // ---------------------------------------------------------------- scan

  /** A file the directory iterator yields (directories are skipped), with
      what the DICOM reader and the text reader make of it. */
  datatype FoundFile = FoundFile(path: string, probe: DicomProbe, par: ParText)

  /** The table row added for an accepted file. Under the EEG selection a
      base name that does not split into 5 or 6 `_` fields is flagged. */
  function FoundRow(path: string, c: Classification, selected: string, sizeOf: string -> nat): (r: Row)
    requires Accepts(c, selected)
    ensures r.path == path && r.fileType == TypeName(c.fileType)
    ensures r.modality == c.modality && r.patientId == c.patientId
    ensures r.status == InvalidFilename <==> selected == "EEG" && !ValidEegName(path)
    ensures r.status == Readable <==> !(selected == "EEG" && !ValidEegName(path))
    ensures r.size >= sizeOf(path)
  {
    var t := TypeName(c.fileType);
    Row(path, if selected == "EEG" && !ValidEegName(path) then InvalidFilename else Readable,
        t, RowModality(c, selected), c.patientId, RowSize(t, path, sizeOf))
  }

  /** How a scan ends: after the last file, or at a file whose PAR header
      has a "Patient name" line without a value, which the code indexes
      past the end of. */
  datatype ScanEnd = Finished | Stopped(file: nat, line: nat)

  datatype ScanResult = ScanResult(rows: seq<Row>, end: ScanEnd)

  /** The scan from file i on; `prevId` is the patient ID left by the
      previous file and `found` the rows added so far. */
  function ScanFrom(files: seq<FoundFile>, i: nat, selected: string, sizeOf: string -> nat,
                    prevId: string, found: seq<Row>): ScanResult
    requires i <= |files|
    decreases |files| - i
  {
    if i == |files| then ScanResult(found, Finished)
    else
      match FileTypeOf(files[i].path, files[i].probe, files[i].par, prevId)
      case MalformedPatientLine(k) => ScanResult(found, Stopped(i, k))
      case Classified(c) =>
        ScanFrom(files, i + 1, selected, sizeOf, c.patientId,
                 if Accepts(c, selected) then found + [FoundRow(files[i].path, c, selected, sizeOf)] else found)
  }

  /** One step of the scan past a file that classifies. */
  lemma ScanFromStep(files: seq<FoundFile>, i: nat, selected: string, sizeOf: string -> nat,
                     prevId: string, found: seq<Row>, c: Classification)
    requires i < |files|
    requires FileTypeOf(files[i].path, files[i].probe, files[i].par, prevId) == Classified(c)
    ensures ScanFrom(files, i, selected, sizeOf, prevId, found) ==
      ScanFrom(files, i + 1, selected, sizeOf, c.patientId,
               if Accepts(c, selected) then found + [FoundRow(files[i].path, c, selected, sizeOf)] else found)
  {
  }

  /** One scan of a directory under the selected modality; the patient ID
      variable starts empty. */
  function Scan(files: seq<FoundFile>, selected: string, sizeOf: string -> nat): ScanResult {
    ScanFrom(files, 0, selected, sizeOf, "", [])
  }

  /** A row a scan may add under the selection: no unknown file, no file of
      another type than the selected one except DICOM files, and a DICOM
      file under a modality selection only when its modality is that
      selection. */
  predicate RowFits(row: Row, selected: string) {
    row.fileType != "Unknown" &&
    (row.fileType == "DICOM" || row.fileType == selected) &&
    (row.fileType == "DICOM" && selected != "DICOM" ==> row.modality == selected)
  }

  /** Every accepted file gives a row that fits the selection. */
  lemma FoundRowFits(path: string, c: Classification, selected: string, sizeOf: string -> nat)
    requires Accepts(c, selected)
    ensures RowFits(FoundRow(path, c, selected, sizeOf), selected)
  {
  }

  /** A scan adds at most one row per file and keeps the rows already found
      first. */
  lemma {:induction false} ScanFromKeeps(files: seq<FoundFile>, i: nat, selected: string,
                                         sizeOf: string -> nat, prevId: string, found: seq<Row>)
    requires i <= |files|
    ensures var r := ScanFrom(files, i, selected, sizeOf, prevId, found).rows;
      |found| <= |r| <= |found| + |files| - i && r[..|found|] == found
    decreases |files| - i
  {
    if i < |files| {
      match FileTypeOf(files[i].path, files[i].probe, files[i].par, prevId)
      case MalformedPatientLine(k) =>
      case Classified(c) =>
        ScanFromStep(files, i, selected, sizeOf, prevId, found, c);
        if Accepts(c, selected) {
          var next := found + [FoundRow(files[i].path, c, selected, sizeOf)];
          ScanFromKeeps(files, i + 1, selected, sizeOf, c.patientId, next);
          assert next[..|found|] == found;
        } else {
          ScanFromKeeps(files, i + 1, selected, sizeOf, c.patientId, found);
        }
    }
  }

  /** Every row a scan adds fits the selection. */
  lemma {:induction false} ScanFromFits(files: seq<FoundFile>, i: nat, selected: string,
                                        sizeOf: string -> nat, prevId: string, found: seq<Row>)
    requires i <= |files|
    ensures var r := ScanFrom(files, i, selected, sizeOf, prevId, found).rows;
      forall k :: |found| <= k < |r| ==> RowFits(r[k], selected)
    decreases |files| - i
  {
    if i < |files| {
      match FileTypeOf(files[i].path, files[i].probe, files[i].par, prevId)
      case MalformedPatientLine(k) =>
      case Classified(c) =>
        ScanFromStep(files, i, selected, sizeOf, prevId, found, c);
        if Accepts(c, selected) {
          var row := FoundRow(files[i].path, c, selected, sizeOf);
          var next := found + [row];
          ScanFromFits(files, i + 1, selected, sizeOf, c.patientId, next);
          ScanFromKeeps(files, i + 1, selected, sizeOf, c.patientId, next);
          FoundRowFits(files[i].path, c, selected, sizeOf);
          var r := ScanFrom(files, i + 1, selected, sizeOf, c.patientId, next).rows;
          assert r[|found|] == r[..|next|][|found|] == row;
        } else {
          ScanFromFits(files, i + 1, selected, sizeOf, c.patientId, found);
        }
    }
  }

  /** The rows a scan adds fit the selection, at most one per file, after
      the rows already found. */
  lemma ScanFromRows(files: seq<FoundFile>, i: nat, selected: string,
                     sizeOf: string -> nat, prevId: string, found: seq<Row>)
    requires i <= |files|
    ensures var r := ScanFrom(files, i, selected, sizeOf, prevId, found).rows;
      |found| <= |r| <= |found| + |files| - i && r[..|found|] == found &&
      forall k :: |found| <= k < |r| ==> RowFits(r[k], selected)
  {
    ScanFromKeeps(files, i, selected, sizeOf, prevId, found);
    ScanFromFits(files, i, selected, sizeOf, prevId, found);
  }

  /** A scan stops only at a .par file that is not DICOM, EEG or NIfTI. */
  lemma {:induction false} ScanFromStops(files: seq<FoundFile>, i: nat, selected: string,
                                         sizeOf: string -> nat, prevId: string, found: seq<Row>)
    requires i <= |files|
    ensures var e := ScanFrom(files, i, selected, sizeOf, prevId, found).end;
      e.Stopped? ==> (i <= e.file < |files| && files[e.file].probe.NotDicom? &&
        IsParPath(files[e.file].path) && !IsEegPath(files[e.file].path) && !IsNiftiPath(files[e.file].path))
    decreases |files| - i
  {
    if i < |files| {
      match FileTypeOf(files[i].path, files[i].probe, files[i].par, prevId)
      case MalformedPatientLine(k) =>
      case Classified(c) =>
        ScanFromStep(files, i, selected, sizeOf, prevId, found, c);
        ScanFromStops(files, i + 1, selected, sizeOf, c.patientId,
                      if Accepts(c, selected) then found + [FoundRow(files[i].path, c, selected, sizeOf)] else found);
    }
  }

  /** The summed size column of some rows. */
  function TotalSize(rows: seq<Row>): nat
    decreases |rows|
  {
    if rows == [] then 0 else TotalSize(rows[..|rows| - 1]) + rows[|rows| - 1].size
  }

  /** The paths of some rows, in table order. */
  function PathsOf(rows: seq<Row>): (r: seq<string>)
    ensures |r| == |rows|
    ensures forall k :: 0 <= k < |rows| ==> r[k] == rows[k].path
    decreases |rows|
  {
    if rows == [] then [] else PathsOf(rows[..|rows| - 1]) + [rows[|rows| - 1].path]
  }

  // ---------------------------------------------------------------- upload counters

  /** The upload counters: files sent in total, with success and with
      failure, bytes sent with success and with failure, and the file and
      "byte" counts of the request in flight. */
  datatype Stats = Stats(sentTotal: nat, sentSuccess: nat, sentFail: nat,
                         bytesSuccess: nat, bytesFail: nat, lastFiles: nat, lastBytes: nat)

  /** A request for n paths goes out: both last-send counts are set to the
      number of paths. */
  function Sent(s: Stats, n: nat): Stats {
    s.(sentTotal := s.sentTotal + n, lastFiles := n, lastBytes := n)
  }

  /** The reply handler: the request in flight counts as a success. */
  function Succeeded(s: Stats): Stats {
    s.(sentSuccess := s.sentSuccess + s.lastFiles, bytesSuccess := s.bytesSuccess + s.lastBytes,
       lastFiles := 0, lastBytes := 0)
  }

  /** The error handler: the request in flight counts as a failure. */
  function Failed(s: Stats): Stats {
    s.(sentFail := s.sentFail + s.lastFiles, bytesFail := s.bytesFail + s.lastBytes,
       lastFiles := 0, lastBytes := 0)
  }

  /** Every file counted as sent is counted once: as a success, as a failure,
      or as part of the request in flight. */
  predicate Balanced(s: Stats) {
    s.sentTotal == s.sentSuccess + s.sentFail + s.lastFiles && s.lastBytes == s.lastFiles
  }

  /** No request in flight. */
  predicate Settled(s: Stats) {
    Balanced(s) && s.lastFiles == 0
  }

  /** A request sent when nothing is in flight keeps the count balanced; each
      handler settles it, moving the files in flight to its own counter. */
  lemma CountersBalance(s: Stats, n: nat)
    requires Balanced(s)
    ensures Settled(s) ==> Balanced(Sent(s, n)) && Sent(s, n).lastFiles == n
    ensures Settled(Succeeded(s)) && Succeeded(s).sentSuccess == s.sentSuccess + s.lastFiles
    ensures Settled(Failed(s)) && Failed(s).sentFail == s.sentFail + s.lastFiles
    ensures Succeeded(s).sentFail == s.sentFail && Failed(s).sentSuccess == s.sentSuccess
  {
  }

  /** A second request sent before the first one's reply overwrites the count
      in flight, and the first request's files are then never counted as a
      success or a failure. */
  lemma SecondSendLosesCount(s: Stats, n: nat)
    requires Balanced(s) && s.lastFiles > 0
    ensures !Balanced(Sent(s, n))
    ensures Balanced(Succeeded(Sent(s, n))) == false
  {
  }

  /** For a reply that ends in an error the error handler runs and then the
      reply handler: the counters stay right, because the error handler has
      already emptied the count in flight. */
  lemma ErrorThenFinishedCounts(s: Stats)
    ensures Succeeded(Failed(s)) == Failed(s)
  {
  }

  // ---------------------------------------------------------------- status relabelling

  /** The rows named in `list` get the status `status`. */
  function Relabel(rows: seq<Row>, list: seq<nat>, status: string): (r: seq<Row>)
    ensures |r| == |rows|
  {
    seq(|rows|, j requires 0 <= j < |rows| => if j in list then rows[j].(status := status) else rows[j])
  }

  /** Relabelling the same rows twice leaves the second label. */
  lemma RelabelTwice(rows: seq<Row>, list: seq<nat>, first: string, second: string)
    ensures Relabel(Relabel(rows, list, first), list, second) == Relabel(rows, list, second)
  {
  }

  /** A failed reply: the rows of the batch show "Upload success" after both
      handlers ran, although the upload failed. */
  lemma FailedBatchShowsSuccess(rows: seq<Row>, list: seq<nat>)
    requires |list| > 0 && list[0] < |rows|
    ensures Relabel(Relabel(rows, list, UploadFail), list, UploadSuccess)[list[0]].status == UploadSuccess
    ensures Relabel(Relabel(rows, list, UploadFail), list, UploadSuccess)[list[0]].status != UploadFail
  {
    RelabelTwice(rows, list, UploadFail, UploadSuccess);
  }

  predicate InTable(list: seq<nat>, rows: seq<Row>) {
    forall k :: 0 <= k < |list| ==> list[k] < |rows|
  }

  // ---------------------------------------------------------------- anonymize and upload

  /** The foreign parts of anonymizing a copied DICOM file: the reader, the
      per-operation verdicts of the anonymizer, the writer's verdict per
      output path, the hash and the date parser. */
  datatype Codec = Codec(read: string -> Option<A.Dataset>, accepts: A.Op -> bool,
                         writeOk: string -> bool, hash: string -> seq<Byte>,
                         parseDate: string -> Option<int>)

  /** One copied DICOM file through the anonymizer, overwritten in place;
      the plan is read from the same file (tags read as empty when it cannot
      be read). */
  function DicomResult(codec: Codec, opts: A.Options, path: string): (r: A.AnonResult)
    ensures r.errors <= 1
    ensures r.success ==> codec.read(path).Some? && codec.writeOk(path)
  {
    var input := codec.read(path);
    var ds: A.Dataset := if input.Some? then input.value else map[];
    A.AnonymizeForUpload(input, opts, A.PlanValuesOf(ds, codec.hash, codec.parseDate), codec.accepts, codec.writeOk(path))
  }

  /** The anonymizer's outcome for each copied file. */
  function Outcomes(codec: Codec, opts: A.Options): string -> A.AnonResult {
    path => DicomResult(codec, opts, path)
  }

  /** A copy the reader cannot read is reported as an error and left as it
      is; with no box ticked a readable copy is left as it is without an
      error, and the row reads "Error anonymizing". */
  lemma DicomResultCases(codec: Codec, opts: A.Options, path: string)
    ensures codec.read(path).None? ==> DicomResult(codec, opts, path) == A.AnonResult(false, A.Untouched, 1)
    ensures codec.read(path).Some? && opts == A.Options(false, false, false, false) ==>
      DicomResult(codec, opts, path) == A.AnonResult(false, A.Untouched, 0)
  {
  }

  /** How the files of a batch are handed over: DICOM files are copied to
      the temporary directory under a random name with suffix .dcm; a PAR
      file is copied with its REC file under one random name; other files
      go as they are. */
  datatype Kind = DicomCopy | ParRecCopy | AsIs

  function KindOf(selected: string): (r: Kind)
    ensures r == DicomCopy <==> P.IsDicomModality(selected)
    ensures r == ParRecCopy <==> selected == "PARREC"
  {
    if P.IsDicomModality(selected) then DicomCopy
    else if selected == "PARREC" then ParRecCopy
    else AsIs
  }

  function PathsPerRow(kind: Kind): nat {
    if kind == ParRecCopy then 2 else 1
  }

  /** The paths one table row contributes to the upload list. */
  function CopyPaths(kind: Kind, tmpDir: string, name: string, path: string): (r: seq<string>)
    ensures |r| == PathsPerRow(kind)
    ensures kind == AsIs ==> r == [path]
  {
    match kind
    case DicomCopy => [tmpDir + "/" + name + ".dcm"]
    case ParRecCopy => [tmpDir + "/" + name + ".par", tmpDir + "/" + name + ".rec"]
    case AsIs => [path]
  }

  /** The upload list of the first `upto` rows of a batch: the rows' paths
      in batch order, `names` being the random names drawn for them. */
  function UploadPaths(kind: Kind, tmpDir: string, rows: seq<Row>, list: seq<nat>, names: seq<string>,
                       upto: nat): (r: seq<string>)
    requires |names| == |list| && InTable(list, rows) && upto <= |list|
    ensures |r| == upto * PathsPerRow(kind)
    decreases upto
  {
    if upto == 0 then []
    else
      UploadPaths(kind, tmpDir, rows, list, names, upto - 1) +
      CopyPaths(kind, tmpDir, names[upto - 1], rows[list[upto - 1]].path)
  }

  /** The status of a DICOM row after its copy went through the anonymizer. */
  function AnonStatus(ok: bool): (s: string)
    ensures s == Anonymized || s == ErrorAnonymizing
  {
    if ok then Anonymized else ErrorAnonymizing
  }

  /** The table after anonymizing the copies of the first `upto` rows of the
      batch, in batch order. */
  function AnonRows(outcome: string -> A.AnonResult, tmpDir: string, rows: seq<Row>,
                    list: seq<nat>, names: seq<string>, upto: nat): (r: seq<Row>)
    requires |names| == |list| && InTable(list, rows) && upto <= |list|
    ensures |r| == |rows|
    ensures forall j :: 0 <= j < |rows| ==> r[j].path == rows[j].path
    ensures forall j :: 0 <= j < |rows| && j !in list ==> r[j] == rows[j]
    ensures forall k :: 0 <= k < upto ==> r[list[k]].status in {Anonymized, ErrorAnonymizing}
    decreases upto
  {
    if upto == 0 then rows
    else
      var n := upto - 1;
      var prev := AnonRows(outcome, tmpDir, rows, list, names, n);
      var ok := outcome(tmpDir + "/" + names[n] + ".dcm").success;
      prev[list[n] := prev[list[n]].(status := AnonStatus(ok))]
  }

  /** The anonymization errors counted for the first `upto` rows of the
      batch. */
  function AnonErrors(outcome: string -> A.AnonResult, tmpDir: string, names: seq<string>, upto: nat): nat
    requires upto <= |names|
    decreases upto
  {
    if upto == 0 then 0
    else AnonErrors(outcome, tmpDir, names, upto - 1) + outcome(tmpDir + "/" + names[upto - 1] + ".dcm").errors
  }

  /** The anonymizer counts at most one error per copied file. */
  lemma OutcomesOneError(codec: Codec, opts: A.Options)
    ensures forall p :: Outcomes(codec, opts)(p).errors <= 1
  {
    forall p
      ensures Outcomes(codec, opts)(p).errors <= 1
    {
      var r := DicomResult(codec, opts, p);
      assert Outcomes(codec, opts)(p) == r;
    }
  }

  /** At most one error is counted per row of the batch. */
  lemma {:induction false} AnonErrorsBound(codec: Codec, opts: A.Options, tmpDir: string, names: seq<string>, upto: nat)
    requires upto <= |names|
    ensures AnonErrors(Outcomes(codec, opts), tmpDir, names, upto) <= upto
  {
    OutcomesOneError(codec, opts);
    ErrorsAtMostOnePerRow(Outcomes(codec, opts), tmpDir, names, upto);
  }

  /** With at most one error per file, at most one error per row. */
  lemma {:induction false} ErrorsAtMostOnePerRow(outcome: string -> A.AnonResult, tmpDir: string,
                                                 names: seq<string>, upto: nat)
    requires upto <= |names|
    requires forall p :: outcome(p).errors <= 1
    ensures AnonErrors(outcome, tmpDir, names, upto) <= upto
    decreases upto
  {
    if upto > 0 {
      ErrorsAtMostOnePerRow(outcome, tmpDir, names, upto - 1);
    }
  }

  /** A DICOM batch sends one copy per row, a PAR/REC batch two files per
      row, any other batch the rows' own paths. */
  lemma {:induction false} UploadPathsOfRows(kind: Kind, tmpDir: string, rows: seq<Row>,
                                             list: seq<nat>, names: seq<string>, upto: nat, k: nat)
    requires |names| == |list| && InTable(list, rows) && k < upto <= |list|
    ensures var r := UploadPaths(kind, tmpDir, rows, list, names, upto);
      match kind
      case DicomCopy => r[k] == tmpDir + "/" + names[k] + ".dcm"
      case ParRecCopy => r[2 * k] == tmpDir + "/" + names[k] + ".par" && r[2 * k + 1] == tmpDir + "/" + names[k] + ".rec"
      case AsIs => r[k] == rows[list[k]].path
    decreases upto
  {
    var n := upto - 1;
    var front := UploadPaths(kind, tmpDir, rows, list, names, n);
    if k < n {
      UploadPathsOfRows(kind, tmpDir, rows, list, names, n, k);
    } else {
      assert |front| == n * PathsPerRow(kind);
    }
  }

  /** A request to the server's upload action. */
  datatype Request = Request(server: string, user: string, password: string, action: P.Action,
                             transactionId: int, dataFormat: string, files: seq<string>)

  // ---------------------------------------------------------------- transaction

  /** The transaction number after the start-transaction reply: a blank
      reply leaves it as it was; otherwise it is the trimmed text read as a
      32-bit integer, 0 when it is not one. */
  function TransactionAfter(current: int, reply: P.Reply): (r: int)
    ensures InInt32(current) ==> InInt32(r)
  {
    var t := Trim(P.ReplyText(reply));
    if t == "" then current else ToInt(t)
  }

  /** A reply whose text is already trimmed and not blank sets the
      transaction number to that text read as an integer. */
  lemma TransactionOfText(current: int, d: string)
    requires |d| >= 1 && Trim(d) == d
    ensures TransactionAfter(current, P.Body(d)) == ToInt(d)
  {
  }

  /** A reply carrying a positive 32-bit number sets it as the transaction. */
  lemma TransactionOfNumber(current: int, n: nat)
    requires 1 <= n <= MaxInt32
    ensures TransactionAfter(current, P.Body(NatToString(n))) == n
  {
    var d := NatToString(n);
    DigitsOfNatToString(n);
    NoSpaceOfDigits(d);
    TrimOfNoSpace(d);
    TransactionOfText(current, d);
    ToIntOfDigits(d);
  }

  /** Trimming a text that starts with a non-space character keeps that
      character first. */
  lemma TrimFirst(s: string)
    requires |s| > 0 && !IsSpace(s[0])
    ensures |Trim(s)| > 0 && Trim(s)[0] == s[0]
  {
    TrimNonBlank(s, 0);
    assert TrimStart(s) == s;
  }

  /** A text that starts with neither a space, a sign nor a digit reads as 0. */
  lemma ToIntOfWord(s: string)
    requires |s| > 0 && !IsSpace(s[0]) && !IsDigit(s[0]) && s[0] != '-' && s[0] != '+'
    ensures ToInt(s) == 0
  {
    TrimFirst(s);
    assert ToInt(s) == ParseTrimmedInt(Trim(s));
    assert !AllDigits(Trim(s));
  }

  /** An error reply sets the transaction number to 0, so the upload keeps
      waiting for a positive one. */
  lemma TransactionOfError(current: int, message: string, status: string)
    ensures TransactionAfter(current, P.NetError(message, status)) == 0
  {
    var text := P.ReplyText(P.NetError(message, status));
    assert text[0] == 'E';
    TrimFirst(text);
    ToIntOfWord(Trim(text));
  }

  // ---------------------------------------------------------------- the window

  class Uploader {
    var rows: seq<Row>
    var files: seq<string>
    var numFilesFound: nat
    var numBytesFound: nat
    var numAnonErrors: nat
    /** The window's seven upload counters: files sent in total, with
        success and with failure, bytes sent with success and with failure,
        and the file and "byte" counts of the request in flight. */
    var sent: Stats
    var numNetConn: int
    var isUploading: bool
    var lastUploadList: seq<nat>
    var transactionNumber: int
    var totalUploaded: nat

    /** The window as it opens: an empty table, every counter at zero,
        nothing in flight. */
    constructor ()
      ensures rows == [] && files == [] && lastUploadList == []
      ensures numFilesFound == 0 && numBytesFound == 0 && numAnonErrors == 0
      ensures sent == Stats(0, 0, 0, 0, 0, 0, 0) && Settled(sent)
      ensures numNetConn == 0 && !isUploading && transactionNumber == 0 && totalUploaded == 0
    {
      rows := [];
      files := [];
      numFilesFound := 0;
      numBytesFound := 0;
      numAnonErrors := 0;
      sent := Stats(0, 0, 0, 0, 0, 0, 0);
      numNetConn := 0;
      isUploading := false;
      lastUploadList := [];
      transactionNumber := 0;
      totalUploaded := 0;
    }

    /** Adds a row for an accepted file and counts it with its size. */
    method AddFoundFile(path: string, c: Classification, selected: string, sizeOf: string -> nat)
      requires Accepts(c, selected)
      modifies this`rows, this`files, this`numFilesFound, this`numBytesFound
      ensures rows == old(rows) + [FoundRow(path, c, selected, sizeOf)]
      ensures files == old(files) + [path]
      ensures numFilesFound == old(numFilesFound) + 1
      ensures numBytesFound == old(numBytesFound) + FoundRow(path, c, selected, sizeOf).size
    {
      files := files + [path];
      var t := TypeName(c.fileType);
      var size := RowSize(t, path, sizeOf);
      var status := Readable;
      if selected == "EEG" {
        if !ValidEegName(path) {
          status := InvalidFilename;
        }
      }
      rows := rows + [Row(path, status, t, RowModality(c, selected), c.patientId, size)];
      numFilesFound := numFilesFound + 1;
      numBytesFound := numBytesFound + size;
    }

    /** The table, the file list and the found counters are the initial
        ones extended by the rows `added`. */
    ghost predicate Tally(rows0: seq<Row>, files0: seq<string>, found0: nat, bytes0: nat, added: seq<Row>)
      reads this
    {
      rows == rows0 + added && files == files0 + PathsOf(added) &&
      numFilesFound == found0 + |added| && numBytesFound == bytes0 + TotalSize(added)
    }

    /** Classifies one file of the directory and adds it when the selection
        accepts it: the rows added so far, `added`, grow by that file's row. */
    method ScanFile(f: FoundFile, selected: string, sizeOf: string -> nat, prevId: string,
                    ghost rows0: seq<Row>, ghost files0: seq<string>, ghost found0: nat, ghost bytes0: nat,
                    ghost added: seq<Row>)
      returns (r: Classified, ghost next: seq<Row>)
      requires Tally(rows0, files0, found0, bytes0, added)
      modifies this`rows, this`files, this`numFilesFound, this`numBytesFound
      ensures r == FileTypeOf(f.path, f.probe, f.par, prevId)
      ensures next == if r.Classified? && Accepts(r.c, selected)
                      then added + [FoundRow(f.path, r.c, selected, sizeOf)] else added
      ensures Tally(rows0, files0, found0, bytes0, next)
    {
      r := GetFileType(f.path, f.probe, f.par, prevId);
      next := added;
      if r.Classified? && Accepts(r.c, selected) {
        AddFoundFile(f.path, r.c, selected, sizeOf);
        var row := FoundRow(f.path, r.c, selected, sizeOf);
        next := added + [row];
        assert next[..|added|] == added;
      }
    }

    /** Walks the files of a directory, classifies each and adds the ones
        the selection accepts. */
    method ScanDir(found: seq<FoundFile>, selected: string, sizeOf: string -> nat) returns (end: ScanEnd)
      modifies this`rows, this`files, this`numFilesFound, this`numBytesFound
      ensures var s := Scan(found, selected, sizeOf);
        rows == old(rows) + s.rows && files == old(files) + PathsOf(s.rows) && end == s.end &&
        numFilesFound == old(numFilesFound) + |s.rows| &&
        numBytesFound == old(numBytesFound) + TotalSize(s.rows)
    {
      var i := 0;
      var filePatientId := "";
      ghost var added: seq<Row> := [];
      while i < |found|
        invariant 0 <= i <= |found|
        invariant ScanFrom(found, i, selected, sizeOf, filePatientId, added) == Scan(found, selected, sizeOf)
        invariant Tally(old(rows), old(files), old(numFilesFound), old(numBytesFound), added)
      {
        var r;
        ghost var next;
        r, next := ScanFile(found[i], selected, sizeOf, filePatientId,
                            old(rows), old(files), old(numFilesFound), old(numBytesFound), added);
        if r.MalformedPatientLine? {
          return Stopped(i, r.index);
        }
        ScanFromStep(found, i, selected, sizeOf, filePatientId, added, r.c);
        added := next;
        filePatientId := r.c.patientId;
        i := i + 1;
      }
      return Finished;
    }

    /** The table's size column, as exact row sizes; the loop as written
        reads it back through 32 bits (`BatchPlanner.ReadSizes`). */
    function Sizes(): (s: seq<nat>)
      reads this
      ensures |s| == |rows|
    {
      seq(|rows|, j requires 0 <= j < |rows| reads this => rows[j].size)
    }

    /** The batches of "upload all" for the current table, with exact sums;
        each names rows of the table. For rows of at most about 820 MB they
        are the batches the loop as written hands over. */
    method PlanUpload() returns (batches: seq<seq<nat>>)
      ensures batches == BatchPlanner.Plan(Sizes())
      ensures BatchPlanner.NoWrap(Sizes()) ==> batches == BatchPlanner.PlanAsWritten(Sizes())
      ensures forall k :: 0 <= k < |batches| ==> InTable(batches[k], rows)
      ensures BatchPlanner.Flatten(batches) == BatchPlanner.Range(0, |rows|)
    {
      batches := BatchPlanner.PlanBatches(Sizes());
      if BatchPlanner.NoWrap(Sizes()) {
        BatchPlanner.PlanAsWrittenAgrees(Sizes());
      }
      BatchPlanner.PlanInRange(Sizes());
      forall k | 0 <= k < |batches|
        ensures InTable(batches[k], rows)
      {
        assert BatchPlanner.InRange(Sizes(), batches[k]);
      }
    }

    /** Anonymizes one copied DICOM file in place and counts its errors. */
    method AnonymizeOneFile(outcome: string -> A.AnonResult, path: string) returns (ok: bool)
      modifies this`numAnonErrors
      ensures ok == outcome(path).success
      ensures numAnonErrors == old(numAnonErrors) + outcome(path).errors
    {
      var r := outcome(path);
      numAnonErrors := numAnonErrors + r.errors;
      ok := r.success;
    }

    /** Sends the upload list with the selected connection. Without a usable
        connection nothing is sent and nothing changes. */
    method UploadFileList(list: seq<string>, conn: P.ConnParms, selected: string)
      returns (n: nat, request: Option<Request>)
      modifies this`sent, this`numNetConn, this`isUploading
      ensures conn.Parms? ==>
        n == |list| && sent == Sent(old(sent), |list|) &&
        isUploading && numNetConn == old(numNetConn) + 1 &&
        request == Some(Request(conn.server, conn.user, conn.password, P.ActionOf(selected),
                                transactionNumber, P.DataFormat(selected), list))
      ensures !conn.Parms? ==>
        n == 0 && request == None && sent == old(sent) &&
        isUploading == old(isUploading) && numNetConn == old(numNetConn)
    {
      if !conn.Parms? {
        return 0, None;
      }
      sent := Sent(sent, |list|);
      request := Some(Request(conn.server, conn.user, conn.password, P.ActionOf(selected),
                              transactionNumber, P.DataFormat(selected), list));
      numNetConn := numNetConn + 1;
      isUploading := true;
      n := |list|;
    }

    /** One row of a batch: the paths its copy adds to the upload list and,
        for a DICOM copy, the anonymizer's verdict on the copy in its status
        column. */
    method BatchRow(ii: nat, kind: Kind, tmpDir: string, name: string, outcome: string -> A.AnonResult)
      returns (paths: seq<string>)
      requires ii < |rows|
      modifies this`rows, this`numAnonErrors
      ensures paths == CopyPaths(kind, tmpDir, name, old(rows)[ii].path)
      ensures var p := tmpDir + "/" + name + ".dcm";
        if kind == DicomCopy then
          rows == old(rows)[ii := old(rows)[ii].(status := AnonStatus(outcome(p).success))] &&
          numAnonErrors == old(numAnonErrors) + outcome(p).errors
        else
          rows == old(rows) && numAnonErrors == old(numAnonErrors)
    {
      var f := rows[ii].path;
      paths := CopyPaths(kind, tmpDir, name, f);
      if kind == DicomCopy {
        var ok := AnonymizeOneFile(outcome, tmpDir + "/" + name + ".dcm");
        rows := rows[ii := rows[ii].(status := AnonStatus(ok))];
      }
    }

    /** The state after the first `i` rows of a batch went through
        `BatchRow`: the upload list, the table and the error count, starting
        from the table `rows0` and the count `errors0`. */
    ghost predicate BatchDone(rows0: seq<Row>, errors0: nat, list: seq<nat>, kind: Kind, tmpDir: string,
                              names: seq<string>, outcome: string -> A.AnonResult, i: nat, uploadList: seq<string>)
      reads this
    {
      |names| == |list| && InTable(list, rows0) && i <= |list| &&
      uploadList == UploadPaths(kind, tmpDir, rows0, list, names, i) &&
      rows == (if kind == DicomCopy then AnonRows(outcome, tmpDir, rows0, list, names, i) else rows0) &&
      numAnonErrors == errors0 + (if kind == DicomCopy then AnonErrors(outcome, tmpDir, names, i) else 0)
    }

    /** Row `i` of a batch through `BatchRow`, its paths appended. */
    method BatchStep(list: seq<nat>, kind: Kind, tmpDir: string, names: seq<string>,
                     outcome: string -> A.AnonResult, i: nat, uploadList: seq<string>,
                     ghost rows0: seq<Row>, ghost errors0: nat)
      returns (next: seq<string>)
      requires i < |list| && BatchDone(rows0, errors0, list, kind, tmpDir, names, outcome, i, uploadList)
      modifies this`rows, this`numAnonErrors
      ensures BatchDone(rows0, errors0, list, kind, tmpDir, names, outcome, i + 1, next)
    {
      assert rows[list[i]].path == rows0[list[i]].path;
      var paths := BatchRow(list[i], kind, tmpDir, names[i], outcome);
      next := uploadList + paths;
    }

    /** Copies the rows of one batch into the temporary directory `tmpDir`
        under the random names `names` and, for DICOM selections,
        anonymizes each copy in place and marks its row; returns the paths
        to upload. */
    method AnonymizeBatch(list: seq<nat>, kind: Kind, tmpDir: string, names: seq<string>,
                          outcome: string -> A.AnonResult)
      returns (uploadList: seq<string>)
      requires |names| == |list| && InTable(list, rows)
      modifies this`rows, this`numAnonErrors
      ensures uploadList == UploadPaths(kind, tmpDir, old(rows), list, names, |list|)
      ensures rows == (if kind == DicomCopy then AnonRows(outcome, tmpDir, old(rows), list, names, |list|) else old(rows))
      ensures numAnonErrors == old(numAnonErrors) + (if kind == DicomCopy then AnonErrors(outcome, tmpDir, names, |list|) else 0)
    {
      uploadList := [];
      var i := 0;
      while i < |list|
        invariant 0 <= i <= |list|
        invariant BatchDone(old(rows), old(numAnonErrors), list, kind, tmpDir, names, outcome, i, uploadList)
      {
        uploadList := BatchStep(list, kind, tmpDir, names, outcome, i, uploadList, old(rows), old(numAnonErrors));
        i := i + 1;
      }
    }

    /** Anonymizes (for DICOM selections) and uploads one batch of table
        rows; `tmpDir` is the temporary directory made for the batch and
        `names` the random names drawn for its rows. */
    method AnonymizeAndUpload(list: seq<nat>, selected: string, conn: P.ConnParms, tmpDir: string,
                              names: seq<string>, codec: Codec, opts: A.Options)
      returns (request: Option<Request>)
      requires |names| == |list| && InTable(list, rows)
      modifies this`lastUploadList, this`rows, this`numAnonErrors, this`sent, this`isUploading,
               this`numNetConn, this`totalUploaded
      ensures lastUploadList == list
      ensures var kind := KindOf(selected);
        rows == (if kind == DicomCopy then AnonRows(Outcomes(codec, opts), tmpDir, old(rows), list, names, |list|) else old(rows)) &&
        numAnonErrors == old(numAnonErrors) + (if kind == DicomCopy then AnonErrors(Outcomes(codec, opts), tmpDir, names, |list|) else 0)
      ensures var paths := UploadPaths(KindOf(selected), tmpDir, old(rows), list, names, |list|);
        if conn.Parms? then
          sent == Sent(old(sent), |paths|) && isUploading && numNetConn == old(numNetConn) + 1 &&
          totalUploaded == old(totalUploaded) + |paths| &&
          request.Some? && request.value.files == paths && request.value.transactionId == transactionNumber
        else
          sent == old(sent) && isUploading == old(isUploading) && numNetConn == old(numNetConn) &&
          totalUploaded == old(totalUploaded) && request == None
    {
      lastUploadList := list;
      var uploadList := AnonymizeBatch(list, KindOf(selected), tmpDir, names, Outcomes(codec, opts));
      var n;
      n, request := UploadFileList(uploadList, conn, selected);
      totalUploaded := totalUploaded + n;
    }

    /** Gives every row of the last batch the status `status`. */
    method MarkLastUpload(status: string)
      requires InTable(lastUploadList, rows)
      modifies this`rows
      ensures rows == Relabel(old(rows), lastUploadList, status)
    {
      var i := 0;
      while i < |lastUploadList|
        invariant 0 <= i <= |lastUploadList|
        invariant |rows| == |old(rows)|
        invariant forall j :: 0 <= j < |rows| ==>
          rows[j] == if j in lastUploadList[..i] then old(rows)[j].(status := status) else old(rows)[j]
      {
        var ii := lastUploadList[i];
        rows := rows[ii := rows[ii].(status := status)];
        assert lastUploadList[..i + 1] == lastUploadList[..i] + [ii];
        i := i + 1;
      }
      assert lastUploadList[..i] == lastUploadList;
    }

    /** The reply handler of an upload request: the batch in flight counts
        as sent with success and its rows read "Upload success". */
    method OnGetReplyUpload()
      requires InTable(lastUploadList, rows)
      modifies this`rows, this`isUploading, this`numNetConn, this`sent
      ensures sent == Succeeded(old(sent))
      ensures old(Balanced(sent)) ==> Settled(sent)
      ensures rows == Relabel(old(rows), lastUploadList, UploadSuccess)
      ensures !isUploading && numNetConn == old(numNetConn) - 1
    {
      isUploading := false;
      sent := Succeeded(sent);
      numNetConn := numNetConn - 1;
      MarkLastUpload(UploadSuccess);
    }

    /** The error handler of an upload request: the batch in flight counts as
        failed and its rows read "Upload fail". */
    method OnNetworkError()
      requires InTable(lastUploadList, rows)
      modifies this`rows, this`isUploading, this`numNetConn, this`sent
      ensures sent == Failed(old(sent))
      ensures old(Balanced(sent)) ==> Settled(sent)
      ensures rows == Relabel(old(rows), lastUploadList, UploadFail)
      ensures !isUploading && numNetConn == old(numNetConn) - 1
    {
      isUploading := false;
      numNetConn := numNetConn - 1;
      sent := Failed(sent);
      MarkLastUpload(UploadFail);
    }

    /** A reply that ends in a network error: the error handler runs, then
        the reply handler. The rows end up reading "Upload success" and the
        connection count drops by two for one request. */
    method FailedReply()
      requires InTable(lastUploadList, rows)
      modifies this`rows, this`isUploading, this`numNetConn, this`sent
      ensures sent == Failed(old(sent))
      ensures rows == Relabel(old(rows), lastUploadList, UploadSuccess)
      ensures numNetConn == old(numNetConn) - 2
    {
      OnNetworkError();
      OnGetReplyUpload();
      ErrorThenFinishedCounts(old(sent));
      RelabelTwice(old(rows), lastUploadList, UploadFail, UploadSuccess);
    }

    /** The reply handler as evidently intended: a reply that carries an
        error was already handled by the error handler and changes nothing. */
    method OnReplyFinished(reply: P.Reply)
      requires InTable(lastUploadList, rows)
      modifies this`rows, this`isUploading, this`numNetConn, this`sent
      ensures reply.NetError? ==>
        sent == old(sent) && rows == old(rows) && isUploading == old(isUploading) &&
        numNetConn == old(numNetConn)
      ensures !reply.NetError? ==>
        sent == Succeeded(old(sent)) && rows == Relabel(old(rows), lastUploadList, UploadSuccess) &&
        !isUploading && numNetConn == old(numNetConn) - 1
    {
      if !reply.NetError? {
        OnGetReplyUpload();
      }
    }

    /** A failed reply with the intended reply handler: the rows read
        "Upload fail" and the connection count drops by one. */
    method FailedReplyCorrected(message: string, status: string)
      requires InTable(lastUploadList, rows)
      modifies this`rows, this`isUploading, this`numNetConn, this`sent
      ensures sent == Failed(old(sent))
      ensures rows == Relabel(old(rows), lastUploadList, UploadFail)
      ensures numNetConn == old(numNetConn) - 1 && !isUploading
    {
      OnNetworkError();
      OnReplyFinished(P.NetError(message, status));
    }

    /** Asks the server for a transaction number; the number is reset to 0
        first. A request goes out only when the connection list has an entry
        selected (`hasSelection`) and the current entry gives usable
        parameters; the current entry need not be selected. */
    method StartTransaction(conn: P.ConnParms, hasSelection: bool) returns (posted: bool)
      modifies this`transactionNumber
      ensures transactionNumber == 0
      ensures posted <==> hasSelection && conn.Parms?
    {
      transactionNumber := 0;
      if conn.NoConnections? {
        posted := false;
      } else if !hasSelection {
        posted := false;
      } else {
        posted := conn.Parms?;
      }
    }

    /** The reply to the start-transaction request. */
    method OnGetReplyStartTransaction(reply: P.Reply)
      modifies this`transactionNumber
      ensures transactionNumber == TransactionAfter(old(transactionNumber), reply)
    {
      var response := P.ReplyText(reply);
      if Trim(response) != "" {
        transactionNumber := ToInt(Trim(response));
      }
    }

    /** "Upload all" waits until the transaction number is positive. */
    predicate ReadyToUpload()
      reads this
    {
      transactionNumber > 0
    }

    /** Removes the selected rows: the rows of the selected cells, each
        once, largest first, so that no removal shifts a row still to be
        removed. */
    method RemoveSelected(selectedCells: seq<nat>)
      requires InTable(selectedCells, rows)
      modifies this`rows
      ensures rows == Without(old(rows), set k | 0 <= k < |selectedCells| :: selectedCells[k])
      ensures |rows| == |old(rows)| - |Descending(set k | 0 <= k < |selectedCells| :: selectedCells[k], |old(rows)|)|
    {
      var selectedRows := set k | 0 <= k < |selectedCells| :: selectedCells[k];
      var order := Descending(selectedRows, |rows|);
      ghost var n: nat := |rows|;
      ghost var bound: nat := n;
      var i := 0;
      while i < |order|
        invariant 0 <= i <= |order| && bound <= n
        invariant order[i..] == Descending(selectedRows, bound)
        invariant rows == old(rows)[..bound] + KeptBetween(old(rows), selectedRows, bound, n)
      {
        var row := order[i];
        DescendingFirst(selectedRows, bound);
        RemoveStep(old(rows), selectedRows, row, bound, n);
        rows := rows[..row] + rows[row + 1..];
        assert order[i + 1..] == order[i..][1..];
        bound := row;
        i := i + 1;
      }
      DescendingEmpty(selectedRows, bound);
      KeptSplit(old(rows), selectedRows, 0, bound, n);
      KeptUnselected(old(rows), selectedRows, 0, bound);
      WithoutLength(old(rows), selectedRows, n);
    }
  }
}
