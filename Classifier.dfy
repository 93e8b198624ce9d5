/** How the uploader recognises a file while it walks a directory: the file
    type cascade (DICOM, EEG, NIfTI/Analyze, Philips PAR/REC, unknown), the
    patient ID taken from the file, the modality filter of the directory scan,
    the EEG file-name rule and the size of a PAR/REC pair. */
module Classifier {
  import opened Text

  datatype FileType = Dicom | Eeg | Nifti | ParRec | Unknown

  /** The type as written into the file table. */
  function TypeName(t: FileType): (r: string)
    ensures r != ""
  {
    match t
    case Dicom => "DICOM"
    case Eeg => "EEG"
    case Nifti => "NIFTI"
    case ParRec => "PARREC"
    case Unknown => "Unknown"
  }

  /** What the DICOM reader makes of a file: either it cannot parse it, or it
      yields the modality tag (0008,0060) and patient ID tag (0010,0020). */
  datatype DicomProbe = NotDicom | DicomTags(modality: string, patientId: string)

  /** The text of a .par file, line by line, or the fact that it cannot be opened. */
  datatype ParText = Unreadable | ParLines(lines: seq<string>)

  /** What the classifier reports for one file. */
  datatype Classification = Classification(fileType: FileType, modality: string, patientId: string)

  /** The classifier's outcome. A "Patient name" line with fewer than two
      non-empty ':'-separated fields makes the classifier read past the end of
      its field list; the model reports that line instead of a classification. */
  datatype Classified = Classified(c: Classification) | MalformedPatientLine(index: nat)

  const EegSuffixes: seq<string> := [".cnt", ".dat", ".3dd"]
  const NiftiSuffixes: seq<string> := [".nii", ".nii.gz", ".hdr", ".img"]

  /** EEG and NIfTI suffixes are compared on the lower-cased path. */
  predicate IsEegPath(path: string) { EndsWithAny(ToLower(path), EegSuffixes) }
  predicate IsNiftiPath(path: string) { EndsWithAny(ToLower(path), NiftiSuffixes) }
  /** The PAR suffix is compared on the path as it is. */
  predicate IsParPath(path: string) { EndsWith(path, ".par") }

  // ---------------------------------------------------------------- names

  /** QFileInfo::fileName: the text after the last '/'. */
  function FileName(path: string): (r: string)
    ensures '/' !in r
  {
    LastPart(path, '/')
  }

  /** QFileInfo::baseName: the file name up to its first '.'. */
  function BaseName(path: string): (r: string)
    ensures '/' !in r && '.' !in r
    ensures |r| <= |FileName(path)| && r == FileName(path)[..|r|]
  {
    SplitFirstIsPrefix(FileName(path), '.');
    Split(FileName(path), '.')[0]
  }

  /** The patient ID of an EEG or NIfTI file: its base name up to the first '_'. */
  function NamePatientId(path: string): (r: string)
    ensures '/' !in r && '.' !in r && '_' !in r
    ensures |r| <= |BaseName(path)| && r == BaseName(path)[..|r|]
  {
    SplitFirstIsPrefix(BaseName(path), '_');
    Split(BaseName(path), '_')[0]
  }

  /** A file named `<id>_<rest>` in any directory yields `id` as its patient ID. */
  lemma NamePatientIdOf(dir: string, id: string, rest: string)
    requires '/' !in id && '/' !in rest
    requires '_' !in id && '.' !in id
    ensures NamePatientId(dir + "/" + id + "_" + rest) == id
  {
    var name := id + "_" + rest;
    assert dir + "/" + id + "_" + rest == dir + ['/'] + name;
    assert '/' !in name by {
      forall k | 0 <= k < |name| ensures name[k] != '/' {
        if k < |id| { assert name[k] == id[k]; }
        else if k > |id| { assert name[k] == rest[k - |id| - 1]; }
      }
    }
    SplitLast(dir, name, '/');
    SplitPrefix(id, "_" + rest, '.');
    assert id + ("_" + rest) == name;
    var base := Split(name, '.')[0];
    assert base == id + Split("_" + rest, '.')[0];
    assert Split("_" + rest, '.')[0] == "_" + Split(rest, '.')[0];
    SplitPrefix(id, "_" + Split(rest, '.')[0], '_');
    assert id + ("_" + Split(rest, '.')[0]) == base;
    assert Split("_" + Split(rest, '.')[0], '_')[0] == "";
    assert id + "" == id;
  }

  /** The EEG naming convention S1234ABC_YYYYMMDDHHMISS_task_operator_series[_filenum]:
      the base name has five or six '_'-separated fields. */
  predicate ValidEegName(path: string) {
    |Split(BaseName(path), '_')| == 5 || |Split(BaseName(path), '_')| == 6
  }

  /** The same rule stated on the separators: four or five underscores. */
  lemma ValidEegNameUnderscores(path: string)
    ensures ValidEegName(path) <==> Count(BaseName(path), '_') in {4, 5}
  {
    SplitCount(BaseName(path), '_');
  }

  // ---------------------------------------------------------------- PAR header

  const NameTag: string := "Patient name"
  const MrSeriesTag: string := "MRSERIES"

  predicate IsNameLine(line: string) { Contains(line, NameTag) }
  predicate IsMrSeriesLine(line: string) { Contains(line, MrSeriesTag) }

  /** A "Patient name" line whose value field is missing. */
  predicate Malformed(line: string) {
    IsNameLine(line) && |SplitNonEmpty(line, ':')| < 2
  }

  /** The patient name of a well-formed "Patient name" line: its second
      non-empty ':'-separated field, trimmed. */
  function NameOf(line: string): (r: string)
    requires IsNameLine(line) && !Malformed(line)
    ensures r == Trim(r)
  {
    TrimIdempotent(SplitNonEmpty(line, ':')[1]);
    Trim(SplitNonEmpty(line, ':')[1])
  }

  /** What the header scan makes of one line: its "Patient name" field
      (absent, malformed, or the name) and whether it mentions MRSERIES. */
  datatype NameField = NoName | BadName | Name(value: string)
  datatype HeaderLine = HeaderLine(name: NameField, mrSeries: bool)

  function HeaderOf(line: string): (h: HeaderLine)
    ensures h.name.NoName? <==> !IsNameLine(line)
    ensures h.name.BadName? <==> Malformed(line)
    ensures h.name.Name? ==> h.name.value == Trim(h.name.value)
    ensures h.mrSeries <==> IsMrSeriesLine(line)
  {
    var name := if !IsNameLine(line) then NoName else if Malformed(line) then BadName else Name(NameOf(line));
    HeaderLine(name, IsMrSeriesLine(line))
  }

  function Headers(lines: seq<string>): (hs: seq<HeaderLine>)
    ensures |hs| == |lines|
  {
    seq(|lines|, k requires 0 <= k < |lines| => HeaderOf(lines[k]))
  }

  datatype ParResult = ParFields(patientId: string, modality: string) | ParMalformed(index: nat)

  /** The header scan from line i on, with the patient ID and modality found so far. */
  function ParScanFrom(hs: seq<HeaderLine>, i: nat, id: string, modality: string): ParResult
    requires i <= |hs|
    decreases |hs| - i
  {
    if i == |hs| then ParFields(id, modality)
    else if hs[i].name.BadName? then ParMalformed(i)
    else
      var id' := if hs[i].name.Name? then hs[i].name.value else id;
      var modality' := if hs[i].mrSeries then "MR" else modality;
      ParScanFrom(hs, i + 1, id', modality')
  }

  /** The header scan of a whole .par file. The patient ID starts as whatever
      the previous file left behind; the modality starts as PARREC. */
  function ParScan(lines: seq<string>, prevId: string): ParResult {
    ParScanFrom(Headers(lines), 0, prevId, "PARREC")
  }

  /** The header scan, line by line. */
  method ScanParLines(lines: seq<string>, prevId: string) returns (r: ParResult)
    ensures r == ParScan(lines, prevId)
  {
    var id, modality := prevId, "PARREC";
    var i := 0;
    while i < |lines|
      invariant 0 <= i <= |lines|
      invariant ParScanFrom(Headers(lines), i, id, modality) == ParScan(lines, prevId)
    {
      var line := lines[i];
      assert Headers(lines)[i] == HeaderOf(line);
      if IsNameLine(line) {
        var parts := SplitNonEmpty(line, ':');
        if |parts| < 2 {
          return ParMalformed(i);
        }
        id := Trim(parts[1]);
      }
      if IsMrSeriesLine(line) {
        modality := "MR";
      }
      i := i + 1;
    }
    return ParFields(id, modality);
  }

  /** The scan fails exactly when some header line is malformed. */
  lemma ParScanMalformed(hs: seq<HeaderLine>, i: nat, id: string, modality: string)
    requires i <= |hs|
    ensures ParScanFrom(hs, i, id, modality).ParMalformed? <==>
      exists k :: i <= k < |hs| && hs[k].name.BadName?
  {
    if exists k :: i <= k < |hs| && hs[k].name.BadName? {
      var k :| i <= k < |hs| && hs[k].name.BadName?;
      ParScanStopsAt(hs, i, id, modality, k);
    }
    if ParScanFrom(hs, i, id, modality).ParMalformed? {
      ParScanFirstMalformed(hs, i, id, modality);
    }
  }

  /** A malformed line at k or before it stops the scan. */
  lemma {:induction false} ParScanStopsAt(hs: seq<HeaderLine>, i: nat, id: string, modality: string, k: nat)
    requires i <= k < |hs| && hs[k].name.BadName?
    ensures ParScanFrom(hs, i, id, modality).ParMalformed?
    decreases |hs| - i
  {
    if !hs[i].name.BadName? {
      var id' := if hs[i].name.Name? then hs[i].name.value else id;
      var modality' := if hs[i].mrSeries then "MR" else modality;
      ParScanStopsAt(hs, i + 1, id', modality', k);
    }
  }

  /** The line it reports is the first malformed one. */
  lemma {:induction false} ParScanFirstMalformed(hs: seq<HeaderLine>, i: nat, id: string, modality: string)
    requires i <= |hs|
    requires ParScanFrom(hs, i, id, modality).ParMalformed?
    ensures var k := ParScanFrom(hs, i, id, modality).index;
      i <= k < |hs| && hs[k].name.BadName? && forall j :: i <= j < k ==> !hs[j].name.BadName?
    decreases |hs| - i
  {
    if !hs[i].name.BadName? {
      var id' := if hs[i].name.Name? then hs[i].name.value else id;
      var modality' := if hs[i].mrSeries then "MR" else modality;
      ParScanFirstMalformed(hs, i + 1, id', modality');
    }
  }

  /** The modality is MR as soon as one line mentions MRSERIES. */
  lemma {:induction false} ParScanModality(hs: seq<HeaderLine>, i: nat, id: string, modality: string)
    requires i <= |hs|
    requires ParScanFrom(hs, i, id, modality).ParFields?
    ensures ParScanFrom(hs, i, id, modality).modality ==
      if exists k :: i <= k < |hs| && hs[k].mrSeries then "MR" else modality
    decreases |hs| - i
  {
    if i < |hs| {
      var id' := if hs[i].name.Name? then hs[i].name.value else id;
      var modality' := if hs[i].mrSeries then "MR" else modality;
      ParScanModality(hs, i + 1, id', modality');
    }
  }

  /** Without a "Patient name" line the patient ID is the one the scan started with. */
  lemma {:induction false} ParScanKeepsId(hs: seq<HeaderLine>, i: nat, id: string, modality: string)
    requires i <= |hs|
    requires forall k :: i <= k < |hs| ==> hs[k].name.NoName?
    ensures ParScanFrom(hs, i, id, modality).ParFields?
    ensures ParScanFrom(hs, i, id, modality).patientId == id
    decreases |hs| - i
  {
    if i < |hs| {
      var modality' := if hs[i].mrSeries then "MR" else modality;
      ParScanKeepsId(hs, i + 1, id, modality');
    }
  }

  /** The patient ID comes from the last "Patient name" line. */
  lemma {:induction false} ParScanLastName(hs: seq<HeaderLine>, i: nat, id: string, modality: string, k: nat)
    requires i <= k < |hs| && hs[k].name.Name?
    requires forall j :: k < j < |hs| ==> hs[j].name.NoName?
    requires ParScanFrom(hs, i, id, modality).ParFields?
    ensures ParScanFrom(hs, i, id, modality).patientId == hs[k].name.value
    decreases |hs| - i
  {
    var id' := if hs[i].name.Name? then hs[i].name.value else id;
    var modality' := if hs[i].mrSeries then "MR" else modality;
    if i < k {
      ParScanLastName(hs, i + 1, id', modality', k);
    } else {
      ParScanKeepsId(hs, i + 1, id', modality');
    }
  }

  /** On the lines of a .par file: the patient ID is the trimmed value of the
      last "Patient name" line. */
  lemma ParPatientId(lines: seq<string>, prevId: string, k: nat)
    requires k < |lines| && IsNameLine(lines[k]) && !Malformed(lines[k])
    requires forall j :: k < j < |lines| ==> !IsNameLine(lines[j])
    requires ParScan(lines, prevId).ParFields?
    ensures ParScan(lines, prevId).patientId == NameOf(lines[k])
  {
    var hs := Headers(lines);
    assert hs[k] == HeaderOf(lines[k]);
    forall j | k < j < |hs|
      ensures hs[j].name.NoName?
    {
      assert hs[j] == HeaderOf(lines[j]);
    }
    ParScanLastName(hs, 0, prevId, "PARREC", k);
  }

  // ---------------------------------------------------------------- the cascade

  /** The file type cascade: the DICOM reader first, then the EEG, NIfTI and
      PAR suffixes, otherwise unknown. The modality starts empty; the patient
      ID is left as `prevId` by the branches that do not set it. */
  function FileTypeOf(path: string, probe: DicomProbe, par: ParText, prevId: string): Classified {
    if probe.DicomTags? then Classified(Classification(Dicom, probe.modality, probe.patientId))
    else if IsEegPath(path) then Classified(Classification(Eeg, "EEG", NamePatientId(path)))
    else if IsNiftiPath(path) then Classified(Classification(Nifti, "NIFTI", NamePatientId(path)))
    else if IsParPath(path) then
      if par.Unreadable? then Classified(Classification(ParRec, "PARREC", prevId))
      else
        match ParScan(par.lines, prevId)
        case ParFields(id, modality) => Classified(Classification(ParRec, modality, id))
        case ParMalformed(k) => MalformedPatientLine(k)
    else Classified(Classification(Unknown, "", prevId))
  }

  /** The classifier as a procedure: the PAR header is read with a loop. */
  method GetFileType(path: string, probe: DicomProbe, par: ParText, prevId: string) returns (r: Classified)
    ensures r == FileTypeOf(path, probe, par, prevId)
  {
    if probe.DicomTags? {
      return Classified(Classification(Dicom, probe.modality, probe.patientId));
    }
    if IsEegPath(path) {
      return Classified(Classification(Eeg, "EEG", NamePatientId(path)));
    }
    if IsNiftiPath(path) {
      return Classified(Classification(Nifti, "NIFTI", NamePatientId(path)));
    }
    if IsParPath(path) {
      if par.Unreadable? {
        return Classified(Classification(ParRec, "PARREC", prevId));
      }
      var scan := ScanParLines(par.lines, prevId);
      match scan {
        case ParFields(id, modality) => r := Classified(Classification(ParRec, modality, id));
        case ParMalformed(k) => r := MalformedPatientLine(k);
      }
      return;
    }
    return Classified(Classification(Unknown, "", prevId));
  }

  /** Whatever its name, a file the DICOM reader can parse is DICOM, with
      the modality and patient ID of its tags. */
  lemma DicomWins(path: string, modality: string, patientId: string, par: ParText, prevId: string)
    ensures FileTypeOf(path, DicomTags(modality, patientId), par, prevId) ==
      Classified(Classification(Dicom, modality, patientId))
  {
  }

  /** The modality reported for each non-DICOM type: EEG, NIFTI, and PARREC or MR. */
  lemma NonDicomModality(path: string, par: ParText, prevId: string)
    requires FileTypeOf(path, NotDicom, par, prevId).Classified?
    ensures var c := FileTypeOf(path, NotDicom, par, prevId).c;
      c.fileType != Dicom &&
      (c.fileType == Eeg ==> c.modality == "EEG") &&
      (c.fileType == Nifti ==> c.modality == "NIFTI") &&
      (c.fileType == ParRec ==> c.modality in {"PARREC", "MR"}) &&
      (c.fileType == Unknown ==> c.modality == "")
  {
    if !IsEegPath(path) && !IsNiftiPath(path) && IsParPath(path) && par.ParLines? {
      ParScanModality(Headers(par.lines), 0, prevId, "PARREC");
    }
  }

  /** An EEG suffix in capitals is still recognised. */
  lemma UpperEegSuffix(stem: string, par: ParText, prevId: string)
    ensures FileTypeOf(stem + ".CNT", NotDicom, par, prevId) ==
      Classified(Classification(Eeg, "EEG", NamePatientId(stem + ".CNT")))
  {
    var p := stem + ".CNT";
    var l := ToLower(p);
    assert l[|l| - 4..] == ".cnt" by {
      assert p[|p| - 4] == '.' && p[|p| - 3] == 'C' && p[|p| - 2] == 'N' && p[|p| - 1] == 'T';
    }
    assert EndsWith(l, EegSuffixes[0]);
  }

  /** A PAR suffix in capitals is not recognised: the file falls through to
      "Unknown" and keeps the previous file's patient ID. */
  lemma UpperParSuffix(stem: string, par: ParText, prevId: string)
    ensures FileTypeOf(stem + ".PAR", NotDicom, par, prevId) ==
      Classified(Classification(Unknown, "", prevId))
  {
    var q := stem + ".PAR";
    var m := ToLower(q);
    assert q[|q| - 4] == '.' && q[|q| - 3] == 'P' && q[|q| - 2] == 'A' && q[|q| - 1] == 'R';
    assert m[|m| - 4..] == ".par";
    LowerParSuffix(m);
    assert !EndsWith(q, ".par") by {
      assert q[|q| - 4..] == ".PAR";
    }
  }

  /** A lower-cased path ending in ".par" matches no EEG or NIfTI suffix. */
  lemma LowerParSuffix(m: string)
    requires |m| >= 4 && m[|m| - 4..] == ".par"
    ensures !EndsWithAny(m, EegSuffixes) && !EndsWithAny(m, NiftiSuffixes)
  {
    assert m[|m| - 1] == 'r' && m[|m| - 2] == 'a' by {
      assert m[|m| - 4..][3] == 'r' && m[|m| - 4..][2] == 'a';
    }
  }

  /** The patient ID of the previous file survives into an unknown file, an
      unreadable .par file, and a .par file without a "Patient name" line. */
  lemma StalePatientId(path: string, par: ParText, prevId: string)
    requires !IsEegPath(path) && !IsNiftiPath(path)
    requires !IsParPath(path) || par.Unreadable? ||
      forall k :: 0 <= k < |par.lines| ==> !IsNameLine(par.lines[k])
    ensures FileTypeOf(path, NotDicom, par, prevId).Classified?
    ensures FileTypeOf(path, NotDicom, par, prevId).c.patientId == prevId
  {
    if IsParPath(path) && par.ParLines? {
      var hs := Headers(par.lines);
      forall k | 0 <= k < |hs|
        ensures hs[k].name.NoName?
      {
        assert hs[k] == HeaderOf(par.lines[k]);
      }
      ParScanKeepsId(hs, 0, prevId, "PARREC");
    }
  }

  /** A readable .par file is classified unless one of its "Patient name"
      lines lacks a value field. */
  lemma ParClassified(path: string, lines: seq<string>, prevId: string)
    requires !IsEegPath(path) && !IsNiftiPath(path) && IsParPath(path)
    ensures FileTypeOf(path, NotDicom, ParLines(lines), prevId).Classified? <==>
      forall k :: 0 <= k < |lines| ==> !Malformed(lines[k])
  {
    var hs := Headers(lines);
    ParScanMalformed(hs, 0, prevId, "PARREC");
    forall k | 0 <= k < |lines|
      ensures hs[k].name.BadName? <==> Malformed(lines[k])
    {
      assert hs[k] == HeaderOf(lines[k]);
    }
  }

  // ---------------------------------------------------------------- scan filter

  /** The directory scan's filter for the modality chosen in the drop-down:
      DICOM files pass under "DICOM" or under their own modality; the other
      types pass only under their own type name. */
  predicate Accepts(c: Classification, selected: string) {
    match c.fileType
    case Dicom => selected == "DICOM" || selected == c.modality
    case ParRec => selected == "PARREC"
    case Eeg => selected == "EEG"
    case Nifti => selected == "NIFTI"
    case Unknown => false
  }

  /** The modality written into the table row of an accepted file: the
      selection when a DICOM file passed under its own modality, otherwise
      the file's modality. */
  function RowModality(c: Classification, selected: string): (r: string)
    requires Accepts(c, selected)
    ensures r == c.modality
  {
    if c.fileType == Dicom && selected != "DICOM" then selected else c.modality
  }

  /** Under a selection that is none of the four type names, exactly the DICOM
      files of that modality pass: a PAR/REC file reporting MR never does. */
  lemma AcceptsModalitySelection(c: Classification, selected: string)
    requires selected !in {"DICOM", "PARREC", "EEG", "NIFTI"}
    ensures Accepts(c, selected) <==> c.fileType == Dicom && c.modality == selected
  {
  }

  /** Under a type name, exactly the files of that type pass. */
  lemma AcceptsTypeSelection(c: Classification, t: FileType)
    requires t != Unknown
    ensures Accepts(c, TypeName(t)) <==>
      c.fileType == t || (c.fileType == Dicom && c.modality == TypeName(t))
  {
  }

  // ---------------------------------------------------------------- sizes

  /** The path of the .rec file paired with a .par file: every ".par" in the
      path becomes ".rec". */
  function RecPath(path: string): (r: string)
    ensures |r| == |path|
  {
    ReplaceAll(path, ".par", ".rec")
  }

  /** For a path whose only '.' is that of the suffix, the .rec path is the
      same path with the .rec suffix. */
  lemma RecPathOfPlainName(stem: string)
    requires '.' !in stem
    ensures RecPath(stem + ".par") == stem + ".rec"
  {
    ReplaceAtEnd(stem, ".par", ".rec");
  }

  /** The size recorded for a file: a PAR/REC pair counts both files; a file
      that does not exist has size 0 under `sizeOf`. */
  function RowSize(fileType: string, path: string, sizeOf: string -> nat): (r: nat)
    ensures r >= sizeOf(path)
    ensures fileType != "PARREC" ==> r == sizeOf(path)
  {
    (if fileType == "PARREC" then sizeOf(RecPath(path)) else 0) + sizeOf(path)
  }

  /** A plainly named PAR file's row counts the PAR file and its REC file. */
  lemma RowSizeOfPlainPar(stem: string, sizeOf: string -> nat)
    requires '.' !in stem
    ensures RowSize("PARREC", stem + ".par", sizeOf) == sizeOf(stem + ".par") + sizeOf(stem + ".rec")
  {
    RecPathOfPlainName(stem);
  }
}
