/** De-identification of a DICOM file before upload: which tags are replaced
    and by what (a SHA-1 pseudonym of the normalised patient name and ID, the
    birth year only, or a blanked birth date), and the gdcm-style anonymizer
    that applies empty, remove and replace operations to the data set and
    writes the file back. The DICOM reader, writer and hash are parameters. */
module Anonymizer {
  import opened Text

  /** A DICOM attribute tag (group, element). */
  datatype Tag = Tag(group: nat, element: nat)

  const PatientName: Tag := Tag(0x0010, 0x0010)
  const PatientId: Tag := Tag(0x0010, 0x0020)
  const PatientBirthDate: Tag := Tag(0x0010, 0x0030)

  /** The attributes of a data set with their string values. */
  type Dataset = map<Tag, string>

  /** The string filter's reading of a tag: its value, or "" when absent. */
  function TagValue(ds: Dataset, t: Tag): string {
    if t in ds then ds[t] else ""
  }

  // ---------------------------------------------------------------- pseudonyms

  /** The form a name or ID is hashed in: trimmed and lower-cased. */
  function Normalize(v: string): (r: string)
    ensures |r| <= |v|
  {
    ToLower(Trim(v))
  }

  lemma NormalizeIdempotent(v: string)
    ensures Normalize(Normalize(v)) == Normalize(v)
  {
    TrimLowerCommute(Trim(v));
    TrimIdempotent(v);
    LowerIdempotent(Trim(v));
  }

  /** The replacement of a patient name or ID: the upper-case hex digest of
      its normalised form. `hash` stands for SHA-1 over the UTF-8 bytes. */
  function Pseudonym(hash: string -> seq<Byte>, v: string): (r: string)
    ensures |r| == 2 * |hash(Normalize(v))|
  {
    HexUpper(hash(Normalize(v)))
  }

  /** Values that differ only in surrounding whitespace or ASCII case get the
      same pseudonym. */
  lemma PseudonymNormalized(hash: string -> seq<Byte>, v: string)
    ensures Pseudonym(hash, Normalize(v)) == Pseudonym(hash, v)
  {
    NormalizeIdempotent(v);
  }

  /** Two values get the same pseudonym exactly when their normalised forms
      have the same digest: the hex encoding adds no collisions. */
  lemma PseudonymCollisions(hash: string -> seq<Byte>, v: string, w: string)
    ensures Pseudonym(hash, v) == Pseudonym(hash, w) <==> hash(Normalize(v)) == hash(Normalize(w))
  {
    HexUpperInjective(hash(Normalize(v)), hash(Normalize(w)));
  }

  /** A pseudonym is made of the characters 0-9 and A-F only. */
  lemma PseudonymAlphabet(hash: string -> seq<Byte>, v: string)
    ensures forall i :: 0 <= i < |Pseudonym(hash, v)| ==> IsHexUpper(Pseudonym(hash, v)[i])
  {
    HexUpperAlphabet(hash(Normalize(v)));
  }

  // ---------------------------------------------------------------- birth date

  /** The birth year as the code derives it from the trimmed tag value: the
      first four characters of an eight-character value, else the part before
      the first ':' or '-'. For any other form the code asks QDate to parse
      the value but discards the result, and the year of the untouched null
      date is 0. */
  function BirthYearAsWritten(t: string): (year: int)
    ensures InInt32(year)
  {
    if |t| == 8 then ToInt(t[..4])
    else if ':' in t then ToInt(Split(t, ':')[0])
    else if '-' in t then ToInt(Split(t, '-')[0])
    else 0
  }

  /** The birth year with the parsed date used: `parseDate` stands for
      QDate::fromString, giving the year of a valid date. */
  function BirthYear(t: string, parseDate: string -> Option<int>): (year: int)
    ensures |t| == 8 || ':' in t || '-' in t ==> year == BirthYearAsWritten(t)
  {
    if |t| == 8 then ToInt(t[..4])
    else if ':' in t then ToInt(Split(t, ':')[0])
    else if '-' in t then ToInt(Split(t, '-')[0])
    else match parseDate(t) case Some(y) => y case None => 0
  }

  /** A value in any other form, such as the text date "Sat May 20 1995",
      loses its year as written: whatever the date parser makes of it, the
      year written is 0. With the parse used, it is the parsed year. */
  lemma BirthYearDiscardsParse(t: string, parseDate: string -> Option<int>, y: int)
    requires |t| != 8 && ':' !in t && '-' !in t
    requires parseDate(t) == Some(y) && y != 0
    ensures BirthYearAsWritten(t) == 0
    ensures BirthYear(t, parseDate) == y != BirthYearAsWritten(t)
  {
  }

  /** For a DICOM DA value YYYYMMDD the year is its first four digits. */
  lemma BirthYearOfDA(t: string)
    requires |t| == 8 && AllDigits(t)
    ensures BirthYearAsWritten(t) == DigitsValue(t[..4])
  {
    DigitsValueBound(t[..4]);
    assert Power10(4) == 10000;
    ToIntOfDigits(t[..4]);
  }

  /** The replacement birth date: the year followed by -00-00. */
  function BirthDateValue(year: int): string {
    IntToString(year) + "-00-00"
  }

  /** The blanked birth date written when removal is chosen. */
  const RemovedBirthDate: string := "0000-00-00"

  lemma DashedTrimmed(d: string)
    requires AllDigits(d)
    ensures Trim(d + "-00-00") == d + "-00-00"
  {
    var v := d + "-00-00";
    forall i | 0 <= i < |v| ensures !IsSpace(v[i])
    {
      if i < |d| { assert v[i] == d[i] && IsDigit(d[i]); }
    }
    TrimOfNoSpace(v);
  }

  lemma DashedSeparators(d: string)
    requires AllDigits(d)
    ensures ':' !in d + "-00-00" && '-' in d + "-00-00"
  {
    var v := d + "-00-00";
    forall i | 0 <= i < |v| ensures v[i] != ':'
    {
      if i < |d| { assert v[i] == d[i] && IsDigit(d[i]); }
    }
    assert v[|d|] == '-';
  }

  lemma FirstDashPart(d: string)
    requires AllDigits(d)
    ensures Split(d + "-00-00", '-')[0] == d
  {
    assert '-' !in d by { forall i | 0 <= i < |d| ensures d[i] != '-' { assert IsDigit(d[i]); } }
    SplitPrefix(d, "-00-00", '-');
    assert Split("-00-00", '-')[0] == "";
    assert d + "" == d;
  }

  lemma ThreeDigits(year: nat)
    requires year >= 100
    ensures |NatToString(year)| >= 3
  {
    var d := NatToString(year);
    DigitsOfNatToString(year);
    DigitsValueBound(d);
    assert Power10(0) == 1 && Power10(1) == 10 && Power10(2) == 100;
  }

  /** Anonymizing an already anonymized birth date keeps its year, for years
      of at least three digits (a two-digit year gives an eight-character
      value, which the code reads as YYYYMMDD). */
  lemma BirthDateStable(year: nat)
    requires 100 <= year <= MaxInt32
    ensures BirthYearAsWritten(Trim(BirthDateValue(year))) == year
  {
    var d := NatToString(year);
    var v := d + "-00-00";
    ThreeDigits(year);
    calc {
      BirthYearAsWritten(Trim(BirthDateValue(year)));
      { DashedTrimmed(d); }
      BirthYearAsWritten(v);
      { DashedSeparators(d); BirthYearOfDashed(v); }
      ToInt(Split(v, '-')[0]);
      { FirstDashPart(d); }
      ToInt(d);
      { DigitsOfNatToString(year); ToIntOfDigits(d); }
      year;
    }
  }

  lemma BirthYearOfDashed(t: string)
    requires |t| != 8 && ':' !in t && '-' in t
    ensures BirthYearAsWritten(t) == ToInt(Split(t, '-')[0])
  {
  }

  // ---------------------------------------------------------------- the plan

  /** The de-identification check boxes. */
  datatype Options = Options(replaceName: bool, replaceId: bool, replaceBirthDate: bool, removeBirthDate: bool)

  /** A tag replacement: the tag and its new value. */
  datatype Replacement = Replacement(tag: Tag, value: string)

  /** The three tags the plan may touch. */
  predicate IsPatientTag(t: Tag) {
    t == PatientName || t == PatientId || t == PatientBirthDate
  }

  /** The new values for the three tags. */
  datatype PlanValues = PlanValues(name: string, id: string, birthDate: string)

  /** The new values computed from a data set: pseudonyms of the name and ID,
      and the birth date cut down to its year by the corrected rule, which
      differs from the code only for dates the code does not split. */
  function PlanValuesOf(ds: Dataset, hash: string -> seq<Byte>, parseDate: string -> Option<int>): PlanValues {
    PlanValues(Pseudonym(hash, TagValue(ds, PatientName)), Pseudonym(hash, TagValue(ds, PatientId)),
               BirthDateValue(BirthYear(Trim(TagValue(ds, PatientBirthDate)), parseDate)))
  }

  /** The replacement birth date of the plan is the one the code writes for
      every trimmed date that is 8 long or holds ':' or '-'. */
  lemma PlanBirthDateAsWritten(ds: Dataset, hash: string -> seq<Byte>, parseDate: string -> Option<int>, t: string)
    requires t == Trim(TagValue(ds, PatientBirthDate))
    requires |t| == 8 || ':' in t || '-' in t
    ensures PlanValuesOf(ds, hash, parseDate).birthDate == BirthDateValue(BirthYearAsWritten(t))
  {
  }

  function When(b: bool, e: Replacement): (r: seq<Replacement>)
    ensures |r| == if b then 1 else 0
    ensures b ==> r == [e]
  {
    if b then [e] else []
  }

  /** The replacements for one file, in the order the code queues them:
      name, ID, birth date, blanked birth date. */
  function ReplaceList(opts: Options, v: PlanValues): (r: seq<Replacement>)
    ensures |r| == |When(opts.replaceName, Replacement(PatientName, v.name))|
      + |When(opts.replaceId, Replacement(PatientId, v.id))|
      + |When(opts.replaceBirthDate, Replacement(PatientBirthDate, v.birthDate))|
      + |When(opts.removeBirthDate, Replacement(PatientBirthDate, RemovedBirthDate))|
    ensures forall k :: 0 <= k < |r| ==> IsPatientTag(r[k].tag)
  {
    When(opts.replaceName, Replacement(PatientName, v.name))
    + When(opts.replaceId, Replacement(PatientId, v.id))
    + When(opts.replaceBirthDate, Replacement(PatientBirthDate, v.birthDate))
    + When(opts.removeBirthDate, Replacement(PatientBirthDate, RemovedBirthDate))
  }

  // ---------------------------------------------------------------- the anonymizer

  /** One anonymizer operation. */
  datatype Op = Empty(tag: Tag) | Remove(tag: Tag) | Replace(tag: Tag, value: string)

  /** The effect of an operation the anonymizer carries out. */
  function Apply(ds: Dataset, op: Op): (r: Dataset)
    ensures r.Keys <= ds.Keys + {op.tag}
    ensures forall t :: t != op.tag ==> (t in r <==> t in ds) && (t in r ==> r[t] == ds[t])
  {
    match op
    case Empty(t) => ds[t := ""]
    case Remove(t) => ds - {t}
    case Replace(t, v) => ds[t := v]
  }

  /** The value of a tag after an operation: absent after removal, otherwise
      the emptied or replaced value. */
  function ValueAfterOp(before: Option<string>, op: Op): Option<string> {
    match op
    case Empty(_) => Some("")
    case Remove(_) => None
    case Replace(_, v) => Some(v)
  }

  /** All operations carried out, left to right. */
  function ApplyAll(ds: Dataset, ops: seq<Op>): Dataset
    decreases |ops|
  {
    if |ops| == 0 then ds else ApplyAll(Apply(ds, ops[0]), ops[1..])
  }

  function Lookup(ds: Dataset, t: Tag): Option<string> {
    if t in ds then Some(ds[t]) else None
  }

  /** Reference reading of the result, from the end: the last operation on a
      tag decides its value; a tag no operation names keeps its value. */
  function ValueAfter(ds: Dataset, ops: seq<Op>, t: Tag): Option<string>
    decreases |ops|
  {
    if |ops| == 0 then Lookup(ds, t)
    else if ops[|ops| - 1].tag == t then ValueAfterOp(ValueAfter(ds, ops[..|ops| - 1], t), ops[|ops| - 1])
    else ValueAfter(ds, ops[..|ops| - 1], t)
  }

  lemma {:induction false} ApplyAllSnoc(ds: Dataset, ops: seq<Op>, op: Op)
    ensures ApplyAll(ds, ops + [op]) == Apply(ApplyAll(ds, ops), op)
    decreases |ops|
  {
    if |ops| == 0 {
      assert ops + [op] == [op];
    } else {
      assert (ops + [op])[1..] == ops[1..] + [op];
      ApplyAllSnoc(Apply(ds, ops[0]), ops[1..], op);
    }
  }

  /** Applying the operations in order agrees with the reference reading. */
  lemma {:induction false} ApplyAllValue(ds: Dataset, ops: seq<Op>, t: Tag)
    ensures Lookup(ApplyAll(ds, ops), t) == ValueAfter(ds, ops, t)
    decreases |ops|
  {
    if |ops| > 0 {
      var init := ops[..|ops| - 1];
      var op := ops[|ops| - 1];
      assert init + [op] == ops;
      ApplyAllSnoc(ds, init, op);
      ApplyAllValue(ds, init, t);
    }
  }

  /** What the anonymizer's operation loop leaves: the data set and the
      success flag. After the first refused operation the flag is false and,
      because of the short-circuit `success && op`, no later operation is
      attempted. `accepts` stands for the anonymizer's verdict on an operation. */
  datatype RunResult = RunResult(ds: Dataset, success: bool)

  function RunFrom(ds: Dataset, ops: seq<Op>, accepts: Op -> bool): RunResult
    decreases |ops|
  {
    if |ops| == 0 then RunResult(ds, true)
    else if accepts(ops[0]) then RunFrom(Apply(ds, ops[0]), ops[1..], accepts)
    else RunResult(ds, false)
  }

  /** The flag is true exactly when every operation was accepted, and then
      all of them were carried out. */
  lemma {:induction false} RunFromSucceeds(ds: Dataset, ops: seq<Op>, accepts: Op -> bool)
    ensures RunFrom(ds, ops, accepts).success <==> forall k :: 0 <= k < |ops| ==> accepts(ops[k])
    ensures RunFrom(ds, ops, accepts).success ==> RunFrom(ds, ops, accepts).ds == ApplyAll(ds, ops)
    decreases |ops|
  {
    if |ops| > 0 && accepts(ops[0]) {
      RunFromSucceeds(Apply(ds, ops[0]), ops[1..], accepts);
      assert forall k :: 1 <= k < |ops| ==> ops[k] == ops[1..][k - 1];
    }
  }

  /** A refused operation leaves the data set as the accepted prefix made it. */
  lemma {:induction false} RunFromStops(ds: Dataset, ops: seq<Op>, accepts: Op -> bool, j: nat)
    requires j < |ops| && !accepts(ops[j]) && forall k :: 0 <= k < j ==> accepts(ops[k])
    ensures RunFrom(ds, ops, accepts) == RunResult(ApplyAll(ds, ops[..j]), false)
    decreases j
  {
    if j > 0 {
      assert ops[1..][..j - 1] == ops[..j][1..];
      RunFromStops(Apply(ds, ops[0]), ops[1..], accepts, j - 1);
    }
  }

  /** The operation loop: `success = success && op` over every operation. */
  method RunOps(ds: Dataset, ops: seq<Op>, accepts: Op -> bool) returns (out: Dataset, success: bool)
    ensures RunResult(out, success) == RunFrom(ds, ops, accepts)
  {
    out, success := ds, true;
    var i := 0;
    while i < |ops|
      invariant 0 <= i <= |ops|
      invariant success ==> RunFrom(out, ops[i..], accepts) == RunFrom(ds, ops, accepts)
      invariant !success ==> RunResult(out, success) == RunFrom(ds, ops, accepts)
    {
      if success {
        assert ops[i..][1..] == ops[i + 1..];
        success := accepts(ops[i]);
        if success {
          out := Apply(out, ops[i]);
        }
      }
      i := i + 1;
    }
    assert ops[|ops|..] == [];
  }

  /** The operations of one call: empties, then removals, then replacements. */
  function Operations(emptyTags: seq<Tag>, removeTags: seq<Tag>, replaceTags: seq<Replacement>): (r: seq<Op>)
    ensures |r| == |emptyTags| + |removeTags| + |replaceTags|
  {
    seq(|emptyTags|, k requires 0 <= k < |emptyTags| => Empty(emptyTags[k]))
    + seq(|removeTags|, k requires 0 <= k < |removeTags| => Remove(removeTags[k]))
    + seq(|replaceTags|, k requires 0 <= k < |replaceTags| => Replace(replaceTags[k].tag, replaceTags[k].value))
  }

  /** What is on disk at the output path afterwards. */
  datatype Output = Untouched | Written(ds: Dataset) | OutputRemoved | Corrupted

  /** The anonymizer's verdict, the output, and how many errors it counted. */
  datatype AnonResult = AnonResult(success: bool, output: Output, errors: nat)

  /** One file through the anonymizer. `input` is the data set the reader
      yields, or None when it cannot read the file; `writeOk` is the writer's
      verdict; `inPlace` says the output path is the input path; in
      `continueMode` an unreadable file is skipped as a success. */
  function AnonymizeOneFileDumb(input: Option<Dataset>, emptyTags: seq<Tag>, removeTags: seq<Tag>,
                                replaceTags: seq<Replacement>, accepts: Op -> bool,
                                writeOk: bool, inPlace: bool, continueMode: bool): (r: AnonResult)
    ensures var ops := Operations(emptyTags, removeTags, replaceTags);
      r.errors <= 1 &&
      (r.errors == 1 <==> input.None? || (ops != [] && !writeOk)) &&
      (r.success <==> (input.None? && continueMode) ||
                      (input.Some? && ops != [] && writeOk && forall k :: 0 <= k < |ops| ==> accepts(ops[k]))) &&
      (r.output.Written? <==> input.Some? && ops != [] && writeOk) &&
      (r.output.Untouched? <==> input.None? || ops == []) &&
      (r.output.Corrupted? <==> input.Some? && ops != [] && !writeOk && inPlace) &&
      (r.success && input.Some? ==> r.output.ds == ApplyAll(input.value, ops))
  {
    if input.None? then AnonResult(continueMode, Untouched, 1)
    else if |emptyTags| == 0 && |replaceTags| == 0 && |removeTags| == 0 then AnonResult(false, Untouched, 0)
    else
      var ops := Operations(emptyTags, removeTags, replaceTags);
      var run := RunFrom(input.value, ops, accepts);
      RunFromSucceeds(input.value, ops, accepts);
      if !writeOk then AnonResult(false, if inPlace then Corrupted else OutputRemoved, 1)
      else AnonResult(run.success, Written(run.ds), 0)
  }

  /** A file anonymized in place, as the uploader does it, and whose write
      fails is left corrupted rather than removed. */
  lemma InPlaceWriteFailure(ds: Dataset, replaceTags: seq<Replacement>, accepts: Op -> bool)
    requires replaceTags != []
    ensures AnonymizeOneFileDumb(Some(ds), [], [], replaceTags, accepts, false, true, false) == AnonResult(false, Corrupted, 1)
  {
  }

  /** With no box ticked there is nothing to do, which the anonymizer reports
      as a failure, and the file is left as it is. */
  lemma NoOptionsFails(ds: Dataset, v: PlanValues, accepts: Op -> bool, writeOk: bool)
    ensures AnonymizeForUpload(Some(ds), Options(false, false, false, false), v, accepts, writeOk)
      == AnonResult(false, Untouched, 0)
  {
  }

  /** The uploader's call: no empties, no removals, the replacements of the
      plan, the file overwritten in place, continue mode off. */
  function AnonymizeForUpload(input: Option<Dataset>, opts: Options, v: PlanValues,
                              accepts: Op -> bool, writeOk: bool): AnonResult
  {
    var plan := ReplaceList(opts, v);
    AnonymizeOneFileDumb(input, [], [], plan, accepts, writeOk, true, false)
  }

  lemma ReplacementsOnly(replaceTags: seq<Replacement>)
    ensures Operations([], [], replaceTags) ==
      seq(|replaceTags|, k requires 0 <= k < |replaceTags| => Replace(replaceTags[k].tag, replaceTags[k].value))
  {
  }

  /** A tag no operation names keeps its value. */
  lemma {:induction false} ValueAfterUntouched(ds: Dataset, ops: seq<Op>, t: Tag)
    requires forall k :: 0 <= k < |ops| ==> ops[k].tag != t
    ensures ValueAfter(ds, ops, t) == Lookup(ds, t)
    decreases |ops|
  {
    if |ops| > 0 {
      ValueAfterUntouched(ds, ops[..|ops| - 1], t);
    }
  }

  /** The last operation on a tag decides its value. */
  lemma {:induction false} ValueAfterLast(ds: Dataset, ops: seq<Op>, k: nat, t: Tag)
    requires k < |ops| && ops[k].tag == t
    requires forall j :: k < j < |ops| ==> ops[j].tag != t
    ensures ValueAfter(ds, ops, t) == ValueAfterOp(ValueAfter(ds, ops[..k], t), ops[k])
    decreases |ops|
  {
    if k < |ops| - 1 {
      assert ops[..|ops| - 1][..k] == ops[..k];
      ValueAfterLast(ds, ops[..|ops| - 1], k, t);
    } else {
      assert ops[..|ops| - 1] == ops[..k];
    }
  }

  /** When every box is ticked and the anonymizer accepts every replacement,
      the written file carries the new name and ID and the blanked birth date
      (the later removal overrides the year), and nothing else changes. */
  lemma AllOptionsEffect(ds: Dataset, v: PlanValues, accepts: Op -> bool)
    requires forall op :: accepts(op)
    ensures var r := AnonymizeForUpload(Some(ds), Options(true, true, true, true), v, accepts, true);
      r.success && r.output.Written? &&
      Lookup(r.output.ds, PatientName) == Some(v.name) &&
      Lookup(r.output.ds, PatientId) == Some(v.id) &&
      Lookup(r.output.ds, PatientBirthDate) == Some(RemovedBirthDate) &&
      forall t :: !IsPatientTag(t) ==> Lookup(r.output.ds, t) == Lookup(ds, t)
  {
    var ops := AllOptionsOps(v);
    RunFromSucceeds(ds, ops, accepts);
    AllOptionsApplied(ds, v, ops);
  }

  /** With every box ticked the operations are the four replacements, in
      the order of the options. */
  lemma AllOptionsOps(v: PlanValues) returns (ops: seq<Op>)
    ensures ops == Operations([], [], ReplaceList(Options(true, true, true, true), v))
    ensures ops == [Replace(PatientName, v.name), Replace(PatientId, v.id),
                    Replace(PatientBirthDate, v.birthDate), Replace(PatientBirthDate, RemovedBirthDate)]
  {
    var plan := ReplaceList(Options(true, true, true, true), v);
    assert plan == [Replacement(PatientName, v.name), Replacement(PatientId, v.id),
                    Replacement(PatientBirthDate, v.birthDate), Replacement(PatientBirthDate, RemovedBirthDate)];
    ReplacementsOnly(plan);
    ops := Operations([], [], plan);
  }

  /** The four replacements set the name and ID and leave the removed birth
      date; every other tag keeps its value. */
  lemma AllOptionsApplied(ds: Dataset, v: PlanValues, ops: seq<Op>)
    requires ops == [Replace(PatientName, v.name), Replace(PatientId, v.id),
                     Replace(PatientBirthDate, v.birthDate), Replace(PatientBirthDate, RemovedBirthDate)]
    ensures var out := ApplyAll(ds, ops);
      Lookup(out, PatientName) == Some(v.name) &&
      Lookup(out, PatientId) == Some(v.id) &&
      Lookup(out, PatientBirthDate) == Some(RemovedBirthDate) &&
      forall t :: !IsPatientTag(t) ==> Lookup(out, t) == Lookup(ds, t)
  {
    var out := ApplyAll(ds, ops);
    ApplyAllValue(ds, ops, PatientName);
    ApplyAllValue(ds, ops, PatientId);
    ApplyAllValue(ds, ops, PatientBirthDate);
    ValueAfterLast(ds, ops, 0, PatientName);
    ValueAfterLast(ds, ops, 1, PatientId);
    ValueAfterLast(ds, ops, 3, PatientBirthDate);
    forall t | !IsPatientTag(t)
      ensures Lookup(out, t) == Lookup(ds, t)
    {
      ApplyAllValue(ds, ops, t);
      ValueAfterUntouched(ds, ops, t);
    }
  }
}
