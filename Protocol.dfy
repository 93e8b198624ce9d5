/** The small pieces of the uploader's conversation with the NiDB server and
    its own configuration: which modalities count as DICOM, the action and
    data format fields of an upload request, the comma/bar-separated list
    replies that fill the instance, project, site and equipment drop-downs,
    the connection list read from connections.txt, and the elapsed-time
    display. */
module Protocol {
  import opened Text

  // ---------------------------------------------------------------- modality

  /** The selections whose files are DICOM and are anonymized before upload. */
  predicate IsDicomModality(modality: string) {
    modality in {"DICOM", "MR", "CT", "PET", "SPECT", "US"}
  }

  datatype Action = UploadDicom | UploadNonDicom

  /** The "action" field of the upload request. */
  function ActionName(a: Action): (r: string)
    ensures r == "UploadDICOM" || r == "UploadNonDICOM"
  {
    match a
    case UploadDicom => "UploadDICOM"
    case UploadNonDicom => "UploadNonDICOM"
  }

  /** The action for a modality selection: only PAR/REC and EEG uploads are
      announced as non-DICOM. */
  function ActionOf(modality: string): (r: Action)
    ensures IsDicomModality(modality) ==> r == UploadDicom
    ensures modality == "NIFTI" ==> r == UploadDicom
  {
    if modality == "PARREC" then UploadNonDicom
    else if modality == "EEG" then UploadNonDicom
    else UploadDicom
  }

  /** The "dataformat" field of the upload request. */
  function DataFormat(modality: string): (r: string)
    ensures r != "" <==> modality in {"DICOM", "PARREC", "EEG", "NIFTI"}
    ensures IsDicomModality(modality) && modality != "DICOM" ==> r == ""
  {
    if modality == "DICOM" then "dicom"
    else if modality == "PARREC" then "parrec"
    else if modality == "EEG" then "eeg"
    else if modality == "NIFTI" then "nifti"
    else ""
  }

  /** The two request fields agree: a request is announced as non-DICOM
      exactly when its data format is one of the non-DICOM formats parrec
      and eeg; NIfTI goes out as a DICOM upload with format nifti. */
  lemma ActionMatchesFormat(modality: string)
    ensures ActionOf(modality) == UploadNonDicom <==> DataFormat(modality) in {"parrec", "eeg"}
    ensures modality == "NIFTI" ==> ActionOf(modality) == UploadDicom && DataFormat(modality) == "nifti"
  {
  }

  // ---------------------------------------------------------------- list replies

  /** A finished reply: none at all, a body, or a network error with its
      message and HTTP status. */
  datatype Reply = NoReply | Body(text: string) | NetError(message: string, status: string)

  /** The text a reply handler works on. */
  function ReplyText(reply: Reply): (r: string)
    ensures reply.Body? ==> r == reply.text
    ensures reply.NetError? ==> |r| >= 7 && r[..7] == "Error: " && EndsWith(r, reply.status)
  {
    match reply
    case NoReply => ""
    case Body(text) => text
    case NetError(message, status) => "Error: " + message + " status: " + status
  }

  /** One entry of a drop-down: the text shown and the value behind it. */
  datatype ComboItem = ComboItem(shown: string, data: string)

  /** One comma-separated entry of a list reply: `id|name` shows as
      `id - name` with value `id`; an entry without a bar shows as itself. */
  function ItemOf(entry: string): (r: ComboItem)
    ensures r.data == Split(entry, '|')[0] && '|' !in r.data
    ensures |Split(entry, '|')| == 1 ==> r == ComboItem(entry, entry)
  {
    SplitPartsFree(entry, '|');
    var parts := Split(entry, '|');
    if |parts| > 1 then ComboItem(parts[0] + " - " + parts[1], parts[0])
    else
      JoinSplit(entry, '|');
      ComboItem(parts[0], parts[0])
  }

  /** The reply text, or the placeholder when it is blank. */
  function ListText(response: string, emptyText: string): string {
    if Trim(response) == "" then emptyText else response
  }

  /** The drop-down entries a list reply produces, one per comma-separated entry. */
  function ListItems(response: string, emptyText: string): (r: seq<ComboItem>)
    ensures |r| == Count(ListText(response, emptyText), ',') + 1
  {
    var entries := Split(ListText(response, emptyText), ',');
    SplitCount(ListText(response, emptyText), ',');
    seq(|entries|, k requires 0 <= k < |entries| => ItemOf(entries[k]))
  }

  /** The reply handler: the drop-down is cleared and refilled entry by entry. */
  method FillList(response: string, emptyText: string) returns (items: seq<ComboItem>)
    ensures items == ListItems(response, emptyText)
  {
    var text := if Trim(response) == "" then emptyText else response;
    var entries := Split(text, ',');
    items := [];
    var i := 0;
    while i < |entries|
      invariant 0 <= i <= |entries|
      invariant items == seq(i, k requires 0 <= k < i => ItemOf(entries[k]))
    {
      var parts := Split(entries[i], '|');
      var item := if |parts| > 1 then ComboItem(parts[0] + " - " + parts[1], parts[0])
        else ComboItem(parts[0], parts[0]);
      items := items + [item];
      i := i + 1;
    }
  }

  /** A list entry as the server sends it. */
  datatype ListEntry = ListEntry(id: string, name: string)

  predicate PlainField(s: string) { ',' !in s && '|' !in s }

  function EntryText(e: ListEntry): string { e.id + "|" + e.name }

  /** The server's list reply: `id|name` entries separated by commas. */
  function EncodeList(entries: seq<ListEntry>): string
    requires |entries| >= 1
  {
    Join(seq(|entries|, k requires 0 <= k < |entries| => EntryText(entries[k])), ',')
  }

  lemma EntryTextSplit(e: ListEntry)
    requires PlainField(e.id) && PlainField(e.name)
    ensures ',' !in EntryText(e)
    ensures Split(EntryText(e), '|') == [e.id, e.name]
  {
    var t := EntryText(e);
    forall k | 0 <= k < |t| ensures t[k] != ',' {
      if k < |e.id| { assert t[k] == e.id[k]; }
      else if k > |e.id| { assert t[k] == e.name[k - |e.id| - 1]; }
    }
    assert Join([e.id, e.name], '|') == t by {
      assert Join([e.id, e.name], '|') == e.id + ['|'] + Join([e.name], '|');
    }
    SplitJoin([e.id, e.name], '|');
  }

  /** Every entry the server lists shows up, in order, as `id - name` with
      value `id`, provided no field holds a separator. */
  lemma ListReplyRoundTrip(entries: seq<ListEntry>, emptyText: string)
    requires |entries| >= 1
    requires forall k :: 0 <= k < |entries| ==> PlainField(entries[k].id) && PlainField(entries[k].name)
    ensures ListItems(EncodeList(entries), emptyText) ==
      seq(|entries|, k requires 0 <= k < |entries| => ComboItem(entries[k].id + " - " + entries[k].name, entries[k].id))
  {
    var texts := seq(|entries|, k requires 0 <= k < |entries| => EntryText(entries[k]));
    forall k | 0 <= k < |entries| ensures ',' !in texts[k] && Split(texts[k], '|') == [entries[k].id, entries[k].name] {
      EntryTextSplit(entries[k]);
    }
    var response := EncodeList(entries);
    JoinStartsWith(texts, ',');
    var first := EntryText(entries[0]);
    assert first[|entries[0].id|] == '|';
    assert response[|entries[0].id|] == '|';
    TrimNonBlank(response, |entries[0].id|);
    SplitJoin(texts, ',');
  }

  /** A join starts with its first part. */
  lemma {:induction false} JoinStartsWith(parts: seq<string>, sep: char)
    requires |parts| >= 1
    ensures |parts[0]| <= |Join(parts, sep)| && Join(parts, sep)[..|parts[0]|] == parts[0]
  {
  }

  // ---------------------------------------------------------------- connections

  /** One line of connections.txt: tab-separated server, user name and
      password (further fields ignored); lines with fewer fields are skipped.
      The list shows server, user and password joined by commas. */
  function ConnectionName(line: string): (r: Option<string>)
    ensures r.Some? <==> Count(line, '\t') >= 2
  {
    SplitCount(line, '\t');
    var fields := Split(line, '\t');
    if |fields| > 2 then Some(fields[0] + "," + fields[1] + "," + fields[2]) else None
  }

  /** The connection list built from the lines of connections.txt. */
  function ConnectionNames(lines: seq<string>): (r: seq<string>)
    ensures |r| <= |lines|
  {
    if |lines| == 0 then []
    else
      var rest := ConnectionNames(lines[..|lines| - 1]);
      match ConnectionName(lines[|lines| - 1])
      case Some(name) => rest + [name]
      case None => rest
  }

  /** The list is filled line by line. */
  method PopulateConnections(lines: seq<string>) returns (names: seq<string>)
    ensures names == ConnectionNames(lines)
  {
    names := [];
    for i := 0 to |lines|
      invariant names == ConnectionNames(lines[..i])
    {
      assert lines[..i + 1][..i] == lines[..i];
      var fields := Split(lines[i], '\t');
      if |fields| > 2 {
        names := names + [fields[0] + "," + fields[1] + "," + fields[2]];
      }
    }
    assert lines[..|lines|] == lines;
  }

  /** The outcome of reading the selected connection. */
  datatype ConnParms =
    | NoConnections
    | NoCurrentItem                 // nothing is current: the code dereferences a null item
    | NoSelection
    | ShortEntry                    // fewer than three fields: the code reads past its list
    | Parms(server: string, user: string, password: string)

  /** The selected connection: server, user and password are the first three
      comma-separated fields of the selected list entry. */
  function ConnectionParms(names: seq<string>, current: Option<nat>): (r: ConnParms)
    ensures |names| == 0 <==> r == NoConnections
    ensures r.Parms? ==>
      current.Some? && current.value < |names| && |Split(names[current.value], ',')| >= 3 &&
      Split(names[current.value], ',')[..3] == [r.server, r.user, r.password]
  {
    if |names| < 1 then NoConnections
    else if current.None? || current.value >= |names| then NoCurrentItem
    else
      var text := names[current.value];
      if Trim(text) == "" then NoSelection
      else
        var items := Split(text, ',');
        if |items| < 3 then ShortEntry else Parms(items[0], items[1], items[2])
  }

  predicate ConnField(s: string) { '\t' !in s && ',' !in s }

  /** A connections.txt line is listed as its first three tab-separated
      fields joined by commas. */
  lemma ConnectionLine(fields: seq<string>)
    requires |fields| >= 3
    requires forall k :: 0 <= k < |fields| ==> '\t' !in fields[k]
    ensures ConnectionName(Join(fields, '\t')) == Some(fields[0] + "," + fields[1] + "," + fields[2])
  {
    SplitJoin(fields, '\t');
  }

  /** Once selected, `server,user,password` yields the same server, user and password. */
  lemma ConnectionSelected(server: string, user: string, password: string)
    requires ConnField(server) && ConnField(user) && ConnField(password)
    ensures ConnectionParms([server + "," + user + "," + password], Some(0)) == Parms(server, user, password)
  {
    var name := server + "," + user + "," + password;
    Join3([server, user, password], ',');
    SplitJoin([server, user, password], ',');
    assert name[|server|] == ',';
    TrimNonBlank(name, |server|);
  }

  /** A connections.txt line `server<TAB>user<TAB>password[<TAB>...]` read
      through the list and the selection gives back its server, user and
      password. */
  lemma ConnectionRoundTrip(fields: seq<string>)
    requires |fields| >= 3
    requires forall k :: 0 <= k < |fields| ==> '\t' !in fields[k]
    requires ConnField(fields[0]) && ConnField(fields[1]) && ConnField(fields[2])
    ensures ConnectionName(Join(fields, '\t')).Some?
    ensures ConnectionParms([ConnectionName(Join(fields, '\t')).value], Some(0)) ==
      Parms(fields[0], fields[1], fields[2])
  {
    ConnectionLine(fields);
    ConnectionSelected(fields[0], fields[1], fields[2]);
  }

  /** Whatever the fields hold, every listed connection can be read back. */
  lemma ListedConnectionsParse(lines: seq<string>, k: nat)
    requires k < |ConnectionNames(lines)|
    ensures ConnectionParms(ConnectionNames(lines), Some(k)).Parms?
  {
    ListedNamesHaveCommas(lines);
    var name := ConnectionNames(lines)[k];
    SplitCount(name, ',');
    var j := CommaIndex(name);
    TrimNonBlank(name, j);
  }

  lemma {:induction false} ListedNamesHaveCommas(lines: seq<string>)
    ensures forall k :: 0 <= k < |ConnectionNames(lines)| ==> Count(ConnectionNames(lines)[k], ',') >= 2
    decreases |lines|
  {
    if |lines| > 0 {
      ListedNamesHaveCommas(lines[..|lines| - 1]);
      var fields := Split(lines[|lines| - 1], '\t');
      if |fields| > 2 {
        var name := fields[0] + "," + fields[1] + "," + fields[2];
        assert ConnectionNames(lines) == ConnectionNames(lines[..|lines| - 1]) + [name];
        CommaCount(fields[0], fields[1], fields[2]);
      }
    }
  }

  lemma CommaCount(a: string, b: string, c: string)
    ensures Count(a + "," + b + "," + c, ',') >= 2
  {
    assert Count(",", ',') == 1 by { assert ","[1..] == ""; }
    CountAppend(a, ",", ',');
    CountAppend(a + ",", b, ',');
    CountAppend(a + "," + b, ",", ',');
    CountAppend(a + "," + b + ",", c, ',');
  }

  /** A string with a comma has a position holding one. */
  lemma {:induction false} CommaIndex(s: string) returns (j: nat)
    requires Count(s, ',') >= 1
    ensures j < |s| && s[j] == ','
    decreases |s|
  {
    if s[0] == ',' {
      j := 0;
    } else {
      j := CommaIndex(s[1..]);
      j := j + 1;
    }
  }

  // ---------------------------------------------------------------- elapsed time

  datatype Clock = Clock(hours: nat, minutes: nat, seconds: nat, millis: nat)

  function ClockMillis(c: Clock): nat {
    c.hours * 3_600_000 + c.minutes * 60_000 + c.seconds * 1000 + c.millis
  }

  /** The split of a duration into hours, minutes, seconds and milliseconds,
      by the same subtractions and divisions as the display code. */
  function ClockOf(msecs: nat): (c: Clock)
    ensures c.minutes < 60 && c.seconds < 60 && c.millis < 1000
    ensures ClockMillis(c) == msecs
  {
    var hours := msecs / (1000 * 60 * 60);
    var minutes := (msecs - hours * 1000 * 60 * 60) / (1000 * 60);
    var seconds := (msecs - minutes * 1000 * 60 - hours * 1000 * 60 * 60) / 1000;
    var milliseconds := msecs - seconds * 1000 - minutes * 1000 * 60 - hours * 1000 * 60 * 60;
    Clock(hours, minutes, seconds, milliseconds)
  }

  /** hh:mm:ss:zzz, each field zero-padded (hours may take more than two digits). */
  function FormatClock(c: Clock): string {
    ZeroPad(c.hours, 2) + ":" + ZeroPad(c.minutes, 2) + ":" + ZeroPad(c.seconds, 2) + ":" + ZeroPad(c.millis, 3)
  }

  function TimeConversion(msecs: nat): string {
    FormatClock(ClockOf(msecs))
  }

  /** Reading a displayed time back: four ':'-separated digit fields. */
  function ParseTime(t: string): (r: Option<nat>)
    ensures r.Some? ==> |Split(t, ':')| == 4
  {
    ParseFields(Split(t, ':'))
  }

  /** Four digit fields: hours, minutes, seconds and milliseconds. */
  function ParseFields(f: seq<string>): (r: Option<nat>)
    ensures r.Some? ==> |f| == 4
  {
    if |f| == 4 && AllDigits(f[0]) && AllDigits(f[1]) && AllDigits(f[2]) && AllDigits(f[3]) then
      Some(DigitsValue(f[0]) * 3_600_000 + DigitsValue(f[1]) * 60_000 + DigitsValue(f[2]) * 1000 + DigitsValue(f[3]))
    else None
  }

  /** The display loses nothing: its fields give the duration back. */
  lemma TimeConversionRoundTrip(msecs: nat)
    ensures ParseTime(TimeConversion(msecs)) == Some(msecs)
  {
    var c := ClockOf(msecs);
    var f := ClockFields(c);
    FormatClockJoins(c);
    ParseJoinedFields(f);
    ClockFieldsValue(c);
  }

  /** The four zero-padded fields of the display. */
  function ClockFields(c: Clock): (f: seq<string>)
    ensures |f| == 4 && forall k :: 0 <= k < 4 ==> AllDigits(f[k])
  {
    [ZeroPad(c.hours, 2), ZeroPad(c.minutes, 2), ZeroPad(c.seconds, 2), ZeroPad(c.millis, 3)]
  }

  lemma FormatClockJoins(c: Clock)
    ensures FormatClock(c) == Join(ClockFields(c), ':')
  {
    Join4(ClockFields(c), ':');
  }

  /** The padded fields read back as the clock's duration. */
  lemma ClockFieldsValue(c: Clock)
    ensures ParseFields(ClockFields(c)) == Some(ClockMillis(c))
  {
    ZeroPadValue(c.hours, 2);
    ZeroPadValue(c.minutes, 2);
    ZeroPadValue(c.seconds, 2);
    ZeroPadValue(c.millis, 3);
  }

  /** Digit fields joined with ':' split back into the same fields. */
  lemma ParseJoinedFields(f: seq<string>)
    requires |f| >= 1 && forall k :: 0 <= k < |f| ==> AllDigits(f[k])
    ensures ParseTime(Join(f, ':')) == ParseFields(f)
  {
    forall k | 0 <= k < |f| ensures ':' !in f[k] {
      NoColonInDigits(f[k]);
    }
    SplitJoin(f, ':');
  }

  lemma Join4(f: seq<string>, sep: char)
    requires |f| == 4
    ensures Join(f, sep) == f[0] + [sep] + f[1] + [sep] + f[2] + [sep] + f[3]
  {
    assert f[1..][1..] == f[2..];
    assert f[2..][1..] == f[3..];
    assert Join(f[3..], sep) == f[3];
    assert Join(f[2..], sep) == f[2] + [sep] + f[3];
    assert Join(f[1..], sep) == f[1] + [sep] + (f[2] + [sep] + f[3]);
  }

  lemma Join3(f: seq<string>, sep: char)
    requires |f| == 3
    ensures Join(f, sep) == f[0] + [sep] + f[1] + [sep] + f[2]
  {
    assert f[1..][1..] == f[2..];
    assert Join(f[2..], sep) == f[2];
  }

  lemma NoColonInDigits(s: string)
    requires AllDigits(s)
    ensures ':' !in s
  {
    forall k | 0 <= k < |s| ensures s[k] != ':' {
      assert IsDigit(s[k]);
    }
  }

  /** The minutes, seconds and milliseconds fields have exactly two, two and
      three digits. */
  lemma TimeConversionWidths(msecs: nat)
    ensures var c := ClockOf(msecs);
      |ZeroPad(c.minutes, 2)| == 2 && |ZeroPad(c.seconds, 2)| == 2 && |ZeroPad(c.millis, 3)| == 3
  {
    var c := ClockOf(msecs);
    SmallDigits(c.minutes, 2);
    SmallDigits(c.seconds, 2);
    SmallDigits(c.millis, 3);
  }

  lemma {:induction false} NatToStringLength(n: nat, w: nat)
    requires n < Power10(w) && w >= 1
    ensures |NatToString(n)| <= w
    decreases n
  {
    if n >= 10 {
      NatToStringLength(n / 10, w - 1);
    }
  }

  lemma SmallDigits(n: nat, w: nat)
    requires w >= 1 && n < Power10(w)
    ensures |ZeroPad(n, w)| == w
  {
    NatToStringLength(n, w);
  }
}
