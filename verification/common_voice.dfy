/**
 Rows of the Common Voice `validated.tsv` as the scripts read them: the line is stripped,
 split on tabs, and fields 0, 1, 3, 5, 6 and 9 are client id, file name, transcript,
 up-votes, down-votes and accent. A vote field counts only when it is all digits.
 */
module CommonVoice {
  import opened Wrappers
  import opened PyText
  import opened Lists

  /** `line.strip().split("\t")` */
  function Fields(line: string): (r: seq<string>)
    ensures |r| >= 1
  {
    Split(Strip(line), '\t')
  }

  /** One parsed row. */
  datatype Entry = Entry(clientId: string, filename: string, transcript: string,
                         upvotes: nat, downvotes: nat, accent: string)

  /** `upvotes - downvotes`, which may be negative. */
  function Score(e: Entry): int {
    e.upvotes - e.downvotes
  }

  function ClientOf(e: Entry): string {
    e.clientId
  }

  /** The entry fields 0, 1, 3, 5, 6 and 9 make. */
  function EntryOf(p: seq<string>): Entry
    requires |p| >= 10
  {
    Entry(p[0], p[1], p[3], CountField(p[5]), CountField(p[6]), p[9])
  }

  /** A row with at least ten fields, header or not (create_other_acc_dataset.py reads it so). */
  function RawEntry(line: string): (r: Option<Entry>)
    ensures r.Some? <==> |Fields(line)| >= 10
  {
    var p := Fields(line);
    if |p| < 10 then None else Some(EntryOf(p))
  }

  /** `parse_line`: `None` for short rows and for the header row. */
  function ParseLine(line: string): (r: Option<Entry>)
    ensures r.None? <==> |Fields(line)| < 10 || Fields(line)[0] == "client_id"
    ensures r.Some? ==> r == RawEntry(line)
  {
    var p := Fields(line);
    if |p| < 10 || p[0] == "client_id" then None else RawEntry(line)
  }

  /**
   Fields that survive being written as one tab-separated row: none holds a tab, and the
   row does not start or end with whitespace, which `strip()` would remove.
   */
  predicate Writable(fields: seq<string>) {
    && |fields| >= 1
    && (forall i :: 0 <= i < |fields| ==> '\t' !in fields[i])
    && |fields[0]| > 0 && !IsSpace(fields[0][0])
    && var last := fields[|fields| - 1]; |last| > 0 && !IsSpace(last[|last| - 1])
  }

  /** A written row, read back as a line of the file, splits into the fields it was made of. */
  lemma FieldsOfRow(fields: seq<string>)
    requires Writable(fields)
    ensures Fields(Join(fields, '\t') + "\n") == fields
  {
    var row := Join(fields, '\t');
    JoinEnds(fields, '\t');
    StripLine(row);
    SplitJoin(fields, '\t');
  }

  /**
   A row written out as tab-separated fields (no field holding a tab, no whitespace at the
   row's two ends) parses back to the fields it was made of.
   */
  lemma ParseRow(fields: seq<string>)
    requires |fields| >= 10 && fields[0] != "client_id"
    requires forall i :: 0 <= i < |fields| ==> '\t' !in fields[i]
    requires |fields[0]| > 0 && !IsSpace(fields[0][0])
    requires var last := fields[|fields| - 1]; |last| > 0 && !IsSpace(last[|last| - 1])
    ensures Fields(Join(fields, '\t') + "\n") == fields
    ensures ParseLine(Join(fields, '\t') + "\n") == Some(EntryOf(fields))
  {
    FieldsOfRow(fields);
  }

  /** The reader without a header check reads any written row of ten fields, the header too. */
  lemma RawEntryRow(fields: seq<string>)
    requires |fields| >= 10 && Writable(fields)
    ensures RawEntry(Join(fields, '\t') + "\n") == Some(EntryOf(fields))
  {
    FieldsOfRow(fields);
  }

  /** `parse_line` skips a written header row that the reader without a header check keeps. */
  lemma HeaderSkipped(fields: seq<string>)
    requires |fields| >= 10 && Writable(fields) && fields[0] == "client_id"
    ensures ParseLine(Join(fields, '\t') + "\n") == None
    ensures RawEntry(Join(fields, '\t') + "\n") == Some(EntryOf(fields))
  {
    FieldsOfRow(fields);
  }

  /** An all-digit vote field counts as its value; `str(n)` of a count reads back as `n`. */
  lemma CountRoundTrip(n: nat)
    ensures CountField(NatToString(n)) == n
  {
  }

  /** A vote field that is not all digits counts as 0, whatever it holds. */
  lemma CountNonDigits(s: string)
    requires exists i :: 0 <= i < |s| && !IsDigit(s[i])
    ensures CountField(s) == 0
  {
  }

  /** The line `f"{filename}\t{transcript}\n"` the selection scripts write, without the newline. */
  function ClipRow(e: Entry): string {
    Join([e.filename, e.transcript], '\t')
  }

  /** The output loop of the selection scripts: one `ClipRow` per entry, in order. */
  method WriteRows(entries: seq<Entry>) returns (rows: seq<string>)
    ensures rows == Map(ClipRow, entries)
  {
    rows := [];
    var i := 0;
    while i < |entries|
      invariant i <= |entries| && rows == Map(ClipRow, entries[..i])
    {
      assert entries[..i + 1] == entries[..i] + [entries[i]];
      MapSnoc(ClipRow, entries[..i], entries[i]);
      rows := rows + [ClipRow(entries[i])];
      i := i + 1;
    }
    assert entries[..i] == entries;
  }

  /** What one line contributes to the entries passing `p`. */
  function Kept(p: Entry -> bool, entry: Option<Entry>): seq<Entry> {
    if entry.Some? && p(entry.value) then [entry.value] else []
  }

  /** Reading one more line adds its entry exactly when it parses and passes `p`. */
  lemma ParsedStep(p: Entry -> bool, lines: seq<string>, i: nat)
    requires i < |lines|
    ensures Filter(p, Collect(ParseLine, lines[..i + 1]))
         == Filter(p, Collect(ParseLine, lines[..i])) + Kept(p, ParseLine(lines[i]))
  {
    CollectStep(ParseLine, lines, i);
    var e := ParseLine(lines[i]);
    if e.Some? {
      FilterSnoc(p, Collect(ParseLine, lines[..i]), e.value);
    } else {
      assert Collect(ParseLine, lines[..i + 1]) == Collect(ParseLine, lines[..i]);
    }
  }

  /**
   The accent test of the labelling and evaluation scripts: the Slavic alternation (the
   `slavic` parameter) for the label "Slavic", else `^{re.escape(label)}$` with
   `re.IGNORECASE`, a case-insensitive match of the whole field.
   */
  predicate LabelMatches(name: string, slavic: string -> bool, accent: string) {
    if name == "Slavic" then slavic(accent) else EqualsIgnoreCase(accent, name)
  }
}
