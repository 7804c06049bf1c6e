/**
 label_script.py: the labelling helper. `filter_and_sort_tsv` keeps, for the chosen accent
 label, the first acceptable clip of every speaker (in file order), ranks the kept rows by
 score and writes them as `filename\ttranscript`; `get_next_batch` then hands these rows out
 ten at a time, and the output folder is named after the label's first word.

 The existence and frame-count checks on the clip file are the `usable` parameter, and the
 Slavic alternation (used when the label is "Slavic") is the `slavic` parameter. A file is a
 sequence of lines without their line breaks.
 */
module LabelScript {
  import opened Wrappers
  import opened PyText
  import opened Lists
  import opened ScoreOrder
  import opened CommonVoice

  /** `BATCH_SIZE` */
  const BatchSize: nat := 10

  /** A row is taken when its accent matches and its clip is usable. */
  function Accepted(name: string, slavic: string -> bool, usable: Entry -> bool): Entry -> bool {
    (e: Entry) => LabelMatches(name, slavic, e.accent) && usable(e)
  }

  /** The first accepted row of every speaker, in file order. */
  function KeptRows(lines: seq<string>, accepted: Entry -> bool): seq<Entry> {
    FirstPerKey(ClientOf, Filter(accepted, Collect(ParseLine, lines)))
  }

  /** One more line keeps its row exactly when it parses, is accepted and its speaker is new. */
  lemma KeptStep(lines: seq<string>, accepted: Entry -> bool, i: nat)
    requires i < |lines|
    ensures var before := KeptRows(lines[..i], accepted);
      var add := Kept(accepted, ParseLine(lines[i]));
      KeptRows(lines[..i + 1], accepted)
      == before + (if add != [] && add[0].clientId !in Ids(ClientOf, before) then add else [])
  {
    ParsedStep(accepted, lines, i);
    FirstPerKeyAppend(ClientOf, Filter(accepted, Collect(ParseLine, lines[..i])), Kept(accepted, ParseLine(lines[i])));
  }

  /**
   The reading loop of `filter_and_sort_tsv`. A speaker is recorded only once one of their
   rows passes every check, so a rejected row does not shut the speaker out.
   */
  method FilterRows(lines: seq<string>, name: string, slavic: string -> bool, usable: Entry -> bool)
    returns (entries: seq<Entry>)
    ensures entries == KeptRows(lines, Accepted(name, slavic, usable))
  {
    entries := FirstRowsWith(ParseLine, Accepted(name, slavic, usable), lines);
  }

  /** The same loop for any row parser. */
  method FirstRowsWith(parse: string -> Option<Entry>, accepted: Entry -> bool, lines: seq<string>)
    returns (entries: seq<Entry>)
    ensures entries == FirstPerKey(ClientOf, Filter(accepted, Collect(parse, lines)))
  {
    var used: set<string> := {};
    entries := [];
    var i := 0;
    assert lines[..0] == [] && Filter(accepted, []) == [] && FirstPerKey(ClientOf, []) == [];
    while i < |lines|
      invariant i <= |lines|
      invariant entries == FirstPerKey(ClientOf, Filter(accepted, Collect(parse, lines[..i])))
      invariant used == Ids(ClientOf, entries)
    {
      FirstKeptNext(parse, accepted, ClientOf, lines, i, entries, used);
      var entry := parse(lines[i]);
      if entry.Some? && entry.value.clientId !in used && accepted(entry.value) {
        used := used + {entry.value.clientId};
        entries := entries + [entry.value];
      }
      i := i + 1;
    }
    assert lines[..i] == lines;
  }

  /**
   `filter_and_sort_tsv`: the lines of the temporary file, one per kept row, ordered by the
   key `(score != 0, -score)`.
   */
  method FilterAndSort(lines: seq<string>, name: string, slavic: string -> bool, usable: Entry -> bool)
    returns (rows: seq<string>, ranked: seq<Entry>)
    ensures ranked == SortByScore(KeptRows(lines, Accepted(name, slavic, usable)), Score)
    ensures rows == Map(ClipRow, ranked)
  {
    var entries := FilterRows(lines, name, slavic, usable);
    ranked := SortByScore(entries, Score);
    rows := WriteRows(ranked);
  }

  /**
   What the temporary file holds: every kept row once, ranked by score, each of an accepted
   row, and no two of the same speaker.
   */
  lemma RankedRows(lines: seq<string>, accepted: Entry -> bool)
    ensures var kept := KeptRows(lines, accepted);
      var r := SortByScore(kept, Score);
      && SortedBy(r, Score)
      && multiset(r) == multiset(kept)
      && (forall i :: 0 <= i < |r| ==> accepted(r[i]) && r[i] in Collect(ParseLine, lines))
      && (forall i, j :: 0 <= i < j < |r| ==> r[i].clientId != r[j].clientId)
  {
    var f := Filter(accepted, Collect(ParseLine, lines));
    var kept := KeptRows(lines, accepted);
    var r := SortByScore(kept, Score);
    forall i | 0 <= i < |r| ensures accepted(r[i]) && r[i] in Collect(ParseLine, lines) {
      assert r[i] in multiset(kept);
      var j :| 0 <= j < |kept| && kept[j] == r[i];
      assert kept[j] in f;
      var m :| 0 <= m < |f| && f[m] == kept[j];
    }
    forall i, j | 0 <= i < j < |r| ensures r[i].clientId != r[j].clientId {
      DistinctAfterPermutation(kept, r, i, j);
    }
  }

  /** Rearranging a list with distinct speakers keeps the speakers distinct. */
  lemma DistinctAfterPermutation(xs: seq<Entry>, ys: seq<Entry>, i: nat, j: nat)
    requires multiset(xs) == multiset(ys)
    requires forall a, b :: 0 <= a < b < |xs| ==> xs[a].clientId != xs[b].clientId
    requires i < j < |ys|
    ensures ys[i].clientId != ys[j].clientId
  {
    assert ys[i] in multiset(xs) && ys[j] in multiset(xs);
    var a :| 0 <= a < |xs| && xs[a] == ys[i];
    var b :| 0 <= b < |xs| && xs[b] == ys[j];
    assert a != b by {
      if a == b {
        SingleOccurrence(xs, a);
        TwoOccurrences(ys, i, j);
        assert false;
      }
    }
  }

  /** With distinct speakers an entry occurs once. */
  lemma SingleOccurrence(xs: seq<Entry>, a: nat)
    requires forall p, q :: 0 <= p < q < |xs| ==> xs[p].clientId != xs[q].clientId
    requires a < |xs|
    ensures multiset(xs)[xs[a]] == 1
  {
    var x := xs[a];
    var front, back := xs[..a], xs[a + 1..];
    assert xs == front + [x] + back;
    assert x !in front by {
      forall k | 0 <= k < a ensures front[k] != x { assert front[k] == xs[k]; }
    }
    assert x !in back by {
      forall k | 0 <= k < |back| ensures back[k] != x { assert back[k] == xs[a + 1 + k]; }
    }
  }

  /** An entry at two positions occurs at least twice. */
  lemma TwoOccurrences(ys: seq<Entry>, i: nat, j: nat)
    requires i < j < |ys| && ys[i] == ys[j]
    ensures multiset(ys)[ys[i]] >= 2
  {
    assert ys == ys[..i] + [ys[i]] + ys[i + 1..j] + [ys[j]] + ys[j + 1..];
  }

  /** `line.strip().split("\t")[0]` */
  function FirstField(line: string): string {
    Split(Strip(line), '\t')[0]
  }

  /** The file name of a written row reads back from it. */
  lemma FirstFieldOfRow(e: Entry)
    requires |e.filename| > 0 && '\t' !in e.filename
    requires !IsSpace(e.filename[0]) && !IsSpace(e.filename[|e.filename| - 1])
    ensures FirstField(ClipRow(e)) == e.filename
  {
    var f := e.filename;
    var row := ClipRow(e);
    assert [f, e.transcript][1..] == [e.transcript];
    assert Join([e.transcript], '\t') == e.transcript;
    assert row == f + ['\t'] + e.transcript;
    StripKeepsHead(row, f, '\t');
    SplitFirst(Strip(row), '\t', f);
  }

  /** The file names of a run of lines. */
  function FirstFields(lines: seq<string>): seq<string> {
    Map(FirstField, lines)
  }

  /**
   `get_next_batch`: skip `index` lines, then read up to ten. The result is the batch's file
   names, and `EOF` is set exactly when the file ran out before ten lines were read, so
   exactly ten remaining lines do not count as the end.
   */
  method GetNextBatch(lines: seq<string>, index: nat) returns (batch: seq<string>, eof: bool)
    ensures batch == FirstFields(Window(lines, index, BatchSize))
    ensures eof <==> index + BatchSize > |lines|
    ensures |batch| <= BatchSize
  {
    batch, eof := ReadAfter(FirstField, lines, index, BatchSize);
  }

  /** The two loops of `get_next_batch`, for any reading `read` of one line. */
  method ReadAfter(read: string -> string, lines: seq<string>, index: nat, n: nat)
    returns (batch: seq<string>, eof: bool)
    requires n > 0
    ensures batch == Map(read, Window(lines, index, n))
    ensures eof <==> index + n > |lines|
  {
    var pos := 0;
    var skipped := 0;
    while skipped < index
      invariant skipped <= index
      invariant pos == if skipped <= |lines| then skipped else |lines|
    {
      if pos < |lines| {
        pos := pos + 1;
      }
      skipped := skipped + 1;
    }
    var start := pos;
    batch := [];
    eof := false;
    var k := 0;
    while k < n && !eof
      invariant k <= n
      invariant pos == start + k <= |lines|
      invariant batch == Map(read, lines[start..pos])
      invariant eof ==> pos == |lines| && k < n
      decreases n - k, if eof then 0 else 1
    {
      if pos == |lines| {
        eof := true;
      } else {
        SliceSnoc(lines, start, pos);
        MapSnoc(read, lines[start..pos], lines[pos]);
        batch := batch + [read(lines[pos])];
        pos := pos + 1;
        k := k + 1;
      }
    }
    assert start == if index <= |lines| then index else |lines|;
    assert pos == if start + n <= |lines| then start + n else |lines|;
  }

  /**
   The batches `main` prepares when the labeller presses Enter every time and the target
   size is never reached: one call at index 0, then one call after every Enter with the
   index moved on by ten. Enter overwrites the end flag of the first call before the flag
   is tested, so the loop stops only once a later call reports the end of the file: a file
   of fewer than ten rows still gets a second, empty batch.
   */
  function Batches(lines: seq<string>): seq<seq<string>> {
    MapEach(FirstField, ReadsPastFirst(lines, BatchSize))
  }

  /**
   Batch `k` is what the `k`-th call of `get_next_batch` returns, at index `10 * k`, and it
   is the last batch exactly when it is not the first and its call reports the end of the
   file.
   */
  lemma BatchCalls(lines: seq<string>, k: nat)
    requires k < |Batches(lines)|
    ensures Batches(lines)[k] == FirstFields(Window(lines, k * BatchSize, BatchSize))
    ensures k == |Batches(lines)| - 1 <==> k > 0 && k * BatchSize + BatchSize > |lines|
  {
    MapEachAt(FirstField, ReadsPastFirst(lines, BatchSize), k);
    ReadsPastFirstAt(lines, BatchSize, k);
  }

  /** The batches hand out every row of the file once, in order. */
  lemma BatchesCover(lines: seq<string>)
    ensures Flatten(Batches(lines)) == FirstFields(lines)
  {
    FlattenMapEach(FirstField, ReadsPastFirst(lines, BatchSize));
    ReadsPastFirstCover(lines, BatchSize);
  }

  /**
   With ten rows or more, every batch but the last holds ten rows and the last holds what
   is left over, which is nothing at all when the number of rows is a multiple of ten.
   With fewer than ten rows there are two batches: all the rows, then nothing.
   */
  lemma BatchSizes(lines: seq<string>)
    ensures var b := Batches(lines);
      && |b| == (if |lines| < BatchSize then 2 else |lines| / BatchSize + 1)
      && (|lines| < BatchSize ==> b == [FirstFields(lines), []])
      && (|lines| >= BatchSize ==>
            (forall i :: 0 <= i < |b| - 1 ==> |b[i]| == BatchSize)
            && |b[|b| - 1]| == |lines| % BatchSize)
  {
    var ws := ReadsPastFirst(lines, BatchSize);
    ReadsPastFirstShape(lines, BatchSize);
    forall i | 0 <= i < |ws| ensures Batches(lines)[i] == Map(FirstField, ws[i]) {
      MapEachAt(FirstField, ws, i);
    }
    if |lines| >= BatchSize {
      WindowsSizes(lines, 0, BatchSize);
    }
  }

  /**
   `ACCENT_LABEL.strip().split()[0] + "_dataset"`; `None` where Python raises `IndexError`
   for a blank label.
   */
  function FolderName(name: string): Option<string> {
    var w := FirstWord(Strip(name));
    if w.None? then None else Some(w.value + "_dataset")
  }

  /** Only a blank label has no folder name. */
  lemma FolderNameBlank(name: string)
    ensures FolderName(name).None? <==> forall i :: 0 <= i < |name| ==> IsSpace(name[i])
  {
    var t := TrimStart(name);
    if !(forall i :: 0 <= i < |name| ==> IsSpace(name[i])) {
      assert t != [];
      assert Strip(name) != [];
      assert !IsSpace(Strip(name)[0]);
    }
  }

  /** The folder is named after the label's first word, whatever whitespace surrounds it. */
  lemma FolderNameOf(lead: string, w: string, rest: string)
    requires forall i :: 0 <= i < |lead| ==> IsSpace(lead[i])
    requires |w| > 0 && forall i :: 0 <= i < |w| ==> !IsSpace(w[i])
    requires rest == [] || IsSpace(rest[0])
    ensures FolderName(lead + w + rest) == Some(w + "_dataset")
  {
    FirstWordOfStripped(lead, w, rest);
  }
}
