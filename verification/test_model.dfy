/**
 test_model.py: the evaluation run. For every accent of the menu, `filter_and_sort_tsv`
 writes the matching usable rows of the test corpus, ranked by score, and the main loop
 predicts an accent for each of them, counting hits per accent and in total, and exporting
 every 25th misclassified clip across the whole run.

 This corpus has a different column layout (file name 1, transcript 2, votes 3 and 4,
 accent 7) and the script guards only against the header: any other row with fewer than
 eight fields raises `IndexError`, which ends the run. The clip checks (the file exists
 and lasts at least 5 s) are the `usable` parameter, the Slavic alternation is `slavic`,
 and the classifier is `predict`, from a file name to the label it returns.
 */
module TestModel {
  import opened Wrappers
  import opened PyText
  import opened Lists
  import opened ScoreOrder
  import opened CommonVoice

  /** The row fields 0, 1, 2, 3, 4 and 7 make. */
  function TestEntryOf(p: seq<string>): Entry
    requires |p| >= 8
  {
    Entry(p[0], p[1], p[2], CountField(p[3]), CountField(p[4]), p[7])
  }

  /** One line: skipped (`None`) when it is the header, an error when it is short. */
  function ParseTestLine(line: string): (r: Result<Option<Entry>, string>)
    ensures r.Failure? <==> Fields(line)[0] != "client_id" && |Fields(line)| < 8
    ensures r == Success(None) <==> Fields(line)[0] == "client_id"
  {
    var p := Fields(line);
    if p[0] == "client_id" then Success(None)
    else if |p| < 8 then Failure("IndexError: list index out of range")
    else Success(Some(TestEntryOf(p)))
  }

  /** A written row of at least eight fields, other than the header, reads back as the entry of fields 0, 1, 2, 3, 4 and 7. */
  lemma ParseTestRow(fields: seq<string>)
    requires |fields| >= 8 && Writable(fields) && fields[0] != "client_id"
    ensures ParseTestLine(Join(fields, '\t') + "\n") == Success(Some(TestEntryOf(fields)))
  {
    FieldsOfRow(fields);
  }

  /** A written row of fewer than eight fields, other than the header, ends the run. */
  lemma ShortTestRowFails(fields: seq<string>)
    requires |fields| < 8 && Writable(fields) && fields[0] != "client_id"
    ensures ParseTestLine(Join(fields, '\t') + "\n").Failure?
  {
    FieldsOfRow(fields);
  }

  /** The entries of the file, or the error of its first short row. */
  function ParseTestFile(lines: seq<string>): Result<seq<Entry>, string> {
    Gather(ParseTestLine, lines)
  }

  /** The run fails exactly when some row other than the header has fewer than eight fields. */
  lemma ParseTestFileFails(lines: seq<string>)
    ensures ParseTestFile(lines).Failure?
        <==> exists i :: 0 <= i < |lines| && ParseTestLine(lines[i]).Failure?
  {
    GatherFails(ParseTestLine, lines);
  }

  /** A blank line is not the header and has one field, so it ends the run. */
  lemma BlankLineFails(line: string)
    requires forall i :: 0 <= i < |line| ==> IsSpace(line[i])
    ensures ParseTestLine(line).Failure?
  {
    assert TrimStart(line) == [];
    assert Fields(line) == [[]];
  }

  /** The evaluation filter: the accent matches and the clip is usable. No speaker is checked. */
  function TestAccepted(accent: string, slavic: string -> bool, usable: Entry -> bool): Entry -> bool {
    (e: Entry) => LabelMatches(accent, slavic, e.accent) && usable(e)
  }

  /**
   `filter_and_sort_tsv(accent)` on parsed entries: every accepted entry, ranked by score.
   `used_clients` is filled but never read, so a speaker may appear many times.
   */
  method FilterAndSortTest(entries: seq<Entry>, accent: string, slavic: string -> bool, usable: Entry -> bool)
    returns (rows: seq<string>, ranked: seq<Entry>)
    ensures ranked == SortByScore(Filter(TestAccepted(accent, slavic, usable), entries), Score)
    ensures rows == Map(ClipRow, ranked)
  {
    var accepted := TestAccepted(accent, slavic, usable);
    var used: set<string> := {};
    var kept: seq<Entry> := [];
    var i := 0;
    while i < |entries|
      invariant i <= |entries|
      invariant kept == Filter(accepted, entries[..i])
    {
      var e := entries[i];
      SliceSnoc(entries, 0, i);
      assert entries[..i + 1] == entries[0..i + 1] && entries[..i] == entries[0..i];
      FilterSnoc(accepted, entries[..i], e);
      if LabelMatches(accent, slavic, e.accent) && usable(e) {
        used := used + {e.clientId};
        kept := kept + [e];
      }
      i := i + 1;
    }
    assert entries[..i] == entries;
    ranked := SortByScore(kept, Score);
    rows := WriteRows(ranked);
  }

  /** Without a speaker check, every accepted row is kept: the output is a rearrangement of them all. */
  lemma NoSpeakerDedupe(entries: seq<Entry>, accepted: Entry -> bool)
    ensures multiset(SortByScore(Filter(accepted, entries), Score)) == multiset(Filter(accepted, entries))
    ensures |SortByScore(Filter(accepted, entries), Score)| == |Filter(accepted, entries)|
  {
    var f := Filter(accepted, entries);
    assert |multiset(SortByScore(f, Score))| == |multiset(f)|;
  }

  /** A speaker with two accepted rows appears twice. */
  lemma SameSpeakerTwice(a: Entry, b: Entry, accepted: Entry -> bool)
    requires accepted(a) && accepted(b) && a.clientId == b.clientId && a != b
    ensures var r := SortByScore(Filter(accepted, [a, b]), Score);
      |r| == 2 && a in r && b in r
  {
    assert [a, b][..1] == [a] && [a][..0] == [];
    assert Filter(accepted, [a]) == [a];
    assert Filter(accepted, [a, b]) == [a, b];
    var r := SortByScore([a, b], Score);
    assert a in multiset(r) && b in multiset(r);
  }

  /** The label the classifier must return for an accent: `ACCENT_LABEL_MAP[accent]`, already stripped and lower-case. */
  const Accents: seq<string> := [
    "Australian English", "Canadian English", "England English",
    "India and South Asia (India, Pakistan, Sri Lanka)", "Irish English", "Scottish English",
    "United States English", "Filipino", "Slavic"]
  const Labels: seq<string> := [
    "australian", "canadian", "england", "india", "irish", "scottish", "american", "filipino", "slavic"]

  /** One prediction: the clip, the cleaned-up predicted label, and whether it is a hit. */
  datatype Verdict = Verdict(filename: string, prediction: string, hit: bool)

  /**
   One line of the ranked file: skipped when it splits into fewer than two fields, otherwise
   a prediction for its first field, compared after `strip().lower()` with the true label.
   */
  function Judge(truth: string, predict: string -> string, line: string): Option<Verdict> {
    var parts := Fields(line);
    if |parts| < 2 then None
    else
      var prediction := LowerStr(Strip(predict(parts[0])));
      Some(Verdict(parts[0], prediction, truth == prediction))
  }

  /**
   A row of the ranked file, as `filename<TAB>transcript` writes it, is judged under its file
   name, and the verdict is a hit exactly when the classifier's answer, stripped, equals the
   true label up to letter case.
   */
  lemma JudgeWrittenRow(truth: string, predict: string -> string, e: Entry)
    requires Writable([e.filename, e.transcript])
    requires LowerStr(truth) == truth
    ensures var v := Judge(truth, predict, ClipRow(e) + "\n");
      && v.Some? && v.value.filename == e.filename
      && (v.value.hit <==> EqualsIgnoreCase(Strip(predict(e.filename)), truth))
  {
    FieldsOfRow([e.filename, e.transcript]);
  }

  /** A row whose transcript is empty loses its tab to `strip()` and is skipped, not judged. */
  lemma EmptyTranscriptSkipped(truth: string, predict: string -> string, e: Entry)
    requires Writable([e.filename]) && e.transcript == ""
    ensures Judge(truth, predict, ClipRow(e) + "\n") == None
  {
    var f := e.filename;
    assert [f, e.transcript][1..] == [e.transcript];
    assert Join([e.transcript], '\t') == e.transcript;
    assert ClipRow(e) + "\n" == f + ['\t', '\n'];
    StripTabLine(f);
    FieldsOfRow([f]);
    assert Join([f], '\t') + "\n" == f + "\n";
  }

  function JudgeOf(truth: string, predict: string -> string): string -> Option<Verdict> {
    (line: string) => Judge(truth, predict, line)
  }

  /** The verdicts on a ranked file, in order. */
  function Verdicts(truth: string, predict: string -> string, lines: seq<string>): (r: seq<Verdict>)
    ensures |r| <= |lines|
  {
    Collect(JudgeOf(truth, predict), lines)
  }

  function HitCount(vs: seq<Verdict>): (n: nat)
    ensures n <= |vs|
  {
    if vs == [] then 0 else HitCount(vs[..|vs| - 1]) + (if vs[|vs| - 1].hit then 1 else 0)
  }

  function Missed(v: Verdict): bool {
    !v.hit
  }

  /** The misclassified verdicts, in order. */
  function Misses(vs: seq<Verdict>): seq<Verdict> {
    Filter(Missed, vs)
  }

  /** Every verdict is either a hit or a miss. */
  lemma {:induction false} HitsAndMisses(vs: seq<Verdict>)
    ensures HitCount(vs) + |Misses(vs)| == |vs|
    decreases |vs|
  {
    if vs != [] {
      var front := vs[..|vs| - 1];
      HitsAndMisses(front);
      assert vs == front + [vs[|vs| - 1]];
      FilterSnoc(Missed, front, vs[|vs| - 1]);
    }
  }

  /** `MISCLASSIFIED_EVERY`: one misclassified clip in 25 is exported. */
  const ExportEvery: nat := 25

  /**
   The misses that are exported when `count` misses came before them: those whose running
   count (counting from 1) is a multiple of 25.
   */
  function EveryFrom(count: nat, ms: seq<Verdict>): seq<Verdict> {
    if ms == [] then []
    else EveryFrom(count, ms[..|ms| - 1]) + (if (count + |ms|) % ExportEvery == 0 then [ms[|ms| - 1]] else [])
  }

  /** Exporting from a run of misses in two parts: the second part continues the count. */
  lemma {:induction false} EveryFromAppend(count: nat, a: seq<Verdict>, b: seq<Verdict>)
    ensures EveryFrom(count, a + b) == EveryFrom(count, a) + EveryFrom(count + |a|, b)
    decreases |b|
  {
    if b == [] {
      assert a + b == a;
    } else {
      var front := b[..|b| - 1];
      EveryFromAppend(count, a, front);
      assert (a + b)[..|a + b| - 1] == a + front;
    }
  }

  /** Counting from 0, the exported misses are those at positions 24, 49, 74, ... */
  lemma {:induction false} EveryFromZero(ms: seq<Verdict>)
    ensures |EveryFrom(0, ms)| == |ms| / ExportEvery
    ensures forall k :: 0 <= k < |EveryFrom(0, ms)| ==> EveryFrom(0, ms)[k] == ms[ExportEvery * k + ExportEvery - 1]
    decreases |ms|
  {
    if ms != [] {
      var front := ms[..|ms| - 1];
      EveryFromZero(front);
      var e, ef := EveryFrom(0, ms), EveryFrom(0, front);
      forall k | 0 <= k < |e| ensures e[k] == ms[ExportEvery * k + ExportEvery - 1] {
        if k < |ef| {
          assert e[k] == ef[k];
          assert front[ExportEvery * k + ExportEvery - 1] == ms[ExportEvery * k + ExportEvery - 1];
        }
      }
    }
  }

  lemma HitCountSnoc(vs: seq<Verdict>, v: Verdict)
    ensures HitCount(vs + [v]) == HitCount(vs) + (if v.hit then 1 else 0)
  {
    assert (vs + [v])[..|vs|] == vs;
  }

  lemma EveryFromSnoc(count: nat, ms: seq<Verdict>, v: Verdict)
    ensures EveryFrom(count, ms + [v]) == EveryFrom(count, ms) + (if (count + |ms| + 1) % ExportEvery == 0 then [v] else [])
  {
    assert (ms + [v])[..|ms|] == ms;
  }

  lemma VerdictStep(vs: seq<Verdict>, v: Verdict, count: nat)
    ensures HitCount(vs + [v]) == HitCount(vs) + (if v.hit then 1 else 0)
    ensures Misses(vs + [v]) == Misses(vs) + (if v.hit then [] else [v])
    ensures EveryFrom(count, Misses(vs) + [v])
         == EveryFrom(count, Misses(vs)) + (if (count + |Misses(vs)| + 1) % ExportEvery == 0 then [v] else [])
  {
    HitCountSnoc(vs, v);
    FilterSnoc(Missed, vs, v);
    EveryFromSnoc(count, Misses(vs), v);
  }

  /** The counters after the verdicts `vs` of one accent, starting from `count0` misses. */
  predicate Counted(vs: seq<Verdict>, count0: nat, hits: nat, predictions: nat, count: nat, exported: seq<Verdict>) {
    && hits == HitCount(vs) && predictions == |vs|
    && count == count0 + |Misses(vs)|
    && exported == EveryFrom(count0, Misses(vs))
  }

  /** One more verdict moves the counters as the loop body does. */
  lemma CountedStep(vs: seq<Verdict>, v: Verdict, count0: nat, hits: nat, predictions: nat, count: nat, exported: seq<Verdict>)
    requires Counted(vs, count0, hits, predictions, count, exported)
    ensures v.hit ==> Counted(vs + [v], count0, hits + 1, predictions + 1, count, exported)
    ensures !v.hit ==> Counted(vs + [v], count0, hits, predictions + 1, count + 1,
                               exported + (if (count + 1) % ExportEvery == 0 then [v] else []))
  {
    VerdictStep(vs, v, count0);
  }

  /** The counters after one more line of the file: a skipped line leaves them as they are. */
  lemma TallyNext(judge: string -> Option<Verdict>, lines: seq<string>, i: nat,
                  count0: nat, hits: nat, predictions: nat, count: nat, exported: seq<Verdict>)
    requires i < |lines|
    requires Counted(Collect(judge, lines[..i]), count0, hits, predictions, count, exported)
    ensures var v := judge(lines[i]); var seen := Collect(judge, lines[..i + 1]);
      if v.None? then Counted(seen, count0, hits, predictions, count, exported)
      else if v.value.hit then Counted(seen, count0, hits + 1, predictions + 1, count, exported)
      else Counted(seen, count0, hits, predictions + 1, count + 1,
                   exported + (if (count + 1) % ExportEvery == 0 then [v.value] else []))
  {
    CollectStep(judge, lines, i);
    var v := judge(lines[i]);
    var seen := Collect(judge, lines[..i]);
    if v.Some? {
      assert Collect(judge, lines[..i + 1]) == seen + [v.value];
      CountedStep(seen, v.value, count0, hits, predictions, count, exported);
    } else {
      assert Collect(judge, lines[..i + 1]) == seen;
    }
  }

  /** The counting loop over the lines of one file, for any per-line judgement. */
  method Tally(judge: string -> Option<Verdict>, lines: seq<string>, count0: nat)
    returns (hits: nat, predictions: nat, count: nat, exported: seq<Verdict>)
    ensures Counted(Collect(judge, lines), count0, hits, predictions, count, exported)
  {
    hits, predictions, count, exported := 0, 0, count0, [];
    var i := 0;
    assert lines[..0] == [] && Collect(judge, []) == [];
    while i < |lines|
      invariant i <= |lines|
      invariant Counted(Collect(judge, lines[..i]), count0, hits, predictions, count, exported)
    {
      TallyNext(judge, lines, i, count0, hits, predictions, count, exported);
      var v := judge(lines[i]);
      if v.Some? {
        if v.value.hit {
          hits := hits + 1;
        } else {
          count := count + 1;
          if count % ExportEvery == 0 {
            exported := exported + [v.value];
          }
        }
        predictions := predictions + 1;
      }
      i := i + 1;
    }
    assert lines[..i] == lines;
  }

  /** The per-line judgement of every accent, in menu order. */
  function Judges(truths: seq<string>, predict: string -> string): (r: seq<string -> Option<Verdict>>)
    ensures |r| == |truths|
    ensures forall a :: 0 <= a < |truths| ==> r[a] == JudgeOf(truths[a], predict)
  {
    seq(|truths|, (a: int) requires 0 <= a < |truths| => JudgeOf(truths[a], predict))
  }

  /** The totals over the accents' files, one after the other. */
  function TotalHits(judges: seq<string -> Option<Verdict>>, files: seq<seq<string>>): nat
    requires |judges| == |files|
  {
    if files == [] then 0
    else
      var n := |files| - 1;
      TotalHits(judges[..n], files[..n]) + HitCount(Collect(judges[n], files[n]))
  }

  function TotalPredictions(judges: seq<string -> Option<Verdict>>, files: seq<seq<string>>): nat
    requires |judges| == |files|
  {
    if files == [] then 0
    else
      var n := |files| - 1;
      TotalPredictions(judges[..n], files[..n]) + |Collect(judges[n], files[n])|
  }

  /** The misses of the whole run, in the order the loops meet them. */
  function AllMisses(judges: seq<string -> Option<Verdict>>, files: seq<seq<string>>): seq<Verdict>
    requires |judges| == |files|
  {
    if files == [] then []
    else
      var n := |files| - 1;
      AllMisses(judges[..n], files[..n]) + Misses(Collect(judges[n], files[n]))
  }

  /** The run's hits, predictions and misses add up. */
  lemma {:induction false} TotalsAddUp(judges: seq<string -> Option<Verdict>>, files: seq<seq<string>>)
    requires |judges| == |files|
    ensures TotalHits(judges, files) + |AllMisses(judges, files)| == TotalPredictions(judges, files)
    decreases |files|
  {
    if files != [] {
      var n := |files| - 1;
      TotalsAddUp(judges[..n], files[..n]);
      HitsAndMisses(Collect(judges[n], files[n]));
    }
  }

  /** The counters of one run. */
  datatype Report = Report(hits: seq<nat>, predictions: seq<nat>, totalHits: nat, totalPredictions: nat,
                           exported: seq<Verdict>)

  /** The counters of accent `a` are its hits and its predictions. */
  predicate AccentCounted(hits: seq<nat>, predictions: seq<nat>, judges: seq<string -> Option<Verdict>>,
                          files: seq<seq<string>>, a: nat)
    requires a < |hits| && a < |predictions| && a < |judges| && a < |files|
  {
    var vs := Collect(judges[a], files[a]);
    hits[a] == HitCount(vs) && predictions[a] == |vs|
  }

  /** What the run reports: per-accent and total counts and every 25th miss of the whole run. */
  predicate Reported(r: Report, judges: seq<string -> Option<Verdict>>, files: seq<seq<string>>)
    requires |judges| == |files|
  {
    && |r.hits| == |files| && |r.predictions| == |files|
    && (forall a :: 0 <= a < |files| ==> AccentCounted(r.hits, r.predictions, judges, files, a))
    && r.totalHits == TotalHits(judges, files)
    && r.totalPredictions == TotalPredictions(judges, files)
    && r.exported == EveryFrom(0, AllMisses(judges, files))
  }

  /**
   The main loop: one ranked file per accent, per-accent counters reset every time, and the
   totals and the misclassification counter carried across accents.
   */
  method Evaluate(judges: seq<string -> Option<Verdict>>, files: seq<seq<string>>) returns (r: Report)
    requires |judges| == |files|
    ensures Reported(r, judges, files)
  {
    var hits: seq<nat>, predictions: seq<nat> := [], [];
    var totalHits, totalPredictions, count := 0, 0, 0;
    var exported: seq<Verdict> := [];
    var a := 0;
    while a < |files|
      invariant a <= |files| && |hits| == a && |predictions| == a
      invariant forall b :: 0 <= b < a ==> AccentCounted(hits, predictions, judges, files, b)
      invariant totalHits == TotalHits(judges[..a], files[..a])
      invariant totalPredictions == TotalPredictions(judges[..a], files[..a])
      invariant count == |AllMisses(judges[..a], files[..a])|
      invariant exported == EveryFrom(0, AllMisses(judges[..a], files[..a]))
    {
      var h, p, c, e := Tally(judges[a], files[a], count);
      ghost var before := AllMisses(judges[..a], files[..a]);
      ghost var ms := Misses(Collect(judges[a], files[a]));
      assert judges[..a + 1][..a] == judges[..a] && files[..a + 1][..a] == files[..a];
      assert AllMisses(judges[..a + 1], files[..a + 1]) == before + ms;
      EveryFromAppend(0, before, ms);
      ghost var hits0, predictions0 := hits, predictions;
      hits := hits + [h];
      predictions := predictions + [p];
      forall b | 0 <= b < a + 1 ensures AccentCounted(hits, predictions, judges, files, b) {
        if b < a {
          assert AccentCounted(hits0, predictions0, judges, files, b);
        }
      }
      totalHits := totalHits + h;
      totalPredictions := totalPredictions + p;
      count := c;
      exported := exported + e;
      a := a + 1;
    }
    assert judges[..a] == judges && files[..a] == files;
    r := Report(hits, predictions, totalHits, totalPredictions, exported);
  }

  /** The rows `filter_and_sort_tsv(accent)` writes. */
  function RankedFile(entries: seq<Entry>, accent: string, slavic: string -> bool, usable: Entry -> bool): seq<string> {
    Map(ClipRow, SortByScore(Filter(TestAccepted(accent, slavic, usable), entries), Score))
  }

  /** The ranked file of every accent of the menu. */
  function RankedFiles(entries: seq<Entry>, slavic: string -> bool, usable: Entry -> bool): (r: seq<seq<string>>)
    ensures |r| == |Accents|
    ensures forall a :: 0 <= a < |Accents| ==> r[a] == RankedFile(entries, Accents[a], slavic, usable)
  {
    seq(|Accents|, (a: int) requires 0 <= a < |Accents| => RankedFile(entries, Accents[a], slavic, usable))
  }

  /** The ranking loop over the accents of the menu. */
  method RankAll(entries: seq<Entry>, slavic: string -> bool, usable: Entry -> bool) returns (files: seq<seq<string>>)
    ensures files == RankedFiles(entries, slavic, usable)
  {
    ghost var all := RankedFiles(entries, slavic, usable);
    files := [];
    var a := 0;
    while a < |Accents|
      invariant a <= |Accents| && files == all[..a]
    {
      var rows, _ := FilterAndSortTest(entries, Accents[a], slavic, usable);
      assert rows == all[a];
      assert all[..a + 1] == all[..a] + [all[a]];
      files := files + [rows];
      a := a + 1;
    }
    assert files == all;
  }

  /** Hits and exported misses together never exceed the predictions. */
  lemma ReportBound(r: Report, judges: seq<string -> Option<Verdict>>, files: seq<seq<string>>)
    requires |judges| == |files| && Reported(r, judges, files)
    ensures r.totalHits + |r.exported| <= r.totalPredictions
  {
    TotalsAddUp(judges, files);
    EveryFromZero(AllMisses(judges, files));
  }

  /**
   The whole script on the test corpus: a short row ends it with an error; otherwise every
   accent of the menu is ranked and evaluated against its label.
   */
  method RunEvaluation(lines: seq<string>, slavic: string -> bool, usable: Entry -> bool, predict: string -> string)
    returns (r: Result<Report, string>)
    ensures r.Failure? <==> exists i :: 0 <= i < |lines| && ParseTestLine(lines[i]).Failure?
    ensures r.Success? ==> (ParseTestFile(lines).Success?
      && Reported(r.value, Judges(Labels, predict), RankedFiles(ParseTestFile(lines).value, slavic, usable)))
  {
    ParseTestFileFails(lines);
    var parsed := ParseTestFile(lines);
    if parsed.Failure? {
      return Failure(parsed.error);
    }
    var files := RankAll(parsed.value, slavic, usable);
    var report := Evaluate(Judges(Labels, predict), files);
    r := Success(report);
  }
}
