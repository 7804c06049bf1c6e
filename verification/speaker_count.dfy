/**
 The two copies of count_uniqe_speakers.py: for every accent of a menu, the number of
 distinct speakers (client ids) with at least one row of that accent. The counters and the
 set of seen speakers start afresh for every accent, and the file is read again.

 The copy at the repository root matches the accent field case-insensitively and in
 full; the copy under helper_scripts/ matches it case-sensitively and in full, and adds a
 "Slavic" entry that uses the Slavic alternation (the `slavic` parameter) instead.
 */
module SpeakerCount {
  import opened Wrappers
  import opened PyText
  import opened Lists
  import opened CommonVoice

  /** `ACCENTS` of the root copy. */
  const Accents: seq<string> := [
    "Australian English", "Canadian English", "England English",
    "India and South Asia (India, Pakistan, Sri Lanka)", "Irish English", "Scottish English",
    "United States English", "Filipino"]

  /** `ACCENTS` of the helper copy: the same menu and "Slavic". */
  const HelperAccents: seq<string> := Accents + ["Slavic"]

  /** Root copy: `re.compile(rf"^{re.escape(accent)}$", re.IGNORECASE)`. */
  function RootMatch(name: string): Entry -> bool {
    (e: Entry) => EqualsIgnoreCase(e.accent, name)
  }

  /** Helper copy: the Slavic alternation for "Slavic", else `^{re.escape(accent)}$` with case. */
  function HelperMatch(name: string, slavic: string -> bool): Entry -> bool {
    (e: Entry) => if name == "Slavic" then slavic(e.accent) else e.accent == name
  }

  /** The speakers of the file with at least one matching row. */
  function Speakers(matches: Entry -> bool, lines: seq<string>): set<string> {
    Ids(ClientOf, Filter(matches, Collect(ParseLine, lines)))
  }

  /**
   The reading loop for one accent: a row that parses and matches adds one to the counter
   when its speaker has not been seen yet.
   */
  method CountSpeakers(lines: seq<string>, matches: Entry -> bool) returns (count: nat)
    ensures count == |Speakers(matches, lines)|
  {
    count := CountWith(ParseLine, matches, lines);
  }

  /** The same loop for any row parser. */
  method CountWith(parse: string -> Option<Entry>, matches: Entry -> bool, lines: seq<string>) returns (count: nat)
    ensures count == |Ids(ClientOf, Filter(matches, Collect(parse, lines)))|
  {
    var seen: set<string> := {};
    count := 0;
    var i := 0;
    assert lines[..0] == [];
    while i < |lines|
      invariant i <= |lines|
      invariant seen == Ids(ClientOf, Filter(matches, Collect(parse, lines[..i])))
      invariant count == |seen|
    {
      CollectStep(parse, lines, i);
      ghost var before := Collect(parse, lines[..i]);
      var entry := parse(lines[i]);
      if entry.Some? {
        assert Collect(parse, lines[..i + 1]) == before + [entry.value];
        FilterSnoc(matches, before, entry.value);
      } else {
        assert Collect(parse, lines[..i + 1]) == before;
      }
      if entry.Some? && matches(entry.value) {
        IdsSnoc(ClientOf, Filter(matches, before), entry.value);
        if entry.value.clientId !in seen {
          count := count + 1;
          seen := seen + {entry.value.clientId};
        }
      }
      i := i + 1;
    }
    assert lines[..i] == lines;
  }

  /** The count is the length of the first-row-per-speaker list, and at most the matching rows. */
  lemma CountIsFirstRows(matches: Entry -> bool, lines: seq<string>)
    ensures |Speakers(matches, lines)| == |FirstPerKey(ClientOf, Filter(matches, Collect(ParseLine, lines)))|
    ensures |Speakers(matches, lines)| <= |Filter(matches, Collect(ParseLine, lines))|
  {
    KeyCount(ClientOf, Filter(matches, Collect(ParseLine, lines)));
    IdsSize(ClientOf, Filter(matches, Collect(ParseLine, lines)));
  }

  /** The counts for a menu, one run of the reading loop per accent. */
  method CountAll(lines: seq<string>, names: seq<string>, matchFor: string -> Entry -> bool)
    returns (counts: seq<nat>)
    ensures |counts| == |names|
    ensures forall a :: 0 <= a < |names| ==> counts[a] == |Speakers(matchFor(names[a]), lines)|
  {
    counts := CountAllWith(ParseLine, lines, names, matchFor);
  }

  /** The same menu loop for any row parser. */
  method CountAllWith(parse: string -> Option<Entry>, lines: seq<string>, names: seq<string>,
                      matchFor: string -> Entry -> bool)
    returns (counts: seq<nat>)
    ensures |counts| == |names|
    ensures forall a :: 0 <= a < |names| ==>
      counts[a] == |Ids(ClientOf, Filter(matchFor(names[a]), Collect(parse, lines)))|
  {
    counts := [];
    var a := 0;
    while a < |names|
      invariant a <= |names| && |counts| == a
      invariant forall b :: 0 <= b < a ==>
        counts[b] == |Ids(ClientOf, Filter(matchFor(names[b]), Collect(parse, lines)))|
    {
      var c := CountWith(parse, matchFor(names[a]), lines);
      counts := counts + [c];
      a := a + 1;
    }
  }

  /** The root copy's run: eight counts. */
  method RootCounts(lines: seq<string>) returns (counts: seq<nat>)
    ensures |counts| == |Accents|
    ensures forall a :: 0 <= a < |Accents| ==> counts[a] == |Speakers(RootMatch(Accents[a]), lines)|
  {
    counts := CountAll(lines, Accents, RootMatch);
  }

  /** The helper copy's run: nine counts, the last one for the Slavic alternation. */
  method HelperCounts(lines: seq<string>, slavic: string -> bool) returns (counts: seq<nat>)
    ensures |counts| == |HelperAccents|
    ensures forall a :: 0 <= a < |HelperAccents| ==> counts[a] == |Speakers(HelperMatch(HelperAccents[a], slavic), lines)|
  {
    counts := CountAll(lines, HelperAccents, (name: string) => HelperMatch(name, slavic));
  }

  /**
   On the same file and for an accent of the shared menu, the case-sensitive helper copy
   counts no more speakers than the root copy: a row equal to the name also equals it
   ignoring case.
   */
  lemma HelperCountsNoMore(name: string, slavic: string -> bool, lines: seq<string>)
    requires name != "Slavic"
    ensures Speakers(HelperMatch(name, slavic), lines) <= Speakers(RootMatch(name), lines)
    ensures |Speakers(HelperMatch(name, slavic), lines)| <= |Speakers(RootMatch(name), lines)|
  {
    IdsFilterMono(ClientOf, HelperMatch(name, slavic), RootMatch(name), Collect(ParseLine, lines));
    SubsetSize(Speakers(HelperMatch(name, slavic), lines), Speakers(RootMatch(name), lines));
  }

  lemma SubsetSize(a: set<string>, b: set<string>)
    requires a <= b
    ensures |a| <= |b|
  {
    assert b == a + (b - a);
  }

  /**
   A row whose accent differs from the name only in letter case counts for the root copy
   and not for the helper copy.
   */
  lemma CaseMatters(name: string, slavic: string -> bool, e: Entry)
    requires name != "Slavic" && e.accent != name && LowerStr(e.accent) == LowerStr(name)
    ensures RootMatch(name)(e) && !HelperMatch(name, slavic)(e)
  {
  }
}
