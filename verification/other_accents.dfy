/**
 create_other_acc_dataset.py: the "other accents" list. Every row of `validated.tsv` with at
 least ten fields is read (the header row included: there is no header check), rows whose
 accent mentions "united states", "british", "england" or "pol" in any letter case are left
 out, the first row of every speaker is kept in file order, and reading stops once 712
 speakers are kept. Each kept row is written as `filename<TAB>transcript`; copying the clips
 is left out.
 */
module OtherAccents {
  import opened Wrappers
  import opened PyText
  import opened Lists
  import opened CommonVoice

  /** `MAX_FILES` */
  const MaxFiles: nat := 712

  /** The alternatives of `EXCLUDE_PATTERN`. */
  const ExcludeWords: seq<string> := ["united states", "british", "england", "pol"]

  /** `not EXCLUDE_PATTERN.search(accent)`: no alternative occurs, ignoring case. */
  predicate Eligible(e: Entry) {
    forall i :: 0 <= i < |ExcludeWords| ==> !ContainsIgnoreCase(e.accent, ExcludeWords[i])
  }

  /** The rows kept: the first eligible row per speaker, at most `MAX_FILES` of them. */
  function Chosen(lines: seq<string>): seq<Entry> {
    Take(FirstPerKey(ClientOf, Filter(Eligible, Collect(RawEntry, lines))), MaxFiles)
  }

  /**
   The reading loop: `entries_by_client` is the kept list (a dict keeps insertion order),
   and the size test after every eligible row ends the loop once `cap` speakers are in.
   */
  method SelectWith(parse: string -> Option<Entry>, keep: Entry -> bool, lines: seq<string>, cap: nat)
    returns (chosen: seq<Entry>)
    requires cap > 0
    ensures chosen == Take(FirstPerKey(ClientOf, Filter(keep, Collect(parse, lines))), cap)
  {
    var clients: set<string> := {};
    chosen := [];
    var i := 0;
    var full := false;
    assert lines[..0] == [] && Filter(keep, []) == [] && FirstPerKey(ClientOf, []) == [];
    while i < |lines| && !full
      invariant i <= |lines|
      invariant chosen == FirstPerKey(ClientOf, Filter(keep, Collect(parse, lines[..i])))
      invariant clients == Ids(ClientOf, chosen)
      invariant if full then |chosen| == cap else |chosen| < cap
    {
      FirstKeptNext(parse, keep, ClientOf, lines, i, chosen, clients);
      var entry := parse(lines[i]);
      if entry.Some? && keep(entry.value) && entry.value.clientId !in clients {
        clients := clients + {entry.value.clientId};
        chosen := chosen + [entry.value];
        full := |chosen| >= cap;
      }
      i := i + 1;
    }
    FirstKeptExit(parse, keep, ClientOf, lines, i, chosen, cap, full);
  }

  /** The whole script on the lines of `validated.tsv`: the rows of the output list. */
  method OtherAccentsList(lines: seq<string>) returns (rows: seq<string>)
    ensures rows == Map(ClipRow, Chosen(lines))
  {
    var chosen := SelectWith(RawEntry, Eligible, lines, MaxFiles);
    rows := WriteRows(chosen);
  }

  /** At most 712 rows, none of an excluded accent, no speaker twice, all from the file. */
  lemma ChosenShape(lines: seq<string>)
    ensures var r := Chosen(lines);
      && |r| <= MaxFiles
      && (forall i :: 0 <= i < |r| ==> Eligible(r[i]) && r[i] in Collect(RawEntry, lines))
      && (forall i, j :: 0 <= i < j < |r| ==> r[i].clientId != r[j].clientId)
  {
    var f := Filter(Eligible, Collect(RawEntry, lines));
    var k := FirstPerKey(ClientOf, f);
    var r := Take(k, MaxFiles);
    forall i | 0 <= i < |r| ensures Eligible(r[i]) && r[i] in Collect(RawEntry, lines) {
      assert r[i] == k[i];
      assert k[i] in k;
      var j :| 0 <= j < |f| && f[j] == k[i];
    }
    forall i, j | 0 <= i < j < |r| ensures r[i].clientId != r[j].clientId {
      assert r[i] == k[i] && r[j] == k[j];
    }
  }

  /** The Common Voice header names its accent column "accents", which no alternative excludes. */
  lemma AccentsColumnEligible(e: Entry)
    requires e.accent == "accents"
    ensures Eligible(e)
  {
    var hay := LowerStr(e.accent);
    assert hay == "accents";
    forall i | 0 <= i < |ExcludeWords| ensures !ContainsIgnoreCase(e.accent, ExcludeWords[i]) {
      var needle := LowerStr(ExcludeWords[i]);
      // a letter of every alternative that "accents" lacks: u, b, g and p
      var k := if i == 2 then 2 else 0;
      assert needle[k] == ExcludeWords[i][k];
      assert needle[k] !in hay;
      if Contains(hay, needle) {
        ContainsChars(hay, needle);
      }
    }
  }

  /**
   With no header check, a header row of ten or more fields is read as a row like any
   other: when it comes first and its accent field is not excluded, it is the first row
   of the list.
   */
  lemma HeaderRowKept(header: string, rest: seq<string>)
    requires RawEntry(header).Some? && Eligible(RawEntry(header).value)
    ensures |Chosen([header] + rest)| > 0 && Chosen([header] + rest)[0] == RawEntry(header).value
  {
    FirstKeptHead(RawEntry, Eligible, ClientOf, header, rest);
    var r := FirstPerKey(ClientOf, Filter(Eligible, Collect(RawEntry, [header] + rest)));
    assert Chosen([header] + rest) == Take(r, MaxFiles);
    assert Take(r, MaxFiles)[0] == r[0];
  }
}
