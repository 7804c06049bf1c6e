/**
 pick_audio.py: `create_set` builds one accent group from `validated.tsv`. Parsed rows are
 routed (with `inject_polish`, any accent containing "pol" goes to a list of its own, which
 comes first in file order; the others must match the group's accent pattern and are
 ranked by score), then the candidates are scanned keeping the first usable clip of every
 speaker until `size` clips are chosen. The chosen rows are written out as
 `filename, transcript, score, accent`, tab-separated.

 Whether a clip file exists and is long enough is decided outside the model: it is the
 `usable` parameter.
 */
module PickAudio {
  import opened Wrappers
  import opened PyText
  import opened Lists
  import opened ScoreOrder
  import opened CommonVoice

  const BigDataPath: string := "data/cv-corpus-21.0-2025-03-14/en"
  const SmallDataPath: string := "data/cv-corpus-20.0-delta-2024-12-06/en"

  /** `--input` / `input`: the two dataset names, anything else raises `ValueError`. */
  function DataPath(choice: string): (r: Result<string, string>)
    ensures r.Success? <==> choice == "big_data" || choice == "small_data"
    ensures choice == "big_data" ==> r == Success(BigDataPath)
    ensures choice == "small_data" ==> r == Success(SmallDataPath)
  {
    if choice == "big_data" then Success(BigDataPath)
    else if choice == "small_data" then Success(SmallDataPath)
    else Failure("Invalid input dataset choice. Use 'big_data' or 'small_data'.")
  }

  /**
   The accent patterns the script passes, all compiled with `re.IGNORECASE`:
   `^Name$` (a whole-field match) and `^(?!.*(w1|w2|...)).*$` (none of the words occurs).
   */
  datatype AccentPattern = Exactly(name: string) | NoneOf(words: seq<string>)

  predicate Matches(pattern: AccentPattern, accent: string) {
    match pattern
    case Exactly(name) => EqualsIgnoreCase(accent, name)
    case NoneOf(words) => forall i :: 0 <= i < |words| ==> !ContainsIgnoreCase(accent, words[i])
  }

  /** The groups the script builds: `british`, `american` and (from the command line only) `other`. */
  const British: AccentPattern := Exactly("England English")
  const American: AccentPattern := Exactly("United States English")
  const Other: AccentPattern := NoneOf(["england", "united states", "british"])

  /** No accent belongs to two of the groups. */
  lemma GroupsDisjoint(accent: string)
    ensures !(Matches(British, accent) && Matches(American, accent))
    ensures Matches(British, accent) ==> !Matches(Other, accent)
    ensures Matches(American, accent) ==> !Matches(Other, accent)
  {
    if Matches(British, accent) {
      BritishNotOther(accent);
      assert LowerStr(accent)[0] == 'e';
    }
    if Matches(American, accent) {
      AmericanNotOther(accent);
    }
  }

  lemma BritishNotOther(accent: string)
    requires Matches(British, accent)
    ensures LowerStr(accent)[0] == 'e' && !Matches(Other, accent)
  {
    assert LowerStr("England English")[..7] == "england";
    assert LowerStr("england") == "england";
    PrefixIgnoreCase(accent, "England English", "england");
    assert ContainsIgnoreCase(accent, Other.words[0]);
  }

  lemma AmericanNotOther(accent: string)
    requires Matches(American, accent)
    ensures LowerStr(accent)[0] == 'u' && !Matches(Other, accent)
  {
    assert LowerStr("United States English")[..13] == "united states";
    assert LowerStr("united states") == "united states";
    PrefixIgnoreCase(accent, "United States English", "united states");
    assert ContainsIgnoreCase(accent, Other.words[1]);
  }

  /** `polish_regex.search(accent)` */
  predicate IsPolish(accent: string) {
    ContainsIgnoreCase(accent, "pol")
  }

  /** The rows that go to `polish_entries`. */
  function PolishRoute(inject: bool): Entry -> bool {
    (e: Entry) => inject && IsPolish(e.accent)
  }

  /** The rows that go to `entries`: not taken by the Polish list, and matching the pattern. */
  function MainRoute(pattern: AccentPattern, inject: bool): Entry -> bool {
    (e: Entry) => !(inject && IsPolish(e.accent)) && Matches(pattern, e.accent)
  }

  /** With injection a Polish accent is never ranked, even when it also matches the pattern. */
  lemma RoutesExclusive(pattern: AccentPattern, inject: bool, e: Entry)
    ensures !(PolishRoute(inject)(e) && MainRoute(pattern, inject)(e))
    ensures inject && IsPolish(e.accent) ==> PolishRoute(inject)(e)
    ensures !inject ==> (MainRoute(pattern, inject)(e) <==> Matches(pattern, e.accent))
  {
  }

  /** The reading loop of `create_set`: parse every line and route it. */
  method RouteEntries(lines: seq<string>, pattern: AccentPattern, inject: bool)
    returns (polish: seq<Entry>, ranked: seq<Entry>)
    ensures polish == Filter(PolishRoute(inject), Collect(ParseLine, lines))
    ensures ranked == Filter(MainRoute(pattern, inject), Collect(ParseLine, lines))
  {
    polish, ranked := RouteWith(ParseLine, lines, pattern, inject);
  }

  /** The same loop for any row parser. */
  method RouteWith(parse: string -> Option<Entry>, lines: seq<string>, pattern: AccentPattern, inject: bool)
    returns (polish: seq<Entry>, ranked: seq<Entry>)
    ensures polish == Filter(PolishRoute(inject), Collect(parse, lines))
    ensures ranked == Filter(MainRoute(pattern, inject), Collect(parse, lines))
  {
    polish, ranked := [], [];
    var i := 0;
    assert lines[..0] == [];
    assert Filter(PolishRoute(inject), []) == [] && Filter(MainRoute(pattern, inject), []) == [];
    while i < |lines|
      invariant i <= |lines|
      invariant polish == Filter(PolishRoute(inject), Collect(parse, lines[..i]))
      invariant ranked == Filter(MainRoute(pattern, inject), Collect(parse, lines[..i]))
    {
      CollectStep(parse, lines, i);
      ghost var before := Collect(parse, lines[..i]);
      var entry := parse(lines[i]);
      if entry.Some? {
        var e := entry.value;
        assert Collect(parse, lines[..i + 1]) == before + [e];
        FilterSnoc(PolishRoute(inject), before, e);
        FilterSnoc(MainRoute(pattern, inject), before, e);
        if inject && IsPolish(e.accent) {
          polish := polish + [e];
        } else if Matches(pattern, e.accent) {
          ranked := ranked + [e];
        }
      } else {
        assert Collect(parse, lines[..i + 1]) == before;
      }
      i := i + 1;
    }
    assert lines[..i] == lines;
  }

  /** `full_list`: the Polish rows in file order, then the others ranked by score. */
  function Candidates(lines: seq<string>, pattern: AccentPattern, inject: bool): seq<Entry> {
    Routed(Collect(ParseLine, lines), pattern, inject)
  }

  /** The candidate list built from the parsed entries `xs`. */
  function Routed(xs: seq<Entry>, pattern: AccentPattern, inject: bool): seq<Entry> {
    Filter(PolishRoute(inject), xs) + SortByScore(Filter(MainRoute(pattern, inject), xs), Score)
  }

  /**
   The candidate list is the Polish rows, all of them first and in file order, followed by
   the rows of the pattern ranked by score; without injection there are no Polish rows.
   */
  lemma CandidatesShape(lines: seq<string>, pattern: AccentPattern, inject: bool)
    ensures var c := Candidates(lines, pattern, inject);
      var k := |Filter(PolishRoute(inject), Collect(ParseLine, lines))|;
      && k <= |c|
      && (forall i :: 0 <= i < k ==> inject && IsPolish(c[i].accent))
      && (forall i :: k <= i < |c| ==> !(inject && IsPolish(c[i].accent)) && Matches(pattern, c[i].accent))
      && SortedBy(c[k..], Score)
      && (!inject ==> k == 0)
  {
    RoutedShape(Collect(ParseLine, lines), pattern, inject);
  }

  lemma RoutedShape(xs: seq<Entry>, pattern: AccentPattern, inject: bool)
    ensures var c := Routed(xs, pattern, inject);
      var k := |Filter(PolishRoute(inject), xs)|;
      && k <= |c|
      && (forall i :: 0 <= i < k ==> inject && IsPolish(c[i].accent))
      && (forall i :: k <= i < |c| ==> !(inject && IsPolish(c[i].accent)) && Matches(pattern, c[i].accent))
      && SortedBy(c[k..], Score)
      && (!inject ==> k == 0)
  {
    SplitShape(PolishRoute(inject), MainRoute(pattern, inject), xs, Score);
    var c := Routed(xs, pattern, inject);
    var k := |Filter(PolishRoute(inject), xs)|;
    forall i | 0 <= i < k ensures inject && IsPolish(c[i].accent) {
      assert PolishRoute(inject)(c[i]);
    }
    forall i | k <= i < |c| ensures !(inject && IsPolish(c[i].accent)) && Matches(pattern, c[i].accent) {
      assert MainRoute(pattern, inject)(c[i]);
    }
    if !inject {
      NoPolishWithout(xs);
    }
  }

  /** Entries passing `p` in order, then those passing `q` ranked: each part keeps its test. */
  lemma SplitShape<T>(p: T -> bool, q: T -> bool, xs: seq<T>, score: T -> int)
    ensures var c := Filter(p, xs) + SortByScore(Filter(q, xs), score);
      var k := |Filter(p, xs)|;
      && k <= |c|
      && (forall i :: 0 <= i < k ==> p(c[i]))
      && (forall i :: k <= i < |c| ==> q(c[i]))
      && SortedBy(c[k..], score)
  {
    var first := Filter(p, xs);
    var second := Filter(q, xs);
    var sorted := SortByScore(second, score);
    var c := first + sorted;
    var k := |first|;
    assert c[k..] == sorted;
    forall i | k <= i < |c| ensures q(c[i]) {
      assert c[i] == sorted[i - k];
      assert sorted[i - k] in multiset(second);
      var j :| 0 <= j < |second| && second[j] == sorted[i - k];
    }
  }

  lemma {:induction false} NoPolishWithout(xs: seq<Entry>)
    ensures Filter(PolishRoute(false), xs) == []
  {
    if xs != [] {
      NoPolishWithout(xs[..|xs| - 1]);
      assert xs == xs[..|xs| - 1] + [xs[|xs| - 1]];
      FilterSnoc(PolishRoute(false), xs[..|xs| - 1], xs[|xs| - 1]);
    }
  }

  /** `len(selected) >= size` is checked after an append, so at least one row is taken. */
  function Cap(size: int): nat {
    if size >= 1 then size else 1
  }

  /** Looking at one more candidate: kept exactly when usable and of a speaker not yet kept. */
  lemma SelectStep(usable: Entry -> bool, full: seq<Entry>, i: nat)
    requires i < |full|
    ensures var before := Filter(usable, full[..i]);
      var e := full[i];
      && FirstPerKey(ClientOf, Filter(usable, full[..i + 1]))
         == FirstPerKey(ClientOf, before) + (if usable(e) && e.clientId !in Ids(ClientOf, before) then [e] else [])
      && Ids(ClientOf, Filter(usable, full[..i + 1]))
         == Ids(ClientOf, before) + (if usable(e) then {e.clientId} else {})
  {
    var e := full[i];
    assert full[..i + 1] == full[..i] + [e];
    var before := Filter(usable, full[..i]);
    FilterSnoc(usable, full[..i], e);
    if usable(e) {
      FirstPerKeySnoc(ClientOf, before, e);
      IdsSnoc(ClientOf, before, e);
    }
  }

  /** Once `cap` speakers are kept from a prefix, the rest of the candidates are not needed. */
  lemma SelectDone(usable: Entry -> bool, full: seq<Entry>, k: nat, cap: nat)
    requires k <= |full|
    requires |FirstPerKey(ClientOf, Filter(usable, full[..k]))| == cap
    ensures Take(FirstPerKey(ClientOf, Filter(usable, full)), cap) == FirstPerKey(ClientOf, Filter(usable, full[..k]))
  {
    FilterPrefix(usable, full, k);
    FirstPerKeyPrefix(ClientOf, Filter(usable, full[..k]), Filter(usable, full));
  }

  /**
   The selection loop of `create_set`: the first usable row of every speaker, in candidate
   order, stopping once `size` rows are chosen. A speaker is recorded only when one of their
   rows is chosen, so an unusable row does not shut the speaker out.
   */
  method SelectEntries(full: seq<Entry>, usable: Entry -> bool, size: int) returns (selected: seq<Entry>)
    ensures selected == Take(FirstPerKey(ClientOf, Filter(usable, full)), Cap(size))
  {
    var cap := Cap(size);
    var used: set<string> := {};
    selected := [];
    var i := 0;
    var done := false;
    assert full[..0] == [] && Filter(usable, []) == [] && FirstPerKey(ClientOf, []) == [];
    while i < |full| && !done
      invariant i <= |full|
      invariant selected == FirstPerKey(ClientOf, Filter(usable, full[..i]))
      invariant used == Ids(ClientOf, selected)
      invariant if done then |selected| == cap else |selected| < cap
    {
      var e := full[i];
      SelectStep(usable, full, i);
      if e.clientId !in used && usable(e) {
        IdsSnoc(ClientOf, selected, e);
        used := used + {e.clientId};
        selected := selected + [e];
        done := |selected| >= size;
      }
      i := i + 1;
    }
    if done {
      SelectDone(usable, full, i, cap);
    } else {
      assert full[..i] == full;
    }
  }

  /** Every chosen row is usable, no two share a speaker, and there are at most `max(size, 1)`. */
  lemma SelectionShape(full: seq<Entry>, usable: Entry -> bool, size: int)
    ensures var r := Take(FirstPerKey(ClientOf, Filter(usable, full)), Cap(size));
      && |r| <= Cap(size)
      && (forall i :: 0 <= i < |r| ==> usable(r[i]) && r[i] in full)
      && (forall i, j :: 0 <= i < j < |r| ==> r[i].clientId != r[j].clientId)
  {
    var f := Filter(usable, full);
    var k := FirstPerKey(ClientOf, f);
    var r := Take(k, Cap(size));
    forall i | 0 <= i < |r| ensures usable(r[i]) && r[i] in full {
      assert r[i] == k[i];
      assert k[i] in k;
      assert k[i] in f;
      var j :| 0 <= j < |f| && f[j] == k[i];
    }
    forall i, j | 0 <= i < j < |r| ensures r[i].clientId != r[j].clientId {
      assert r[i] == k[i] && r[j] == k[j];
      assert ClientOf(k[i]) != ClientOf(k[j]);
    }
  }

  /** `f"{filename}\t{transcript}\t{upvotes - downvotes}\t{accent}\n"` without the newline. */
  function OutputLine(e: Entry): string {
    Join([e.filename, e.transcript, IntToString(Score(e)), e.accent], '\t')
  }

  /** A written row splits back into the four values it was made of. */
  lemma OutputLineFields(e: Entry)
    requires '\t' !in e.filename && '\t' !in e.transcript && '\t' !in e.accent
    ensures Split(OutputLine(e), '\t') == [e.filename, e.transcript, IntToString(Score(e)), e.accent]
  {
    var s := IntToString(Score(e));
    if Score(e) < 0 {
      assert s == s[..1] + s[1..];
    }
    assert '\t' !in s;
    SplitJoin([e.filename, e.transcript, s, e.accent], '\t');
  }

  /**
   `create_set`: the rows written to `{name}.tsv`, one per chosen entry, in selection order.
   */
  method CreateSet(lines: seq<string>, pattern: AccentPattern, inject: bool, usable: Entry -> bool, size: int)
    returns (rows: seq<string>)
    ensures var chosen := Take(FirstPerKey(ClientOf, Filter(usable, Candidates(lines, pattern, inject))), Cap(size));
      && |rows| == |chosen|
      && forall i :: 0 <= i < |rows| ==> rows[i] == OutputLine(chosen[i])
  {
    var polish, ranked := RouteEntries(lines, pattern, inject);
    var full := polish + SortByScore(ranked, Score);
    var selected := SelectEntries(full, usable, size);
    assert full == Candidates(lines, pattern, inject);
    rows := seq(|selected|, i requires 0 <= i < |selected| => OutputLine(selected[i]));
  }
}
