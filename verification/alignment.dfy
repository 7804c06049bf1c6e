/**
 The forced aligner's result: a list of words, each with its text, its start and end in
 seconds and an optional `case` field that is `"success"` when the aligner placed the word.
 */
module Alignment {
  import opened Wrappers

  /** One entry of the aligner's `"words"` list; `status` is its `case` field, which may be absent. */
  datatype Word = Word(text: string, start: real, end: real, status: Option<string>)

  /** `word.get("case") == "success"` */
  predicate IsSuccess(w: Word) {
    w.status == Some("success")
  }

  /** The aligned words, in order. */
  function SuccessOnly(ws: seq<Word>): (r: seq<Word>)
    ensures |r| <= |ws|
    ensures forall i :: 0 <= i < |r| ==> IsSuccess(r[i])
  {
    if ws == [] then []
    else (if IsSuccess(ws[0]) then [ws[0]] else []) + SuccessOnly(ws[1..])
  }

  /** The whole aligner response; `words` is absent when the key is missing. */
  datatype AlignmentResult = AlignmentResult(words: Option<seq<Word>>)

  function WordsOrEmpty(result: AlignmentResult): seq<Word> {
    if result.words.Some? then result.words.value else []
  }

  /** The loop of `is_aligned` from index `i` on: it stops at the first word that is not a success. */
  function AllSuccessFrom(ws: seq<Word>, i: nat): (r: bool)
    requires i <= |ws|
    ensures r <==> forall k :: i <= k < |ws| ==> IsSuccess(ws[k])
    decreases |ws| - i
  {
    if i == |ws| then true
    else if !IsSuccess(ws[i]) then false
    else AllSuccessFrom(ws, i + 1)
  }

  /**
   `is_aligned`: true exactly when every word (of a possibly missing or empty list) has case
   `"success"`, which is exactly when the merger's success filter drops nothing. The times
   are never looked at.
   */
  function IsAligned(result: AlignmentResult): (r: bool)
    ensures r <==> forall k :: 0 <= k < |WordsOrEmpty(result)| ==> IsSuccess(WordsOrEmpty(result)[k])
    ensures r <==> SuccessOnly(WordsOrEmpty(result)) == WordsOrEmpty(result)
    ensures result.words.None? ==> r
  {
    var ws := WordsOrEmpty(result);
    var r := AllSuccessFrom(ws, 0);
    AllSuccessFilter(ws);
    r
  }

  /** The success filter is the identity exactly on all-success lists. */
  lemma {:induction false} AllSuccessFilter(ws: seq<Word>)
    ensures (forall k :: 0 <= k < |ws| ==> IsSuccess(ws[k])) <==> SuccessOnly(ws) == ws
  {
    if ws != [] {
      AllSuccessFilter(ws[1..]);
      if !IsSuccess(ws[0]) {
        assert |SuccessOnly(ws)| < |ws|;
      } else {
        assert ws == [ws[0]] + ws[1..];
        if SuccessOnly(ws) == ws {
          assert SuccessOnly(ws[1..]) == ws[1..];
        }
        assert forall k :: 1 <= k < |ws| ==> ws[k] == ws[1..][k - 1];
      }
    }
  }

  /** `SuccessOnly` of a suffix, peeled one word at a time. */
  lemma SuccessOnlyAt(ws: seq<Word>, i: nat)
    requires i < |ws|
    ensures SuccessOnly(ws[i..]) == (if IsSuccess(ws[i]) then [ws[i]] else []) + SuccessOnly(ws[i + 1..])
  {
    assert ws[i..][1..] == ws[i + 1..];
  }

  /** Words that are not successes between `a` and `b` leave the filtered suffix unchanged. */
  lemma {:induction false} SuccessOnlySkip(ws: seq<Word>, a: nat, b: nat)
    requires a <= b <= |ws|
    requires forall m :: a <= m < b ==> !IsSuccess(ws[m])
    ensures SuccessOnly(ws[a..]) == SuccessOnly(ws[b..])
    decreases b - a
  {
    if a < b {
      SuccessOnlyAt(ws, a);
      SuccessOnlySkip(ws, a + 1, b);
    }
  }
}
