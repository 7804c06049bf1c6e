/**
 The word merger (`merge_short_words`). It walks the aligner's word list once, skips words
 that are not successes, keeps long words as they are, glues a short word onto the next
 success word, and, when no success word follows, glues it back onto the last token (when
 backward merging is enabled and a token exists) or emits it alone.

 The three copies of the function differ only in the threshold and in whether the backward
 merge exists, so the merger is written once over a `Config`.

 Next to the loop stands a reference definition that works on the success words alone:
 `Pair` cuts them into groups (`[long]` or `[short, next]`) and `FixTail` folds a trailing
 lone short word into the group before it. `MergeShortWords` equals the tokens of those
 groups.
 */
module Merger {
  import opened Alignment
  import opened PyText
  import opened Lists

  /** The merger's two parameters: `MIN_WORD_DURATION` and the presence of the backward merge. */
  datatype Config = Config(minDuration: real, mergeBackward: bool)

  /** text_splice.py: threshold 0.2 s, with the backward merge. */
  const SpliceConfig: Config := Config(0.2, true)
  /** text_splice_gentle.py: threshold 0.5 s, with the backward merge. */
  const GentleConfig: Config := Config(0.5, true)
  /** text_splice_copy.py: threshold 0.25 s, without the backward merge. */
  const CopyConfig: Config := Config(0.25, false)

  /** One merged token: `{"word": text, "start": start, "end": end}`. */
  datatype Token = Token(text: string, start: real, end: real)

  function Duration(w: Word): real {
    w.end - w.start
  }

  /** `end - start >= MIN_WORD_DURATION` */
  predicate IsLong(cfg: Config, w: Word) {
    Duration(w) >= cfg.minDuration
  }

  function TokenOf(w: Word): Token {
    Token(w.text, w.start, w.end)
  }

  /** The backward merge: the word's text is appended with a space and the end moves to the word's end. */
  function AppendWord(t: Token, w: Word): Token {
    Token(t.text + " " + w.text, t.start, w.end)
  }

  /** The forward look-ahead: first success word at or after `j`, or `|words|`. */
  function NextSuccess(words: seq<Word>, j: nat): (k: nat)
    requires j <= |words|
    ensures j <= k <= |words|
    ensures forall m :: j <= m < k ==> !IsSuccess(words[m])
    ensures k < |words| ==> IsSuccess(words[k])
    decreases |words| - j
  {
    if j == |words| || IsSuccess(words[j]) then j else NextSuccess(words, j + 1)
  }

  /** The `while i < len(words)` loop, with `merged` the tokens emitted so far. */
  function MergeFrom(cfg: Config, words: seq<Word>, i: nat, merged: seq<Token>): seq<Token>
    requires i <= |words|
    decreases |words| - i
  {
    if i == |words| then merged
    else
      var w := words[i];
      if !IsSuccess(w) then MergeFrom(cfg, words, i + 1, merged)
      else if IsLong(cfg, w) then MergeFrom(cfg, words, i + 1, merged + [TokenOf(w)])
      else
        var j := NextSuccess(words, i + 1);
        if j < |words| then
          var v := words[j];
          MergeFrom(cfg, words, j + 1, merged + [Token(w.text + " " + v.text, w.start, v.end)])
        else if cfg.mergeBackward && |merged| > 0 then
          MergeFrom(cfg, words, i + 1, merged[..|merged| - 1] + [AppendWord(merged[|merged| - 1], w)])
        else
          MergeFrom(cfg, words, i + 1, merged + [TokenOf(w)])
  }

  /**
   `merge_short_words`: the tokens are those of the reference grouping of the success words,
   so words that are not successes contribute nothing, wherever they stand.
   */
  function MergeShortWords(cfg: Config, words: seq<Word>): (r: seq<Token>)
    ensures r == Tokens(Groups(cfg, SuccessOnly(words)))
  {
    MergeFromClosed(cfg, words, 0, []);
    assert words[0..] == words;
    MergeFrom(cfg, words, 0, [])
  }

  // ----- the reference definition -----

  function Texts(ws: seq<Word>): (r: seq<string>)
    ensures |r| == |ws| && forall i :: 0 <= i < |ws| ==> r[i] == ws[i].text
  {
    seq(|ws|, i requires 0 <= i < |ws| => ws[i].text)
  }

  function TokenTexts(ts: seq<Token>): (r: seq<string>)
    ensures |r| == |ts| && forall i :: 0 <= i < |ts| ==> r[i] == ts[i].text
  {
    seq(|ts|, i requires 0 <= i < |ts| => ts[i].text)
  }

  /** The token a run of words becomes: texts joined by spaces, first start, last end. */
  function GroupToken(g: seq<Word>): Token
    requires |g| > 0
  {
    Token(Join(Texts(g), ' '), g[0].start, g[|g| - 1].end)
  }

  predicate NonEmptyGroups(gs: seq<seq<Word>>) {
    forall i :: 0 <= i < |gs| ==> |gs[i]| > 0
  }

  function Tokens(gs: seq<seq<Word>>): (r: seq<Token>)
    requires NonEmptyGroups(gs)
    ensures |r| == |gs| && forall i :: 0 <= i < |gs| ==> r[i] == GroupToken(gs[i])
  {
    seq(|gs|, i requires 0 <= i < |gs| => GroupToken(gs[i]))
  }

  /** A group the loop closes before the end: one long word, or a short word and its successor. */
  predicate IsRegular(cfg: Config, g: seq<Word>) {
    || (|g| == 1 && IsLong(cfg, g[0]))
    || (|g| == 2 && !IsLong(cfg, g[0]))
  }

  predicate IsLoneShort(cfg: Config, g: seq<Word>) {
    |g| == 1 && !IsLong(cfg, g[0])
  }

  /** Groups formed by the forward rules alone, over the success words `s`. */
  function Pair(cfg: Config, s: seq<Word>): (p: seq<seq<Word>>)
    ensures NonEmptyGroups(p)
    ensures Flatten(p) == s
    ensures |p| <= |s| && (|p| == 0 <==> |s| == 0)
    ensures forall k :: 0 <= k < |p| - 1 ==> IsRegular(cfg, p[k])
    ensures |p| > 0 ==> IsRegular(cfg, p[|p| - 1]) || IsLoneShort(cfg, p[|p| - 1])
    ensures (|p| == 1 && IsLoneShort(cfg, p[0])) <==> (|s| == 1 && !IsLong(cfg, s[0]))
    decreases |s|
  {
    if s == [] then []
    else if IsLong(cfg, s[0]) || |s| == 1 then
      var rest := Pair(cfg, s[1..]);
      var p := [[s[0]]] + rest;
      assert p[1..] == rest;
      assert s == [s[0]] + s[1..];
      p
    else
      var rest := Pair(cfg, s[2..]);
      var p := [s[..2]] + rest;
      assert p[1..] == rest;
      assert s == s[..2] + s[2..];
      p
  }

  /** The backward merge: a trailing lone short word joins the group before it. */
  function FixTail(cfg: Config, p: seq<seq<Word>>): seq<seq<Word>> {
    if cfg.mergeBackward && |p| >= 2 && IsLoneShort(cfg, p[|p| - 1]) then
      p[..|p| - 2] + [p[|p| - 2] + p[|p| - 1]]
    else p
  }

  /** The reference grouping of the success words `s`. */
  function Groups(cfg: Config, s: seq<Word>): seq<seq<Word>> {
    FixTail(cfg, Pair(cfg, s))
  }

  // ----- the loop equals the reference -----

  /** What the rest of the loop makes of `m`, given the success words `s` still ahead. */
  function Closed(cfg: Config, m: seq<Token>, s: seq<Word>): seq<Token>
  {
    if cfg.mergeBackward && |m| > 0 && |s| == 1 && !IsLong(cfg, s[0]) then
      m[..|m| - 1] + [AppendWord(m[|m| - 1], s[0])]
    else
      GroupsNonEmpty(cfg, s);
      m + Tokens(Groups(cfg, s))
  }

  lemma GroupsNonEmpty(cfg: Config, s: seq<Word>)
    ensures NonEmptyGroups(Groups(cfg, s))
  {
    var p := Pair(cfg, s);
    if cfg.mergeBackward && |p| >= 2 && IsLoneShort(cfg, p[|p| - 1]) {
      var g := FixTail(cfg, p);
      assert forall k :: 0 <= k < |g| - 1 ==> g[k] == p[k];
    }
  }

  lemma FixTailCons(cfg: Config, g: seq<Word>, q: seq<seq<Word>>)
    ensures FixTail(cfg, [g] + q)
         == if cfg.mergeBackward && |q| == 1 && IsLoneShort(cfg, q[0]) then [g + q[0]]
            else [g] + FixTail(cfg, q)
  {
    var p := [g] + q;
    if cfg.mergeBackward && |q| >= 2 && IsLoneShort(cfg, q[|q| - 1]) {
      assert p[..|p| - 2] == [g] + q[..|q| - 2];
    }
  }

  lemma GroupTokenSingle(w: Word)
    ensures GroupToken([w]) == TokenOf(w)
  {
  }

  lemma GroupTokenSnoc(g: seq<Word>, u: Word)
    requires |g| > 0
    ensures GroupToken(g + [u]) == AppendWord(GroupToken(g), u)
  {
    assert Texts(g + [u]) == Texts(g) + [u.text];
    JoinAppend(Texts(g), [u.text], ' ');
  }

  lemma TokensCons(g: seq<Word>, gs: seq<seq<Word>>)
    requires |g| > 0 && NonEmptyGroups(gs)
    ensures NonEmptyGroups([g] + gs)
    ensures Tokens([g] + gs) == [GroupToken(g)] + Tokens(gs)
  {
  }

  lemma PairCons(cfg: Config, g: seq<Word>, rest: seq<Word>)
    requires IsRegular(cfg, g)
    ensures Pair(cfg, g + rest) == [g] + Pair(cfg, rest)
  {
    var s := g + rest;
    if |g| == 1 {
      assert s[1..] == rest;
      assert [s[0]] == g;
    } else {
      assert s[2..] == rest;
      assert s[..2] == g;
    }
  }

  /** A closed group followed by one trailing short word that merges backward into it. */
  lemma ClosedStepBackward(cfg: Config, m: seq<Token>, g: seq<Word>, u: Word)
    requires IsRegular(cfg, g)
    requires cfg.mergeBackward && !IsLong(cfg, u)
    ensures Closed(cfg, m + [GroupToken(g)], [u]) == Closed(cfg, m, g + [u])
  {
    ClosedMergesBack(cfg, m, GroupToken(g), u);
    ClosedLastGroup(cfg, m, g, u);
    GroupTokenSnoc(g, u);
  }

  /** A lone short word after the last token is appended to it. */
  lemma ClosedMergesBack(cfg: Config, m: seq<Token>, t: Token, u: Word)
    requires cfg.mergeBackward && !IsLong(cfg, u)
    ensures Closed(cfg, m + [t], [u]) == m + [AppendWord(t, u)]
  {
    assert (m + [t])[..|m|] == m;
  }

  /** A regular group and a trailing lone short word form the last group. */
  lemma ClosedLastGroup(cfg: Config, m: seq<Token>, g: seq<Word>, u: Word)
    requires IsRegular(cfg, g)
    requires cfg.mergeBackward && !IsLong(cfg, u)
    ensures Closed(cfg, m, g + [u]) == m + [GroupToken(g + [u])]
  {
    var s := g + [u];
    assert |s| >= 2;
    ClosedPlain(cfg, m, s);
    GroupsLastGroup(cfg, g, u);
  }

  lemma GroupsLastGroup(cfg: Config, g: seq<Word>, u: Word)
    requires IsRegular(cfg, g)
    requires cfg.mergeBackward && !IsLong(cfg, u)
    ensures Groups(cfg, g + [u]) == [g + [u]]
  {
    PairCons(cfg, g, [u]);
    assert Pair(cfg, [u]) == [[u]];
    FixTailCons(cfg, g, [[u]]);
  }

  /** A closed group in front of success words that do not end in a lone short word. */
  lemma GroupsCons(cfg: Config, g: seq<Word>, rest: seq<Word>)
    requires IsRegular(cfg, g)
    requires !(cfg.mergeBackward && |rest| == 1 && !IsLong(cfg, rest[0]))
    ensures Groups(cfg, g + rest) == [g] + Groups(cfg, rest)
  {
    var q := Pair(cfg, rest);
    PairCons(cfg, g, rest);
    assert !(cfg.mergeBackward && |q| == 1 && IsLoneShort(cfg, q[0]));
    FixTailCons(cfg, g, q);
  }

  /** Without a pending backward merge, the rest of the loop appends the reference tokens. */
  lemma ClosedPlain(cfg: Config, m: seq<Token>, s: seq<Word>)
    requires !(cfg.mergeBackward && |m| > 0 && |s| == 1 && !IsLong(cfg, s[0]))
    ensures NonEmptyGroups(Groups(cfg, s))
    ensures Closed(cfg, m, s) == m + Tokens(Groups(cfg, s))
  {
    GroupsNonEmpty(cfg, s);
  }

  /** A closed group followed by success words that do not merge backward into it. */
  lemma ClosedStepForward(cfg: Config, m: seq<Token>, g: seq<Word>, rest: seq<Word>)
    requires IsRegular(cfg, g)
    requires !(cfg.mergeBackward && |rest| == 1 && !IsLong(cfg, rest[0]))
    ensures Closed(cfg, m + [GroupToken(g)], rest) == Closed(cfg, m, g + rest)
  {
    var t := GroupToken(g);
    ClosedPlain(cfg, m + [t], rest);
    ClosedRegular(cfg, m, g, rest);
    SnocThenAppend(m, t, Tokens(Groups(cfg, rest)));
  }

  /** The reference tokens of `g + rest` start with the token of the regular group `g`. */
  lemma ClosedRegular(cfg: Config, m: seq<Token>, g: seq<Word>, rest: seq<Word>)
    requires IsRegular(cfg, g)
    requires !(cfg.mergeBackward && |rest| == 1 && !IsLong(cfg, rest[0]))
    ensures NonEmptyGroups(Groups(cfg, rest))
    ensures Closed(cfg, m, g + rest) == m + ([GroupToken(g)] + Tokens(Groups(cfg, rest)))
  {
    var s := g + rest;
    assert s[0] == g[0] && |s| >= |g|;
    ClosedPlain(cfg, m, s);
    GroupsCons(cfg, g, rest);
    GroupsNonEmpty(cfg, rest);
    TokensCons(g, Groups(cfg, rest));
  }

  /**
   One closed group `g` (the loop just emitted its token) followed by the success words
   `rest`: the loop's outcome agrees with the reference.
   */
  lemma ClosedStep(cfg: Config, m: seq<Token>, g: seq<Word>, rest: seq<Word>)
    requires IsRegular(cfg, g)
    ensures Closed(cfg, m + [GroupToken(g)], rest) == Closed(cfg, m, g + rest)
  {
    if cfg.mergeBackward && |rest| == 1 && !IsLong(cfg, rest[0]) {
      assert rest == [rest[0]];
      ClosedStepBackward(cfg, m, g, rest[0]);
    } else {
      ClosedStepForward(cfg, m, g, rest);
    }
  }

  /** A long success word: the loop emits it as its own token. */
  lemma StepLong(cfg: Config, words: seq<Word>, i: nat, m: seq<Token>)
    requires i < |words| && IsSuccess(words[i]) && IsLong(cfg, words[i])
    requires MergeFrom(cfg, words, i + 1, m + [TokenOf(words[i])])
          == Closed(cfg, m + [TokenOf(words[i])], SuccessOnly(words[i + 1..]))
    ensures MergeFrom(cfg, words, i, m) == Closed(cfg, m, SuccessOnly(words[i..]))
  {
    var w := words[i];
    SuccessOnlyAt(words, i);
    GroupTokenSingle(w);
    ClosedStep(cfg, m, [w], SuccessOnly(words[i + 1..]));
  }

  lemma GroupTokenPair(w: Word, v: Word)
    ensures GroupToken([w, v]) == Token(w.text + " " + v.text, w.start, v.end)
  {
    GroupTokenSingle(w);
    GroupTokenSnoc([w], v);
    assert [w] + [v] == [w, v];
  }

  /** The success words from `i` on, when `words[i]` is a success and `words[j]` the next one. */
  lemma SuccessOnlyPair(words: seq<Word>, i: nat, j: nat)
    requires i < j < |words| && IsSuccess(words[i]) && IsSuccess(words[j])
    requires forall m :: i < m < j ==> !IsSuccess(words[m])
    ensures SuccessOnly(words[i..]) == [words[i], words[j]] + SuccessOnly(words[j + 1..])
  {
    SuccessOnlyAt(words, i);
    SuccessOnlySkip(words, i + 1, j);
    SuccessOnlyAt(words, j);
  }

  /** A short success word with a later success word `words[j]`: both become one token. */
  lemma StepForward(cfg: Config, words: seq<Word>, i: nat, j: nat, m: seq<Token>, m': seq<Token>)
    requires i < |words| && IsSuccess(words[i]) && !IsLong(cfg, words[i])
    requires j == NextSuccess(words, i + 1) && j < |words|
    requires m' == m + [Token(words[i].text + " " + words[j].text, words[i].start, words[j].end)]
    requires MergeFrom(cfg, words, j + 1, m') == Closed(cfg, m', SuccessOnly(words[j + 1..]))
    ensures MergeFrom(cfg, words, i, m) == Closed(cfg, m, SuccessOnly(words[i..]))
  {
    MergeFromForward(cfg, words, i, j, m, m');
    ClosedForward(cfg, words, i, j, m, m');
  }

  /** The loop's forward step: the pair's token is emitted and the loop resumes after `words[j]`. */
  lemma MergeFromForward(cfg: Config, words: seq<Word>, i: nat, j: nat, m: seq<Token>, m': seq<Token>)
    requires i < |words| && IsSuccess(words[i]) && !IsLong(cfg, words[i])
    requires j == NextSuccess(words, i + 1) && j < |words|
    requires m' == m + [Token(words[i].text + " " + words[j].text, words[i].start, words[j].end)]
    ensures MergeFrom(cfg, words, i, m) == MergeFrom(cfg, words, j + 1, m')
  {
  }

  /** The reference's forward step: the pair `[words[i], words[j]]` is one closed group. */
  lemma ClosedForward(cfg: Config, words: seq<Word>, i: nat, j: nat, m: seq<Token>, m': seq<Token>)
    requires i < |words| && IsSuccess(words[i]) && !IsLong(cfg, words[i])
    requires j == NextSuccess(words, i + 1) && j < |words|
    requires m' == m + [Token(words[i].text + " " + words[j].text, words[i].start, words[j].end)]
    ensures Closed(cfg, m', SuccessOnly(words[j + 1..])) == Closed(cfg, m, SuccessOnly(words[i..]))
  {
    var w, v := words[i], words[j];
    SuccessOnlyPair(words, i, j);
    GroupTokenPair(w, v);
    ClosedStep(cfg, m, [w, v], SuccessOnly(words[j + 1..]));
  }

  /** A short success word with no later success word: backward merge or a lone token. */
  lemma StepTrailing(cfg: Config, words: seq<Word>, i: nat, m: seq<Token>)
    requires i < |words| && IsSuccess(words[i]) && !IsLong(cfg, words[i])
    requires NextSuccess(words, i + 1) == |words|
    ensures MergeFrom(cfg, words, i, m) == Closed(cfg, m, SuccessOnly(words[i..]))
  {
    var w := words[i];
    SuccessOnlyAt(words, i);
    SuccessOnlySkip(words, i + 1, |words|);
    assert words[|words|..] == [];
    assert SuccessOnly(words[i..]) == [w];
    if cfg.mergeBackward && |m| > 0 {
      var m' := m[..|m| - 1] + [AppendWord(m[|m| - 1], w)];
      MergeFromNoSuccess(cfg, words, i + 1, m');
      assert MergeFrom(cfg, words, i, m) == MergeFrom(cfg, words, i + 1, m');
    } else {
      var m' := m + [TokenOf(w)];
      MergeFromNoSuccess(cfg, words, i + 1, m');
      assert MergeFrom(cfg, words, i, m) == MergeFrom(cfg, words, i + 1, m');
      assert Pair(cfg, [w]) == [[w]];
      assert Groups(cfg, [w]) == [[w]];
      GroupTokenSingle(w);
    }
  }

  /** With no success word left, the loop leaves the tokens alone. */
  lemma {:induction false} MergeFromNoSuccess(cfg: Config, words: seq<Word>, i: nat, m: seq<Token>)
    requires i <= |words|
    requires forall k :: i <= k < |words| ==> !IsSuccess(words[k])
    ensures MergeFrom(cfg, words, i, m) == m
    decreases |words| - i
  {
    if i < |words| {
      MergeFromNoSuccess(cfg, words, i + 1, m);
    }
  }

  /** The end of the word list: nothing changes. */
  lemma StepEnd(cfg: Config, words: seq<Word>, m: seq<Token>)
    ensures MergeFrom(cfg, words, |words|, m) == Closed(cfg, m, SuccessOnly(words[|words|..]))
  {
    assert words[|words|..] == [];
    assert Groups(cfg, []) == [];
    assert m + Tokens([]) == m;
  }

  /** A word that is not a success: skipped. */
  lemma StepSkip(cfg: Config, words: seq<Word>, i: nat, m: seq<Token>)
    requires i < |words| && !IsSuccess(words[i])
    requires MergeFrom(cfg, words, i + 1, m) == Closed(cfg, m, SuccessOnly(words[i + 1..]))
    ensures MergeFrom(cfg, words, i, m) == Closed(cfg, m, SuccessOnly(words[i..]))
  {
    SuccessOnlyAt(words, i);
    assert SuccessOnly(words[i..]) == SuccessOnly(words[i + 1..]);
  }

  /** The loop from index `i` with tokens `m` produces what `Closed` predicts. */
  lemma {:induction false} MergeFromClosed(cfg: Config, words: seq<Word>, i: nat, m: seq<Token>)
    requires i <= |words|
    ensures MergeFrom(cfg, words, i, m) == Closed(cfg, m, SuccessOnly(words[i..]))
    decreases |words| - i
  {
    if i == |words| {
      StepEnd(cfg, words, m);
    } else {
      var w := words[i];
      if !IsSuccess(w) {
        MergeFromClosed(cfg, words, i + 1, m);
        StepSkip(cfg, words, i, m);
      } else if IsLong(cfg, w) {
        MergeFromClosed(cfg, words, i + 1, m + [TokenOf(w)]);
        StepLong(cfg, words, i, m);
      } else {
        var j := NextSuccess(words, i + 1);
        if j < |words| {
          var m' := m + [Token(w.text + " " + words[j].text, w.start, words[j].end)];
          MergeFromClosed(cfg, words, j + 1, m');
          StepForward(cfg, words, i, j, m, m');
        } else {
          StepTrailing(cfg, words, i, m);
        }
      }
    }
  }
}
