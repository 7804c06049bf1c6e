/**
 What the merger promises about its tokens, for every configuration and for the three
 copies of `merge_short_words` as instances: every success word appears exactly once and in
 order, words that are not successes never matter, each token is built by one of the four
 rules, and emitted tokens are never rewritten except by the one backward merge.
 */
module MergeRules {
  import opened Wrappers
  import opened Alignment
  import opened PyText
  import opened Lists
  import opened Merger

  /** The token the forward rules make of a closed group. */
  function ForwardToken(g: seq<Word>): Token
    requires 1 <= |g| <= 2
  {
    if |g| == 1 then TokenOf(g[0]) else Token(g[0].text + " " + g[1].text, g[0].start, g[1].end)
  }

  /** A token closed by the forward rules: a long word alone, or a short word with its successor. */
  predicate TokenRule(cfg: Config, g: seq<Word>, t: Token) {
    IsRegular(cfg, g) && t == ForwardToken(g)
  }

  /**
   The last token may also come from a short word with no successor: emitted alone when it
   is the only token or when the backward merge is absent, and otherwise appended to the
   forward token before it (text extended by a space and the word, end moved, start kept).
   */
  predicate LastTokenRule(cfg: Config, g: seq<Word>, t: Token, only: bool) {
    || TokenRule(cfg, g, t)
    || (IsLoneShort(cfg, g) && t == TokenOf(g[0]) && (only || !cfg.mergeBackward))
    || (&& cfg.mergeBackward && |g| >= 2 && !IsLong(cfg, g[|g| - 1])
        && IsRegular(cfg, g[..|g| - 1])
        && t == AppendWord(ForwardToken(g[..|g| - 1]), g[|g| - 1]))
  }

  /** Every token follows its rule, the last one the wider rule. */
  predicate FollowsRules(cfg: Config, g: seq<seq<Word>>, r: seq<Token>)
    requires |r| == |g|
  {
    && (forall k :: 0 <= k < |r| - 1 ==> TokenRule(cfg, g[k], r[k]))
    && (|r| > 0 ==> LastTokenRule(cfg, g[|r| - 1], r[|r| - 1], |r| == 1))
  }

  /** The backward merge moves words between groups but neither adds nor drops any. */
  lemma FixTailFlatten(cfg: Config, p: seq<seq<Word>>)
    ensures Flatten(FixTail(cfg, p)) == Flatten(p)
  {
    if cfg.mergeBackward && |p| >= 2 && IsLoneShort(cfg, p[|p| - 1]) {
      var n := |p|;
      assert p == p[..n - 2] + [p[n - 2], p[n - 1]];
      FlattenAppend(p[..n - 2], [p[n - 2], p[n - 1]]);
      FlattenAppend(p[..n - 2], [p[n - 2] + p[n - 1]]);
      FlattenPair(p[n - 2], p[n - 1]);
      FlattenPair(p[n - 2] + p[n - 1], []);
    }
  }

  /**
   The reference groups cover the success words exactly, in order; every group but the last
   is closed by a forward rule, and the last is one too, or a lone short word, or a forward
   group with a trailing short word merged backward.
   */
  lemma GroupsShape(cfg: Config, s: seq<Word>)
    ensures var g := Groups(cfg, s);
      && NonEmptyGroups(g)
      && Flatten(g) == s
      && |g| <= |s| && (|g| == 0 <==> |s| == 0)
      && (forall k :: 0 <= k < |g| - 1 ==> IsRegular(cfg, g[k]))
      && (|g| > 0 ==> var last := g[|g| - 1];
           || IsRegular(cfg, last)
           || (IsLoneShort(cfg, last) && (|g| == 1 || !cfg.mergeBackward))
           || (&& cfg.mergeBackward && |last| >= 2
               && IsRegular(cfg, last[..|last| - 1]) && !IsLong(cfg, last[|last| - 1])))
  {
    GroupsCover(cfg, s);
    GroupsRules(cfg, s);
  }

  /** The reference groups are non-empty and cover the success words exactly, in order. */
  lemma GroupsCover(cfg: Config, s: seq<Word>)
    ensures var g := Groups(cfg, s);
      && NonEmptyGroups(g)
      && Flatten(g) == s
      && |g| <= |s| && (|g| == 0 <==> |s| == 0)
  {
    GroupsNonEmpty(cfg, s);
    FixTailFlatten(cfg, Pair(cfg, s));
  }

  /** Which rule closes each reference group, the last one included. */
  lemma GroupsRules(cfg: Config, s: seq<Word>)
    ensures var g := Groups(cfg, s);
      && (forall k :: 0 <= k < |g| - 1 ==> IsRegular(cfg, g[k]))
      && (|g| > 0 ==> var last := g[|g| - 1];
           || IsRegular(cfg, last)
           || (IsLoneShort(cfg, last) && (|g| == 1 || !cfg.mergeBackward))
           || (&& cfg.mergeBackward && |last| >= 2
               && IsRegular(cfg, last[..|last| - 1]) && !IsLong(cfg, last[|last| - 1])))
  {
    var p := Pair(cfg, s);
    var g := Groups(cfg, s);
    if cfg.mergeBackward && |p| >= 2 && IsLoneShort(cfg, p[|p| - 1]) {
      var n := |p|;
      assert forall k :: 0 <= k < n - 2 ==> g[k] == p[k];
      var last := g[|g| - 1];
      assert last == p[n - 2] + p[n - 1];
      assert last[..|last| - 1] == p[n - 2];
    }
  }

  /** Joining the group texts group by group gives the joined word texts. */
  lemma {:induction false} JoinGroups(gs: seq<seq<Word>>)
    requires NonEmptyGroups(gs)
    ensures Join(TokenTexts(Tokens(gs)), ' ') == Join(Texts(Flatten(gs)), ' ')
    decreases |gs|
  {
    if |gs| == 1 {
      assert Flatten(gs) == gs[0] by { FlattenPair(gs[0], []); assert gs == [gs[0]]; }
    } else if |gs| > 1 {
      var rest := gs[1..];
      JoinGroups(rest);
      var f := Flatten(rest);
      assert |f| > 0 by { assert f == rest[0] + Flatten(rest[1..]); }
      assert TokenTexts(Tokens(gs)) == [Join(Texts(gs[0]), ' ')] + TokenTexts(Tokens(rest));
      assert Texts(Flatten(gs)) == Texts(gs[0]) + Texts(f);
      JoinAppend(Texts(gs[0]), Texts(f), ' ');
      JoinAppend([Join(Texts(gs[0]), ' ')], TokenTexts(Tokens(rest)), ' ');
    }
  }

  lemma TokenOfRegular(cfg: Config, g: seq<Word>)
    requires IsRegular(cfg, g)
    ensures TokenRule(cfg, g, GroupToken(g))
  {
    if |g| == 1 {
      assert g == [g[0]];
      GroupTokenSingle(g[0]);
    } else {
      assert g == [g[0], g[1]];
      GroupTokenPair(g[0], g[1]);
    }
  }

  lemma TokenOfLast(cfg: Config, gs: seq<seq<Word>>)
    requires |gs| > 0 && NonEmptyGroups(gs)
    requires var last := gs[|gs| - 1];
           || IsRegular(cfg, last)
           || (IsLoneShort(cfg, last) && (|gs| == 1 || !cfg.mergeBackward))
           || (&& cfg.mergeBackward && |last| >= 2
               && IsRegular(cfg, last[..|last| - 1]) && !IsLong(cfg, last[|last| - 1]))
    ensures LastTokenRule(cfg, gs[|gs| - 1], GroupToken(gs[|gs| - 1]), |gs| == 1)
  {
    var last := gs[|gs| - 1];
    if IsRegular(cfg, last) {
      TokenOfRegular(cfg, last);
    } else if IsLoneShort(cfg, last) && (|gs| == 1 || !cfg.mergeBackward) {
      assert last == [last[0]];
      GroupTokenSingle(last[0]);
    } else {
      var front := last[..|last| - 1];
      var u := last[|last| - 1];
      assert last == front + [u];
      GroupTokenSnoc(front, u);
      TokenOfRegular(cfg, front);
    }
  }

  /** The tokens of well-shaped groups follow the rules. */
  lemma RulesOfGroups(cfg: Config, s: seq<Word>)
    ensures NonEmptyGroups(Groups(cfg, s))
    ensures FollowsRules(cfg, Groups(cfg, s), Tokens(Groups(cfg, s)))
  {
    var g := Groups(cfg, s);
    GroupsShape(cfg, s);
    forall k | 0 <= k < |g| - 1
      ensures TokenRule(cfg, g[k], GroupToken(g[k]))
    {
      TokenOfRegular(cfg, g[k]);
    }
    if |g| > 0 {
      TokenOfLast(cfg, g);
    }
  }

  /**
   The general merger contract: one token per reference group, each following its rule,
   and splitting their joined texts lists every success word exactly once, in input order.
   */
  lemma MergeRulesHold(cfg: Config, words: seq<Word>)
    ensures var r := MergeShortWords(cfg, words);
      var s := SuccessOnly(words);
      var g := Groups(cfg, s);
      && Flatten(g) == s
      && |r| == |g| && |r| <= |s| && (|r| == 0 <==> |s| == 0)
      && FollowsRules(cfg, g, r)
      && Join(TokenTexts(r), ' ') == Join(Texts(s), ' ')
  {
    var s := SuccessOnly(words);
    GroupsShape(cfg, s);
    RulesOfGroups(cfg, s);
    JoinGroups(Groups(cfg, s));
  }

  /** Words that are not successes never matter: only the success words decide the tokens. */
  lemma MergeIgnoresFailures(cfg: Config, a: seq<Word>, b: seq<Word>)
    requires SuccessOnly(a) == SuccessOnly(b)
    ensures MergeShortWords(cfg, a) == MergeShortWords(cfg, b)
  {
  }

  /** Filtering the failures out first changes nothing. */
  lemma MergeOfSuccessOnly(cfg: Config, words: seq<Word>)
    ensures MergeShortWords(cfg, SuccessOnly(words)) == MergeShortWords(cfg, words)
  {
    AllSuccessFilter(SuccessOnly(words));
  }

  /**
   Emitted tokens are never rewritten, except that the backward merge may extend the last
   one (its start stays); without the backward merge the loop only appends.
   */
  lemma MergeAppendOnly(cfg: Config, words: seq<Word>, i: nat, m: seq<Token>)
    requires i <= |words|
    ensures var r := MergeFrom(cfg, words, i, m);
      && |r| >= |m|
      && (|m| > 0 ==> r[..|m| - 1] == m[..|m| - 1] && r[|m| - 1].start == m[|m| - 1].start)
      && (!cfg.mergeBackward ==> r[..|m|] == m)
  {
    MergeFromClosed(cfg, words, i, m);
    var s := SuccessOnly(words[i..]);
    GroupsNonEmpty(cfg, s);
  }

  /**
   text_splice.py: threshold 0.2 s with the backward merge. A lone short token is only ever
   produced when it is the single success word.
   */
  function SpliceMergeShortWords(words: seq<Word>): (r: seq<Token>)
    ensures var s := SuccessOnly(words); var g := Groups(SpliceConfig, s);
      && |r| == |g| && Flatten(g) == s
      && FollowsRules(SpliceConfig, g, r)
      && Join(TokenTexts(r), ' ') == Join(Texts(s), ' ')
    ensures |r| <= |SuccessOnly(words)|
  {
    MergeRulesHold(SpliceConfig, words);
    MergeShortWords(SpliceConfig, words)
  }

  /** text_splice_gentle.py: threshold 0.5 s with the backward merge. */
  function GentleMergeShortWords(words: seq<Word>): (r: seq<Token>)
    ensures var s := SuccessOnly(words); var g := Groups(GentleConfig, s);
      && |r| == |g| && Flatten(g) == s
      && FollowsRules(GentleConfig, g, r)
      && Join(TokenTexts(r), ' ') == Join(Texts(s), ' ')
    ensures |r| <= |SuccessOnly(words)|
  {
    MergeRulesHold(GentleConfig, words);
    MergeShortWords(GentleConfig, words)
  }

  /**
   text_splice_copy.py: threshold 0.25 s and no backward merge, so every token is a long
   word, a short word with its successor, or a final short word on its own, and the loop
   only ever appends.
   */
  function CopyMergeShortWords(words: seq<Word>): (r: seq<Token>)
    ensures var s := SuccessOnly(words); var g := Groups(CopyConfig, s);
      && |r| == |g| && Flatten(g) == s
      && FollowsRules(CopyConfig, g, r)
      && Join(TokenTexts(r), ' ') == Join(Texts(s), ' ')
    ensures |r| <= |SuccessOnly(words)|
  {
    MergeRulesHold(CopyConfig, words);
    MergeShortWords(CopyConfig, words)
  }

  // ----- guarantees the code does not give -----

  /** A merged token is not re-checked: "a b" below lasts 0.1 s, under the 0.2 s threshold. */
  lemma MergedTokenNotRechecked()
    ensures var words := [Word("a", 0.0, 0.05, Some("success")), Word("b", 0.05, 0.1, Some("success"))];
      var r := MergeShortWords(SpliceConfig, words);
      r == [Token("a b", 0.0, 0.1)] && r[0].end - r[0].start < SpliceConfig.minDuration
  {
    var a, b := Word("a", 0.0, 0.05, Some("success")), Word("b", 0.05, 0.1, Some("success"));
    var words := [a, b];
    assert SuccessOnly(words) == words by {
      assert words[1..] == [b];
      assert [b][1..] == [];
      assert SuccessOnly([b]) == [b];
    }
    assert Pair(SpliceConfig, words) == [words] by {
      assert words[..2] == words;
      assert words[2..] == [];
      assert Pair(SpliceConfig, []) == [];
    }
    assert Groups(SpliceConfig, words) == [words];
    GroupTokenPair(a, b);
    assert Tokens([words]) == [GroupToken(words)];
    assert a.text + " " + b.text == "a b";
  }

  /** An inverted success word is not rejected: it becomes a token ending before it starts. */
  lemma InvertedWordKept()
    ensures var words := [Word("x", 0.1, 0.05, Some("success"))];
      MergeShortWords(SpliceConfig, words) == [Token("x", 0.1, 0.05)]
  {
    var x := Word("x", 0.1, 0.05, Some("success"));
    assert SuccessOnly([x]) == [x] by { assert [x][1..] == []; }
    assert Pair(SpliceConfig, [x]) == [[x]];
    assert Groups(SpliceConfig, [x]) == [[x]];
    GroupTokenSingle(x);
  }

  lemma TwoSuccessWords(a: Word, b: Word)
    requires IsSuccess(a) && IsSuccess(b)
    ensures SuccessOnly([a, b]) == [a, b]
  {
    assert [a, b][1..] == [b];
    assert [b][1..] == [];
    assert SuccessOnly([b]) == [b];
  }

  /** Two long success words whose spans overlap give overlapping tokens. */
  lemma OverlapKept()
    ensures var words := [Word("a", 0.0, 1.0, Some("success")), Word("b", 0.5, 1.5, Some("success"))];
      var r := MergeShortWords(SpliceConfig, words);
      |r| == 2 && r[1].start < r[0].end
  {
    var a, b := Word("a", 0.0, 1.0, Some("success")), Word("b", 0.5, 1.5, Some("success"));
    TwoSuccessWords(a, b);
    assert Pair(SpliceConfig, [a, b]) == [[a], [b]] by {
      assert [a, b][1..] == [b];
      assert Pair(SpliceConfig, [b]) == [[b]];
    }
    assert Groups(SpliceConfig, [a, b]) == [[a], [b]];
    GroupTokenSingle(a);
    GroupTokenSingle(b);
  }

  /** text_splice.py merges a trailing short word backward into the token before it. */
  lemma TrailingShortWordSplice()
    ensures var words := [Word("long", 0.0, 1.0, Some("success")), Word("a", 1.0, 1.1, Some("success"))];
      MergeShortWords(SpliceConfig, words) == [Token("long a", 0.0, 1.1)]
  {
    var l, a := Word("long", 0.0, 1.0, Some("success")), Word("a", 1.0, 1.1, Some("success"));
    TwoSuccessWords(l, a);
    assert Pair(SpliceConfig, [l, a]) == [[l], [a]] by {
      assert [l, a][1..] == [a];
      assert Pair(SpliceConfig, [a]) == [[a]];
    }
    var p := [[l], [a]];
    assert p[..0] + [p[0] + p[1]] == [[l, a]];
    assert Groups(SpliceConfig, [l, a]) == [[l, a]];
    GroupTokenPair(l, a);
    assert Tokens([[l, a]]) == [GroupToken([l, a])];
    assert l.text + " " + a.text == "long a";
  }

  /** text_splice_copy.py emits the same trailing short word as a token of its own. */
  lemma TrailingShortWordCopy()
    ensures var words := [Word("long", 0.0, 1.0, Some("success")), Word("a", 1.0, 1.1, Some("success"))];
      MergeShortWords(CopyConfig, words) == [Token("long", 0.0, 1.0), Token("a", 1.0, 1.1)]
  {
    var l, a := Word("long", 0.0, 1.0, Some("success")), Word("a", 1.0, 1.1, Some("success"));
    TwoSuccessWords(l, a);
    assert Pair(CopyConfig, [l, a]) == [[l], [a]] by {
      assert [l, a][1..] == [a];
      assert Pair(CopyConfig, [a]) == [[a]];
    }
    assert Groups(CopyConfig, [l, a]) == [[l], [a]];
    GroupTokenSingle(l);
    GroupTokenSingle(a);
  }
}
