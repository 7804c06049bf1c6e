/**
 Worked cases of the text_splice.py pipeline: a merged pair that yields no clip because the
 last token is withheld, ten steady tokens packed into two clips with the last two dropped,
 and a single long token that becomes a clip longer than 3.0 s.
 */
module PackerCases {
  import opened Wrappers
  import opened Alignment
  import opened PyText
  import opened Lists
  import opened Merger
  import opened Packer

  /** `n` back-to-back tokens of 0.4 s each, starting at 0. */
  function Steady(n: nat): (r: seq<Token>)
    ensures |r| == n
  {
    seq(n, k requires 0 <= k < n => Token("w", k as real * 0.4, (k + 1) as real * 0.4))
  }

  lemma SteadySegment(n: nat, k: nat)
    requires k < n && 400 * n <= 4000
    ensures SegmentMs(4000, Steady(n)[k]) == 400
  {
    var t := Steady(n)[k];
    assert t.start * 1000.0 == (400 * k) as real;
    assert t.end * 1000.0 == (400 * (k + 1)) as real;
    assert Ms(t.start) == 400 * k;
    assert Ms(t.end) == 400 * (k + 1);
  }

  /** Tokens that each give 400 ms add up to 400 ms apiece. */
  lemma {:induction false} SteadyTotal(ts: seq<Token>)
    requires forall k :: 0 <= k < |ts| ==> SegmentMs(4000, ts[k]) == 400
    ensures TotalMs(4000, ts) == 400 * |ts|
    decreases |ts|
  {
    if ts != [] {
      var front := ts[..|ts| - 1];
      assert forall k :: 0 <= k < |front| ==> front[k] == ts[k];
      SteadyTotal(front);
    }
  }

  lemma SteadyRun(ts: seq<Token>)
    requires |ts| == 4
    requires forall k :: 0 <= k < |ts| ==> SegmentMs(4000, ts[k]) == 400
    ensures IsRun(4000, ts) && TotalMs(4000, ts) == 1600
  {
    SteadyTotal(ts);
    var front := ts[..3];
    assert forall k :: 0 <= k < |front| ==> front[k] == ts[k];
    SteadyTotal(front);
  }

  lemma SteadyBody(k: nat)
    requires k < 9
    ensures SegmentMs(4000, Withheld(Steady(10))[k]) == 400
  {
    SteadySegment(10, k);
  }

  /** The two clips the packer makes of ten steady tokens. */
  lemma SteadyPacking()
    ensures var body := Withheld(Steady(10));
      GreedyPacking(4000, body, [MakeClip(4000, 0, body[..4]), MakeClip(4000, 1, body[4..8])])
  {
    var body := Withheld(Steady(10));
    var x, y, left := body[..4], body[4..8], body[8..];
    assert forall k :: 0 <= k < 4 ==> SegmentMs(4000, x[k]) == 400 by {
      forall k | 0 <= k < 4 ensures SegmentMs(4000, x[k]) == 400 { SteadyBody(k); }
    }
    assert forall k :: 0 <= k < 4 ==> SegmentMs(4000, y[k]) == 400 by {
      forall k | 0 <= k < 4 ensures SegmentMs(4000, y[k]) == 400 { SteadyBody(k + 4); }
    }
    assert forall k :: 0 <= k < |left| ==> SegmentMs(4000, left[k]) == 400 by {
      forall k | 0 <= k < |left| ensures SegmentMs(4000, left[k]) == 400 { SteadyBody(k + 8); }
    }
    SteadyRun(x);
    SteadyRun(y);
    SteadyTotal(left);
    TwoClips(4000, body, x, y);
  }

  /** Two runs followed by a short leftover pack as two clips. */
  lemma TwoClips(audioMs: nat, body: seq<Token>, x: seq<Token>, y: seq<Token>)
    requires IsRun(audioMs, x) && IsRun(audioMs, y)
    requires |x| + |y| <= |body| && body[..|x|] == x && body[|x|..|x| + |y|] == y
    requires TotalMs(audioMs, body[|x| + |y|..]) < MinClipMs
    ensures GreedyPacking(audioMs, body, [MakeClip(audioMs, 0, x), MakeClip(audioMs, 1, y)])
  {
    TwoClipsNumbered(audioMs, x, y);
    TwoRuns(audioMs, body, x, y);
  }

  /** Two clips numbered 0 and 1 carry the two runs. */
  lemma TwoClipsNumbered(audioMs: nat, x: seq<Token>, y: seq<Token>)
    ensures var clips := [MakeClip(audioMs, 0, x), MakeClip(audioMs, 1, y)];
      && Runs(clips) == [x, y]
      && forall k :: 0 <= k < |clips| ==> clips[k] == MakeClip(audioMs, k, clips[k].segments)
  {
  }

  /** Two runs that start the body and leave less than 1.5 s over are its greedy runs. */
  lemma TwoRuns(audioMs: nat, body: seq<Token>, x: seq<Token>, y: seq<Token>)
    requires IsRun(audioMs, x) && IsRun(audioMs, y)
    requires |x| + |y| <= |body| && body[..|x|] == x && body[|x|..|x| + |y|] == y
    requires TotalMs(audioMs, body[|x| + |y|..]) < MinClipMs
    ensures GreedyRuns(audioMs, body, [x, y])
  {
    FlattenPair(x, y);
    assert body[..|x| + |y|] == x + y;
  }

  /**
   Ten tokens of 0.4 s in a 4.0 s recording: the tenth is withheld, tokens 1-4 and 5-8 become
   clips `000_w_w_w_w.wav` and `001_w_w_w_w.wav` of 1.6 s each, and token 9 (0.4 s) is dropped.
   */
  lemma TenSteadyTokens(clips: seq<Clip>)
    requires GreedyPacking(4000, Withheld(Steady(10)), clips)
    ensures |clips| == 2
    ensures clips[0].segments == Steady(10)[..4] && clips[1].segments == Steady(10)[4..8]
    ensures clips[0].lengthMs == 1600 && clips[1].lengthMs == 1600
    ensures clips[0].name == ClipName(0, ["w", "w", "w", "w"])
    ensures clips[1].name == ClipName(1, ["w", "w", "w", "w"])
  {
    var body := Withheld(Steady(10));
    var x, y := body[..4], body[4..8];
    SteadyPacking();
    GreedyPackingUnique(4000, body, clips, [MakeClip(4000, 0, x), MakeClip(4000, 1, y)]);
    SteadyClip(0);
    SteadyClip(1);
    assert body[0..4] == x && Steady(10)[0..4] == Steady(10)[..4];
  }

  /** Clip `i` of the steady case: four "w" tokens of 1.6 s in all. */
  lemma SteadyClip(i: nat)
    requires i < 2
    ensures var run := Withheld(Steady(10))[4 * i..4 * i + 4];
      && run == Steady(10)[4 * i..4 * i + 4]
      && MakeClip(4000, i, run) == Clip(ClipName(i, ["w", "w", "w", "w"]), run, 1600)
  {
    var run := Withheld(Steady(10))[4 * i..4 * i + 4];
    assert run == Steady(10)[4 * i..4 * i + 4];
    assert TokenTexts(run) == ["w", "w", "w", "w"];
    SteadyQuarter(4 * i);
  }

  /** Four of the withheld steady tokens from `k` on last 1.6 s together. */
  lemma SteadyQuarter(k: nat)
    requires k + 4 <= 9
    ensures TotalMs(4000, Withheld(Steady(10))[k..k + 4]) == 1600
  {
    var x := Withheld(Steady(10))[k..k + 4];
    forall j | 0 <= j < 4 ensures SegmentMs(4000, x[j]) == 400 {
      SteadyBody(k + j);
    }
    SteadyRun(x);
  }

  /**
   A 4.0 s token followed by any token, in a 5.0 s recording: the first token alone crosses
   3.0 s and is written through the force split as a 4.0 s clip.
   */
  lemma ClipLongerThanMax(last: Token, clips: seq<Clip>)
    requires GreedyPacking(5000, Withheld([Token("long", 0.0, 4.0), last]), clips)
    ensures clips == [Clip("000_long.wav", [Token("long", 0.0, 4.0)], 4000)]
    ensures clips[0].lengthMs > MaxClipMs
  {
    var t := Token("long", 0.0, 4.0);
    var body := Withheld([t, last]);
    assert body == [t];
    assert Ms(4.0) == 4000;
    assert SegmentMs(5000, t) == 4000;
    assert TotalMs(5000, [t]) == 4000 by {
      assert [t][..0] == [];
    }
    assert IsRun(5000, [t]) by {
      assert [t][..0] == [];
    }
    var expected := [MakeClip(5000, 0, [t])];
    assert Runs(expected) == [[t]];
    assert Flatten([[t]]) == [t] by {
      assert [[t]][1..] == [];
    }
    assert body[1..] == [];
    assert GreedyPacking(5000, body, expected);
    GreedyPackingUnique(5000, body, clips, expected);
    assert TokenTexts([t]) == ["long"];
    assert ZeroPad3(0) == "000" by {
      assert NatToString(0) == "0";
      assert Zeros(2) == "00" by {
        assert Zeros(1) == "0";
      }
    }
    assert ClipName(0, ["long"]) == "000_long.wav";
  }

  /**
   Two words 0.05 s and 1.75 s long in a 1.8 s recording: the merger makes the single token
   "a b" and the packer, which withholds the last token, writes no clip at all.
   */
  lemma MergedPairGivesNoClip(clips: seq<Clip>)
    requires var words := [Word("a", 0.0, 0.05, Some("success")), Word("b", 0.05, 1.8, Some("success"))];
      GreedyPacking(1800, Withheld(MergeShortWords(SpliceConfig, words)), clips)
    ensures MergeShortWords(SpliceConfig, [Word("a", 0.0, 0.05, Some("success")), Word("b", 0.05, 1.8, Some("success"))])
         == [Token("a b", 0.0, 1.8)]
    ensures clips == []
  {
    var words := [Word("a", 0.0, 0.05, Some("success")), Word("b", 0.05, 1.8, Some("success"))];
    MergedPair();
    LastTokenUnused(1800, MergeShortWords(SpliceConfig, words), clips);
  }

  /** The short word "a" merges forward with "b" into the single token "a b". */
  lemma MergedPair()
    ensures MergeShortWords(SpliceConfig, [Word("a", 0.0, 0.05, Some("success")), Word("b", 0.05, 1.8, Some("success"))])
         == [Token("a b", 0.0, 1.8)]
  {
    var a, b := Word("a", 0.0, 0.05, Some("success")), Word("b", 0.05, 1.8, Some("success"));
    var words := [a, b];
    assert SuccessOnly(words) == words by {
      assert words[1..] == [b];
      assert [b][1..] == [];
      assert SuccessOnly([b]) == [b];
    }
    assert Pair(SpliceConfig, words) == [words] by {
      assert words[..2] == words;
      assert words[2..] == [];
      assert Pair(SpliceConfig, []) == [];
    }
    assert Groups(SpliceConfig, words) == [words];
    GroupTokenPair(a, b);
    assert Tokens([words]) == [GroupToken(words)];
    assert a.text + " " + b.text == "a b";
  }
}
