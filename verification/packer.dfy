/**
 The clip packer of text_splice.py (`cut_audio_segments`). Every merged token but the last
 is cut out of the recording and appended to an accumulator. The accumulator is written out
 as a clip as soon as it reaches 1.5 s: at once when it lasts at most 3.0 s, and through the
 force-split branch when it lasts longer. Recordings shorter than 1.5 s are rejected before
 anything is written.

 Times are whole milliseconds. `int(t * 1000)` truncates toward zero, and a slice of the
 recording is clamped to the recording, so a clip's length is the sum of its slices.

 Next to the loop stands a characterisation of its result, `GreedyPacking`: the clips cut
 the withheld-last-token list into consecutive runs, each run is the shortest one that
 reaches 1.5 s, and what is left over stays below 1.5 s. `GreedyRunsUnique` shows that this
 determines the clips completely.
 */
module Packer {
  import opened Wrappers
  import opened PyText
  import opened Lists
  import opened Merger

  /** `1.5 <= duration_seconds` and the recording-length guard, in milliseconds. */
  const MinClipMs: nat := 1500
  /** `duration_seconds <= 3.0`, in milliseconds. */
  const MaxClipMs: nat := 3000

  /** `int(t * 1000)`: seconds to milliseconds, truncated toward zero. */
  function Ms(t: real): (r: int)
    ensures 0.0 <= t ==> 0 <= r && r as real <= t * 1000.0 < r as real + 1.0
    ensures t < 0.0 ==> r <= 0 && r as real - 1.0 < t * 1000.0 <= r as real
  {
    var x := t * 1000.0;
    if x >= 0.0 then x.Floor else -((-x).Floor)
  }

  function Clamp(x: int, len: nat): (r: nat)
    ensures r <= len
    ensures 0 <= x <= len ==> r == x
  {
    if x < 0 then 0 else if x > len then len else x
  }

  /** Length of `audio[s:e]` for a recording of `audioMs` milliseconds. */
  function SliceMs(audioMs: nat, s: int, e: int): (r: nat)
    ensures r <= audioMs
    ensures 0 <= s <= e <= audioMs ==> r == e - s
    ensures e <= s ==> r == 0
  {
    var a, b := Clamp(s, audioMs), Clamp(e, audioMs);
    if b < a then 0 else b - a
  }

  /** Length of the slice one token contributes. */
  function SegmentMs(audioMs: nat, t: Token): nat {
    SliceMs(audioMs, Ms(t.start), Ms(t.end))
  }

  /** Length of the accumulator after appending the slices of `ts`. */
  function TotalMs(audioMs: nat, ts: seq<Token>): nat {
    if ts == [] then 0 else TotalMs(audioMs, ts[..|ts| - 1]) + SegmentMs(audioMs, ts[|ts| - 1])
  }

  /** `segments[:-1]`: every token but the last; the empty list stays empty. */
  function Withheld(segments: seq<Token>): (r: seq<Token>)
    ensures |segments| > 0 ==> r == segments[..|segments| - 1]
    ensures |segments| <= 1 ==> r == []
  {
    if |segments| == 0 then [] else segments[..|segments| - 1]
  }

  /** One written clip: its file name, the tokens it was cut from and its length. */
  datatype Clip = Clip(name: string, segments: seq<Token>, lengthMs: nat)

  /** `f"{index:03d}_{'_'.join(words)}.wav"`; the token texts keep their spaces. */
  function ClipName(index: nat, texts: seq<string>): string {
    ZeroPad3(index) + "_" + (Join(texts, '_') + ".wav")
  }

  function MakeClip(audioMs: nat, index: nat, run: seq<Token>): Clip {
    Clip(ClipName(index, TokenTexts(run)), run, TotalMs(audioMs, run))
  }

  /** The outcome of `cut_audio_segments`. */
  datatype Outcome =
    | TooShort              // returns False before creating the directory
    | NoViableSegments      // the directory stayed empty: removed, returns False
    | Written(clips: seq<Clip>)  // returns True

  // ----- the characterisation -----

  /** A run written as one clip: it reaches 1.5 s only with its last token. */
  predicate IsRun(audioMs: nat, run: seq<Token>) {
    |run| > 0 && TotalMs(audioMs, run) >= MinClipMs && TotalMs(audioMs, run[..|run| - 1]) < MinClipMs
  }

  function Runs(clips: seq<Clip>): (r: seq<seq<Token>>)
    ensures |r| == |clips| && forall k :: 0 <= k < |clips| ==> r[k] == clips[k].segments
  {
    seq(|clips|, k requires 0 <= k < |clips| => clips[k].segments)
  }

  /** `runs` cut a prefix of `body` greedily and leave less than 1.5 s over. */
  predicate GreedyRuns(audioMs: nat, body: seq<Token>, runs: seq<seq<Token>>) {
    var f := Flatten(runs);
    && |f| <= |body| && body[..|f|] == f
    && (forall k :: 0 <= k < |runs| ==> IsRun(audioMs, runs[k]))
    && TotalMs(audioMs, body[|f|..]) < MinClipMs
  }

  /** The clips are the greedy runs of `body`, numbered from 0 and named after their tokens. */
  predicate GreedyPacking(audioMs: nat, body: seq<Token>, clips: seq<Clip>) {
    && GreedyRuns(audioMs, body, Runs(clips))
    && forall k :: 0 <= k < |clips| ==> clips[k] == MakeClip(audioMs, k, clips[k].segments)
  }

  // ----- facts about lengths -----

  lemma {:induction false} TotalMsAppend(audioMs: nat, a: seq<Token>, b: seq<Token>)
    ensures TotalMs(audioMs, a + b) == TotalMs(audioMs, a) + TotalMs(audioMs, b)
    decreases |b|
  {
    if b == [] {
      assert a + b == a;
    } else {
      var b' := b[..|b| - 1];
      assert (a + b)[..|a + b| - 1] == a + b';
      TotalMsAppend(audioMs, a, b');
    }
  }

  /** Lengths are never negative, so a prefix is never longer than the whole. */
  lemma TotalMsPrefix(audioMs: nat, ts: seq<Token>, k: nat)
    requires k <= |ts|
    ensures TotalMs(audioMs, ts[..k]) <= TotalMs(audioMs, ts)
  {
    assert ts == ts[..k] + ts[k..];
    TotalMsAppend(audioMs, ts[..k], ts[k..]);
  }

  // ----- uniqueness -----

  /** Two greedy runs starting at the same place have the same length. */
  lemma FirstRunUnique(audioMs: nat, body: seq<Token>, x: seq<Token>, y: seq<Token>)
    requires IsRun(audioMs, x) && IsRun(audioMs, y)
    requires |x| <= |body| && body[..|x|] == x
    requires |y| <= |body| && body[..|y|] == y
    ensures x == y
  {
    if |x| < |y| {
      assert x == y[..|y| - 1][..|x|];
      TotalMsPrefix(audioMs, y[..|y| - 1], |x|);
    } else if |y| < |x| {
      assert y == x[..|x| - 1][..|y|];
      TotalMsPrefix(audioMs, x[..|x| - 1], |y|);
    }
  }

  /** A list of tokens has exactly one greedy cutting. */
  lemma {:induction false} GreedyRunsUnique(audioMs: nat, body: seq<Token>, r1: seq<seq<Token>>, r2: seq<seq<Token>>)
    requires GreedyRuns(audioMs, body, r1) && GreedyRuns(audioMs, body, r2)
    ensures r1 == r2
    decreases |body|
  {
    if r1 == [] && r2 == [] {
    } else if r1 == [] {
      NoRunInShortBody(audioMs, body, r2);
    } else if r2 == [] {
      NoRunInShortBody(audioMs, body, r1);
    } else {
      var x, y := r1[0], r2[0];
      assert Flatten(r1) == r1[0] + Flatten(r1[1..]);
      assert Flatten(r2) == r2[0] + Flatten(r2[1..]);
      assert body[..|x|] == x by { assert body[..|Flatten(r1)|][..|x|] == x; }
      assert body[..|y|] == y by { assert body[..|Flatten(r2)|][..|y|] == y; }
      FirstRunUnique(audioMs, body, x, y);
      var rest := body[|x|..];
      RestGreedy(audioMs, body, r1);
      RestGreedy(audioMs, body, r2);
      GreedyRunsUnique(audioMs, rest, r1[1..], r2[1..]);
      assert r1 == [x] + r1[1..] && r2 == [y] + r2[1..];
    }
  }

  /** A body that is all left over holds no run. */
  lemma NoRunInShortBody(audioMs: nat, body: seq<Token>, r: seq<seq<Token>>)
    requires TotalMs(audioMs, body) < MinClipMs
    requires GreedyRuns(audioMs, body, r)
    ensures r == []
  {
    if r != [] {
      assert Flatten(r) == r[0] + Flatten(r[1..]);
      var x := r[0];
      assert body[..|x|] == x by { assert body[..|Flatten(r)|][..|x|] == x; }
      TotalMsPrefix(audioMs, body, |x|);
      assert false;
    }
  }

  /** After the first run, the remaining runs are greedy on the remaining tokens. */
  lemma RestGreedy(audioMs: nat, body: seq<Token>, r: seq<seq<Token>>)
    requires |r| > 0 && GreedyRuns(audioMs, body, r)
    ensures |r[0]| <= |body| && GreedyRuns(audioMs, body[|r[0]|..], r[1..])
  {
    assert Flatten(r) == r[0] + Flatten(r[1..]);
    var x, f, f' := r[0], Flatten(r), Flatten(r[1..]);
    var rest := body[|x|..];
    assert rest[..|f'|] == body[..|f|][|x|..];
    assert rest[|f'|..] == body[|f|..];
    forall k | 0 <= k < |r[1..]|
      ensures IsRun(audioMs, r[1..][k])
    {
      assert r[1..][k] == r[k + 1];
    }
  }

  /** Clips are fixed by their runs: greedy packings of the same tokens are equal. */
  lemma GreedyPackingUnique(audioMs: nat, body: seq<Token>, c1: seq<Clip>, c2: seq<Clip>)
    requires GreedyPacking(audioMs, body, c1) && GreedyPacking(audioMs, body, c2)
    ensures c1 == c2
  {
    GreedyRunsUnique(audioMs, body, Runs(c1), Runs(c2));
    assert |c1| == |c2|;
    forall k | 0 <= k < |c1|
      ensures c1[k] == c2[k]
    {
      assert Runs(c1)[k] == Runs(c2)[k];
    }
  }

  // ----- the loop -----

  /** Every clip so far is a run, numbered by its position and named after its tokens. */
  predicate WellNumbered(audioMs: nat, clips: seq<Clip>) {
    forall k :: 0 <= k < |clips| ==> IsRun(audioMs, clips[k].segments) && clips[k] == MakeClip(audioMs, k, clips[k].segments)
  }

  /**
   `cut_audio_segments(audio_path, segments, output_dir)` for a recording of `audioMs`
   milliseconds. `dirHadEntries` says whether `output_dir` already held files, which decides
   `os.listdir` when no clip is written.
   */
  method CutAudioSegments(audioMs: nat, segments: seq<Token>, dirHadEntries: bool) returns (r: Outcome)
    ensures r.TooShort? <==> audioMs < MinClipMs
    ensures r.NoViableSegments? <==> audioMs >= MinClipMs && !dirHadEntries && GreedyPacking(audioMs, Withheld(segments), [])
    ensures r.Written? ==> GreedyPacking(audioMs, Withheld(segments), r.clips) && (r.clips != [] || dirHadEntries)
  {
    if audioMs < MinClipMs {
      return TooShort;
    }
    var body := Withheld(segments);
    var clips: seq<Clip> := [];
    var pending: seq<Token> := [];
    var accMs: nat := 0;
    var i := 0;
    while i < |body|
      invariant 0 <= i <= |body|
      invariant Flatten(Runs(clips)) + pending == body[..i]
      invariant accMs == TotalMs(audioMs, pending) < MinClipMs
      invariant WellNumbered(audioMs, clips)
    {
      Extend(audioMs, body, i, clips, pending);
      pending := pending + [body[i]];
      accMs := accMs + SegmentMs(audioMs, body[i]);
      if MinClipMs <= accMs <= MaxClipMs || accMs > MaxClipMs {
        // both branches export; the force split's own `>= 1.5` guard always holds there
        PushClip(audioMs, clips, pending);
        clips := clips + [MakeClip(audioMs, |clips|, pending)];
        pending := [];
        accMs := 0;
      }
      i := i + 1;
    }
    // the final `>= 1.5` check never fires: the accumulator is below 1.5 s here
    LeftoverShort(audioMs, body, clips, pending);
    NoViableUnique(audioMs, body, clips);
    if clips == [] && !dirHadEntries {
      return NoViableSegments;
    }
    return Written(clips);
  }

  /** Appending the next token to the accumulator. */
  lemma Extend(audioMs: nat, body: seq<Token>, i: nat, clips: seq<Clip>, pending: seq<Token>)
    requires i < |body|
    requires Flatten(Runs(clips)) + pending == body[..i]
    ensures Flatten(Runs(clips)) + (pending + [body[i]]) == body[..i + 1]
    ensures TotalMs(audioMs, pending + [body[i]]) == TotalMs(audioMs, pending) + SegmentMs(audioMs, body[i])
    ensures (pending + [body[i]])[..|pending|] == pending
  {
    assert body[..i + 1] == body[..i] + [body[i]];
    assert (pending + [body[i]])[..|pending|] == pending;
  }

  /** Writing the accumulator out as the next clip keeps the clips well numbered. */
  lemma PushClip(audioMs: nat, clips: seq<Clip>, run: seq<Token>)
    requires WellNumbered(audioMs, clips) && IsRun(audioMs, run)
    ensures WellNumbered(audioMs, clips + [MakeClip(audioMs, |clips|, run)])
    ensures Flatten(Runs(clips + [MakeClip(audioMs, |clips|, run)])) + [] == Flatten(Runs(clips)) + run
  {
    PushClipNumbered(audioMs, clips, run);
    PushClipRuns(audioMs, clips, run);
  }

  lemma PushClipNumbered(audioMs: nat, clips: seq<Clip>, run: seq<Token>)
    requires WellNumbered(audioMs, clips) && IsRun(audioMs, run)
    ensures WellNumbered(audioMs, clips + [MakeClip(audioMs, |clips|, run)])
  {
    var c := clips + [MakeClip(audioMs, |clips|, run)];
    forall k | 0 <= k < |c|
      ensures IsRun(audioMs, c[k].segments) && c[k] == MakeClip(audioMs, k, c[k].segments)
    {
      if k < |clips| {
        assert c[k] == clips[k];
      }
    }
  }

  lemma PushClipRuns(audioMs: nat, clips: seq<Clip>, run: seq<Token>)
    ensures Flatten(Runs(clips + [MakeClip(audioMs, |clips|, run)])) + [] == Flatten(Runs(clips)) + run
  {
    var c := clips + [MakeClip(audioMs, |clips|, run)];
    assert Runs(c) == Runs(clips) + [run];
    FlattenAppend(Runs(clips), [run]);
    assert Flatten([run]) == run + Flatten([]);
    assert Flatten(Runs(c)) + [] == Flatten(Runs(c));
  }

  lemma LeftoverShort(audioMs: nat, body: seq<Token>, clips: seq<Clip>, pending: seq<Token>)
    requires Flatten(Runs(clips)) + pending == body[..|body|]
    requires TotalMs(audioMs, pending) < MinClipMs
    requires WellNumbered(audioMs, clips)
    ensures GreedyPacking(audioMs, body, clips)
  {
    var f := Flatten(Runs(clips));
    assert body[..|body|] == body;
    assert body[..|f|] == f;
    assert body[|f|..] == pending;
  }

  lemma NoViableUnique(audioMs: nat, body: seq<Token>, clips: seq<Clip>)
    requires GreedyPacking(audioMs, body, clips)
    ensures clips == [] <==> GreedyPacking(audioMs, body, [])
  {
    if clips != [] && GreedyPacking(audioMs, body, []) {
      GreedyPackingUnique(audioMs, body, clips, []);
    }
  }

  // ----- what a written clip looks like -----

  /**
   Every clip reaches 1.5 s, and without its last token it would not: so it lasts less than
   1.5 s plus its last token's slice, which may itself be longer than 3.0 s.
   */
  lemma ClipBounds(audioMs: nat, body: seq<Token>, clips: seq<Clip>, k: nat)
    requires GreedyPacking(audioMs, body, clips) && k < |clips|
    ensures |clips[k].segments| > 0
    ensures var c := clips[k];
      MinClipMs <= c.lengthMs < MinClipMs + SegmentMs(audioMs, c.segments[|c.segments| - 1])
  {
    assert Runs(clips)[k] == clips[k].segments;
    assert IsRun(audioMs, clips[k].segments);
  }

  /** The clips never use the withheld last token, so fewer than two tokens give no clip. */
  lemma {:induction false} LastTokenUnused(audioMs: nat, segments: seq<Token>, clips: seq<Clip>)
    requires GreedyPacking(audioMs, Withheld(segments), clips)
    ensures |segments| > 0 ==> |Flatten(Runs(clips))| < |segments|
    ensures |segments| < 2 ==> clips == []
  {
    if |segments| < 2 {
      assert TotalMs(audioMs, Withheld(segments)) == 0;
      NoRunInShortBody(audioMs, Withheld(segments), Runs(clips));
      assert |Runs(clips)| == 0;
    }
  }

  /** The index a clip name starts with: the digits in front of its first `_`. */
  function NameIndex(name: string): Option<nat> {
    var k := IndexOf(name, '_');
    if IsDigits(name[..k]) then Some(DigitsValue(name[..k])) else None
  }

  /** Reading the index back out of a name made from it gives the index. */
  lemma PrefixIndex(index: nat, rest: string)
    ensures NameIndex(ZeroPad3(index) + "_" + rest) == Some(index)
  {
    var z := ZeroPad3(index);
    DigitsNoUnderscore(z);
    IndexOfPrefix(z, '_', rest);
    assert (z + "_" + rest)[..|z|] == z;
  }

  lemma ClipNameIndex(index: nat, texts: seq<string>)
    ensures NameIndex(ClipName(index, texts)) == Some(index)
  {
    PrefixIndex(index, Join(texts, '_') + ".wav");
  }

  /** Clip names carry their index, so two clips with different indices never share a name. */
  lemma ClipNamesDistinct(i: nat, a: seq<string>, j: nat, b: seq<string>)
    requires i != j
    ensures ClipName(i, a) != ClipName(j, b)
  {
    ClipNameIndex(i, a);
    ClipNameIndex(j, b);
  }
}
