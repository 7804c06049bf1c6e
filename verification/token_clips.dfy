/**
 The `cut_audio_segments` of text_splice_gentle.py and text_splice_copy.py: one clip per
 merged token, in order, with no length check and no rejection. Clip `i` is the slice
 `int(start * 1000)..int(end * 1000)` of the recording and is named `{i:03d}_` followed by
 the token text with its spaces turned into `_`, then `.wav`.
 */
module TokenClips {
  import opened Wrappers
  import opened PyText
  import opened Lists
  import opened Merger
  import opened Packer

  /** One written clip: its file name and the milliseconds it was cut from. */
  datatype TokenClip = TokenClip(name: string, startMs: int, endMs: int, lengthMs: nat)

  /** `f"{i:03d}_{text.replace(' ', '_')}.wav"` */
  function TokenClipName(index: nat, text: string): string {
    ZeroPad3(index) + "_" + (Replace(text, ' ', '_') + ".wav")
  }

  /**
   The clips for `segments` in a recording of `audioMs` milliseconds: exactly one per token,
   at the token's position, never filtered, cut from the token's span and named after its
   index and its text.
   */
  function CutPerToken(audioMs: nat, segments: seq<Token>): (r: seq<TokenClip>)
    ensures |r| == |segments|
    ensures forall i :: 0 <= i < |r| ==> NameIndex(r[i].name) == Some(i)
    ensures forall i :: 0 <= i < |r| ==> r[i].lengthMs == SegmentMs(audioMs, segments[i]) <= audioMs
    ensures forall i, j :: 0 <= i < j < |r| ==> r[i].name != r[j].name
    ensures forall i :: 0 <= i < |r| ==> r[i].startMs == Ms(segments[i].start) && r[i].endMs == Ms(segments[i].end)
    ensures forall i :: 0 <= i < |r| && '_' !in segments[i].text ==> NameText(r[i].name) == Some(segments[i].text)
  {
    var r := seq(|segments|, i requires 0 <= i < |segments| =>
      var t := segments[i];
      TokenClip(TokenClipName(i, t.text), Ms(t.start), Ms(t.end), SegmentMs(audioMs, t)));
    forall i | 0 <= i < |r|
      ensures NameIndex(r[i].name) == Some(i)
    {
      PrefixIndex(i, Replace(segments[i].text, ' ', '_') + ".wav");
    }
    forall i | 0 <= i < |r| && '_' !in segments[i].text
      ensures NameText(r[i].name) == Some(segments[i].text)
    {
      NameTextRoundTrip(i, segments[i].text);
    }
    r
  }

  /** The token text a clip name spells: what lies between the first `_` and `.wav`, `_` read as a space. */
  function NameText(name: string): Option<string> {
    var k := IndexOf(name, '_');
    if k < |name| && |name| - (k + 1) >= 4 && name[|name| - 4..] == ".wav" then
      Some(Replace(name[k + 1..|name| - 4], '_', ' '))
    else None
  }

  /**
   A clip name gives back its token's text, as long as the text had no `_` of its own
   (an `_` in the text is read back as a space).
   */
  lemma NameTextRoundTrip(index: nat, text: string)
    requires '_' !in text
    ensures NameText(TokenClipName(index, text)) == Some(text)
  {
    var z := ZeroPad3(index);
    var u := Replace(text, ' ', '_');
    DigitsNoUnderscore(z);
    NameTextOf(z, u);
    ReplaceBack(text, ' ', '_');
  }

  /** Any name `z_u.wav` whose prefix `z` has no `_` spells `u` with `_` read as a space. */
  lemma NameTextOf(z: string, u: string)
    requires '_' !in z
    ensures NameText(z + "_" + (u + ".wav")) == Some(Replace(u, '_', ' '))
  {
    IndexOfPrefix(z, '_', u + ".wav");
    Middle(z, u);
  }

  /** The part of `z_u.wav` between the `_` and the extension. */
  lemma Middle(z: string, u: string)
    ensures var n := z + "_" + (u + ".wav");
      |n| - (|z| + 1) >= 4 && n[|z| + 1..|n| - 4] == u && n[|n| - 4..] == ".wav"
  {
    var n := z + "_" + (u + ".wav");
    assert forall i :: 0 <= i < |u| ==> n[|z| + 1 + i] == u[i];
  }
}
