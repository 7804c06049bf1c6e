/**
 The handful of Python `str` operations the scripts rely on, stated over `seq<char>`:
 `strip`, `split(sep)`, `split()`, `join`, `isdigit`, `int`, `lower`, `replace` and the
 `{i:03d}` / `{n}` formats.
 */
module PyText {
  import opened Wrappers

  /** The characters Python's `str.isspace` accepts, which `strip()` and `split()` remove. */
  predicate IsSpace(c: char) {
    || c == ' '
    || ('\t' <= c <= '\r')
    || ('\U{1c}' <= c <= '\U{1f}')
    || c == '\U{85}' || c == '\U{a0}' || c == '\U{1680}'
    || ('\U{2000}' <= c <= '\U{200a}')
    || c == '\U{2028}' || c == '\U{2029}' || c == '\U{202f}' || c == '\U{205f}' || c == '\U{3000}'
  }

  /** `s.lstrip()` */
  function TrimStart(s: string): (r: string)
    ensures |r| <= |s| && r == s[|s| - |r|..]
    ensures forall k :: 0 <= k < |s| - |r| ==> IsSpace(s[k])
    ensures r == [] || !IsSpace(r[0])
  {
    if s != [] && IsSpace(s[0]) then TrimStart(s[1..]) else s
  }

  /** `s.rstrip()` */
  function TrimEnd(s: string): (r: string)
    ensures |r| <= |s| && r == s[..|r|]
    ensures forall k :: |r| <= k < |s| ==> IsSpace(s[k])
    ensures r == [] || !IsSpace(r[|r| - 1])
  {
    if s != [] && IsSpace(s[|s| - 1]) then TrimEnd(s[..|s| - 1]) else s
  }

  /** `s.strip()`: the result neither starts nor ends with whitespace. */
  function Strip(s: string): (r: string)
    ensures r == [] || (!IsSpace(r[0]) && !IsSpace(r[|r| - 1]))
  {
    TrimEnd(TrimStart(s))
  }

  /** A string without surrounding whitespace is its own `strip()`. */
  lemma StripTrimmed(s: string)
    requires s == [] || (!IsSpace(s[0]) && !IsSpace(s[|s| - 1]))
    ensures Strip(s) == s
  {
  }

  /** Position of the first `c` in `s`, or `|s|` when there is none. */
  function IndexOf(s: string, c: char): (k: nat)
    ensures k <= |s|
    ensures forall m :: 0 <= m < k ==> s[m] != c
    ensures k < |s| ==> s[k] == c
  {
    if s == [] then 0 else if s[0] == c then 0 else 1 + IndexOf(s[1..], c)
  }

  /** `sep.join(parts)` for a one-character separator. */
  function Join(parts: seq<string>, sep: char): string
  {
    if |parts| == 0 then []
    else if |parts| == 1 then parts[0]
    else parts[0] + [sep] + Join(parts[1..], sep)
  }

  /** `s.split(sep)`: the pieces between separators; joining them back gives `s`. */
  function Split(s: string, sep: char): (r: seq<string>)
    ensures |r| >= 1
    ensures forall i :: 0 <= i < |r| ==> sep !in r[i]
    ensures Join(r, sep) == s
    decreases |s|
  {
    var k := IndexOf(s, sep);
    if k == |s| then [s]
    else
      var rest := Split(s[k + 1..], sep);
      var r := [s[..k]] + rest;
      assert r[1..] == rest;
      assert s == s[..k] + [sep] + s[k + 1..];
      r
  }

  lemma IndexOfPrefix(a: string, c: char, b: string)
    requires c !in a
    ensures IndexOf(a + [c] + b, c) == |a|
  {
    var s := a + [c] + b;
    assert forall m :: 0 <= m < |a| ==> s[m] == a[m];
    assert s[|a|] == c;
  }

  /** A run of digits holds no `_`. */
  lemma DigitsNoUnderscore(z: string)
    requires IsDigits(z)
    ensures '_' !in z
  {
    assert forall m :: 0 <= m < |z| ==> z[m] != '_';
  }

  /** The first piece of a split is everything up to the first separator. */
  lemma SplitFirst(r: string, sep: char, f: string)
    requires sep !in f && |r| >= |f| && r[..|f|] == f
    requires |r| == |f| || r[|f|] == sep
    ensures Split(r, sep)[0] == f
  {
    if |r| == |f| {
      assert r == f;
    } else {
      assert r == f + [sep] + r[|f| + 1..];
      IndexOfPrefix(f, sep, r[|f| + 1..]);
    }
  }

  /** `strip()` keeps a head that starts and ends with non-space and is followed by `c`. */
  lemma StripKeepsHead(row: string, f: string, c: char)
    requires |f| > 0 && !IsSpace(f[0]) && !IsSpace(f[|f| - 1])
    requires |row| > |f| && row[..|f|] == f && row[|f|] == c
    ensures var r := Strip(row); |r| >= |f| && r[..|f|] == f && (|r| == |f| || r[|f|] == c)
  {
    assert row[0] == f[0] && row[|f| - 1] == f[|f| - 1];
    assert TrimStart(row) == row;
    var r := TrimEnd(row);
    assert |r| >= |f|;
    assert r[..|f|] == row[..|f|];
  }

  /** Splitting a join of separator-free pieces gives the pieces back. */
  lemma {:induction false} SplitJoin(parts: seq<string>, sep: char)
    requires |parts| >= 1
    requires forall i :: 0 <= i < |parts| ==> sep !in parts[i]
    ensures Split(Join(parts, sep), sep) == parts
    decreases |parts|
  {
    if |parts| == 1 {
      assert IndexOf(parts[0], sep) == |parts[0]|;
    } else {
      var tail := Join(parts[1..], sep);
      var s := parts[0] + [sep] + tail;
      assert Join(parts, sep) == s;
      IndexOfPrefix(parts[0], sep, tail);
      assert s[..|parts[0]|] == parts[0];
      assert s[|parts[0]| + 1..] == tail;
      SplitJoin(parts[1..], sep);
      assert [parts[0]] + parts[1..] == parts;
    }
  }

  /** Joining two non-empty lists puts one separator between their joins. */
  lemma {:induction false} JoinAppend(a: seq<string>, b: seq<string>, sep: char)
    requires |a| >= 1 && |b| >= 1
    ensures Join(a + b, sep) == Join(a, sep) + [sep] + Join(b, sep)
    decreases |a|
  {
    if |a| == 1 {
      assert (a + b)[1..] == b;
    } else {
      assert (a + b)[1..] == a[1..] + b;
      JoinAppend(a[1..], b, sep);
    }
  }

  /** A join starts with the first piece and ends with the last one. */
  lemma {:induction false} JoinEnds(parts: seq<string>, sep: char)
    requires |parts| >= 1 && |parts[0]| > 0 && |parts[|parts| - 1]| > 0
    ensures var j := Join(parts, sep); var last := parts[|parts| - 1];
      |j| > 0 && j[0] == parts[0][0] && j[|j| - 1] == last[|last| - 1]
  {
    JoinLast(parts, sep);
  }

  lemma {:induction false} JoinLast(parts: seq<string>, sep: char)
    requires |parts| >= 1 && |parts[|parts| - 1]| > 0
    ensures var j := Join(parts, sep); var last := parts[|parts| - 1];
      |j| > 0 && j[|j| - 1] == last[|last| - 1]
    decreases |parts|
  {
    if |parts| > 1 {
      JoinLast(parts[1..], sep);
    }
  }

  /** A word followed by a tab and the newline strips to the word. */
  lemma StripTabLine(f: string)
    requires |f| > 0 && !IsSpace(f[0]) && !IsSpace(f[|f| - 1])
    ensures Strip(f + ['\t', '\n']) == Strip(f + "\n")
  {
    var s := f + ['\t', '\n'];
    assert TrimStart(s) == s;
    assert TrimStart(f + "\n") == f + "\n";
    assert s[..|s| - 1] == f + ['\t'];
    assert (f + ['\t'])[..|f|] == f;
    assert (f + "\n")[..|f|] == f;
    assert TrimEnd(s) == TrimEnd(f);
    assert TrimEnd(f + "\n") == TrimEnd(f);
  }

  /** Stripping a line read from a file removes its newline and nothing else. */
  lemma StripLine(s: string)
    requires |s| > 0 && !IsSpace(s[0]) && !IsSpace(s[|s| - 1])
    ensures Strip(s + "\n") == s
  {
    var t := s + "\n";
    assert TrimStart(t) == t;
    assert t[..|t| - 1] == s;
    assert TrimEnd(t) == TrimEnd(s);
  }

  predicate IsDigit(c: char) {
    '0' <= c <= '9'
  }

  predicate AllDigits(s: string) {
    forall i :: 0 <= i < |s| ==> IsDigit(s[i])
  }

  /** `s.isdigit()`: non-empty and only decimal digits. */
  predicate IsDigits(s: string) {
    |s| > 0 && AllDigits(s)
  }

  function DigitValue(c: char): nat
    requires IsDigit(c)
  {
    c as int - '0' as int
  }

  function DigitChar(d: nat): (c: char)
    requires d < 10
    ensures IsDigit(c) && DigitValue(c) == d
  {
    ('0' as int + d) as char
  }

  /** `int(s)` for a string of decimal digits. */
  function DigitsValue(s: string): nat
    requires AllDigits(s)
  {
    if s == [] then 0 else 10 * DigitsValue(s[..|s| - 1]) + DigitValue(s[|s| - 1])
  }

  /** `int(s) if s.isdigit() else 0`, the vote-count rule of the TSV parsers. */
  function CountField(s: string): nat
  {
    if IsDigits(s) then DigitsValue(s) else 0
  }

  /** `str(n)` for a natural number: canonical decimal digits that read back as `n`. */
  function NatToString(n: nat): (r: string)
    ensures IsDigits(r)
    ensures DigitsValue(r) == n
    ensures r[0] == '0' <==> n == 0
    ensures n < 100 ==> |r| <= 2
    ensures n < 1000 ==> |r| <= 3
  {
    if n < 10 then [DigitChar(n)]
    else
      var p := NatToString(n / 10);
      var r := p + [DigitChar(n % 10)];
      assert r[..|r| - 1] == p;
      r
  }

  /** `str(i)` for an integer: a minus sign only for negative values. */
  function IntToString(i: int): (r: string)
    ensures i >= 0 ==> IsDigits(r) && DigitsValue(r) == i
    ensures i < 0 ==> |r| >= 2 && r[0] == '-' && IsDigits(r[1..]) && DigitsValue(r[1..]) == -i
  {
    if i < 0 then
      var d := NatToString(-i);
      assert ("-" + d)[1..] == d;
      "-" + d
    else NatToString(i)
  }

  function Zeros(n: nat): (r: string)
    ensures |r| == n && forall i :: 0 <= i < n ==> r[i] == '0'
  {
    if n == 0 then [] else Zeros(n - 1) + ['0']
  }

  /** Leading zeros do not change the value of a digit string. */
  lemma {:induction false} LeadingZeros(z: nat, s: string)
    requires AllDigits(s)
    ensures AllDigits(Zeros(z) + s)
    ensures DigitsValue(Zeros(z) + s) == DigitsValue(s)
    decreases |s|
  {
    var t := Zeros(z) + s;
    if s == [] {
      assert t == Zeros(z);
      ZerosValue(z);
    } else {
      var s' := s[..|s| - 1];
      assert t[..|t| - 1] == Zeros(z) + s';
      LeadingZeros(z, s');
    }
  }

  lemma {:induction false} ZerosValue(z: nat)
    ensures AllDigits(Zeros(z)) && DigitsValue(Zeros(z)) == 0
  {
    if z > 0 {
      assert Zeros(z)[..z - 1] == Zeros(z - 1);
      ZerosValue(z - 1);
    }
  }

  /** `f"{n:03d}"`: at least three digits, zero-padded on the left, reading back as `n`. */
  function ZeroPad3(n: nat): (r: string)
    ensures IsDigits(r) && DigitsValue(r) == n
    ensures |r| >= 3
    ensures n < 1000 ==> |r| == 3
    ensures |r| > 3 ==> r == NatToString(n)
  {
    var d := NatToString(n);
    var z := if |d| < 3 then 3 - |d| else 0;
    LeadingZeros(z, d);
    assert z == 0 ==> Zeros(z) + d == d;
    Zeros(z) + d
  }

  /** ASCII lower-casing (the case folding of `re.IGNORECASE` and `str.lower` on ASCII). */
  function ToLower(c: char): char {
    if 'A' <= c <= 'Z' then (c as int + 32) as char else c
  }

  function LowerStr(s: string): (r: string)
    ensures |r| == |s| && forall i :: 0 <= i < |s| ==> r[i] == ToLower(s[i])
  {
    seq(|s|, i requires 0 <= i < |s| => ToLower(s[i]))
  }

  /** `re.search(rf"^{re.escape(name)}$", s, re.IGNORECASE)` on a field without newlines. */
  predicate EqualsIgnoreCase(s: string, name: string) {
    LowerStr(s) == LowerStr(name)
  }

  /** `needle in hay`, i.e. `re.search(re.escape(needle), hay)`. */
  predicate Contains(hay: string, needle: string)
    decreases |hay|
  {
    |needle| <= |hay| && (hay[..|needle|] == needle || Contains(hay[1..], needle))
  }

  /** Every character of a needle that occurs is a character of the haystack. */
  lemma {:induction false} ContainsChars(hay: string, needle: string)
    requires Contains(hay, needle)
    ensures forall k :: 0 <= k < |needle| ==> needle[k] in hay
    decreases |hay|
  {
    if hay[..|needle|] == needle {
      forall k | 0 <= k < |needle| ensures needle[k] in hay {
        assert hay[k] == needle[k];
      }
    } else {
      ContainsChars(hay[1..], needle);
      forall k | 0 <= k < |needle| ensures needle[k] in hay {
        var j :| 0 <= j < |hay[1..]| && hay[1..][j] == needle[k];
        assert hay[j + 1] == needle[k];
      }
    }
  }

  /** `re.search(needle, hay, re.IGNORECASE)` for a literal needle. */
  predicate ContainsIgnoreCase(hay: string, needle: string) {
    Contains(LowerStr(hay), LowerStr(needle))
  }

  /** A string equal to `name` ignoring case contains, ignoring case, every prefix of `name`. */
  lemma PrefixIgnoreCase(s: string, name: string, w: string)
    requires EqualsIgnoreCase(s, name)
    requires |w| <= |name| && LowerStr(w) == LowerStr(name)[..|w|]
    ensures ContainsIgnoreCase(s, w)
  {
    assert LowerStr(s)[..|w|] == LowerStr(w);
  }

  /** Every occurrence of `a` replaced by `b`: `s.replace(a, b)`. */
  function Replace(s: string, a: char, b: char): (r: string)
    ensures |r| == |s|
    ensures forall i :: 0 <= i < |s| ==> r[i] == (if s[i] == a then b else s[i])
    ensures a != b ==> a !in r
  {
    seq(|s|, i requires 0 <= i < |s| => if s[i] == a then b else s[i])
  }

  /** Replacing `a` by `b` and back restores a string that had no `b` to begin with. */
  lemma ReplaceBack(s: string, a: char, b: char)
    requires b !in s
    ensures Replace(Replace(s, a, b), b, a) == s
  {
    var back := Replace(Replace(s, a, b), b, a);
    assert forall i :: 0 <= i < |s| ==> back[i] == s[i];
  }

  /** Position of the first whitespace character, or `|s|`. */
  function SpaceIndex(s: string): (k: nat)
    ensures k <= |s|
    ensures forall m :: 0 <= m < k ==> !IsSpace(s[m])
    ensures k < |s| ==> IsSpace(s[k])
  {
    if s == [] then 0 else if IsSpace(s[0]) then 0 else 1 + SpaceIndex(s[1..])
  }

  /**
   `s.split()[0]`: the first maximal run of non-whitespace characters, or `None` where
   Python raises `IndexError` because `s` is blank.
   */
  function FirstWord(s: string): (r: Option<string>)
    ensures r.None? <==> forall i :: 0 <= i < |s| ==> IsSpace(s[i])
    ensures r.Some? ==> |r.value| > 0 && forall i :: 0 <= i < |r.value| ==> !IsSpace(r.value[i])
    ensures r.Some? ==> var t := TrimStart(s);
      |r.value| <= |t| && t[..|r.value|] == r.value && (|r.value| == |t| || IsSpace(t[|r.value|]))
  {
    var t := TrimStart(s);
    if t == [] then
      assert forall i :: 0 <= i < |s| ==> IsSpace(s[i]);
      None
    else
      assert !IsSpace(s[|s| - |t|]);
      Some(t[..SpaceIndex(t)])
  }

  lemma {:induction false} TrimStartLead(lead: string, x: string)
    requires forall i :: 0 <= i < |lead| ==> IsSpace(lead[i])
    requires x == [] || !IsSpace(x[0])
    ensures TrimStart(lead + x) == x
    decreases |lead|
  {
    if lead == [] {
      assert lead + x == x;
    } else {
      assert (lead + x)[1..] == lead[1..] + x;
      TrimStartLead(lead[1..], x);
    }
  }

  /** `rstrip()` keeps a leading word and the space that follows it, if any. */
  lemma TrimEndKeepsWord(w: string, rest: string)
    requires |w| > 0 && forall i :: 0 <= i < |w| ==> !IsSpace(w[i])
    requires rest == [] || IsSpace(rest[0])
    ensures var t := TrimEnd(w + rest);
      |t| >= |w| && t[..|w|] == w && (|t| == |w| || IsSpace(t[|w|]))
  {
    var s := w + rest;
    var t := TrimEnd(s);
    assert s[|w| - 1] == w[|w| - 1];
    assert |t| >= |w|;
    assert t[..|w|] == s[..|w|] == w;
    assert |t| > |w| ==> t[|w|] == s[|w|] == rest[0];
  }

  /** `strip()` of a word between whitespace starts with the word, then a space or nothing. */
  lemma StripLeadWord(lead: string, w: string, rest: string)
    requires forall i :: 0 <= i < |lead| ==> IsSpace(lead[i])
    requires |w| > 0 && forall i :: 0 <= i < |w| ==> !IsSpace(w[i])
    requires rest == [] || IsSpace(rest[0])
    ensures var t := Strip(lead + w + rest);
      |t| >= |w| && t[..|w|] == w && (|t| == |w| || IsSpace(t[|w|]))
  {
    var x := w + rest;
    assert lead + w + rest == lead + x;
    TrimStartLead(lead, x);
    assert Strip(lead + w + rest) == TrimEnd(x);
    TrimEndKeepsWord(w, rest);
  }

  /** The first word of a stripped label is its first word. */
  lemma FirstWordOfStripped(lead: string, w: string, rest: string)
    requires forall i :: 0 <= i < |lead| ==> IsSpace(lead[i])
    requires |w| > 0 && forall i :: 0 <= i < |w| ==> !IsSpace(w[i])
    requires rest == [] || IsSpace(rest[0])
    ensures FirstWord(Strip(lead + w + rest)) == Some(w)
  {
    StripLeadWord(lead, w, rest);
    FirstWordOfHead(Strip(lead + w + rest), w);
  }

  /** A string that starts with a word followed by a space or nothing has that first word. */
  lemma FirstWordOfHead(t: string, w: string)
    requires |w| > 0 && forall i :: 0 <= i < |w| ==> !IsSpace(w[i])
    requires |t| >= |w| && t[..|w|] == w && (|t| == |w| || IsSpace(t[|w|]))
    ensures FirstWord(t) == Some(w)
  {
    assert t == [] + w + t[|w|..];
    FirstWordOf([], w, t[|w|..]);
  }

  lemma {:induction false} SpaceIndexWord(w: string, rest: string)
    requires forall i :: 0 <= i < |w| ==> !IsSpace(w[i])
    requires rest == [] || IsSpace(rest[0])
    ensures SpaceIndex(w + rest) == |w|
    decreases |w|
  {
    if w == [] {
      assert w + rest == rest;
    } else {
      assert (w + rest)[1..] == w[1..] + rest;
      SpaceIndexWord(w[1..], rest);
    }
  }

  /** The first word of a word followed by whitespace is that word. */
  lemma FirstWordOf(lead: string, w: string, rest: string)
    requires forall i :: 0 <= i < |lead| ==> IsSpace(lead[i])
    requires |w| > 0 && forall i :: 0 <= i < |w| ==> !IsSpace(w[i])
    requires rest == [] || IsSpace(rest[0])
    ensures FirstWord(lead + w + rest) == Some(w)
  {
    assert lead + w + rest == lead + (w + rest);
    TrimStartLead(lead, w + rest);
    SpaceIndexWord(w, rest);
    assert (w + rest)[..|w|] == w;
  }
}
