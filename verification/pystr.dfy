/**
 * The Python `str` operations the parser applies to decoded lines:
 * `isspace`, `strip()`, `split()` with no separator, `split(':', 1)`,
 * `startswith((' ', '\t'))` and `upper()` (ASCII letters only).
 */
module PyStr {
  import opened Wrappers

  /** Python's `str.isspace` for one character. */
  predicate IsSpace(c: char) {
    var n := c as int;
    || 0x09 <= n <= 0x0D
    || 0x1C <= n <= 0x20
    || n == 0x85 || n == 0xA0 || n == 0x1680
    || 0x2000 <= n <= 0x200A
    || n == 0x2028 || n == 0x2029 || n == 0x202F || n == 0x205F || n == 0x3000
  }

  predicate AllSpace(s: string) {
    forall i :: 0 <= i < |s| ==> IsSpace(s[i])
  }

  /** A non-empty run of non-whitespace characters: what `split()` yields. */
  predicate IsWord(w: string) {
    |w| > 0 && forall i :: 0 <= i < |w| ==> !IsSpace(w[i])
  }

  /** Neither end of `s` is whitespace: what `strip()` yields. */
  predicate IsTrimmed(s: string) {
    s == [] || (!IsSpace(s[0]) && !IsSpace(s[|s| - 1]))
  }

  /** The number of whitespace characters `s` starts with. */
  function LeadingSpaces(s: string): (n: nat)
    ensures n <= |s|
    ensures n < |s| ==> !IsSpace(s[n])
  {
    if |s| > 0 && IsSpace(s[0]) then 1 + LeadingSpaces(s[1..]) else 0
  }

  /** The number of whitespace characters `s` ends with. */
  function TrailingSpaces(s: string): (n: nat)
    ensures n <= |s|
    ensures n < |s| ==> !IsSpace(s[|s| - 1 - n])
  {
    if |s| > 0 && IsSpace(s[|s| - 1]) then 1 + TrailingSpaces(s[..|s| - 1]) else 0
  }

  /** The number of non-whitespace characters `s` starts with. */
  function WordLength(s: string): (n: nat)
    ensures n <= |s|
    ensures n < |s| ==> IsSpace(s[n])
  {
    if |s| > 0 && !IsSpace(s[0]) then 1 + WordLength(s[1..]) else 0
  }

  /** What `LeadingSpaces` counts is whitespace. */
  lemma {:induction false} LeadingSpacesAreSpace(s: string)
    ensures AllSpace(s[..LeadingSpaces(s)])
  {
    if |s| > 0 && IsSpace(s[0]) {
      var m := LeadingSpaces(s[1..]);
      LeadingSpacesAreSpace(s[1..]);
      assert s[..1 + m] == [s[0]] + s[1..][..m];
    }
  }

  /** What `TrailingSpaces` counts is whitespace. */
  lemma {:induction false} TrailingSpacesAreSpace(s: string)
    ensures AllSpace(s[|s| - TrailingSpaces(s)..])
  {
    if |s| > 0 && IsSpace(s[|s| - 1]) {
      var init := s[..|s| - 1];
      var m := TrailingSpaces(init);
      TrailingSpacesAreSpace(init);
      assert AllSpace([s[|s| - 1]]);
      AllSpaceConcat(init[|init| - m..], [s[|s| - 1]]);
      assert s[|s| - (1 + m)..] == init[|init| - m..] + [s[|s| - 1]];
    }
  }

  /** What `WordLength` counts is not whitespace. */
  lemma {:induction false} WordLengthIsWord(s: string)
    ensures forall i :: 0 <= i < WordLength(s) ==> !IsSpace(s[i])
  {
    if |s| > 0 && !IsSpace(s[0]) {
      WordLengthIsWord(s[1..]);
      assert forall i :: 1 <= i < WordLength(s) ==> s[i] == s[1..][i - 1];
    }
  }

  /** `LeadingSpaces` is the only count with the two properties above. */
  lemma {:induction false} LeadingSpacesIs(s: string, n: nat)
    requires n <= |s| && AllSpace(s[..n])
    requires n < |s| ==> !IsSpace(s[n])
    ensures LeadingSpaces(s) == n
  {
    if n > 0 {
      assert s[..n][0] == s[0];
      assert s[1..][..n - 1] == s[..n][1..];
      LeadingSpacesIs(s[1..], n - 1);
    }
  }

  /** `TrailingSpaces` is the only count with the two properties above. */
  lemma {:induction false} TrailingSpacesIs(s: string, n: nat)
    requires n <= |s| && AllSpace(s[|s| - n..])
    requires n < |s| ==> !IsSpace(s[|s| - 1 - n])
    ensures TrailingSpaces(s) == n
  {
    if n > 0 {
      var init := s[..|s| - 1];
      var tail := s[|s| - n..];
      assert IsSpace(s[|s| - 1]) by {
        assert tail[n - 1] == s[|s| - 1];
      }
      assert AllSpace(init[|init| - (n - 1)..]) by {
        assert init[|init| - (n - 1)..] == tail[..n - 1];
        AllSpacePrefix(tail, n - 1);
      }
      if n - 1 < |init| {
        assert init[|init| - 1 - (n - 1)] == s[|s| - 1 - n];
      }
      TrailingSpacesIs(init, n - 1);
    }
  }

  /** `WordLength` is the only count with the two properties above. */
  lemma {:induction false} WordLengthIs(s: string, n: nat)
    requires n <= |s|
    requires forall i :: 0 <= i < n ==> !IsSpace(s[i])
    requires n < |s| ==> IsSpace(s[n])
    ensures WordLength(s) == n
  {
    if n > 0 {
      WordLengthIs(s[1..], n - 1);
    }
  }

  /** `s` is `r` with whitespace padding removed from both ends, `r` starting at index `a`. */
  predicate StripsTo(s: string, r: string, a: int) {
    0 <= a && a + |r| <= |s| && s[a..a + |r|] == r && AllSpace(s[..a]) && AllSpace(s[a + |r|..])
  }

  /** Python's `str.strip()`. */
  function Strip(s: string): (r: string)
  {
    var t := s[LeadingSpaces(s)..];
    t[..|t| - TrailingSpaces(t)]
  }

  /**
   * Stripping removes only whitespace, from both ends, and leaves text that
   * neither starts nor ends with whitespace; it leaves nothing exactly when
   * the input is all whitespace.
   */
  lemma StripSpec(s: string)
    ensures IsTrimmed(Strip(s))
    ensures StripsTo(s, Strip(s), LeadingSpaces(s))
    ensures Strip(s) == [] <==> AllSpace(s)
  {
    var a := LeadingSpaces(s);
    var t := s[a..];
    var n := TrailingSpaces(t);
    var r := t[..|t| - n];
    assert Strip(s) == r;
    StripRemovesSpace(s, a, t, n, r);
    StripLeavesTrimmed(s, a, t, n, r);
    if r == [] {
      StripsToEmpty(s, a);
    } else {
      assert !AllSpace(s) by {
        assert s[a] == r[0];
      }
    }
  }

  lemma StripRemovesSpace(s: string, a: nat, t: string, n: nat, r: string)
    requires a == LeadingSpaces(s) && t == s[a..] && n == TrailingSpaces(t) && r == t[..|t| - n]
    ensures StripsTo(s, r, a)
  {
    LeadingSpacesAreSpace(s);
    TrailingSpacesAreSpace(t);
    assert s[a..a + |r|] == r;
    assert s[a + |r|..] == t[|t| - n..];
  }

  lemma StripLeavesTrimmed(s: string, a: nat, t: string, n: nat, r: string)
    requires a == LeadingSpaces(s) && t == s[a..] && n == TrailingSpaces(t) && r == t[..|t| - n]
    ensures IsTrimmed(r)
  {
    if r != [] {
      assert r[0] == s[a];
      assert r[|r| - 1] == t[|t| - 1 - n];
    }
  }

  lemma StripsToEmpty(s: string, a: int)
    requires StripsTo(s, [], a)
    ensures AllSpace(s)
  {
    forall i | 0 <= i < |s| ensures IsSpace(s[i]) {
      if i < a {
        assert s[i] == s[..a][i];
      } else {
        assert s[i] == s[a..][i - a];
      }
    }
  }

  lemma AllSpacePrefix(s: string, k: nat)
    requires AllSpace(s) && k <= |s|
    ensures AllSpace(s[..k])
  {
    forall i | 0 <= i < k ensures IsSpace(s[..k][i]) {
      assert s[..k][i] == s[i];
    }
  }

  lemma AllSpaceConcat(a: string, b: string)
    requires AllSpace(a) && AllSpace(b)
    ensures AllSpace(a + b)
  {
    assert forall i :: 0 <= i < |a + b| ==> (a + b)[i] == if i < |a| then a[i] else b[i - |a|];
  }

  /** Stripping removes exactly the padding: whatever trimmed text is padded with whitespace comes back. */
  lemma StripPadded(lead: string, r: string, trail: string)
    requires AllSpace(lead) && AllSpace(trail) && IsTrimmed(r)
    ensures Strip(lead + r + trail) == r
  {
    var s := lead + r + trail;
    if r == [] {
      assert s == lead + trail;
      AllSpaceConcat(lead, trail);
    } else {
      assert s[..|lead|] == lead;
      assert s[|lead|] == r[0];
      LeadingSpacesIs(s, |lead|);
      var t := s[|lead|..];
      assert t == r + trail;
      assert t[|t| - |trail|..] == trail;
      assert t[|t| - 1 - |trail|] == r[|r| - 1];
      TrailingSpacesIs(t, |trail|);
      assert t[..|t| - |trail|] == r;
    }
  }

  /** Python's `str.split()` with no separator: the maximal runs of non-whitespace, in order. */
  function Words(s: string): (r: seq<string>)
    decreases |s|
  {
    var t := s[LeadingSpaces(s)..];
    if |t| == 0 then []
    else
      var w := WordLength(t);
      [t[..w]] + Words(t[w..])
  }

  /** Every piece is a word. */
  predicate AllWords(ws: seq<string>) {
    forall k :: 0 <= k < |ws| ==> IsWord(ws[k])
  }

  lemma AllWordsCons(w: string, ws: seq<string>, whole: seq<string>)
    requires whole == [w] + ws && IsWord(w) && AllWords(ws)
    ensures AllWords(whole)
  {
    forall k | 0 <= k < |whole| ensures IsWord(whole[k]) {
      if k > 0 {
        assert whole[k] == ws[k - 1];
      }
    }
  }

  /** A text that starts with a non-whitespace character starts with a word, as long as `WordLength` says. */
  lemma WordAtStart(t: string)
    requires |t| > 0 && !IsSpace(t[0])
    ensures IsWord(t[..WordLength(t)])
  {
    var w := WordLength(t);
    WordLengthIsWord(t);
    forall i | 0 <= i < w ensures !IsSpace(t[..w][i]) {
      assert t[..w][i] == t[i];
    }
  }

  /** Every piece `split()` yields is a word, and it yields none exactly for all-whitespace text. */
  lemma {:induction false} WordsSpec(s: string)
    decreases |s|
    ensures AllWords(Words(s))
    ensures Words(s) == [] <==> AllSpace(s)
  {
    var a := LeadingSpaces(s);
    var t := s[a..];
    WordsFrom(s, a, t);
    if |t| == 0 {
      assert AllSpace(s) by {
        LeadingSpacesAreSpace(s);
        assert s[..a] == s;
      }
    } else {
      var w := WordLength(t);
      assert !AllSpace(s) by {
        assert !IsSpace(s[a]);
      }
      assert t[0] == s[a];
      WordAtStart(t);
      WordsSpec(t[w..]);
      AllWordsCons(t[..w], Words(t[w..]), Words(s));
    }
  }

  /** `split()` skips the leading whitespace and takes one word from what follows. */
  lemma WordsFrom(s: string, a: nat, t: string)
    requires a == LeadingSpaces(s) && t == s[a..]
    ensures Words(s) == if |t| == 0 then [] else [t[..WordLength(t)]] + Words(t[WordLength(t)..])
  {
  }

  /** `split()` peels off leading padding and one word, and continues at the whitespace after it. */
  lemma WordsOfPadded(lead: string, w: string, rest: string)
    requires AllSpace(lead) && IsWord(w)
    requires rest == [] || IsSpace(rest[0])
    ensures Words(lead + w + rest) == [w] + Words(rest)
  {
    var s := lead + w + rest;
    var t := w + rest;
    assert LeadingSpaces(s) == |lead| by {
      assert s[..|lead|] == lead;
      assert s[|lead|] == w[0];
      LeadingSpacesIs(s, |lead|);
    }
    assert s[|lead|..] == t;
    WordsFrom(s, |lead|, t);
    assert WordLength(t) == |w| by {
      WordLengthIs(t, |w|);
    }
    assert t[..|w|] == w;
    assert t[|w|..] == rest;
  }

  /** Leading whitespace does not change what `split()` yields. */
  lemma WordsSkipSpace(lead: string, s: string)
    requires AllSpace(lead)
    ensures Words(lead + s) == Words(s)
  {
    var a := LeadingSpaces(s);
    var u := lead + s;
    assert LeadingSpaces(u) == |lead| + a by {
      assert u[..|lead| + a] == lead + s[..a];
      LeadingSpacesAreSpace(s);
      AllSpaceConcat(lead, s[..a]);
      if a < |s| {
        assert u[|lead| + a] == s[a];
      }
      LeadingSpacesIs(u, |lead| + a);
    }
    assert u[|lead| + a..] == s[a..];
    WordsFrom(u, |lead| + a, s[a..]);
    WordsFrom(s, a, s[a..]);
  }

  /** Words joined with single spaces. */
  function JoinSpaced(words: seq<string>): string {
    if |words| == 0 then []
    else if |words| == 1 then words[0]
    else words[0] + " " + JoinSpaced(words[1..])
  }

  /** A word, a space and more text: `split()` yields the word and then what the rest yields. */
  lemma WordsAfterWord(w: string, j: string, whole: string)
    requires IsWord(w) && whole == w + " " + j
    ensures Words(whole) == [w] + Words(j)
  {
    assert Words(whole) == [w] + Words(" " + j) by {
      assert AllSpace([]);
      WordsOfPadded([], w, " " + j);
      Regroup(w, " ", j, whole);
    }
    assert Words(" " + j) == Words(j) by {
      assert AllSpace(" ");
      WordsSkipSpace(" ", j);
    }
  }

  lemma Regroup(a: string, b: string, c: string, whole: string)
    requires whole == a + b + c
    ensures [] + a + (b + c) == whole
  {
  }

  /** A lone word: `split()` yields just that word. */
  lemma WordsOfWord(w: string)
    requires IsWord(w)
    ensures Words(w) == [w]
  {
    assert AllSpace([]);
    WordsOfPadded([], w, []);
    assert [] + w + [] == w;
    WordsSpec([]);
  }

  lemma JoinSpacedCons(words: seq<string>)
    requires |words| >= 2
    ensures JoinSpaced(words) == words[0] + " " + JoinSpaced(words[1..])
  {
  }

  /** `split()` recovers the words that a single-space join put together. */
  lemma WordsOfJoinSpaced(words: seq<string>)
    requires AllWords(words)
    ensures Words(JoinSpaced(words)) == words
  {
    assert AllSpace([]);
    WordsOfJoinSpacedPadded(words, []);
    assert JoinSpaced(words) + [] == JoinSpaced(words);
  }

  /** Trailing whitespace after single-space-joined words does not change what `split()` yields. */
  lemma {:induction false} WordsOfJoinSpacedPadded(words: seq<string>, trail: string)
    requires AllWords(words) && AllSpace(trail)
    ensures Words(JoinSpaced(words) + trail) == words
  {
    if |words| == 0 {
      assert JoinSpaced(words) + trail == trail;
      WordsSpec(trail);
    } else if |words| == 1 {
      WordThenSpace(words[0], trail, JoinSpaced(words) + trail);
    } else {
      var rest := words[1..];
      assert AllWords(rest) by {
        assert forall k :: 0 <= k < |rest| ==> rest[k] == words[k + 1];
      }
      WordsOfJoinSpacedPadded(rest, trail);
      PaddedCons(words, trail);
      WordsAfterWord(words[0], JoinSpaced(rest) + trail, JoinSpaced(words) + trail);
      HeadAndTail(words);
    }
  }

  lemma HeadAndTail<T>(s: seq<T>)
    requires |s| > 0
    ensures s == [s[0]] + s[1..]
  {
  }

  lemma WordThenSpace(w: string, trail: string, whole: string)
    requires IsWord(w) && AllSpace(trail) && whole == w + trail
    ensures Words(whole) == [w]
  {
    assert AllSpace([]);
    WordsOfPadded([], w, trail);
    assert [] + w + trail == whole;
    WordsSpec(trail);
  }

  lemma PaddedCons(words: seq<string>, trail: string)
    requires |words| >= 2
    ensures JoinSpaced(words) + trail == words[0] + " " + (JoinSpaced(words[1..]) + trail)
  {
    JoinSpacedCons(words);
  }

  /**
   * Python's `s.split(':', 1)` unpacked into two names: the text before the
   * first colon and the text after it, or None when there is no colon (where
   * the unpacking raises ValueError).
   */
  function SplitAtColon(s: string): (r: Option<(string, string)>)
    ensures r.None? <==> ':' !in s
    ensures r.Some? ==> s == r.value.0 + ":" + r.value.1 && ':' !in r.value.0
  {
    if |s| == 0 then None
    else if s[0] == ':' then Some(([], s[1..]))
    else
      match SplitAtColon(s[1..])
      case None => None
      case Some(parts) => Some(([s[0]] + parts.0, parts.1))
  }

  /** Python's `s.startswith((' ', '\t'))`: the line continues the previous header. */
  predicate StartsWithBlank(s: string) {
    |s| > 0 && (s[0] == ' ' || s[0] == '\t')
  }

  function UpperChar(c: char): char {
    if 'a' <= c <= 'z' then (c as int - 32) as char else c
  }

  function LowerChar(c: char): char {
    if 'A' <= c <= 'Z' then (c as int + 32) as char else c
  }

  /** Python's `str.upper()` on ASCII letters; every other character is kept. */
  function Upper(s: string): (r: string)
    ensures |r| == |s|
    ensures forall i :: 0 <= i < |s| ==> r[i] == UpperChar(s[i])
  {
    if |s| == 0 then [] else [UpperChar(s[0])] + Upper(s[1..])
  }

  /** The two names are the same up to ASCII letter case. */
  predicate EqualIgnoringCase(a: string, b: string) {
    |a| == |b| && forall i :: 0 <= i < |a| ==> LowerChar(a[i]) == LowerChar(b[i])
  }

  lemma UpperCharIdentifiesCase(x: char, y: char)
    ensures UpperChar(x) == UpperChar(y) <==> LowerChar(x) == LowerChar(y)
  {
  }

  /** Upper-casing identifies exactly the names that differ only in letter case. */
  lemma UpperIdentifiesCase(a: string, b: string)
    ensures Upper(a) == Upper(b) <==> EqualIgnoringCase(a, b)
  {
    if Upper(a) == Upper(b) {
      forall i | 0 <= i < |a| ensures LowerChar(a[i]) == LowerChar(b[i]) {
        assert Upper(a)[i] == Upper(b)[i];
        UpperCharIdentifiesCase(a[i], b[i]);
      }
    }
    if EqualIgnoringCase(a, b) {
      forall i | 0 <= i < |a| ensures Upper(a)[i] == Upper(b)[i] {
        UpperCharIdentifiesCase(a[i], b[i]);
      }
      assert Upper(a) == Upper(b);
    }
  }

  /** Upper-casing a canonical name changes nothing. */
  lemma UpperIdempotent(s: string)
    ensures Upper(Upper(s)) == Upper(s)
  {
  }
}
