/**
 * Byte strings and the three `bytes` operations the parser leans on:
 * `find`, `split(sep)` and `sep.join(parts)` (with `b''.join` as the
 * separator-less case).
 */
module ByteSeq {

  newtype byte = x: int | 0 <= x < 256

  type Bytes = seq<byte>

  const LF: byte := 10
  const CR: byte := 13

  /** `tok` occurs in `s` starting at index `i`. */
  predicate OccursAt(s: Bytes, tok: Bytes, i: int) {
    0 <= i && i + |tok| <= |s| && s[i..i + |tok|] == tok
  }

  predicate Contains(s: Bytes, tok: Bytes) {
    exists i :: 0 <= i <= |s| && OccursAt(s, tok, i)
  }

  /** Python's `s.endswith(tok)`. */
  predicate EndsWith(s: Bytes, tok: Bytes) {
    |tok| <= |s| && s[|s| - |tok|..] == tok
  }

  /** The two line terminators the parser can lock onto, `\n` and `\r\n`. */
  predicate IsLineToken(tok: Bytes) {
    tok == [LF] || tok == [CR, LF]
  }

  /** Python's `s.find(tok, start)`: the first occurrence at or after `start`, or -1. */
  function FindFrom(s: Bytes, tok: Bytes, start: nat): (r: int)
    decreases |s| - start
    ensures r == -1 || (start <= r && OccursAt(s, tok, r))
    ensures r == -1 ==> forall i :: start <= i ==> !OccursAt(s, tok, i)
    ensures r >= 0 ==> forall i :: start <= i < r ==> !OccursAt(s, tok, i)
  {
    if start + |tok| > |s| then -1
    else if s[start..start + |tok|] == tok then start
    else FindFrom(s, tok, start + 1)
  }

  /** Python's `s.find(tok)`. */
  function Find(s: Bytes, tok: Bytes): (r: int)
    ensures r == -1 <==> !Contains(s, tok)
    ensures r >= 0 ==> OccursAt(s, tok, r)
    ensures r >= 0 ==> forall i :: 0 <= i < r ==> !OccursAt(s, tok, i)
  {
    FindFrom(s, tok, 0)
  }

  /** Python's `tok.join(parts)`. */
  function JoinWith(parts: seq<Bytes>, tok: Bytes): Bytes {
    if |parts| == 0 then []
    else if |parts| == 1 then parts[0]
    else parts[0] + tok + JoinWith(parts[1..], tok)
  }

  /** Python's `b''.join(parts)`. */
  function Concat(parts: seq<Bytes>): Bytes {
    if |parts| == 0 then [] else parts[0] + Concat(parts[1..])
  }

  /** Every line followed by `tok`: the bytes a run of complete lines occupied. */
  function Terminated(lines: seq<Bytes>, tok: Bytes): Bytes {
    if |lines| == 0 then [] else lines[0] + tok + Terminated(lines[1..], tok)
  }

  lemma OccursInPrefix(s: Bytes, tok: Bytes, n: nat, i: int)
    requires n <= |s|
    requires OccursAt(s[..n], tok, i)
    ensures OccursAt(s, tok, i)
  {
    assert s[..n][i..i + |tok|] == s[i..i + |tok|];
  }

  lemma OccursInSuffix(s: Bytes, tok: Bytes, n: nat, i: int)
    requires n <= |s|
    requires OccursAt(s[n..], tok, i)
    ensures OccursAt(s, tok, n + i)
  {
    assert s[n..][i..i + |tok|] == s[n + i..n + i + |tok|];
  }

  /**
   * Python's `s.split(tok)`: the pieces between the non-overlapping
   * occurrences of `tok`, scanned from the left. There is always at least
   * one piece, and the last one is what follows the last occurrence.
   */
  function Split(s: Bytes, tok: Bytes): (r: seq<Bytes>)
    requires |tok| > 0
    decreases |s|
    ensures |r| >= 1
  {
    var i := Find(s, tok);
    if i == -1 then [s] else [s[..i]] + Split(s[i + |tok|..], tok)
  }

  lemma SplitAt(s: Bytes, tok: Bytes)
    requires |tok| > 0
    requires Find(s, tok) >= 0
    ensures Split(s, tok) == [s[..Find(s, tok)]] + Split(s[Find(s, tok) + |tok|..], tok)
  {
  }

  /** No piece of a split contains the separator, and joining the pieces with it gives the input back. */
  lemma {:induction false} SplitJoin(s: Bytes, tok: Bytes)
    requires |tok| > 0
    decreases |s|
    ensures forall k :: 0 <= k < |Split(s, tok)| ==> !Contains(Split(s, tok)[k], tok)
    ensures JoinWith(Split(s, tok), tok) == s
  {
    var i := Find(s, tok);
    if i >= 0 {
      var tail := s[i + |tok|..];
      SplitJoin(tail, tok);
      SplitAt(s, tok);
      var rest := Split(tail, tok);
      var r := [s[..i]] + rest;
      assert !Contains(s[..i], tok) by {
        forall j | OccursAt(s[..i], tok, j) ensures false {
          OccursInPrefix(s, tok, i, j);
        }
      }
      assert r[1..] == rest;
      assert s == s[..i] + tok + tail by {
        assert s[i..i + |tok|] == tok;
        assert s == s[..i] + s[i..i + |tok|] + tail;
      }
    }
  }

  /** A string that contains the separator splits into at least two pieces. */
  lemma SplitContaining(s: Bytes, tok: Bytes)
    requires |tok| > 0
    requires Contains(s, tok)
    ensures |Split(s, tok)| >= 2
  {
    SplitAt(s, tok);
  }

  lemma ConcatAppend(a: seq<Bytes>, b: seq<Bytes>)
    ensures Concat(a + b) == Concat(a) + Concat(b)
  {
    if |a| == 0 {
      assert a + b == b;
    } else {
      assert (a + b)[1..] == a[1..] + b;
      ConcatAppend(a[1..], b);
    }
  }

  lemma {:induction false} JoinWithSnoc(init: seq<Bytes>, last: Bytes, tok: Bytes)
    ensures JoinWith(init + [last], tok) == Terminated(init, tok) + last
  {
    if |init| == 0 {
      assert init + [last] == [last];
    } else {
      assert (init + [last])[1..] == init[1..] + [last];
      JoinWithSnoc(init[1..], last, tok);
    }
  }

  /** With a line token the first occurrence after a token-free piece is the token that follows it. */
  lemma FindAfterPiece(p: Bytes, tok: Bytes, rest: Bytes)
    requires IsLineToken(tok)
    requires !Contains(p, tok)
    ensures Find(p + tok + rest, tok) == |p|
  {
    var s := p + tok + rest;
    assert s[|p|..|p| + |tok|] == tok;
    assert OccursAt(s, tok, |p|);
    forall i | 0 <= i < |p| ensures !OccursAt(s, tok, i) {
      if i + |tok| <= |p| {
        assert s[i..i + |tok|] == p[i..i + |tok|];
        assert !OccursAt(p, tok, i);
      } else {
        assert s[i + 1] == CR;
      }
    }
  }

  /**
   * Splitting inverts joining for the parser's line tokens: pieces that do
   * not contain the token come back unchanged.
   */
  lemma {:induction false} SplitInvertsJoin(parts: seq<Bytes>, tok: Bytes)
    requires IsLineToken(tok)
    requires |parts| >= 1
    requires forall k :: 0 <= k < |parts| ==> !Contains(parts[k], tok)
    ensures Split(JoinWith(parts, tok), tok) == parts
  {
    if |parts| == 1 {
    } else {
      var rest := JoinWith(parts[1..], tok);
      FindAfterPiece(parts[0], tok, rest);
      var s := parts[0] + tok + rest;
      assert s[..|parts[0]|] == parts[0];
      assert s[|parts[0]| + |tok|..] == rest;
      SplitInvertsJoin(parts[1..], tok);
    }
  }

  /** After an occurrence of a line token, a string that ends with the token leaves either nothing or room for another token. */
  lemma TailAfterToken(s: Bytes, tok: Bytes, i: int)
    requires IsLineToken(tok)
    requires EndsWith(s, tok)
    requires OccursAt(s, tok, i)
    ensures i + |tok| == |s| || |s| - (i + |tok|) >= |tok|
  {
    assert s[|s| - |tok|] == tok[0];
    assert s[i + |tok| - 1] == tok[|tok| - 1];
  }

  /** The last piece of a split is the last piece of the split after the first occurrence. */
  lemma SplitLast(s: Bytes, tok: Bytes, i: int, rest: Bytes)
    requires |tok| > 0
    requires i == Find(s, tok) && i >= 0 && rest == s[i + |tok|..]
    ensures Split(s, tok)[|Split(s, tok)| - 1] == Split(rest, tok)[|Split(rest, tok)| - 1]
  {
    var parts, whole := Split(rest, tok), Split(s, tok);
    assert whole == [s[..i]] + parts by { SplitAt(s, tok); }
    LastOfCons(s[..i], parts, whole);
  }

  lemma LastOfCons<T>(a: T, r: seq<T>, whole: seq<T>)
    requires |r| >= 1 && whole == [a] + r
    ensures whole[|whole| - 1] == r[|r| - 1]
  {
  }

  /** A string ending with a line token splits into pieces whose last one is empty. */
  lemma {:induction false} SplitEndingWithToken(s: Bytes, tok: Bytes)
    requires IsLineToken(tok)
    requires EndsWith(s, tok)
    decreases |s|
    ensures Split(s, tok)[|Split(s, tok)| - 1] == []
  {
    var i := Find(s, tok);
    assert i >= 0 by { assert OccursAt(s, tok, |s| - |tok|); }
    var rest := s[i + |tok|..];
    TailAfterToken(s, tok, i);
    if |rest| == 0 {
      assert Split(rest, tok) == [rest];
    } else {
      assert EndsWith(rest, tok) by { assert rest[|rest| - |tok|..] == s[|s| - |tok|..]; }
      SplitEndingWithToken(rest, tok);
    }
    SplitLast(s, tok, i, rest);
  }
}