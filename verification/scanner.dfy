/**
 The scanner of buildDict: the character loop that collects runs of letters
 into a bounded buffer and hands each finished run over as one word.

 The loop keeps `tempWord[0..curIndex)`; here that buffer is the string
 `buf`, so `curIndex > 0` reads `|buf| > 0`. The `|| curIndex > 0` arm of the
 loop condition feeds the end of input through the loop as one more
 non-letter, which flushes a word still in the buffer: `ScanFrom(buf, [])`.
 */
module Scanner {
  import opened CharClass

  /** What the buffer may hold between two characters: at most MaxWordLen
      letters, each already lower-cased. */
  predicate IsBuffer(buf: string)
  {
    && |buf| <= MaxWordLen
    && forall i :: 0 <= i < |buf| ==> IsLower(buf[i])
  }

  /** What the scanner may hand to the index: a non-empty buffer. */
  predicate IsWord(w: string)
  {
    && 1 <= |w| <= MaxWordLen
    && forall i :: 0 <= i < |w| ==> IsLower(w[i])
  }

  /** A letter is stored while the buffer has room; past MaxWordLen letters it
      is read and dropped, and the run goes on. */
  function Accept(buf: string, lower: char): (r: string)
    requires IsBuffer(buf) && IsLower(lower)
    ensures IsBuffer(r) && r != []
    ensures buf <= r && |r| <= |buf| + 1
  {
    if |buf| < MaxWordLen then buf + [lower] else buf
  }

  /** A non-letter (or the end of input) emits the buffer as a word when it
      holds something and emits nothing when it is empty. */
  function Flush(buf: string): (r: seq<string>)
    requires IsBuffer(buf)
    ensures |r| <= 1 && forall k :: 0 <= k < |r| ==> IsWord(r[k])
    ensures buf != [] ==> buf in r
    ensures buf == [] ==> r == []
  {
    if |buf| > 0 then [buf] else []
  }

  /** The words the scanner loop still emits when its buffer holds `buf` and
      `s` is the input not read yet. */
  function ScanFrom(buf: string, s: seq<char>): (r: seq<string>)
    requires IsBuffer(buf)
    ensures forall k :: 0 <= k < |r| ==> IsWord(r[k])
    decreases |s|
  {
    if s == [] then Flush(buf)
    else
      var (isAlpha, c) := CheckAlpha(s[0]);
      if !isAlpha then Flush(buf) + ScanFrom([], s[1..])
      else ScanFrom(Accept(buf, c), s[1..])
  }

  /** The words of a whole input, in the order the scanner emits them. */
  function Scan(s: seq<char>): seq<string>
  {
    ScanFrom([], s)
  }

  // ---------------------------------------------------------------------
  // Reference definition: maximal letter runs
  // ---------------------------------------------------------------------

  /** Length of the longest prefix of `s` made of letters. */
  function LetterPrefixLen(s: seq<char>): (n: nat)
    ensures n <= |s|
    ensures forall i :: 0 <= i < n ==> IsLetter(s[i])
    ensures n < |s| ==> !IsLetter(s[n])
  {
    if s == [] || !IsLetter(s[0]) then 0 else 1 + LetterPrefixLen(s[1..])
  }

  /** The maximal runs of letters of `s`, left to right, as they stand in the
      input: a letter begins a word, a non-letter ends it. */
  function Runs(s: seq<char>): seq<seq<char>>
    decreases |s|
  {
    if s == [] then []
    else if !IsLetter(s[0]) then Runs(s[1..])
    else
      var n := LetterPrefixLen(s);
      [s[..n]] + Runs(s[n..])
  }

  predicate AllLetters(r: seq<char>)
  {
    forall i :: 0 <= i < |r| ==> IsLetter(r[i])
  }

  /** The letters of `s` in order, everything else removed. */
  function LettersOf(s: seq<char>): seq<char>
  {
    if s == [] then []
    else if IsLetter(s[0]) then [s[0]] + LettersOf(s[1..])
    else LettersOf(s[1..])
  }

  function Concat(runs: seq<seq<char>>): seq<char>
  {
    if runs == [] then [] else runs[0] + Concat(runs[1..])
  }

  function LowerAll(r: seq<char>): (w: string)
    ensures |w| == |r|
    ensures forall i :: 0 <= i < |r| ==> w[i] == ToLower(r[i])
  {
    if r == [] then [] else [ToLower(r[0])] + LowerAll(r[1..])
  }

  /** The word a letter run is recorded as: lower-cased, and cut to its
      first MaxWordLen letters. */
  function Normalize(run: seq<char>): string
  {
    var w := LowerAll(run);
    if |w| <= MaxWordLen then w else w[..MaxWordLen]
  }

  function NormalizeAll(runs: seq<seq<char>>): (ws: seq<string>)
    ensures |ws| == |runs|
    ensures forall k :: 0 <= k < |runs| ==> ws[k] == Normalize(runs[k])
  {
    if runs == [] then [] else [Normalize(runs[0])] + NormalizeAll(runs[1..])
  }

  // ---------------------------------------------------------------------
  // Properties of the reference
  // ---------------------------------------------------------------------

  /** Every run is a non-empty sequence of letters. */
  lemma {:induction false} RunsAreLetterRuns(s: seq<char>)
    ensures forall k :: 0 <= k < |Runs(s)| ==> Runs(s)[k] != [] && AllLetters(Runs(s)[k])
    decreases |s|
  {
    if s == [] {
    } else if !IsLetter(s[0]) {
      RunsAreLetterRuns(s[1..]);
    } else {
      var n := LetterPrefixLen(s);
      RunsAreLetterRuns(s[n..]);
    }
  }

  /** The runs together hold exactly the letters of the input, in order:
      no letter is lost and no non-letter enters a word. */
  lemma {:induction false} RunsKeepEveryLetter(s: seq<char>)
    ensures Concat(Runs(s)) == LettersOf(s)
    decreases |s|
  {
    if s == [] {
    } else if !IsLetter(s[0]) {
      RunsKeepEveryLetter(s[1..]);
    } else {
      var n := LetterPrefixLen(s);
      RunsKeepEveryLetter(s[n..]);
      LettersOfRun(s, n);
      assert Runs(s) == [s[..n]] + Runs(s[n..]);
      assert Concat(Runs(s)) == s[..n] + Concat(Runs(s[n..]));
    }
  }

  /** A prefix made of letters passes into LettersOf unchanged. */
  lemma {:induction false} LettersOfRun(s: seq<char>, n: nat)
    requires n <= |s|
    requires forall i :: 0 <= i < n ==> IsLetter(s[i])
    ensures LettersOf(s) == s[..n] + LettersOf(s[n..])
    decreases n
  {
    if n > 0 {
      LettersOfRun(s[1..], n - 1);
      assert s[1..][n - 1..] == s[n..];
      assert s[..n] == [s[0]] + s[1..][..n - 1];
    }
  }

  /** An input with no letter yields no run. */
  lemma {:induction false} NoLetterNoRun(s: seq<char>)
    requires forall i :: 0 <= i < |s| ==> !IsLetter(s[i])
    ensures Runs(s) == []
    decreases |s|
  {
    if s != [] {
      NoLetterNoRun(s[1..]);
    }
  }

  // ---------------------------------------------------------------------
  // The scanner emits the normalized maximal runs
  // ---------------------------------------------------------------------

  /** A prefix of letters extends the letter prefix of what follows. */
  lemma {:induction false} LetterPrefixLenAppend(r: seq<char>, s: seq<char>)
    requires AllLetters(r)
    ensures LetterPrefixLen(r + s) == |r| + LetterPrefixLen(s)
    decreases |r|
  {
    if r != [] {
      assert (r + s)[0] == r[0];
      assert (r + s)[1..] == r[1..] + s;
      LetterPrefixLenAppend(r[1..], s);
      assert LetterPrefixLen(r + s) == 1 + LetterPrefixLen((r + s)[1..]);
    } else {
      assert r + s == s;
    }
  }

  /** A non-empty run of letters followed by a delimiter (or by nothing) is
      one whole maximal run. */
  lemma RunsOfClosedRun(r: seq<char>, s: seq<char>)
    requires AllLetters(r) && r != []
    requires s == [] || !IsLetter(s[0])
    ensures Runs(r + s) == [r] + Runs(s)
  {
    LetterPrefixLenAppend(r, s);
    assert (r + s)[0] == r[0];
    assert (r + s)[..|r|] == r;
    assert (r + s)[|r|..] == s;
  }

  /** The normalized word of a run of letters is a valid buffer content, and
      a non-empty one when the run is. */
  lemma NormalizeIsBuffer(r: seq<char>)
    requires AllLetters(r)
    ensures IsBuffer(Normalize(r))
    ensures r != [] ==> Normalize(r) != []
  {
    var w := LowerAll(r);
    assert forall i :: 0 <= i < |w| ==> IsLower(w[i]);
  }

  /** One more letter on a run changes its normalized word exactly as
      Accept changes the buffer. */
  lemma NormalizeSnoc(r: seq<char>, c: char)
    requires AllLetters(r) && IsLetter(c)
    ensures IsBuffer(Normalize(r))
    ensures Normalize(r + [c]) == Accept(Normalize(r), ToLower(c))
  {
    NormalizeIsBuffer(r);
    var w := LowerAll(r);
    var w' := LowerAll(r + [c]);
    assert w' == w + [ToLower(c)];
    if |w| < MaxWordLen {
      assert Normalize(r + [c]) == w + [ToLower(c)];
    } else {
      assert w'[..MaxWordLen] == w[..MaxWordLen];
    }
  }

  /** One step of the scanner loop, read through checkAlpha's contract. */
  lemma ScanFromStep(buf: string, s: seq<char>)
    requires IsBuffer(buf) && s != []
    ensures IsLetter(s[0]) ==> ScanFrom(buf, s) == ScanFrom(Accept(buf, ToLower(s[0])), s[1..])
    ensures !IsLetter(s[0]) ==> ScanFrom(buf, s) == Flush(buf) + ScanFrom([], s[1..])
  {
  }

  /** Main scanner law, generalized over a run `r` already (partly) in the
      buffer: the words still to come are the normalized maximal runs of
      `r + s`. */
  lemma {:induction false} ScanFromMatchesRuns(r: seq<char>, s: seq<char>)
    requires AllLetters(r)
    ensures IsBuffer(Normalize(r))
    ensures ScanFrom(Normalize(r), s) == NormalizeAll(Runs(r + s))
    decreases |s|
  {
    NormalizeIsBuffer(r);
    if s == [] {
      if r != [] {
        RunsOfClosedRun(r, s);
        assert r + s == r;
      }
    } else if !IsLetter(s[0]) {
      DelimiterCase(r, s);
    } else {
      LetterCase(r, s);
    }
  }

  lemma {:induction false} DelimiterCase(r: seq<char>, s: seq<char>)
    requires AllLetters(r) && s != [] && !IsLetter(s[0])
    ensures IsBuffer(Normalize(r))
    ensures ScanFrom(Normalize(r), s) == NormalizeAll(Runs(r + s))
    decreases |s|, 0
  {
    NormalizeIsBuffer(r);
    var buf := Normalize(r);
    ScanFromMatchesRuns([], s[1..]);
    assert [] + s[1..] == s[1..];
    ScanFromStep(buf, s);
    assert Runs(s) == Runs(s[1..]);
    if r == [] {
      assert buf == [];
      assert r + s == s;
    } else {
      RunsOfClosedRun(r, s);
    }
  }

  lemma {:induction false} LetterCase(r: seq<char>, s: seq<char>)
    requires AllLetters(r) && s != [] && IsLetter(s[0])
    ensures IsBuffer(Normalize(r))
    ensures ScanFrom(Normalize(r), s) == NormalizeAll(Runs(r + s))
    decreases |s|, 0
  {
    var r' := r + [s[0]];
    assert AllLetters(r') by {
      forall i | 0 <= i < |r'|
        ensures IsLetter(r'[i])
      {
        if i < |r| {
          assert r'[i] == r[i];
        }
      }
    }
    NormalizeSnoc(r, s[0]);
    ScanFromStep(Normalize(r), s);
    assert ScanFrom(Normalize(r), s) == ScanFrom(Normalize(r'), s[1..]);
    ScanFromMatchesRuns(r', s[1..]);
    assert r' + s[1..] == r + s;
  }

  /** The scanner emits, in order, each maximal letter run of the input,
      lower-cased and cut to MaxWordLen letters. */
  lemma ScanIsNormalizedRuns(s: seq<char>)
    ensures Scan(s) == NormalizeAll(Runs(s))
    ensures |Scan(s)| == |Runs(s)|
  {
    ScanFromMatchesRuns([], s);
    assert [] + s == s;
  }

  /** Truncation: a run longer than MaxWordLen letters, alone in the input, is
      one word, its first MaxWordLen letters lower-cased; the dropped
      letters start no second word. */
  lemma LongRunTruncated(r: seq<char>)
    requires AllLetters(r) && |r| > MaxWordLen
    ensures Scan(r) == [LowerAll(r[..MaxWordLen])]
  {
    ScanIsNormalizedRuns(r);
    RunsOfClosedRun(r, []);
    assert r + [] == r;
    assert LowerAll(r)[..MaxWordLen] == LowerAll(r[..MaxWordLen]);
  }

  /** A run ended by a non-letter is emitted as one word before anything the
      rest of the input yields: the word is recorded whole or truncated, and
      scanning restarts afresh after the delimiter. */
  lemma RunThenDelimiter(r: seq<char>, d: char, s: seq<char>)
    requires AllLetters(r) && r != [] && !IsLetter(d)
    ensures Scan(r + [d] + s) == [Normalize(r)] + Scan(s)
  {
    ScanIsNormalizedRuns(r + [d] + s);
    ScanIsNormalizedRuns(s);
    assert r + [d] + s == r + ([d] + s);
    RunsOfClosedRun(r, [d] + s);
    assert ([d] + s)[1..] == s;
    assert Runs([d] + s) == Runs(s);
    NormalizeAllAppend([r], Runs(s));
  }

  lemma NormalizeAllAppend(x: seq<seq<char>>, y: seq<seq<char>>)
    ensures NormalizeAll(x + y) == NormalizeAll(x) + NormalizeAll(y)
  {
    var l, m := NormalizeAll(x + y), NormalizeAll(x) + NormalizeAll(y);
    assert |l| == |m|;
    forall k | 0 <= k < |l|
      ensures l[k] == m[k]
    {
      if k < |x| {
        assert (x + y)[k] == x[k];
      } else {
        assert (x + y)[k] == y[k - |x|];
      }
    }
  }

  /** Cutting the input just after a non-letter cuts no run: the runs of the
      whole are the runs of the two parts. */
  lemma {:induction false} RunsSplit(a: seq<char>, b: seq<char>)
    requires a == [] || !IsLetter(a[|a| - 1])
    ensures Runs(a + b) == Runs(a) + Runs(b)
    decreases |a|
  {
    if a == [] {
      assert a + b == b;
    } else if !IsLetter(a[0]) {
      assert (a + b)[0] == a[0];
      assert (a + b)[1..] == a[1..] + b;
      RunsSplit(a[1..], b);
    } else {
      var n := LetterPrefixLen(a);
      assert n < |a|;
      assert a == a[..n] + a[n..];
      assert a + b == a[..n] + (a[n..] + b);
      assert (a[n..] + b)[0] == a[n];
      LetterPrefixLenAppend(a[..n], a[n..] + b);
      assert (a + b)[0] == a[0];
      assert (a + b)[..n] == a[..n];
      assert (a + b)[n..] == a[n..] + b;
      RunsSplit(a[n..], b);
    }
  }

  /** A run still open at the end of the input is flushed as the last word:
      no delimiter after it is needed. */
  lemma TrailingRunRecorded(s: seq<char>, r: seq<char>)
    requires AllLetters(r) && r != []
    requires s == [] || !IsLetter(s[|s| - 1])
    ensures Scan(s + r) == Scan(s) + [Normalize(r)]
  {
    ScanIsNormalizedRuns(s + r);
    ScanIsNormalizedRuns(s);
    RunsSplit(s, r);
    RunsOfClosedRun(r, []);
    assert r + [] == r;
    NormalizeAllAppend(Runs(s), [r]);
  }

  /** Leading, trailing and repeated delimiters, digits and punctuation alone
      never make a word. */
  lemma NoLetterNoWord(s: seq<char>)
    requires forall i :: 0 <= i < |s| ==> !IsLetter(s[i])
    ensures Scan(s) == []
  {
    ScanIsNormalizedRuns(s);
    NoLetterNoRun(s);
  }
}
