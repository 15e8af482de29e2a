/**
 buildDict as a whole: the scanner loop feeding each completed word to the
 insert-or-increment step, then the report. The file is an input sequence;
 its end is the end of the sequence.
 */
module WordCounter {
  import opened CharClass
  import opened Scanner
  import opened WordIndex
  import opened Reporter

  /** The index built from a whole input. */
  function BuildIndex(s: seq<char>): Index
  {
    InsertAll([], Scan(s))
  }

  // ---------------------------------------------------------------------
  // The imperative buildDict
  // ---------------------------------------------------------------------

  /** The linked-list walk of buildDict for one word: find the first bucket
      for `w[0]`, walk its entries to a match or to the tail, then raise the
      count or link the new entry (or new bucket) after the tail reached. */
  method InsertOrIncrement(ix: Index, w: string) returns (r: Index)
    requires w != []
    ensures r == Insert(ix, w)
  {
    var i := 0;
    while i < |ix| && ix[i].letter != w[0]
      invariant 0 <= i <= |ix|
      invariant forall k :: 0 <= k < i ==> ix[k].letter != w[0]
    {
      i := i + 1;
    }
    if i == |ix| {
      // `current` is the last bucket: the new bucket is linked after it.
      LettersAt(ix);
      InsertNoBucket(ix, w);
      r := ix + [Bucket(w[0], [Entry(w, 1)])];
      return;
    }
    InsertAtBucket(ix, w, i);
    var es := ix[i].entries;
    var j := 0;
    while j < |es| && es[j].word != w
      invariant 0 <= j <= |es|
      invariant forall m :: 0 <= m < j ==> es[m].word != w
    {
      j := j + 1;
    }
    var es';
    if j == |es| {
      // `newWord` is the tail of the bucket: the new entry is linked after it.
      WordsOfAt(es);
      InsertEntryNotFound(es, w);
      es' := es + [Entry(w, 1)];
    } else {
      InsertEntryFound(es, w, j);
      es' := es[j := Entry(w, es[j].count + 1)];
    }
    r := ix[i := Bucket(w[0], es')];
  }

  /** buildDict: read the input character by character, keep the current
      run in a buffer of at most MaxWordLen letters, and insert the buffer
      into the index whenever a non-letter, or the end of input, closes it.
      The final report of the source is PrintDictionaryCount on the result. */
  method BuildDict(input: seq<char>) returns (ix: Index)
    ensures ix == BuildIndex(input)
    ensures Valid(ix)
    ensures TotalCount(ix) == |Runs(input)|
  {
    ix := [];
    var buf: string := [];
    var i := 0;
    while i < |input| || |buf| > 0
      invariant 0 <= i <= |input|
      invariant IsBuffer(buf)
      invariant InsertAll(ix, ScanFrom(buf, input[i..])) == BuildIndex(input)
      decreases |input| - i, |buf|
    {
      ghost var unread := input[i..];
      ghost var before := InsertAll(ix, ScanFrom(buf, unread));
      var isAlpha := false;
      var c := ' ';
      if i < |input| {
        ScanFromStep(buf, unread);
        assert unread[0] == input[i] && unread[1..] == input[i + 1..];
        var checked := CheckAlpha(input[i]);
        isAlpha, c := checked.0, checked.1;
        i := i + 1;
      } else {
        // End of input is read as one more non-letter (the `|| curIndex > 0` arm).
        assert unread == [];
      }
      if !isAlpha && |buf| > 0 {
        assert ScanFrom(buf, unread) == [buf] + ScanFrom([], input[i..]);
        InsertAllCons(ix, buf, ScanFrom([], input[i..]));
        ix := InsertOrIncrement(ix, buf);
        buf := [];
        assert InsertAll(ix, ScanFrom(buf, input[i..])) == before;
      } else if !isAlpha {
        assert buf == [];
        assert ScanFrom(buf, unread) == [] + ScanFrom([], input[i..]);
        assert [] + ScanFrom([], input[i..]) == ScanFrom([], input[i..]);
        assert InsertAll(ix, ScanFrom(buf, input[i..])) == before;
      }
      if isAlpha {
        assert c == ToLower(unread[0]);
        assert ScanFrom(buf, unread) == ScanFrom(Accept(buf, c), input[i..]);
        if |buf| < MaxWordLen {
          buf := buf + [c];
        }
        assert InsertAll(ix, ScanFrom(buf, input[i..])) == before;
      }
    }
    assert input[i..] == [];
    BuildIndexFacts(input);
  }

  // ---------------------------------------------------------------------
  // What the index built from an input holds
  // ---------------------------------------------------------------------

  /** The index built from any input satisfies the invariants, records every
      scanned word once per occurrence, and its total is the number of
      maximal letter runs of the input. */
  lemma BuildIndexFacts(s: seq<char>)
    ensures Valid(BuildIndex(s))
    ensures Contents(BuildIndex(s)) == multiset(NormalizeAll(Runs(s)))
    ensures TotalCount(BuildIndex(s)) == |Runs(s)|
  {
    var ws := Scan(s);
    InsertAllKeepsValid([], ws);
    InsertAllContents([], ws);
    ScanIsNormalizedRuns(s);
    TotalIsSize(BuildIndex(s));
  }

  /** Buckets appear in the order their first letters first appear among the
      scanned words, and inside each bucket words appear in the order of
      their own first appearance. */
  lemma BuildIndexOrder(s: seq<char>)
    ensures Letters(BuildIndex(s)) == FirstSeen(Firsts(Scan(s)))
    ensures forall c :: BucketWords(BuildIndex(s), c) == FirstSeen(StartingWith(Scan(s), c))
  {
    InsertAllLetters([], Scan(s));
    forall c
      ensures BucketWords(BuildIndex(s), c) == FirstSeen(StartingWith(Scan(s), c))
    {
      InsertAllBucketWords([], Scan(s), c);
    }
  }

  /** Every occurrence an entry counts was emitted by the scanner. */
  lemma {:induction false} EntryInBag(es: seq<Entry>, k: nat)
    requires k < |es|
    ensures EntriesBag(es)[es[k].word] >= es[k].count
  {
    if k > 0 {
      EntryInBag(es[1..], k - 1);
    }
  }

  lemma {:induction false} EntryInContents(ix: Index, i: nat, k: nat)
    requires i < |ix| && k < |ix[i].entries|
    ensures Contents(ix)[ix[i].entries[k].word] >= ix[i].entries[k].count
  {
    if i == 0 {
      EntryInBag(ix[0].entries, k);
    } else {
      EntryInContents(ix[1..], i - 1, k);
    }
  }

  /** Every recorded word is 1 to MaxWordLen lower-case ASCII letters and
      was counted at least once. */
  lemma BuildIndexWords(s: seq<char>)
    ensures forall i, k :: 0 <= i < |BuildIndex(s)| && 0 <= k < |BuildIndex(s)[i].entries| ==>
      IsWord(BuildIndex(s)[i].entries[k].word) && BuildIndex(s)[i].entries[k].count >= 1
  {
    var ix := BuildIndex(s);
    BuildIndexFacts(s);
    InsertAllContents([], Scan(s));
    forall i, k | 0 <= i < |ix| && 0 <= k < |ix[i].entries|
      ensures IsWord(ix[i].entries[k].word) && ix[i].entries[k].count >= 1
    {
      assert ValidBucket(ix[i]);
      EntryInContents(ix, i, k);
      var w := ix[i].entries[k].word;
      assert w in multiset(Scan(s));
      var n :| 0 <= n < |Scan(s)| && Scan(s)[n] == w;
    }
  }

  // ---------------------------------------------------------------------
  // Boundary cases
  // ---------------------------------------------------------------------

  /** An empty input builds an empty index whose total is zero. */
  lemma EmptyInput()
    ensures BuildIndex([]) == []
    ensures TotalCount(BuildIndex([])) == 0
  {
  }

  /** Digits, punctuation and blanks alone record nothing. */
  lemma NoLetterEmptyIndex(s: seq<char>)
    requires forall i :: 0 <= i < |s| ==> !IsLetter(s[i])
    ensures BuildIndex(s) == []
  {
    NoLetterNoWord(s);
  }

  /** An input of digits, blanks and punctuation only records nothing. */
  lemma DigitsAndPunctuation()
    ensures BuildIndex("123 456, !!!") == []
  {
    NoLetterEmptyIndex("123 456, !!!");
  }

  /** A single over-long word is recorded once, cut to its first MaxWordLen
      letters, under the bucket of its first letter. */
  lemma LongWordIndex(r: seq<char>)
    requires AllLetters(r) && |r| > MaxWordLen
    ensures BuildIndex(r) == [Bucket(ToLower(r[0]), [Entry(LowerAll(r[..MaxWordLen]), 1)])]
  {
    LongRunTruncated(r);
    var w := LowerAll(r[..MaxWordLen]);
    assert w[0] == ToLower(r[0]);
    var ws: seq<string> := [w];
    assert ws[1..] == [];
    assert BuildIndex(r) == InsertAll(Insert([], w), ws[1..]);
  }
}
