/**
 printDictionaryCount: the walk over the finished index that lists every
 bucket and every word, and the running total of all counts. The printf
 layout itself is not modelled; each printed item becomes one `Line`.
 */
module Reporter {
  import opened WordIndex

  /** What the report prints per item: a bucket header, or a word with its count. */
  datatype Line = Header(letter: char) | Row(word: string, count: nat)

  function Rows(es: seq<Entry>): seq<Line>
  {
    if es == [] then [] else [Row(es[0].word, es[0].count)] + Rows(es[1..])
  }

  /** The report order: buckets as stored, each header followed by that
      bucket's entries as stored. */
  function Listing(ix: Index): seq<Line>
  {
    if ix == [] then [] else [Header(ix[0].letter)] + Rows(ix[0].entries) + Listing(ix[1..])
  }

  /** The letters announced by the header lines, in order. */
  function HeaderLetters(lines: seq<Line>): seq<char>
  {
    if lines == [] then []
    else if lines[0].Header? then [lines[0].letter] + HeaderLetters(lines[1..])
    else HeaderLetters(lines[1..])
  }

  /** The counts printed on the word lines, added up. */
  function RowTotal(lines: seq<Line>): nat
  {
    if lines == [] then 0
    else if lines[0].Row? then lines[0].count + RowTotal(lines[1..])
    else RowTotal(lines[1..])
  }

  lemma {:induction false} HeaderLettersAppend(a: seq<Line>, b: seq<Line>)
    ensures HeaderLetters(a + b) == HeaderLetters(a) + HeaderLetters(b)
  {
    if a != [] {
      assert (a + b)[1..] == a[1..] + b;
      HeaderLettersAppend(a[1..], b);
    } else {
      assert a + b == b;
    }
  }

  lemma {:induction false} RowTotalAppend(a: seq<Line>, b: seq<Line>)
    ensures RowTotal(a + b) == RowTotal(a) + RowTotal(b)
  {
    if a != [] {
      assert (a + b)[1..] == a[1..] + b;
      RowTotalAppend(a[1..], b);
    } else {
      assert a + b == b;
    }
  }

  lemma {:induction false} RowsFacts(es: seq<Entry>)
    ensures HeaderLetters(Rows(es)) == []
    ensures RowTotal(Rows(es)) == SumCounts(es)
  {
    if es != [] {
      RowsFacts(es[1..]);
      HeaderLettersAppend([Row(es[0].word, es[0].count)], Rows(es[1..]));
      RowTotalAppend([Row(es[0].word, es[0].count)], Rows(es[1..]));
    }
  }

  /** The report names each bucket once, in stored order, and the counts it
      prints add up to the total of the index. */
  lemma {:induction false} ListingMatchesIndex(ix: Index)
    ensures HeaderLetters(Listing(ix)) == Letters(ix)
    ensures RowTotal(Listing(ix)) == TotalCount(ix)
  {
    if ix != [] {
      ListingMatchesIndex(ix[1..]);
      RowsFacts(ix[0].entries);
      var h := [Header(ix[0].letter)];
      HeaderLettersAppend(h, Rows(ix[0].entries));
      HeaderLettersAppend(h + Rows(ix[0].entries), Listing(ix[1..]));
      RowTotalAppend(h, Rows(ix[0].entries));
      RowTotalAppend(h + Rows(ix[0].entries), Listing(ix[1..]));
    }
  }

  /** The inner walk of printDictionaryCount over one bucket: one line per
      entry, in stored order, and the sum of their counts. */
  method PrintBucket(es: seq<Entry>) returns (lines: seq<Line>, sum: nat)
    ensures lines == Rows(es)
    ensures sum == SumCounts(es) == |EntriesBag(es)|
  {
    lines := [];
    sum := 0;
    var j := 0;
    while j < |es|
      invariant 0 <= j <= |es|
      invariant lines + Rows(es[j..]) == Rows(es)
      invariant sum + SumCounts(es[j..]) == SumCounts(es)
    {
      assert es[j..][0] == es[j] && es[j..][1..] == es[j + 1..];
      lines := lines + [Row(es[j].word, es[j].count)];
      sum := sum + es[j].count;
      j := j + 1;
    }
    assert es[j..] == [];
    SumCountsIsSize(es);
  }

  /** printDictionaryCount: walks the buckets in stored order, prints each
      header followed by the bucket's entries, and adds every count to the
      total, which is the number of occurrences the index recorded. */
  method PrintDictionaryCount(ix: Index) returns (lines: seq<Line>, total: nat)
    ensures lines == Listing(ix)
    ensures total == TotalCount(ix) == |Contents(ix)|
  {
    lines := [];
    total := 0;
    var i := 0;
    while i < |ix|
      invariant 0 <= i <= |ix|
      invariant lines + Listing(ix[i..]) == Listing(ix)
      invariant total + TotalCount(ix[i..]) == TotalCount(ix)
    {
      assert ix[i..][0] == ix[i] && ix[i..][1..] == ix[i + 1..];
      var rows, sum := PrintBucket(ix[i].entries);
      lines := lines + [Header(ix[i].letter)] + rows;
      total := total + sum;
      i := i + 1;
    }
    assert ix[i..] == [];
    TotalIsSize(ix);
  }
}
