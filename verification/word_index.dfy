/**
 The two-level word index of buildDict: a list of first-letter buckets in the
 order their letters were first seen, each holding its words, with counts,
 in the order the words were first seen.

 The source keeps the word length plus one (the terminator is counted) in
 `word_length` and compares it with `curIndex` right after the terminator
 was stored, so both sides carry the same +1; together with the `strcmp`
 the test is plain string equality, which is what `e.word == w` says here.
 */
module WordIndex {

  datatype Entry = Entry(word: string, count: nat)

  datatype Bucket = Bucket(letter: char, entries: seq<Entry>)

  type Index = seq<Bucket>

  // ---------------------------------------------------------------------
  // Views of an index
  // ---------------------------------------------------------------------

  /** The words of a bucket, in stored order. */
  function WordsOf(es: seq<Entry>): seq<string>
  {
    if es == [] then [] else [es[0].word] + WordsOf(es[1..])
  }

  /** The bucket letters, in stored order. */
  function Letters(ix: Index): seq<char>
  {
    if ix == [] then [] else [ix[0].letter] + Letters(ix[1..])
  }

  /** The words of the first bucket for letter `c`; none if there is none. */
  function BucketWords(ix: Index, c: char): seq<string>
  {
    if ix == [] then []
    else if ix[0].letter == c then WordsOf(ix[0].entries)
    else BucketWords(ix[1..], c)
  }

  /** Each word as many times as its count says. */
  function EntriesBag(es: seq<Entry>): multiset<string>
  {
    if es == [] then multiset{}
    else multiset{}[es[0].word := es[0].count] + EntriesBag(es[1..])
  }

  /** Every occurrence the index has recorded, over all buckets. */
  function Contents(ix: Index): multiset<string>
  {
    if ix == [] then multiset{} else EntriesBag(ix[0].entries) + Contents(ix[1..])
  }

  function SumCounts(es: seq<Entry>): nat
  {
    if es == [] then 0 else es[0].count + SumCounts(es[1..])
  }

  /** Sum of all counts: the total printDictionaryCount accumulates. */
  function TotalCount(ix: Index): nat
  {
    if ix == [] then 0 else SumCounts(ix[0].entries) + TotalCount(ix[1..])
  }

  predicate Distinct<T(==)>(xs: seq<T>)
  {
    forall i, j :: 0 <= i < j < |xs| ==> xs[i] != xs[j]
  }

  /** Words unique within the bucket, all non-empty, all starting with the
      bucket's letter, all seen at least once. */
  predicate ValidBucket(b: Bucket)
  {
    Distinct(WordsOf(b.entries)) && EntriesUnder(b.entries, b.letter)
  }

  /** Every entry holds a non-empty word starting with `c`, seen at least once. */
  predicate EntriesUnder(es: seq<Entry>, c: char)
  {
    forall k :: 0 <= k < |es| ==> es[k].word != [] && es[k].word[0] == c && es[k].count >= 1
  }

  /** The invariants of the index: bucket letters unique, every bucket valid. */
  predicate Valid(ix: Index)
  {
    && Distinct(Letters(ix))
    && forall k :: 0 <= k < |ix| ==> ValidBucket(ix[k])
  }

  // ---------------------------------------------------------------------
  // Insert-or-increment
  // ---------------------------------------------------------------------

  /** The inner loop of buildDict over one bucket: the first entry holding
      `w` has its count raised; when the walk reaches the tail without a
      match, `(w, 1)` is linked after it. */
  function InsertEntry(es: seq<Entry>, w: string): seq<Entry>
  {
    if es == [] then [Entry(w, 1)]
    else if es[0].word == w then [Entry(w, es[0].count + 1)] + es[1..]
    else [es[0]] + InsertEntry(es[1..], w)
  }

  /** The outer loop of buildDict: the first bucket for `w[0]` takes the word;
      when no bucket has that letter a new bucket holding `(w, 1)` is linked
      after the last one. */
  function Insert(ix: Index, w: string): Index
    requires w != []
  {
    if ix == [] then [Bucket(w[0], [Entry(w, 1)])]
    else if ix[0].letter == w[0] then
      [Bucket(ix[0].letter, InsertEntry(ix[0].entries, w))] + ix[1..]
    else
      [ix[0]] + Insert(ix[1..], w)
  }

  /** Words handed to the index one after another, as buildDict does with
      every word the scanner completes. */
  function InsertAll(ix: Index, ws: seq<string>): Index
    requires forall k :: 0 <= k < |ws| ==> ws[k] != []
    decreases |ws|
  {
    if ws == [] then ix else InsertAll(Insert(ix, ws[0]), ws[1..])
  }

  lemma InsertAllCons(ix: Index, w: string, ws: seq<string>)
    requires w != [] && forall k :: 0 <= k < |ws| ==> ws[k] != []
    ensures InsertAll(ix, [w] + ws) == InsertAll(Insert(ix, w), ws)
  {
    assert ([w] + ws)[0] == w && ([w] + ws)[1..] == ws;
  }

  // ---------------------------------------------------------------------
  // Reference for the order of first appearance
  // ---------------------------------------------------------------------

  /** `acc` followed by the elements of `xs` not seen before, each once, in
      the order of their first appearance. */
  function DedupOnto<T(==)>(acc: seq<T>, xs: seq<T>): seq<T>
    decreases |xs|
  {
    if xs == [] then acc
    else DedupOnto(if xs[0] in acc then acc else acc + [xs[0]], xs[1..])
  }

  function FirstSeen<T(==)>(xs: seq<T>): seq<T>
  {
    DedupOnto([], xs)
  }

  /** First-seen order keeps each element once and loses none. */
  lemma {:induction false} DedupOntoSound<T>(acc: seq<T>, xs: seq<T>)
    requires Distinct(acc)
    ensures Distinct(DedupOnto(acc, xs))
    ensures forall x :: x in DedupOnto(acc, xs) <==> x in acc || x in xs
    decreases |xs|
  {
    if xs != [] {
      var acc' := if xs[0] in acc then acc else acc + [xs[0]];
      DedupOntoSound(acc', xs[1..]);
      assert xs == [xs[0]] + xs[1..];
    }
  }

  function Firsts(ws: seq<string>): seq<char>
    requires forall k :: 0 <= k < |ws| ==> ws[k] != []
  {
    seq(|ws|, k requires 0 <= k < |ws| => ws[k][0])
  }

  /** The words of `ws` that start with `c`, in order. */
  function StartingWith(ws: seq<string>, c: char): seq<string>
  {
    if ws == [] then []
    else if ws[0] != [] && ws[0][0] == c then [ws[0]] + StartingWith(ws[1..], c)
    else StartingWith(ws[1..], c)
  }

  // ---------------------------------------------------------------------
  // What one insertion does
  // ---------------------------------------------------------------------

  /** The words of a bucket after an insertion: unchanged when the word was
      there, the word appended when it was not. */
  lemma {:induction false} InsertEntryWords(es: seq<Entry>, w: string)
    ensures WordsOf(InsertEntry(es, w)) ==
      if w in WordsOf(es) then WordsOf(es) else WordsOf(es) + [w]
  {
    if es != [] && es[0].word != w {
      InsertEntryWords(es[1..], w);
      assert InsertEntry(es, w) == [es[0]] + InsertEntry(es[1..], w);
    }
  }

  /** A bucket records one more occurrence of the inserted word, and no other
      change in what it counts. */
  lemma {:induction false} InsertEntryBag(es: seq<Entry>, w: string)
    ensures EntriesBag(InsertEntry(es, w)) == EntriesBag(es) + multiset{w}
  {
    if es == [] {
      assert multiset{}[w := 1] == multiset{w};
    } else if es[0].word == w {
      assert multiset{}[w := es[0].count + 1] == multiset{}[w := es[0].count] + multiset{w};
      assert InsertEntry(es, w)[1..] == es[1..];
    } else {
      InsertEntryBag(es[1..], w);
      assert InsertEntry(es, w) == [es[0]] + InsertEntry(es[1..], w);
    }
  }

  /** Bucket letters after an insertion: unchanged when `w[0]` had a bucket,
      `w[0]` appended when it had none. */
  lemma {:induction false} InsertLetters(ix: Index, w: string)
    requires w != []
    ensures Letters(Insert(ix, w)) ==
      if w[0] in Letters(ix) then Letters(ix) else Letters(ix) + [w[0]]
  {
    if ix != [] && ix[0].letter != w[0] {
      InsertLetters(ix[1..], w);
      assert Insert(ix, w) == [ix[0]] + Insert(ix[1..], w);
    } else if ix != [] {
      assert Insert(ix, w)[1..] == ix[1..];
    }
  }

  /** The index records one more occurrence of the inserted word, and no
      other change in what it counts. */
  lemma {:induction false} InsertContents(ix: Index, w: string)
    requires w != []
    ensures Contents(Insert(ix, w)) == Contents(ix) + multiset{w}
  {
    if ix == [] {
      InsertEntryBag([], w);
      assert Insert(ix, w)[1..] == [];
    } else if ix[0].letter == w[0] {
      InsertEntryBag(ix[0].entries, w);
      assert Insert(ix, w)[1..] == ix[1..];
    } else {
      InsertContents(ix[1..], w);
      assert Insert(ix, w) == [ix[0]] + Insert(ix[1..], w);
    }
  }

  lemma {:induction false} InsertEntryFound(es: seq<Entry>, w: string, j: nat)
    requires j < |es| && es[j].word == w
    requires forall m :: 0 <= m < j ==> es[m].word != w
    ensures InsertEntry(es, w) == es[j := Entry(w, es[j].count + 1)]
    decreases j
  {
    var r := es[j := Entry(w, es[j].count + 1)];
    if j == 0 {
      assert InsertEntry(es, w) == [Entry(w, es[0].count + 1)] + es[1..];
      assert r == [Entry(w, es[0].count + 1)] + es[1..];
    } else {
      InsertEntryFound(es[1..], w, j - 1);
      assert InsertEntry(es, w) == [es[0]] + InsertEntry(es[1..], w);
      assert r == [es[0]] + es[1..][j - 1 := Entry(w, es[j].count + 1)];
    }
  }

  lemma {:induction false} InsertEntryNotFound(es: seq<Entry>, w: string)
    requires w !in WordsOf(es)
    ensures InsertEntry(es, w) == es + [Entry(w, 1)]
  {
    if es != [] {
      assert es[0].word == WordsOf(es)[0];
      assert WordsOf(es[1..]) == WordsOf(es)[1..];
      InsertEntryNotFound(es[1..], w);
    }
  }

  lemma {:induction false} InsertAtBucket(ix: Index, w: string, i: nat)
    requires w != []
    requires i < |ix| && ix[i].letter == w[0]
    requires forall k :: 0 <= k < i ==> ix[k].letter != w[0]
    ensures Insert(ix, w) == ix[i := Bucket(w[0], InsertEntry(ix[i].entries, w))]
    decreases i
  {
    if i > 0 {
      InsertAtBucket(ix[1..], w, i - 1);
    }
  }

  /** A word whose letter has no bucket: a bucket holding just `(w, 1)` is
      appended after all existing buckets, which stay as they were. */
  lemma {:induction false} InsertNoBucket(ix: Index, w: string)
    requires w != [] && w[0] !in Letters(ix)
    ensures Insert(ix, w) == ix + [Bucket(w[0], [Entry(w, 1)])]
  {
    if ix != [] {
      assert ix[0].letter == Letters(ix)[0];
      assert Letters(ix[1..]) == Letters(ix)[1..];
      InsertNoBucket(ix[1..], w);
    }
  }

  /** A word already in the index: only its count changes, by one; every
      other entry and every other bucket stays as it was. */
  lemma InsertIncrementsExisting(ix: Index, w: string, i: nat, j: nat)
    requires w != []
    requires i < |ix| && ix[i].letter == w[0]
    requires forall k :: 0 <= k < i ==> ix[k].letter != w[0]
    requires j < |ix[i].entries| && ix[i].entries[j].word == w
    requires forall m :: 0 <= m < j ==> ix[i].entries[m].word != w
    ensures Insert(ix, w) ==
      ix[i := Bucket(w[0], ix[i].entries[j := Entry(w, ix[i].entries[j].count + 1)])]
  {
    InsertAtBucket(ix, w, i);
    InsertEntryFound(ix[i].entries, w, j);
  }

  /** A new word whose letter has a bucket: `(w, 1)` goes to the end of that
      bucket, nothing else changes. */
  lemma InsertAppendsToBucket(ix: Index, w: string, i: nat)
    requires w != []
    requires i < |ix| && ix[i].letter == w[0]
    requires forall k :: 0 <= k < i ==> ix[k].letter != w[0]
    requires w !in WordsOf(ix[i].entries)
    ensures Insert(ix, w) == ix[i := Bucket(w[0], ix[i].entries + [Entry(w, 1)])]
  {
    InsertAtBucket(ix, w, i);
    InsertEntryNotFound(ix[i].entries, w);
  }

  lemma {:induction false} WordsOfAt(es: seq<Entry>)
    ensures |WordsOf(es)| == |es|
    ensures forall k :: 0 <= k < |es| ==> WordsOf(es)[k] == es[k].word
  {
    if es != [] {
      WordsOfAt(es[1..]);
    }
  }

  lemma {:induction false} LettersAt(ix: Index)
    ensures |Letters(ix)| == |ix|
    ensures forall k :: 0 <= k < |ix| ==> Letters(ix)[k] == ix[k].letter
  {
    if ix != [] {
      LettersAt(ix[1..]);
    }
  }

  lemma DistinctSnoc<T>(xs: seq<T>, x: T)
    requires Distinct(xs) && x !in xs
    ensures Distinct(xs + [x])
  {
  }

  /** Insertion keeps the index invariants. */
  lemma {:induction false} InsertKeepsValid(ix: Index, w: string)
    requires Valid(ix) && w != []
    ensures Valid(Insert(ix, w))
  {
    InsertLetters(ix, w);
    if w[0] !in Letters(ix) {
      DistinctSnoc(Letters(ix), w[0]);
    }
    InsertKeepsBuckets(ix, w);
  }

  lemma {:induction false} InsertKeepsBuckets(ix: Index, w: string)
    requires w != []
    requires forall k :: 0 <= k < |ix| ==> ValidBucket(ix[k])
    ensures forall k :: 0 <= k < |Insert(ix, w)| ==> ValidBucket(Insert(ix, w)[k])
  {
    var r := Insert(ix, w);
    if ix == [] {
      assert ValidBucket(r[0]);
    } else if ix[0].letter == w[0] {
      InsertEntryKeepsValid(ix[0], w);
      assert r[0] == Bucket(ix[0].letter, InsertEntry(ix[0].entries, w));
      assert forall k :: 1 <= k < |r| ==> r[k] == ix[k];
    } else {
      InsertKeepsBuckets(ix[1..], w);
      assert r == [ix[0]] + Insert(ix[1..], w);
    }
  }

  lemma InsertEntryKeepsValid(b: Bucket, w: string)
    requires ValidBucket(b) && w != [] && w[0] == b.letter
    ensures ValidBucket(Bucket(b.letter, InsertEntry(b.entries, w)))
  {
    InsertEntryWords(b.entries, w);
    if w !in WordsOf(b.entries) {
      DistinctSnoc(WordsOf(b.entries), w);
    }
    InsertEntryUnder(b.entries, w, b.letter);
  }

  lemma {:induction false} InsertEntryUnder(es: seq<Entry>, w: string, c: char)
    requires EntriesUnder(es, c) && w != [] && w[0] == c
    ensures EntriesUnder(InsertEntry(es, w), c)
  {
    var r := InsertEntry(es, w);
    if es == [] {
    } else if es[0].word == w {
      assert forall k :: 1 <= k < |r| ==> r[k] == es[k];
    } else {
      InsertEntryUnder(es[1..], w, c);
      assert r == [es[0]] + InsertEntry(es[1..], w);
    }
  }

  /** Which words the bucket for `c` holds after an insertion, in order. */
  lemma {:induction false} InsertBucketWords(ix: Index, w: string, c: char)
    requires w != []
    ensures BucketWords(Insert(ix, w), c) ==
      if w[0] == c && w !in BucketWords(ix, c) then BucketWords(ix, c) + [w] else BucketWords(ix, c)
  {
    var r := Insert(ix, w);
    if ix == [] {
      assert r[0].letter == w[0] && r[0].entries == [Entry(w, 1)];
      assert r[1..] == [];
      assert WordsOf([Entry(w, 1)]) == [w] + WordsOf([]);
      assert BucketWords(r, c) == if c == w[0] then [w] else BucketWords([], c);
    } else if ix[0].letter != w[0] {
      InsertBucketWords(ix[1..], w, c);
      assert r[0] == ix[0] && r[1..] == Insert(ix[1..], w);
    } else {
      InsertEntryWords(ix[0].entries, w);
      assert r[0].letter == w[0] && r[0].entries == InsertEntry(ix[0].entries, w);
      assert r[1..] == ix[1..];
    }
  }

  // ---------------------------------------------------------------------
  // What a sequence of insertions builds
  // ---------------------------------------------------------------------

  /** Every inserted word is recorded once more: nothing is lost or invented. */
  lemma {:induction false} InsertAllContents(ix: Index, ws: seq<string>)
    requires forall k :: 0 <= k < |ws| ==> ws[k] != []
    ensures Contents(InsertAll(ix, ws)) == Contents(ix) + multiset(ws)
    decreases |ws|
  {
    if ws != [] {
      InsertContents(ix, ws[0]);
      InsertAllContents(Insert(ix, ws[0]), ws[1..]);
      assert ws == [ws[0]] + ws[1..];
    }
  }

  lemma {:induction false} InsertAllKeepsValid(ix: Index, ws: seq<string>)
    requires forall k :: 0 <= k < |ws| ==> ws[k] != []
    requires Valid(ix)
    ensures Valid(InsertAll(ix, ws))
    decreases |ws|
  {
    if ws != [] {
      InsertKeepsValid(ix, ws[0]);
      InsertAllKeepsValid(Insert(ix, ws[0]), ws[1..]);
    }
  }

  /** Buckets come in the order their first letters were first seen. */
  lemma {:induction false} InsertAllLetters(ix: Index, ws: seq<string>)
    requires forall k :: 0 <= k < |ws| ==> ws[k] != []
    ensures Letters(InsertAll(ix, ws)) == DedupOnto(Letters(ix), Firsts(ws))
    decreases |ws|
  {
    if ws != [] {
      var ix' := Insert(ix, ws[0]);
      InsertLetters(ix, ws[0]);
      InsertAllLetters(ix', ws[1..]);
      FirstsCons(ws);
      assert Letters(ix') == if ws[0][0] in Letters(ix) then Letters(ix) else Letters(ix) + [ws[0][0]];
      assert InsertAll(ix, ws) == InsertAll(ix', ws[1..]);
    }
  }

  lemma FirstsCons(ws: seq<string>)
    requires ws != [] && forall k :: 0 <= k < |ws| ==> ws[k] != []
    ensures Firsts(ws)[0] == ws[0][0]
    ensures Firsts(ws)[1..] == Firsts(ws[1..])
  {
  }

  /** Within the bucket for `c`, words come in the order they were first seen. */
  lemma {:induction false} InsertAllBucketWords(ix: Index, ws: seq<string>, c: char)
    requires forall k :: 0 <= k < |ws| ==> ws[k] != []
    ensures BucketWords(InsertAll(ix, ws), c) == DedupOnto(BucketWords(ix, c), StartingWith(ws, c))
    decreases |ws|
  {
    if ws != [] {
      InsertBucketWords(ix, ws[0], c);
      InsertAllBucketWords(Insert(ix, ws[0]), ws[1..], c);
    }
  }

  lemma {:induction false} SumCountsIsSize(es: seq<Entry>)
    ensures SumCounts(es) == |EntriesBag(es)|
  {
    if es != [] {
      SumCountsIsSize(es[1..]);
    }
  }

  /** The total of all counts is the number of occurrences recorded. */
  lemma {:induction false} TotalIsSize(ix: Index)
    ensures TotalCount(ix) == |Contents(ix)|
  {
    if ix != [] {
      SumCountsIsSize(ix[0].entries);
      TotalIsSize(ix[1..]);
    }
  }
}
