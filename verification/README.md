# Word counter — a Dafny model

WordCounter.c reads a text file one character at a time and builds a
dictionary of the words it finds.

- **Words.** A word is a maximal run of the ASCII letters `A-Z`/`a-z`. It is
  lower-cased and cut to `WORD_MAX_SIZE - 1 = 20` letters. Any other
  character ends the word.
- **Index.** Each word goes into a two-level linked list:
  - one bucket per first letter, with buckets in the order their letters are
    first seen;
  - inside a bucket, one entry per distinct word, in the order the words are
    first seen, each with an occurrence count.
- **Report.** printDictionaryCount walks the index in that order and adds up
  all counts.

The model has four modules:

- `CharClass`: checkAlpha. The `|= 0x20` sets bit 0x20 of the character
  code: it adds 0x20 when that bit is clear and changes nothing when it is
  set. It is proved equal to a plain arithmetic lower-casing.
- `Scanner`: the scanning loop of buildDict.
  - `ScanFrom(buf, rest)` is the loop state: the letters buffered in
    `tempWord` and the unread input.
  - End of input acts as one more non-letter, which is the `|| curIndex > 0`
    arm of the loop condition.
  - Reference definition: `Runs(s)` is the maximal letter runs of `s`, and
    `Normalize` lower-cases a run and keeps its first 20 letters.
- `WordIndex`: the index as `seq<Bucket(letter, seq<Entry(word, count)>)>`.
  - `Insert` is the insert-or-increment step.
  - Abstractions stated about it:
    - `Contents`: the multiset of recorded occurrences;
    - `Letters` and `BucketWords`: bucket and word order;
    - `FirstSeen`: reference definition of first-appearance order.
  - The source compares `word_length` fields that count the `'\0'`
    terminator. Both sides count it, so that comparison is plain string
    equality, and that is how it is modelled.
- `Reporter`: printDictionaryCount as a list of printed items, plus the total.
- `WordCounter`: the imperative loops.
  - `InsertOrIncrement` and `BuildDict` walk the lists the way the C code
    does.
  - Their loop invariants tie them to the functional definitions.

## Model

| member | source | states |
|---|---|---|
| CharClass.SetCaseBit | WordCounter.c:81 | OR-ing 0x20 into the code of an ASCII letter adds 32 to A-Z and leaves a-z unchanged |
| CharClass.CheckAlpha | WordCounter.c:73-86 | true exactly for A-Z/a-z; when true, the character comes back as its lower-case letter; otherwise it comes back unchanged |
| Scanner.Accept | WordCounter.c:307-310 | appending a letter keeps the buffer within 20 lower-case letters; it extends the old buffer by at most one letter and is never empty afterwards |
| Scanner.Flush | WordCounter.c:146-150 | a non-empty buffer is emitted as one word; an empty buffer emits nothing |
| Scanner.ScanFrom | WordCounter.c:140-150 | every word the scanning loop emits is 1 to 20 lower-case letters |
| Scanner.RunsAreLetterRuns | WordCounter.c:14-15 | every word candidate of the input is a non-empty run of letters |
| Scanner.RunsKeepEveryLetter | WordCounter.c:14-15 | the runs, concatenated, are exactly the letters of the input: no letter is lost and no non-letter is included |
| Scanner.NormalizeSnoc | WordCounter.c:307-310 | adding one more letter of a run to the buffer gives the normalized longer run; letters past the twentieth are dropped |
| Scanner.ScanFromMatchesRuns | WordCounter.c:140-150 | starting from the normalized prefix of a run, the loop emits exactly the normalized maximal runs of the rest of the input |
| Scanner.ScanIsNormalizedRuns | WordCounter.c:140-150 | the scanner emits one word per maximal letter run, lower-cased and cut to 20 letters, in input order |
| Scanner.LongRunTruncated | WordCounter.c:307-310 | a run longer than 20 letters becomes a single word made of its first 20 letters, lower-cased; the dropped letters start no new word |
| Scanner.RunThenDelimiter | WordCounter.c:146-150 | a non-letter closes the current run, and scanning resumes afresh after it |
| Scanner.TrailingRunRecorded | WordCounter.c:140-142 | a run still open at end of input is emitted as the last word, with no delimiter needed after it |
| Scanner.NoLetterNoWord | WordCounter.c:146 | input without letters emits no word |
| WordIndex.InsertEntryWords | WordCounter.c:167-235 | inserting into a bucket leaves its word list unchanged when the word is present, and otherwise appends the word |
| WordIndex.InsertEntryBag | WordCounter.c:167-235 | inserting into a bucket adds exactly one occurrence of the word to what it counts |
| WordIndex.InsertLetters | WordCounter.c:161-301 | the bucket letters stay unchanged when the first letter has a bucket; otherwise the letter is appended at the end |
| WordIndex.InsertContents | WordCounter.c:158-302 | one insertion adds exactly one occurrence of the word to the index |
| WordIndex.InsertEntryFound | WordCounter.c:167-178 | when the first matching entry is at position j, only its count rises, by one |
| WordIndex.InsertEntryNotFound | WordCounter.c:190-233 | when the word is absent, (word, 1) is appended at the end of the bucket |
| WordIndex.InsertAtBucket | WordCounter.c:161-165 | the word goes into the first bucket whose letter matches; every other bucket is left as it was |
| WordIndex.InsertNoBucket | WordCounter.c:249-301 | when no bucket has the letter, a bucket holding only (word, 1) is appended after all buckets |
| WordIndex.InsertIncrementsExisting | WordCounter.c:161-178 | inserting a recorded word changes only that entry's count, by +1; no other bucket or entry changes |
| WordIndex.InsertAppendsToBucket | WordCounter.c:190-235 | inserting a new word under an existing letter appends (word, 1) to that bucket; nothing else changes |
| WordIndex.InsertKeepsValid | WordCounter.c:163-267 | insertion keeps bucket letters unique, words in a bucket unique, every word starting with its bucket's letter, and every count at least 1 |
| WordIndex.InsertEntryKeepsValid | WordCounter.c:169-235 | inserting into a bucket keeps its words unique and under its letter |
| WordIndex.InsertBucketWords | WordCounter.c:163-235 | the bucket for the word's first letter gains the word at its end when the word is new; every other letter's word list is unchanged |
| WordIndex.InsertAllContents | WordCounter.c:158-302 | inserting a sequence of words adds each of them exactly once per occurrence |
| WordIndex.InsertAllKeepsValid | WordCounter.c:158-302 | repeated insertion keeps the index invariants |
| WordIndex.InsertAllLetters | WordCounter.c:249-301 | the bucket letters come in the order the first letters are first seen |
| WordIndex.InsertAllBucketWords | WordCounter.c:190-235 | each bucket's words come in the order they are first seen |
| WordIndex.TotalIsSize | WordCounter.c:94-118 | the sum of all counts is the number of recorded occurrences |
| Reporter.ListingMatchesIndex | WordCounter.c:98-116 | the report shows one header per bucket, in bucket order, and the counts it prints add up to the index total |
| Reporter.PrintBucket | WordCounter.c:104-111 | the inner walk prints the bucket's entries in stored order and sums their counts into the number of occurrences they record |
| Reporter.PrintDictionaryCount | WordCounter.c:91-121 | the report lists the buckets and entries in stored order; the total equals the sum of counts, which is the number of recorded occurrences |
| WordCounter.InsertOrIncrement | WordCounter.c:158-302 | the linked-list walk (find bucket, find entry or tail, then increment or link) computes the functional insert |
| WordCounter.BuildDict | WordCounter.c:126-311 | the character loop builds the index of the scanned words; that index satisfies the invariants, and its total is the number of letter runs in the input |
| WordCounter.BuildIndexFacts | WordCounter.c:126-311 | for any input, the index satisfies the invariants, records exactly the normalized runs with their multiplicities, and its total is the number of runs |
| WordCounter.BuildIndexOrder | WordCounter.c:158-302 | buckets follow the first appearance of their letters, and words within a bucket follow their first appearance |
| WordCounter.BuildIndexWords | WordCounter.c:140-311 | every recorded word is 1 to 20 lower-case letters with a count of at least 1 |
| WordCounter.EmptyInput | WordCounter.c:140-142 | empty input gives an empty index with total 0 |
| WordCounter.NoLetterEmptyIndex | WordCounter.c:146 | input made only of non-letters records nothing |
| WordCounter.DigitsAndPunctuation | WordCounter.c:15 | digits, blanks and punctuation record nothing |
| WordCounter.LongWordIndex | WordCounter.c:18 | a single over-long word is recorded once, cut to 20 letters, in the bucket of its first letter |

## Left out

- File handling and the command line (`parseFile`, `main`, WordCounter.c:319-366): the input is a `seq<char>`, and its end is the end of the sequence.
- Wall-clock timing (WordCounter.c:332-340): it depends on the clock and uses floating point.
- The printf layout, including the unconditional "Similar word found" message (WordCounter.c:96-120, 173): the report is modelled as a sequence of header and row items plus the total.
- Allocation failure and `exit(-1)` (WordCounter.c:202-206, 261-275): allocation is treated as always succeeding.
- The `char`/`EOF` comparison (WordCounter.c:129, 140): with a signed `char`, a 0xFF byte read while the buffer is empty ends the input early, while one read with letters buffered only acts as a delimiter (checkAlpha rejects it, so the word is flushed) and reading goes on; with an unsigned `char`, the loop never ends. The model has no bytes, only characters, and every non-ASCII character is a non-letter.
- `unsigned long` wrap-around of counts and of the total: counts are unbounded `nat`.
- The DEBUG-only blocks (WordCounter.c:50-51, 134-138, 152-156, 196-200, 251-255): they are compiled out.
- Scanner.Accept: its contract bounds the new buffer but does not state the exact step. The exact step is stated by Scanner.NormalizeSnoc and Scanner.ScanFromStep, in terms of runs.
- Scanner.ScanFrom: its contract only states the shape of each word. The full meaning is stated by Scanner.ScanFromMatchesRuns.
