/**
 Character classification of the word counter: which input characters are
 word letters, and how a letter is brought to lower case (checkAlpha).
 */
module CharClass {

  /** Size of the word buffer, terminator included (WORD_MAX_SIZE). */
  const WordMaxSize: nat := 21

  /** Longest word the index ever records: one byte of the buffer is kept for the terminator. */
  const MaxWordLen: nat := WordMaxSize - 1

  predicate IsUpper(c: char) { 'A' <= c <= 'Z' }

  predicate IsLower(c: char) { 'a' <= c <= 'z' }

  /** Only the 52 ASCII letters are word characters; digits, punctuation and
      every non-ASCII character end a word. */
  predicate IsLetter(c: char) { IsUpper(c) || IsLower(c) }

  /** Reference lower-casing: moves A-Z onto a-z by the distance between the
      two alphabets and leaves every other character alone. */
  function ToLower(c: char): char
  {
    if IsUpper(c) then (c as int - 'A' as int + 'a' as int) as char else c
  }

  /** Bit 5 (value 0x20) of a non-negative code. */
  predicate CaseBitSet(code: nat)
  {
    (code / 0x20) % 2 == 1
  }

  /** The `|= 0x20` of checkAlpha on the code of an ASCII letter: OR-ing in
      the single bit 0x20 adds 0x20 when that bit is clear and changes
      nothing when it is set. On letters this lower-cases A-Z and leaves
      a-z as it is. */
  function SetCaseBit(code: nat): (r: nat)
    requires 65 <= code <= 90 || 97 <= code <= 122
    ensures r == if code <= 90 then code + 32 else code
  {
    if CaseBitSet(code) then code else code + 0x20
  }

  /** checkAlpha: reports whether c is an ASCII letter and, if it is, yields
      it with the case bit set; any other character comes back unchanged. */
  function CheckAlpha(c: char): (r: (bool, char))
    ensures r.0 <==> IsLetter(c)
    ensures r.0 ==> r.1 == ToLower(c) && IsLower(r.1)
    ensures !r.0 ==> r.1 == c
  {
    if ('a' <= c <= 'z') || ('A' <= c <= 'Z') then
      (true, SetCaseBit(c as int) as char)
    else
      (false, c)
  }
}
