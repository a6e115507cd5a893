/** The 27-symbol alphabet of the trie: 'a'..'z' in slots 0..25 and the
    space character in slot 26, so that short phrases can be stored. */
module Alphabet {

  /** Number of child slots of a node (CHAR_SIZE). */
  const CHAR_SIZE: nat := 27

  /** Character code of the space character (SPACE). */
  const SPACE: char := 32 as char

  /** Character code of the newline at which `insert` stops. */
  const NEWLINE: char := 10 as char

  predicate IsLetter(c: char) {
    'a' <= c <= 'z'
  }

  /** A character that has a slot of its own. */
  predicate IsSymbol(c: char) {
    IsLetter(c) || c == SPACE
  }

  predicate IsWord(s: string) {
    forall i :: 0 <= i < |s| ==> IsSymbol(s[i])
  }

  predicate IsLetterWord(s: string) {
    forall i :: 0 <= i < |s| ==> IsLetter(s[i])
  }

  /** The CHAR_TO_INDEX macro: the distance of `c` from 'a', which is a
      valid slot only for a lower-case letter. */
  function CharToIndex(c: char): (i: int)
    ensures IsLetter(c) <==> 0 <= i < 26
  {
    c as int - 'a' as int
  }

  /** Slot of a character as `insert` and `autoSuggest` compute it. */
  function SlotOf(c: char): (i: int)
    ensures IsSymbol(c) ==> 0 <= i < CHAR_SIZE
    ensures IsLetter(c) ==> i == CharToIndex(c)
  {
    if c == SPACE then 26 else CharToIndex(c)
  }

  /** Character that `recSuggest` appends when it descends into slot `i`. */
  function SymbolOf(i: nat): (c: char)
    requires i < CHAR_SIZE
    ensures IsSymbol(c) && SlotOf(c) == i
  {
    if i == 26 then SPACE else (97 + i) as char
  }

  /** The two mappings are inverse bijections between the alphabet and the
      slots 0..26. */
  lemma {:induction false} SlotSymbolInverse(c: char)
    requires IsSymbol(c)
    ensures 0 <= SlotOf(c) < CHAR_SIZE && SymbolOf(SlotOf(c)) == c
  {
  }

  lemma {:induction false} SlotInjective(c: char, d: char)
    requires IsSymbol(c) && IsSymbol(d) && SlotOf(c) == SlotOf(d)
    ensures c == d
  {
    SlotSymbolInverse(c);
    SlotSymbolInverse(d);
  }

  /** '{' follows 'z', so the index arithmetic of `insert`, `search` and
      `autoSuggest` sends it to slot 26, the slot of the space character,
      although it is not a symbol of the alphabet. */
  lemma {:induction false} BraceAliasesSpace()
    ensures !IsSymbol('{') && CharToIndex('{') == 26 && SlotOf(SPACE) == 26
  {
  }

  /** The part of a line that `insert` consumes: everything before the first
      newline. */
  function Truncate(s: string): (t: string)
    ensures t <= s && NEWLINE !in t
    ensures |t| < |s| ==> s[|t|] == NEWLINE
  {
    if s == [] then []
    else if s[0] == NEWLINE then []
    else [s[0]] + Truncate(s[1..])
  }

  /** A line that ends in a newline is consumed as the line without it,
      whatever follows the newline. */
  lemma {:induction false} TruncateAtNewline(w: string, rest: string)
    requires NEWLINE !in w
    ensures Truncate(w + [NEWLINE] + rest) == w
  {
    if w != [] {
      assert (w + [NEWLINE] + rest)[1..] == w[1..] + [NEWLINE] + rest;
      TruncateAtNewline(w[1..], rest);
    } else {
      assert (w + [NEWLINE] + rest)[0] == NEWLINE;
    }
  }

  lemma {:induction false} TruncateNoNewline(w: string)
    requires NEWLINE !in w
    ensures Truncate(w) == w
  {
    if w != [] {
      TruncateNoNewline(w[1..]);
    }
  }
}
