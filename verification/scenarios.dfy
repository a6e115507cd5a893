/** Clients of the trie engine that rely on its contracts alone. */
module TrieScenarios {
  import opened Alphabet
  import opened TrieEngine

  /** After a word is inserted, searching for it succeeds, whatever the
      trie held before. */
  method InsertThenSearch(t: Trie, s: string) returns (found: bool)
    requires t.Valid() && IsLetterWord(s)
    modifies t
    ensures t.Valid() && found
  {
    TruncateNoNewline(s);
    t.Insert(s);
    found := t.Search(s);
  }

  /** A line read with its newline is stored as the line without it. */
  method InsertLine(t: Trie, w: string) returns (found: bool)
    requires t.Valid() && IsLetterWord(w)
    modifies t
    ensures t.Valid() && found
  {
    TruncateAtNewline(w, []);
    assert w + [NEWLINE] + [] == w + [NEWLINE];
    t.Insert(w + [NEWLINE]);
    found := t.Search(w);
  }
}
