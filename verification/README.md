# Trie autosuggest engine, modelled in Dafny

The program keeps a dictionary and a music library (albums, songs,
artists) in tries of 27-way nodes. There is one slot for each lower-case
letter and one for the space character, so a trie can also store short
phrases. The core is the trie engine in `DSA_PROJ_FINAL.cpp`:

- `getNewTrieNode` allocates an empty node.
- `insert` stores a line up to its first newline, allocating missing nodes
  along the path.
- `search` reports whether a word was stored.
- `haveChildren` tells whether a node has any child.
- `recSuggest` prints every stored string below a node, depth first,
  visiting the slots in ascending order.
- `autoSuggest` walks a prefix and answers `0` (the prefix falls off the
  trie), `-1` (the prefix is a word and nothing extends it; the prefix is
  printed alone) or `1` (the suggestions below the prefix are printed).

The model is imperative where the source is. A `Trie` object owns the
malloc'd nodes as an arena `nodes: seq<Node>`. A pointer is `Null` or
`Ref(index)`, allocation appends to the arena, and node 0 is the root.
`insert`, `search`, `haveChildren`, `getNewTrieNode`, `recSuggest` and
`autoSuggest` are methods with the source's loops and recursion. Each is
proved against a pure function of the arena:

- `InsertFrom` / `Inserted` specifies `insert`.
- `Walk` / `Accepts` specifies `search`.
- `Enumerate` specifies `recSuggest`.
- `Suggest` specifies `autoSuggest`.

Lemmas prove what these functions mean in terms of the set of stored words
`Words`. What `recSuggest` and `autoSuggest` print comes back as a sequence
of strings, one per printed line, without the leading tab.

Modules, in dependency order:

- `Alphabet` (`alphabet.dfy`): the 27 symbols, `CHAR_TO_INDEX`, the slot
  mapping and the newline cut-off of `insert`.
- `SymbolOrder` (`order.dfy`): the order in which suggestions come out.
  It is lexicographic under the slot order, so the space character sorts
  after 'z' and a prefix sorts before its extensions. The module proves this
  is a strict total order and that a strictly sorted list is determined by
  its elements.
- `TrieNodes` (`nodes.dfy`): nodes, the arena, walks, and the invariant.
  The invariant says there is no sharing (a labelling of every node by its
  root path) and no dead leaves (every node other than the root is an end
  of word or has a child).
- `TrieInsertion` (`insertion.dfy`): what `insert` does to the arena, and
  what it preserves.
- `TrieEnumeration` (`enumeration.dfy`): what `recSuggest` prints and what
  `autoSuggest` answers.
- `TrieEngine` (`trie.dfy`): the `Trie` class and its methods.
- `TrieScenarios` (`scenarios.dfy`): two small clients that rely on the
  contracts alone.

Two details of the program shape the contracts:

- For the empty prefix the walk never falls off, so `autoSuggest("")`
  never answers 0. On an empty trie it returns 1 and prints nothing
  (lines 188-194). The property "code 0 exactly when no word starts with
  the prefix" is therefore stated for non-empty prefixes.
- `search` computes `*str - 'a'` (the arithmetic of `CHAR_TO_INDEX`) with
  no space case (line 85). So it is modelled for letter-only strings,
  while `insert` and `autoSuggest` also accept spaces.

## Model

| member | source | states |
|---|---|---|
| Alphabet.CharToIndex | DSA_PROJ_FINAL.cpp:12 | the index is a valid letter slot 0..25 exactly when the character is a lower-case letter |
| Alphabet.SlotOf | DSA_PROJ_FINAL.cpp:50-54 | every alphabet symbol gets a slot in 0..26, and a letter gets its `CHAR_TO_INDEX` slot |
| Alphabet.SymbolOf | DSA_PROJ_FINAL.cpp:133-136 | the character pushed for slot i is an alphabet symbol whose slot is i |
| Alphabet.SlotSymbolInverse | DSA_PROJ_FINAL.cpp:133-136 | taking a symbol's slot and then that slot's character gives the symbol back |
| Alphabet.SlotInjective | DSA_PROJ_FINAL.cpp:50-54 | two symbols with the same slot are the same symbol |
| Alphabet.BraceAliasesSpace | DSA_PROJ_FINAL.cpp:54 | '{' is not in the alphabet, yet the index arithmetic gives it 26, the slot of the space character |
| Alphabet.Truncate | DSA_PROJ_FINAL.cpp:43-48 | the consumed part of a line is a prefix of it with no newline, and it stops only at a newline |
| Alphabet.TruncateAtNewline | DSA_PROJ_FINAL.cpp:45-48 | a line `w` + newline + anything is stored as `w` |
| Alphabet.TruncateNoNewline | DSA_PROJ_FINAL.cpp:43-48 | a string without a newline is consumed whole |
| SymbolOrder.PrecedesIrreflexive | DSA_PROJ_FINAL.cpp:127-142 | no string comes before itself in the output order |
| SymbolOrder.PrecedesTransitive | DSA_PROJ_FINAL.cpp:127-142 | the output order is transitive on words |
| SymbolOrder.PrecedesTotal | DSA_PROJ_FINAL.cpp:127-142 | of two different words, one comes first |
| SymbolOrder.PrecedesCommonPrefix | DSA_PROJ_FINAL.cpp:133-138 | putting the same prefix in front of two strings does not change their order |
| SymbolOrder.SortedUnique | DSA_PROJ_FINAL.cpp:127-142 | two strictly sorted lists of words with the same elements are equal |
| TrieNodes.Walk | DSA_PROJ_FINAL.cpp:81-93 | a walk ends inside the arena, strictly below its start when it moved |
| TrieNodes.WalkAppend | DSA_PROJ_FINAL.cpp:81-93 | walking `x + y` is walking `x`, then `y` from where `x` ended |
| TrieNodes.AcceptsAppend | DSA_PROJ_FINAL.cpp:81-98 | `x + y` is accepted from the root exactly when `x` reaches a node that accepts `y` |
| TrieNodes.WalkIsWord | DSA_PROJ_FINAL.cpp:81-93 | a string whose walk stays on the trie is spelled in the 27-symbol alphabet |
| TrieNodes.WalkLabel | DSA_PROJ_FINAL.cpp:62 | in a labelled arena, the node a walk reaches is labelled with the start's label followed by the string walked |
| TrieNodes.WalkUnique | DSA_PROJ_FINAL.cpp:57-58 | in a tree, two strings that reach the same node are equal |
| TrieNodes.LiveNode | DSA_PROJ_FINAL.cpp:69 | with no dead leaves, some word lies below every non-root node |
| TrieNodes.SameShapeWalk | DSA_PROJ_FINAL.cpp:69 | changing only end-of-word flags does not change any walk |
| TrieInsertion.Link | DSA_PROJ_FINAL.cpp:57-58 | allocating and hanging a node keeps the arena well formed: one node more, the slot points to it, and it is empty |
| TrieInsertion.InsertFrom | DSA_PROJ_FINAL.cpp:39-70 | inserting below a node keeps the arena well formed and never shrinks it |
| TrieInsertion.InsertFromStep | DSA_PROJ_FINAL.cpp:50-65 | one iteration of the insertion loop: allocate when the slot is empty, then descend |
| TrieInsertion.LinkWalk | DSA_PROJ_FINAL.cpp:57-58 | after linking a fresh node, a walk that reached a node still reaches it, and one that fell off now falls off or ends at the fresh node |
| TrieInsertion.LinkAccepts | DSA_PROJ_FINAL.cpp:57-58 | linking a fresh node adds no word |
| TrieInsertion.MarkAccepts | DSA_PROJ_FINAL.cpp:69 | setting the end flag of a node adds exactly the strings that reach that node |
| TrieInsertion.MarkKeepsTree | DSA_PROJ_FINAL.cpp:69 | marking the node reached by its label keeps the labelling, clears the one dead leaf and adds only that label as a word |
| TrieInsertion.LinkKeepsTree | DSA_PROJ_FINAL.cpp:57-58 | linking a fresh node extends the labelling, the root reaches the fresh node by its label, and the one permitted dead leaf moves to it |
| TrieInsertion.InsertFromWords | DSA_PROJ_FINAL.cpp:39-70 | inserting `w` below a labelled node keeps a tree without dead leaves and adds exactly the word label + `w` |
| TrieInsertion.InsertedWords | DSA_PROJ_FINAL.cpp:39-70 | after `insert(w)` the trie invariant holds, and the words are the old words plus `w` |
| TrieInsertion.InsertFromGrows | DSA_PROJ_FINAL.cpp:57-69 | insertion never removes a node, clears an end flag or overwrites a filled slot |
| TrieInsertion.InsertFromPresent | DSA_PROJ_FINAL.cpp:57-69 | inserting a word that is already accepted leaves the arena unchanged |
| TrieInsertion.InsertIdempotent | DSA_PROJ_FINAL.cpp:39-70 | inserting the same word twice gives the same arena as inserting it once |
| TrieEnumeration.EnumerateMembers | DSA_PROJ_FINAL.cpp:114-143 | `recSuggest` lists exactly the strings accepted below the node |
| TrieEnumeration.SlotsMembers | DSA_PROJ_FINAL.cpp:127-142 | the children in slots 0..k-1 contribute exactly the accepted strings whose first symbol has a slot below k |
| TrieEnumeration.SlotMembers | DSA_PROJ_FINAL.cpp:129-141 | slot j contributes exactly the accepted strings whose first symbol has slot j |
| TrieEnumeration.SlotChildMembers | DSA_PROJ_FINAL.cpp:133-138 | behind the slot's character, the strings the child accepts are exactly the strings the node accepts through that slot |
| TrieEnumeration.SlotsFirstSymbol | DSA_PROJ_FINAL.cpp:127-142 | everything contributed by slots 0..k-1 starts with the symbol of one of those slots |
| TrieEnumeration.EnumerateSorted | DSA_PROJ_FINAL.cpp:114-143 | `recSuggest` prints in strictly ascending order, so no string twice |
| TrieEnumeration.SlotsSorted | DSA_PROJ_FINAL.cpp:127-142 | what the slots 0..k-1 contribute is strictly sorted |
| TrieEnumeration.SlotsStepEmpty | DSA_PROJ_FINAL.cpp:127-129 | an iteration of the slot loop over an empty slot prints nothing |
| TrieEnumeration.SlotsStepChild | DSA_PROJ_FINAL.cpp:129-141 | an iteration over a filled slot appends exactly what the child prints behind the prefix followed by the slot's character |
| TrieEnumeration.ChildlessSlots | DSA_PROJ_FINAL.cpp:123-125 | a node without children contributes nothing from its slots |
| TrieEnumeration.Words | DSA_PROJ_FINAL.cpp:39-98 | the stored words are exactly the strings accepted from the root |
| TrieEnumeration.Suggestions | DSA_PROJ_FINAL.cpp:187-193 | below the prefix node, the printed list is sorted and holds exactly the words starting with the prefix |
| TrieEnumeration.NoPathNoWords | DSA_PROJ_FINAL.cpp:165-167 | when the prefix falls off the trie, no word starts with it |
| TrieEnumeration.PathHasWords | DSA_PROJ_FINAL.cpp:157-170 | when a non-empty prefix stays on the trie, some word starts with it |
| TrieEnumeration.OnlyItself | DSA_PROJ_FINAL.cpp:172-185 | the prefix node is an end of word without children exactly when the prefix is a word and no other word extends it |
| TrieEnumeration.SuggestOutcomes | DSA_PROJ_FINAL.cpp:146-195 | the code is 0, -1 or 1. Code 0 exactly when the path falls off, which for a non-empty prefix is exactly when no word starts with it. Code -1 exactly when the prefix is the only word starting with it, printed alone. The output is sorted and holds exactly the words starting with the prefix |
| TrieEnumeration.SuggestDetermined | DSA_PROJ_FINAL.cpp:146-195 | any strictly sorted list of exactly the words starting with the prefix is the list `autoSuggest` prints |
| TrieEngine.GetNewTrieNode | DSA_PROJ_FINAL.cpp:22-31 | the new node is not an end of word and all 27 slots are empty |
| TrieEngine.InsertOutcome | DSA_PROJ_FINAL.cpp:39-70 | insert keeps the trie invariant, adds exactly the one word, only grows the arena, and changes nothing when the word is present |
| TrieEngine.Trie.constructor | DSA_PROJ_FINAL.cpp:200 | a fresh trie is only its root and holds no words |
| TrieEngine.Trie.Insert | DSA_PROJ_FINAL.cpp:39-70 | the arena becomes `Inserted(old, line up to newline)`, the invariant is kept, the words gain exactly that string, the arena only grows, and a present word changes nothing |
| TrieEngine.Trie.AddChild | DSA_PROJ_FINAL.cpp:57-58 | the arena becomes the old one with a fresh `getNewTrieNode` node hung in slot j of node n |
| TrieEngine.Trie.Search | DSA_PROJ_FINAL.cpp:75-98 | returns true exactly when the word is stored, which is exactly when its path exists and ends at an end of word. A non-empty miss whose path exists is a proper prefix of some stored word |
| TrieEngine.Trie.HaveChildren | DSA_PROJ_FINAL.cpp:102-109 | true exactly when some slot of the node is filled |
| TrieEngine.Trie.RecSuggest | DSA_PROJ_FINAL.cpp:114-143 | prints `Enumerate` of the node behind `pre`: strictly sorted, exactly `pre` + each string accepted below the node |
| TrieEngine.Trie.AutoSuggest | DSA_PROJ_FINAL.cpp:146-195 | returns `Suggest(nodes, prefix)` with all outcomes of `SuggestOutcomes`, in terms of the stored words |
| TrieScenarios.InsertThenSearch | DSA_PROJ_FINAL.cpp:261-277 | after inserting a letter word, searching for it succeeds |
| TrieScenarios.InsertLine | DSA_PROJ_FINAL.cpp:233-235 | a line read with its trailing newline is found by searching for the line without it |

## Left out

- `main` (lines 198-413) is not modelled: the menus, the file reading with `fgets`, and the `scanf` input. Only the trie engine it calls is. The two scenario methods stand in for its insert-then-search use.
- The `print` helper (lines 33-36) and the console output of `recSuggest` and `autoSuggest` are not modelled. The printed lines are returned as a sequence of strings, without the tab and newline around them.
- Memory is an arena. `malloc` is an append, a pointer is an index, and nothing is ever freed, as in the source. A `malloc` that returns NULL is not modelled.
- C strings are modelled as the characters before their NUL terminator. The 50-byte input buffers of `main` are not modelled, so the length of a string is unbounded.
- Characters other than 'a'..'z' and space are excluded by precondition (`IsWord`, and `IsLetterWord` for `search`). For characters below 'a' or above '{', the index `*str - 'a'` (lines 54, 85, 163) is outside 0..26, an out-of-bounds access whose behaviour is undefined.
- '{' (code 123) is an in-bounds alias of the space slot: `*str - 'a'` gives 26 for it (`Alphabet.BraceAliasesSpace`). So `insert("a{b")` builds the same path as `insert("a b")`, and `search` can reach slot 26 only through '{'. The preconditions exclude '{', so the model does not capture this aliasing.
- The `head == NULL` branch of `search` (lines 78-79) cannot be taken: a `Trie` always owns its root.
- TrieEngine.Trie.Search: returns a `bool` where the source returns the `int` end-of-word flag 0 or 1.
- `int isEndOfWord` is modelled as a `bool`: the source only stores 0 and 1 in it.
