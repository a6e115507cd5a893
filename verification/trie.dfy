/** The trie engine: `getNewTrieNode`, `insert`, `search`, `haveChildren`,
    `recSuggest` and `autoSuggest`, over a trie whose nodes live in an arena
    owned by a `Trie` object. What `recSuggest` and `autoSuggest` print is
    returned as a sequence of strings, one per printed line. */
module TrieEngine {
  import opened Alphabet
  import opened SymbolOrder
  import opened TrieNodes
  import opened TrieInsertion
  import opened TrieEnumeration

  /** `getNewTrieNode`: a node that is not an end of word, with all 27 slots
      empty. */
  method GetNewTrieNode() returns (node: Node)
    ensures !node.isEndOfWord && |node.children| == CHAR_SIZE
    ensures forall i :: 0 <= i < CHAR_SIZE ==> node.children[i] == Null
  {
    var children: seq<Ptr> := [];
    for i := 0 to CHAR_SIZE
      invariant |children| == i
      invariant forall k :: 0 <= k < i ==> children[k] == Null
    {
      children := children + [Null];
    }
    node := Node(false, children);
  }

  /** Everything `insert` promises, as facts about `Inserted`: the arena
      stays a tree without dead leaves, exactly one word is added, nothing
      is taken away, and a word already present changes nothing. */
  lemma {:induction false} InsertOutcome(h: Heap, w: string)
    requires TrieInvariant(h) && IsWord(w)
    ensures TrieInvariant(Inserted(h, w))
    ensures Words(Inserted(h, w)) == Words(h) + {w}
    ensures Grows(h, Inserted(h, w))
    ensures w in Words(h) ==> Inserted(h, w) == h
  {
    InsertedWords(h, w);
    InsertFromGrows(h, 0, w);
    if w in Words(h) {
      InsertFromPresent(h, 0, w);
    }
  }

  class Trie {
    /** The allocated nodes; node 0 is the root. */
    var nodes: Heap

    ghost predicate Valid()
      reads this
    {
      TrieInvariant(nodes)
    }

    /** The abstract view: the strings inserted so far (each up to its first
        newline). */
    ghost function Contents(): set<string>
      reads this
      requires Valid()
    {
      Words(nodes)
    }

    /** A trie with only its root, which is not an end of word. */
    constructor ()
      ensures Valid() && Contents() == {}
      ensures |nodes| == 1
    {
      var root := GetNewTrieNode();
      assert root == EmptyNode();
      nodes := [root];
      new;
      assert Labelled(nodes, [[]]);
      forall x ensures !Accepts(nodes, 0, x) {
      }
    }

    /** `insert`: follow the line `s` from the root up to its first newline,
        allocating each missing child, and mark the last node an end of word. */
    method Insert(s: string)
      requires Valid() && IsWord(Truncate(s))
      modifies this
      ensures Valid()
      ensures nodes == Inserted(old(nodes), Truncate(s))
      ensures Contents() == old(Contents()) + {Truncate(s)}
      ensures Grows(old(nodes), nodes)
      ensures Truncate(s) in old(Contents()) ==> nodes == old(nodes)
    {
      ghost var w := Truncate(s);
      InsertOutcome(nodes, w);
      var curr: nat := 0;
      var k := 0;
      while k < |s|
        invariant k <= |w|
        invariant WellFormed(nodes) && curr < |nodes|
        invariant InsertFrom(nodes, curr, w[k..]) == Inserted(old(nodes), w)
      {
        if s[k] == NEWLINE {
          break;
        }
        assert k < |w| && w[k] == s[k];
        var index: nat;
        if s[k] == SPACE {
          index := 26;
        } else {
          index := CharToIndex(s[k]);
        }
        InsertFromStep(nodes, curr, w, k);
        if nodes[curr].children[index].Null? {
          AddChild(curr, index);
        }
        curr := nodes[curr].children[index].addr;
        k := k + 1;
      }
      assert w[k..] == [];
      nodes := nodes[curr := nodes[curr].(isEndOfWord := true)];
    }

    /** The allocation step of `insert`: a fresh node from `getNewTrieNode`
        hung in slot `j` of node `n`. */
    method AddChild(n: nat, j: nat)
      requires WellFormed(nodes) && n < |nodes| && j < CHAR_SIZE
      modifies this
      ensures nodes == Link(old(nodes), n, j)
    {
      var node := GetNewTrieNode();
      assert node == EmptyNode();
      nodes := nodes + [node];
      nodes := nodes[n := nodes[n].(children := nodes[n].children[j := Ref(|nodes| - 1)])];
    }

    /** `search`: follow the letters of `s` from the root and report the
        end-of-word flag of the node reached, or false when a slot on the
        way is empty. */
    method Search(s: string) returns (found: bool)
      requires Valid() && IsLetterWord(s)
      ensures found <==> s in Contents()
      ensures !found <==> Walk(nodes, 0, s).Null? || !nodes[Walk(nodes, 0, s).addr].isEndOfWord
      ensures !found && Walk(nodes, 0, s).Ref? && s != [] ==>
        exists x :: x in Contents() && s < x
    {
      var curr: nat := 0;
      var k := 0;
      while k < |s|
        invariant k <= |s| && curr < |nodes|
        invariant Walk(nodes, curr, s[k..]) == Walk(nodes, 0, s)
      {
        assert s[k..][0] == s[k] && s[k..][1..] == s[k + 1..];
        var next := nodes[curr].children[CharToIndex(s[k])];
        if next.Null? {
          return false;
        }
        curr := next.addr;
        k := k + 1;
      }
      assert s[k..] == [];
      found := nodes[curr].isEndOfWord;
      if !found && s != [] {
        LiveNode(nodes, curr);
        var y :| Accepts(nodes, curr, y);
        AcceptsAppend(nodes, s, y);
        assert s < s + y;
      }
    }

    /** `haveChildren`: whether some slot of node `n` is filled. */
    method HaveChildren(n: nat) returns (b: bool)
      requires WellFormed(nodes) && n < |nodes|
      ensures b <==> HasChild(nodes, n)
    {
      for i := 0 to CHAR_SIZE
        invariant forall k :: 0 <= k < i ==> nodes[n].children[k].Null?
      {
        if nodes[n].children[i].Ref? {
          return true;
        }
      }
      return false;
    }

    /** `recSuggest`: the lines printed for the subtree of `root` when the
        path to it spells `pre`. */
    method RecSuggest(root: nat, pre: string) returns (out: seq<string>)
      requires WellFormed(nodes) && root < |nodes|
      ensures out == Prefixed(pre, Enumerate(nodes, root))
      ensures StrictlySorted(out)
      ensures forall x :: x in out <==> pre <= x && Accepts(nodes, root, x[|pre|..])
      decreases |nodes| - root
    {
      ghost var own: seq<string> := if nodes[root].isEndOfWord then [[]] else [];
      out := [];
      if nodes[root].isEndOfWord {
        out := [pre];
        assert pre + [] == pre;
      }
      var hasChild := HaveChildren(root);
      if !hasChild {
        ChildlessSlots(nodes, root, CHAR_SIZE);
        assert Enumerate(nodes, root) == own + [];
      } else {
        var buf := pre;
        for i := 0 to CHAR_SIZE
          invariant buf == pre
          invariant out == Prefixed(pre, own + SlotsUpTo(nodes, root, i))
        {
          if nodes[root].children[i].Ref? {
            if i == 26 {
              buf := buf + [SPACE];
            } else {
              buf := buf + [(97 + i) as char];
            }
            assert buf == pre + [SymbolOf(i)];
            var sub := RecSuggest(nodes[root].children[i].addr, buf);
            SlotsStepChild(nodes, root, i, pre, own);
            out := out + sub;
            buf := buf[..|buf| - 1];
          } else {
            SlotsStepEmpty(nodes, root, i, pre, own);
          }
        }
      }
      EnumerateSorted(nodes, root);
      PrefixedSorted(pre, Enumerate(nodes, root));
      EnumerateMembers(nodes, root);
      forall x ensures x in out <==> pre <= x && Accepts(nodes, root, x[|pre|..]) {
        PrefixedMember(pre, Enumerate(nodes, root), x);
      }
    }

    /** `autoSuggest`: walk the path of `prefix`, then return 0 when it falls
        off the tree, -1 (printing the prefix alone) when the prefix node is
        an end of word without children, and 1 otherwise (printing the
        suggestions below the prefix node when it has children). */
    method AutoSuggest(prefix: string) returns (code: int, out: seq<string>)
      requires Valid() && IsWord(prefix)
      ensures (code, out) == Suggest(nodes, prefix)
      ensures code in {-1, 0, 1}
      ensures StrictlySorted(out)
      ensures forall x :: x in out <==> x in Contents() && prefix <= x
      ensures code == 0 <==> Walk(nodes, 0, prefix).Null?
      ensures code == 0 <==> (prefix != [] && forall x :: x in Contents() ==> !(prefix <= x))
      ensures code == -1 <==>
        (Walk(nodes, 0, prefix).Ref? && nodes[Walk(nodes, 0, prefix).addr].isEndOfWord &&
         !HasChild(nodes, Walk(nodes, 0, prefix).addr))
      ensures code == -1 <==> (prefix in Contents() && forall x :: x in Contents() && prefix <= x ==> x == prefix)
      ensures code == -1 ==> out == [prefix]
    {
      SuggestOutcomes(nodes, prefix);
      var node: nat := 0;
      var n := |prefix|;
      for level := 0 to n
        invariant node < |nodes|
        invariant Walk(nodes, node, prefix[level..]) == Walk(nodes, 0, prefix)
      {
        assert prefix[level..][0] == prefix[level] && prefix[level..][1..] == prefix[level + 1..];
        var index: nat;
        if prefix[level] == SPACE {
          index := 26;
        } else {
          index := CharToIndex(prefix[level]);
        }
        if nodes[node].children[index].Null? {
          return 0, [];
        }
        node := nodes[node].children[index].addr;
      }
      assert prefix[n..] == [];
      var isWord := nodes[node].isEndOfWord;
      var hasChild := HaveChildren(node);
      var isLast := !hasChild;
      if isWord && isLast {
        return -1, [prefix];
      }
      if !isLast {
        out := RecSuggest(node, prefix);
        return 1, out;
      }
      ChildlessSlots(nodes, node, CHAR_SIZE);
      assert Enumerate(nodes, node) == [];
      return 1, [];
    }
  }
}
