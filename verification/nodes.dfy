/** The node store of a trie. The nodes that `getNewTrieNode` allocates
    are kept in an arena `h: seq<Node>`, a pointer to a node is its index
    (`Ref(addr)`) or `Null`, and allocation appends to the arena. The root
    is node 0. Because a node is always allocated after its parent, every
    child index is larger than its parent's, which makes every walk down the
    tree finite. */
module TrieNodes {
  import opened Alphabet

  datatype Ptr = Null | Ref(addr: nat)

  /** `struct Trie`: the end-of-word flag and the 27 child pointers. */
  datatype Node = Node(isEndOfWord: bool, children: seq<Ptr>)

  type Heap = seq<Node>

  /** The node `getNewTrieNode` returns: not an end of word, every slot empty. */
  function EmptyNode(): Node {
    Node(false, seq(CHAR_SIZE, _ => Null))
  }

  /** The arena is non-empty (it holds the root), every node has 27 slots,
      and every child pointer points further into the arena. */
  predicate WellFormed(h: Heap) {
    && |h| > 0
    && (forall i :: 0 <= i < |h| ==> |h[i].children| == CHAR_SIZE)
    && (forall i, j :: 0 <= i < |h| && 0 <= j < CHAR_SIZE && h[i].children[j].Ref? ==>
          i < h[i].children[j].addr < |h|)
  }

  predicate HasChild(h: Heap, n: nat)
    requires WellFormed(h) && n < |h|
  {
    exists j :: 0 <= j < CHAR_SIZE && h[n].children[j].Ref?
  }

  /** The node reached from `n` by following the slots of the characters of
      `x`, or Null when a slot on the way is empty or a character has no slot. */
  function Walk(h: Heap, n: nat, x: string): (r: Ptr)
    requires WellFormed(h) && n < |h|
    ensures r.Ref? ==> n <= r.addr < |h|
    ensures r.Ref? && x != [] ==> n < r.addr
    decreases |x|
  {
    if x == [] then Ref(n)
    else if !IsSymbol(x[0]) then Null
    else
      match h[n].children[SlotOf(x[0])]
      case Null => Null
      case Ref(c) => Walk(h, c, x[1..])
  }

  /** `x` spells, from `n`, a path that ends at an end-of-word node. */
  predicate Accepts(h: Heap, n: nat, x: string)
    requires WellFormed(h) && n < |h|
  {
    Walk(h, n, x).Ref? && h[Walk(h, n, x).addr].isEndOfWord
  }

  lemma {:induction false} WalkAppend(h: Heap, n: nat, x: string, y: string)
    requires WellFormed(h) && n < |h|
    ensures Walk(h, n, x + y) ==
      match Walk(h, n, x)
      case Null => Null
      case Ref(m) => Walk(h, m, y)
    decreases |x|
  {
    if x == [] {
      assert x + y == y;
    } else {
      assert (x + y)[0] == x[0];
      assert (x + y)[1..] == x[1..] + y;
      if IsSymbol(x[0]) && h[n].children[SlotOf(x[0])].Ref? {
        WalkAppend(h, h[n].children[SlotOf(x[0])].addr, x[1..], y);
      }
    }
  }

  /** A word is accepted from the root exactly when its first part leads to
      some node from which the rest is accepted. */
  lemma {:induction false} AcceptsAppend(h: Heap, x: string, y: string)
    requires WellFormed(h)
    ensures Accepts(h, 0, x + y) <==> Walk(h, 0, x).Ref? && Accepts(h, Walk(h, 0, x).addr, y)
  {
    WalkAppend(h, 0, x, y);
  }

  lemma {:induction false} WalkOneSlot(h: Heap, n: nat, j: nat)
    requires WellFormed(h) && n < |h| && j < CHAR_SIZE
    ensures Walk(h, n, [SymbolOf(j)]) == h[n].children[j]
  {
    var x := [SymbolOf(j)];
    assert x[1..] == [];
  }

  /** A string that does not fall off the tree is spelled in the alphabet. */
  lemma {:induction false} WalkIsWord(h: Heap, n: nat, x: string)
    requires WellFormed(h) && n < |h| && Walk(h, n, x).Ref?
    ensures IsWord(x)
    decreases |x|
  {
    if x != [] {
      WalkIsWord(h, h[n].children[SlotOf(x[0])].addr, x[1..]);
      forall i | 0 <= i < |x| ensures IsSymbol(x[i]) {
        if i > 0 {
          assert x[i] == x[1..][i - 1];
        }
      }
    }
  }

  /** A node with no children accepts at most the empty string. */
  lemma {:induction false} ChildlessAccepts(h: Heap, n: nat, x: string)
    requires WellFormed(h) && n < |h| && !HasChild(h, n)
    requires Accepts(h, n, x)
    ensures x == []
  {
  }

  /** Every node is labelled with the string its root path spells: the root
      with the empty string, the child in slot `j` with its parent's label
      followed by the symbol of slot `j`. */
  predicate Labelled(h: Heap, paths: seq<string>)
    requires WellFormed(h)
  {
    && |paths| == |h|
    && paths[0] == []
    && forall i, j :: 0 <= i < |h| && 0 <= j < CHAR_SIZE && h[i].children[j].Ref? ==>
         paths[h[i].children[j].addr] == paths[i] + [SymbolOf(j)]
  }

  /** No node is shared: a labelling exists, so each node is reached by one
      path only. */
  ghost predicate IsTree(h: Heap)
    requires WellFormed(h)
  {
    exists paths :: Labelled(h, paths)
  }

  /** Every node other than the root (and, during an insertion, the node
      being extended) is an end of word or has a child. */
  predicate NoDeadLeavesExcept(h: Heap, e: nat)
    requires WellFormed(h)
  {
    forall i :: 0 < i < |h| && i != e ==> h[i].isEndOfWord || HasChild(h, i)
  }

  predicate NoDeadLeaves(h: Heap)
    requires WellFormed(h)
  {
    NoDeadLeavesExcept(h, 0)
  }

  /** What holds of the arena between the operations of the trie. */
  ghost predicate TrieInvariant(h: Heap) {
    WellFormed(h) && IsTree(h) && NoDeadLeaves(h)
  }

  /** The label of the node a walk reaches is the label of its start
      followed by the string walked. */
  lemma {:induction false} WalkLabel(h: Heap, paths: seq<string>, n: nat, x: string)
    requires WellFormed(h) && Labelled(h, paths) && n < |h|
    requires Walk(h, n, x).Ref?
    ensures paths[Walk(h, n, x).addr] == paths[n] + x
    decreases |x|
  {
    if x == [] {
      assert paths[n] + x == paths[n];
    } else {
      var j := SlotOf(x[0]);
      var c := h[n].children[j].addr;
      SlotSymbolInverse(x[0]);
      WalkLabel(h, paths, c, x[1..]);
      assert paths[n] + x == paths[n] + [x[0]] + x[1..];
    }
  }

  /** In a tree a node is reached from the root by one string only. */
  lemma {:induction false} WalkUnique(h: Heap, x: string, y: string)
    requires WellFormed(h) && IsTree(h)
    requires Walk(h, 0, x).Ref? && Walk(h, 0, x) == Walk(h, 0, y)
    ensures x == y
  {
    var paths :| Labelled(h, paths);
    WalkLabel(h, paths, 0, x);
    WalkLabel(h, paths, 0, y);
    assert [] + x == x && [] + y == y;
  }

  /** Below every node other than the root lies some word. */
  lemma {:induction false} LiveNode(h: Heap, n: nat)
    requires WellFormed(h) && NoDeadLeaves(h) && 0 < n < |h|
    ensures exists x :: Accepts(h, n, x)
    decreases |h| - n
  {
    if h[n].isEndOfWord {
      assert Accepts(h, n, []);
    } else {
      var j :| 0 <= j < CHAR_SIZE && h[n].children[j].Ref?;
      var c := h[n].children[j].addr;
      LiveNode(h, c);
      var y :| Accepts(h, c, y);
      var x := [SymbolOf(j)] + y;
      assert x[0] == SymbolOf(j) && x[1..] == y;
      assert Accepts(h, n, x);
    }
  }

  /** The same children everywhere means the same walks. */
  lemma {:induction false} SameShapeWalk(h: Heap, g: Heap, n: nat, x: string)
    requires WellFormed(h) && WellFormed(g) && |h| == |g| && n < |h|
    requires forall i :: 0 <= i < |h| ==> h[i].children == g[i].children
    ensures Walk(h, n, x) == Walk(g, n, x)
    decreases |x|
  {
    if x != [] && IsSymbol(x[0]) && h[n].children[SlotOf(x[0])].Ref? {
      SameShapeWalk(h, g, h[n].children[SlotOf(x[0])].addr, x[1..]);
    }
  }
}
