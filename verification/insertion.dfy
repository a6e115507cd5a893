/** What `insert` does to the node arena, as functions, and what it
    preserves. */
module TrieInsertion {
  import opened Alphabet
  import opened TrieNodes

  /** Allocate a fresh node and hang it in slot `j` of node `n`. */
  function Link(h: Heap, n: nat, j: nat): (r: Heap)
    requires WellFormed(h) && n < |h| && j < CHAR_SIZE
    ensures WellFormed(r) && |r| == |h| + 1
    ensures r[n].children[j] == Ref(|h|) && r[|h|] == EmptyNode()
  {
    (h + [EmptyNode()])[n := h[n].(children := h[n].children[j := Ref(|h|)])]
  }

  /** Insert `w` below node `n`: follow the slots of `w`, allocating every
      child that is missing, then mark the last node as an end of word. */
  function InsertFrom(h: Heap, n: nat, w: string): (r: Heap)
    requires WellFormed(h) && n < |h| && IsWord(w)
    ensures WellFormed(r) && |h| <= |r|
    decreases |w|
  {
    if w == [] then h[n := h[n].(isEndOfWord := true)]
    else
      var j := SlotOf(w[0]);
      match h[n].children[j]
      case Null => InsertFrom(Link(h, n, j), |h|, w[1..])
      case Ref(c) => InsertFrom(h, c, w[1..])
  }

  /** One step of the insertion loop at position `k` of `w`. */
  lemma {:induction false} InsertFromStep(h: Heap, n: nat, w: string, k: nat)
    requires WellFormed(h) && n < |h| && IsWord(w) && k < |w|
    ensures IsWord(w[k..]) && IsWord(w[k + 1..])
    ensures InsertFrom(h, n, w[k..]) ==
      match h[n].children[SlotOf(w[k])]
      case Null => InsertFrom(Link(h, n, SlotOf(w[k])), |h|, w[k + 1..])
      case Ref(c) => InsertFrom(h, c, w[k + 1..])
  {
    assert w[k..][0] == w[k] && w[k..][1..] == w[k + 1..];
  }

  /** `insert(head, w)` on the root. */
  function Inserted(h: Heap, w: string): Heap
    requires WellFormed(h) && IsWord(w)
  {
    InsertFrom(h, 0, w)
  }

  /** `g` extends `h`: no node disappears, no end-of-word flag is cleared and
      no filled slot is overwritten. */
  predicate Grows(h: Heap, g: Heap)
    requires WellFormed(h) && WellFormed(g)
  {
    && |h| <= |g|
    && (forall i :: 0 <= i < |h| && h[i].isEndOfWord ==> g[i].isEndOfWord)
    && (forall i, j :: 0 <= i < |h| && 0 <= j < CHAR_SIZE && h[i].children[j].Ref? ==>
          g[i].children[j] == h[i].children[j])
  }

  /** Linking a fresh node changes only walks that used to fall off the
      tree, and those now end at the fresh node or fall off again. */
  lemma {:induction false} LinkWalk(h: Heap, n: nat, j: nat, m: nat, x: string)
    requires WellFormed(h) && n < |h| && j < CHAR_SIZE && h[n].children[j].Null?
    requires m < |h|
    ensures var g := Link(h, n, j);
      && (Walk(h, m, x).Ref? ==> Walk(g, m, x) == Walk(h, m, x))
      && (Walk(h, m, x).Null? ==> Walk(g, m, x) in {Null, Ref(|h|)})
    decreases |x|
  {
    var g := Link(h, n, j);
    if x != [] && IsSymbol(x[0]) {
      var k := SlotOf(x[0]);
      if m == n && k == j {
        var y := x[1..];
        if y != [] {
          assert !IsSymbol(y[0]) || g[|h|].children[SlotOf(y[0])] == Null;
        }
      } else {
        assert g[m].children[k] == h[m].children[k];
        if h[m].children[k].Ref? {
          LinkWalk(h, n, j, h[m].children[k].addr, x[1..]);
        }
      }
    }
  }

  /** Linking a fresh node accepts no new word. */
  lemma {:induction false} LinkAccepts(h: Heap, n: nat, j: nat, x: string)
    requires WellFormed(h) && n < |h| && j < CHAR_SIZE && h[n].children[j].Null?
    ensures Accepts(Link(h, n, j), 0, x) <==> Accepts(h, 0, x)
  {
    LinkWalk(h, n, j, 0, x);
  }

  /** Marking node `f` accepts exactly the strings that lead to `f`. */
  lemma {:induction false} MarkAccepts(h: Heap, f: nat, x: string)
    requires WellFormed(h) && f < |h|
    ensures var g := h[f := h[f].(isEndOfWord := true)];
      WellFormed(g) && (Accepts(g, 0, x) <==> Accepts(h, 0, x) || Walk(h, 0, x) == Ref(f))
  {
    var g := h[f := h[f].(isEndOfWord := true)];
    SameShapeWalk(h, g, 0, x);
  }

  /** Marking node `n`, reached from the root by its label, as an end of
      word keeps the labelling, removes the dead leaf at `n` and adds the
      label of `n` as the one new word. */
  lemma {:induction false} MarkKeepsTree(h: Heap, paths: seq<string>, n: nat)
    requires WellFormed(h) && Labelled(h, paths) && n < |h|
    requires Walk(h, 0, paths[n]) == Ref(n)
    requires NoDeadLeavesExcept(h, n)
    ensures var r := h[n := h[n].(isEndOfWord := true)];
      && WellFormed(r) && Labelled(r, paths) && NoDeadLeaves(r)
      && forall x :: Accepts(r, 0, x) <==> Accepts(h, 0, x) || x == paths[n]
  {
    var r := h[n := h[n].(isEndOfWord := true)];
    assert Labelled(r, paths);
    forall x ensures Accepts(r, 0, x) <==> Accepts(h, 0, x) || x == paths[n] {
      MarkAccepts(h, n, x);
      if Walk(h, 0, x) == Ref(n) {
        WalkLabel(h, paths, 0, x);
        assert [] + x == x;
      }
    }
    forall i | 0 < i < |r| ensures r[i].isEndOfWord || HasChild(r, i) {
      if i != n && !h[i].isEndOfWord {
        var k :| 0 <= k < CHAR_SIZE && h[i].children[k].Ref?;
        assert r[i].children[k].Ref?;
      }
    }
  }

  /** Hanging a fresh node in an empty slot `j` of node `n` extends the
      labelling, makes the fresh node reachable by its label, and moves the
      one permitted dead leaf from `n` to the fresh node. */
  lemma {:induction false} LinkKeepsTree(h: Heap, paths: seq<string>, n: nat, j: nat)
    requires WellFormed(h) && Labelled(h, paths) && n < |h| && j < CHAR_SIZE
    requires h[n].children[j].Null?
    requires Walk(h, 0, paths[n]) == Ref(n)
    requires NoDeadLeavesExcept(h, n)
    ensures var g := Link(h, n, j);
      var pathsG := paths + [paths[n] + [SymbolOf(j)]];
      && Labelled(g, pathsG)
      && Walk(g, 0, pathsG[|h|]) == Ref(|h|)
      && NoDeadLeavesExcept(g, |h|)
  {
    var g := Link(h, n, j);
    var pathsG := paths + [paths[n] + [SymbolOf(j)]];
    forall i, k | 0 <= i < |g| && 0 <= k < CHAR_SIZE && g[i].children[k].Ref?
      ensures pathsG[g[i].children[k].addr] == pathsG[i] + [SymbolOf(k)]
    {
      if i != n || k != j {
        assert i < |h| && g[i].children[k] == h[i].children[k];
      }
    }
    LinkWalk(h, n, j, 0, paths[n]);
    WalkAppend(g, 0, paths[n], [SymbolOf(j)]);
    WalkOneSlot(g, n, j);
    forall i | 0 < i < |g| && i != |h| ensures g[i].isEndOfWord || HasChild(g, i) {
      if i == n {
        assert g[n].children[j].Ref?;
      } else if !h[i].isEndOfWord {
        var k :| 0 <= k < CHAR_SIZE && h[i].children[k].Ref?;
        assert g[i].children[k].Ref?;
      }
    }
  }

  /** The heart of the insertion proof. Inserting `w` below a node `n` that
      the root reaches by its label keeps the arena a tree without dead
      leaves and adds exactly one word: the label of `n` followed by `w`. */
  lemma {:induction false} InsertFromWords(h: Heap, paths: seq<string>, n: nat, w: string)
    requires WellFormed(h) && Labelled(h, paths) && n < |h| && IsWord(w)
    requires Walk(h, 0, paths[n]) == Ref(n)
    requires NoDeadLeavesExcept(h, n)
    ensures var r := InsertFrom(h, n, w);
      && IsTree(r) && NoDeadLeaves(r)
      && forall x :: Accepts(r, 0, x) <==> Accepts(h, 0, x) || x == paths[n] + w
    decreases |w|
  {
    if w == [] {
      MarkKeepsTree(h, paths, n);
      assert paths[n] + w == paths[n];
    } else {
      var j := SlotOf(w[0]);
      SlotSymbolInverse(w[0]);
      assert paths[n] + w == (paths[n] + [w[0]]) + w[1..];
      match h[n].children[j]
      case Null =>
        LinkKeepsTree(h, paths, n, j);
        InsertFromWords(Link(h, n, j), paths + [paths[n] + [SymbolOf(j)]], |h|, w[1..]);
        forall x ensures Accepts(Link(h, n, j), 0, x) <==> Accepts(h, 0, x) {
          LinkAccepts(h, n, j, x);
        }
      case Ref(c) =>
        assert paths[c] == paths[n] + [w[0]];
        WalkAppend(h, 0, paths[n], [w[0]]);
        WalkOneSlot(h, n, j);
        assert HasChild(h, n);
        InsertFromWords(h, paths, c, w[1..]);
    }
  }

  /** After `insert(w)` exactly `w` has been added to the words, and the
      arena is still a tree without dead leaves. */
  lemma {:induction false} InsertedWords(h: Heap, w: string)
    requires TrieInvariant(h) && IsWord(w)
    ensures TrieInvariant(Inserted(h, w))
    ensures forall x :: Accepts(Inserted(h, w), 0, x) <==> Accepts(h, 0, x) || x == w
  {
    var paths :| Labelled(h, paths);
    InsertFromWords(h, paths, 0, w);
    assert paths[0] + w == w;
  }

  /** `insert` only grows the tree. */
  lemma {:induction false} InsertFromGrows(h: Heap, n: nat, w: string)
    requires WellFormed(h) && n < |h| && IsWord(w)
    ensures Grows(h, InsertFrom(h, n, w))
    decreases |w|
  {
    if w != [] {
      var j := SlotOf(w[0]);
      match h[n].children[j]
      case Null =>
        var g := Link(h, n, j);
        InsertFromGrows(g, |h|, w[1..]);
        var r := InsertFrom(g, |h|, w[1..]);
        forall i, k | 0 <= i < |h| && 0 <= k < CHAR_SIZE && h[i].children[k].Ref?
          ensures r[i].children[k] == h[i].children[k]
        {
          assert g[i].children[k] == h[i].children[k];
        }
      case Ref(c) =>
        InsertFromGrows(h, c, w[1..]);
    }
  }

  /** Inserting a word that is already present changes nothing. */
  lemma {:induction false} InsertFromPresent(h: Heap, n: nat, w: string)
    requires WellFormed(h) && n < |h| && IsWord(w)
    requires Accepts(h, n, w)
    ensures InsertFrom(h, n, w) == h
    decreases |w|
  {
    if w != [] {
      InsertFromPresent(h, h[n].children[SlotOf(w[0])].addr, w[1..]);
    }
  }

  /** `insert` is idempotent. */
  lemma {:induction false} InsertIdempotent(h: Heap, w: string)
    requires TrieInvariant(h) && IsWord(w)
    ensures Inserted(Inserted(h, w), w) == Inserted(h, w)
  {
    InsertedWords(h, w);
    InsertFromPresent(Inserted(h, w), 0, w);
  }
}
