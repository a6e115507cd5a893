/** What `recSuggest` emits, as a function: a depth-first, preorder walk of
    a subtree that visits the slots in ascending order. */
module TrieEnumeration {
  import opened Alphabet
  import opened SymbolOrder
  import opened TrieNodes

  /** The strings below node `n`, relative to `n`: the empty string first
      when `n` is an end of word, then the strings below each child in slot
      order, each behind the symbol of its slot. */
  function Enumerate(h: Heap, n: nat): seq<string>
    requires WellFormed(h) && n < |h|
    decreases |h| - n, 1
  {
    (if h[n].isEndOfWord then [[]] else []) + SlotsUpTo(h, n, CHAR_SIZE)
  }

  /** The strings below the children of `n` in slots 0..k-1. */
  function SlotsUpTo(h: Heap, n: nat, k: nat): seq<string>
    requires WellFormed(h) && n < |h| && k <= CHAR_SIZE
    decreases |h| - n, 0, k
  {
    if k == 0 then []
    else
      SlotsUpTo(h, n, k - 1) +
      match h[n].children[k - 1]
      case Null => []
      case Ref(c) => Prefixed([SymbolOf(k - 1)], Enumerate(h, c))
  }

  /** The enumeration lists exactly the strings accepted from `n`. */
  lemma {:induction false} EnumerateMembers(h: Heap, n: nat)
    requires WellFormed(h) && n < |h|
    ensures forall x :: x in Enumerate(h, n) <==> Accepts(h, n, x)
    decreases |h| - n, 1
  {
    SlotsMembers(h, n, CHAR_SIZE);
  }

  lemma {:induction false} SlotsMembers(h: Heap, n: nat, k: nat)
    requires WellFormed(h) && n < |h| && k <= CHAR_SIZE
    ensures forall x :: x in SlotsUpTo(h, n, k) <==>
      x != [] && IsSymbol(x[0]) && SlotOf(x[0]) < k && Accepts(h, n, x)
    decreases |h| - n, 0, k
  {
    if k > 0 {
      SlotsMembers(h, n, k - 1);
      forall x ensures x in SlotsUpTo(h, n, k) <==>
        x != [] && IsSymbol(x[0]) && SlotOf(x[0]) < k && Accepts(h, n, x)
      {
        SlotMembers(h, n, k - 1, x);
      }
    }
  }

  /** The child in slot `j` contributes exactly the accepted strings whose
      first symbol has slot `j`. */
  lemma {:induction false} SlotMembers(h: Heap, n: nat, j: nat, x: string)
    requires WellFormed(h) && n < |h| && j < CHAR_SIZE
    ensures x in (match h[n].children[j]
                  case Null => []
                  case Ref(c) => Prefixed([SymbolOf(j)], Enumerate(h, c))) <==>
      x != [] && IsSymbol(x[0]) && SlotOf(x[0]) == j && Accepts(h, n, x)
    decreases |h| - n, 0, 0
  {
    if h[n].children[j].Null? {
      if x != [] && IsSymbol(x[0]) && SlotOf(x[0]) == j {
        assert Walk(h, n, x).Null?;
      }
    } else {
      var c := h[n].children[j].addr;
      EnumerateMembers(h, c);
      SlotChildMembers(h, n, j, x, Enumerate(h, c));
    }
  }

  /** The strings behind the symbol of a filled slot that the child accepts
      are the strings the node accepts through that slot. */
  lemma {:induction false} SlotChildMembers(h: Heap, n: nat, j: nat, x: string, e: seq<string>)
    requires WellFormed(h) && n < |h| && j < CHAR_SIZE && h[n].children[j].Ref?
    requires forall y :: y in e <==> Accepts(h, h[n].children[j].addr, y)
    ensures x in Prefixed([SymbolOf(j)], e) <==>
      x != [] && IsSymbol(x[0]) && SlotOf(x[0]) == j && Accepts(h, n, x)
  {
    var sym := SymbolOf(j);
    PrefixedMember([sym], e, x);
    if x != [] && IsSymbol(x[0]) && SlotOf(x[0]) == j {
      SlotSymbolInverse(x[0]);
      assert [sym] <= x;
    }
    if [sym] <= x {
      assert x[0] == sym;
    }
  }

  /** Everything below the children of `n` in slots 0..k-1 starts with the
      symbol of one of those slots. */
  lemma {:induction false} SlotsFirstSymbol(h: Heap, n: nat, k: nat, x: string)
    requires WellFormed(h) && n < |h| && k <= CHAR_SIZE
    requires x in SlotsUpTo(h, n, k)
    ensures x != [] && IsSymbol(x[0]) && SlotOf(x[0]) < k
  {
    SlotsMembers(h, n, k);
  }

  /** The enumeration is strictly sorted under the symbol order: a node's
      own entry first, then its children in ascending slot order. */
  lemma {:induction false} EnumerateSorted(h: Heap, n: nat)
    requires WellFormed(h) && n < |h|
    ensures StrictlySorted(Enumerate(h, n))
    decreases |h| - n, 1
  {
    var own: seq<string> := if h[n].isEndOfWord then [[]] else [];
    SlotsSorted(h, n, CHAR_SIZE);
    forall x, y | x in own && y in SlotsUpTo(h, n, CHAR_SIZE) ensures Precedes(x, y) {
      SlotsFirstSymbol(h, n, CHAR_SIZE, y);
    }
    SortedConcat(own, SlotsUpTo(h, n, CHAR_SIZE));
  }

  lemma {:induction false} SlotsSorted(h: Heap, n: nat, k: nat)
    requires WellFormed(h) && n < |h| && k <= CHAR_SIZE
    ensures StrictlySorted(SlotsUpTo(h, n, k))
    decreases |h| - n, 0, k
  {
    if k > 0 {
      SlotsSorted(h, n, k - 1);
      match h[n].children[k - 1]
      case Null =>
        assert SlotsUpTo(h, n, k) == SlotsUpTo(h, n, k - 1) + [];
      case Ref(c) =>
        var sym := SymbolOf(k - 1);
        var block := Prefixed([sym], Enumerate(h, c));
        EnumerateSorted(h, c);
        PrefixedSorted([sym], Enumerate(h, c));
        forall x, y | x in SlotsUpTo(h, n, k - 1) && y in block ensures Precedes(x, y) {
          SlotsFirstSymbol(h, n, k - 1, x);
          PrefixedMember([sym], Enumerate(h, c), y);
          assert y[0] == sym;
        }
        SortedConcat(SlotsUpTo(h, n, k - 1), block);
    }
  }

  /** An empty slot of `n` adds nothing. */
  lemma {:induction false} SlotsStepEmpty(h: Heap, n: nat, i: nat, pre: string, own: seq<string>)
    requires WellFormed(h) && n < |h| && i < CHAR_SIZE && h[n].children[i].Null?
    ensures Prefixed(pre, own + SlotsUpTo(h, n, i + 1)) == Prefixed(pre, own + SlotsUpTo(h, n, i))
  {
    assert SlotsUpTo(h, n, i + 1) == SlotsUpTo(h, n, i) + [];
    assert SlotsUpTo(h, n, i) + [] == SlotsUpTo(h, n, i);
  }

  /** A filled slot of `n` adds, behind `pre`, the strings below that
      slot's child behind `pre` and the slot's symbol. */
  lemma {:induction false} SlotsStepChild(h: Heap, n: nat, i: nat, pre: string, own: seq<string>)
    requires WellFormed(h) && n < |h| && i < CHAR_SIZE && h[n].children[i].Ref?
    ensures Prefixed(pre, own + SlotsUpTo(h, n, i + 1)) ==
      Prefixed(pre, own + SlotsUpTo(h, n, i)) +
      Prefixed(pre + [SymbolOf(i)], Enumerate(h, h[n].children[i].addr))
  {
    var s := SlotsUpTo(h, n, i);
    var e := Enumerate(h, h[n].children[i].addr);
    var block := Prefixed([SymbolOf(i)], e);
    assert SlotsUpTo(h, n, i + 1) == s + block;
    assert own + (s + block) == (own + s) + block;
    PrefixedBlock(pre, own + s, SymbolOf(i), e);
  }

  /** A node without children contributes no strings from its slots. */
  lemma {:induction false} ChildlessSlots(h: Heap, n: nat, k: nat)
    requires WellFormed(h) && n < |h| && k <= CHAR_SIZE && !HasChild(h, n)
    ensures SlotsUpTo(h, n, k) == []
  {
    if k > 0 {
      assert h[n].children[k - 1].Null?;
      ChildlessSlots(h, n, k - 1);
    }
  }

  /** The words of the trie: the strings accepted from the root. */
  ghost function Words(h: Heap): (r: set<string>)
    requires WellFormed(h)
    ensures forall x :: x in r <==> Accepts(h, 0, x)
  {
    EnumerateMembers(h, 0);
    set x | x in Enumerate(h, 0)
  }

  /** The suggestions for a prefix whose path ends at node `m`: the words
      that start with the prefix, each once, in the symbol order. */
  lemma {:induction false} Suggestions(h: Heap, pre: string, m: nat)
    requires WellFormed(h) && Walk(h, 0, pre) == Ref(m)
    ensures StrictlySorted(Prefixed(pre, Enumerate(h, m)))
    ensures forall x :: x in Prefixed(pre, Enumerate(h, m)) <==> x in Words(h) && pre <= x
  {
    EnumerateSorted(h, m);
    PrefixedSorted(pre, Enumerate(h, m));
    EnumerateMembers(h, m);
    forall x ensures x in Prefixed(pre, Enumerate(h, m)) <==> x in Words(h) && pre <= x {
      PrefixedMember(pre, Enumerate(h, m), x);
      if pre <= x {
        assert x == pre + x[|pre|..];
        AcceptsAppend(h, pre, x[|pre|..]);
      }
    }
  }

  /** When the prefix falls off the tree, no word starts with it. */
  lemma {:induction false} NoPathNoWords(h: Heap, pre: string)
    requires WellFormed(h) && Walk(h, 0, pre).Null?
    ensures forall x :: x in Words(h) ==> !(pre <= x)
  {
    forall x | x in Words(h) && pre <= x ensures false {
      assert x == pre + x[|pre|..];
      AcceptsAppend(h, pre, x[|pre|..]);
    }
  }

  /** When a non-empty prefix has a path, some word starts with it: there
      are no dead leaves. */
  lemma {:induction false} PathHasWords(h: Heap, pre: string)
    requires WellFormed(h) && NoDeadLeaves(h)
    requires pre != [] && Walk(h, 0, pre).Ref?
    ensures exists x :: x in Words(h) && pre <= x
  {
    var m := Walk(h, 0, pre).addr;
    LiveNode(h, m);
    var y :| Accepts(h, m, y);
    AcceptsAppend(h, pre, y);
    assert pre + y in Words(h) && pre <= pre + y;
  }

  /** The prefix node is an end of word without children exactly when the
      prefix is a word and no longer word extends it. */
  lemma {:induction false} OnlyItself(h: Heap, pre: string)
    requires WellFormed(h) && NoDeadLeaves(h) && Walk(h, 0, pre).Ref?
    ensures var m := Walk(h, 0, pre).addr;
      h[m].isEndOfWord && !HasChild(h, m) <==>
      pre in Words(h) && forall x :: x in Words(h) && pre <= x ==> x == pre
  {
    var m := Walk(h, 0, pre).addr;
    assert pre + [] == pre;
    AcceptsAppend(h, pre, []);
    if h[m].isEndOfWord && !HasChild(h, m) {
      forall x | x in Words(h) && pre <= x ensures x == pre {
        assert x == pre + x[|pre|..];
        AcceptsAppend(h, pre, x[|pre|..]);
        ChildlessAccepts(h, m, x[|pre|..]);
      }
    } else if HasChild(h, m) {
      var j :| 0 <= j < CHAR_SIZE && h[m].children[j].Ref?;
      var c := h[m].children[j].addr;
      LiveNode(h, c);
      var y :| Accepts(h, c, y);
      var z := [SymbolOf(j)] + y;
      assert z[0] == SymbolOf(j) && z[1..] == y;
      assert Accepts(h, m, z);
      AcceptsAppend(h, pre, z);
      assert pre <= pre + z && pre + z != pre;
    }
  }

  /** What `autoSuggest` returns and prints for `pre`: 0 and nothing when
      the prefix falls off the tree; -1 and the prefix alone when the prefix
      node is an end of word without children; otherwise 1 and the
      enumeration below the prefix node. */
  function Suggest(h: Heap, pre: string): (int, seq<string>)
    requires WellFormed(h)
  {
    match Walk(h, 0, pre)
    case Null => (0, [])
    case Ref(m) =>
      if h[m].isEndOfWord && !HasChild(h, m) then (-1, [pre])
      else (1, Prefixed(pre, Enumerate(h, m)))
  }

  /** The three outcomes of `autoSuggest`, and the suggestions it prints:
      every word that starts with the prefix, once each, in the symbol
      order. */
  lemma {:induction false} SuggestOutcomes(h: Heap, pre: string)
    requires WellFormed(h) && NoDeadLeaves(h)
    ensures var (code, out) := Suggest(h, pre);
      && code in {-1, 0, 1}
      && StrictlySorted(out)
      && (forall x :: x in out <==> x in Words(h) && pre <= x)
      && (code == 0 <==> Walk(h, 0, pre).Null?)
      && (code == 0 <==> (pre != [] && forall x :: x in Words(h) ==> !(pre <= x)))
      && (code == -1 <==>
           (Walk(h, 0, pre).Ref? && h[Walk(h, 0, pre).addr].isEndOfWord &&
            !HasChild(h, Walk(h, 0, pre).addr)))
      && (code == -1 <==> (pre in Words(h) && forall x :: x in Words(h) && pre <= x ==> x == pre))
      && (code == -1 ==> out == [pre])
      && (code != 0 ==> out == Prefixed(pre, Enumerate(h, Walk(h, 0, pre).addr)))
  {
    match Walk(h, 0, pre)
    case Null =>
      NoPathNoWords(h, pre);
      assert pre != [];
    case Ref(m) =>
      Suggestions(h, pre, m);
      OnlyItself(h, pre);
      if pre != [] {
        PathHasWords(h, pre);
      }
      if h[m].isEndOfWord && !HasChild(h, m) {
        ChildlessSlots(h, m, CHAR_SIZE);
        assert Enumerate(h, m) == [[]];
        assert pre + [] == pre;
        assert pre in Words(h) && pre <= pre;
      }
  }

  /** The suggestions are determined by the words: any strictly sorted list
      of exactly the words that start with the prefix is the list that
      `autoSuggest` prints. */
  lemma {:induction false} SuggestDetermined(h: Heap, pre: string, s: seq<string>)
    requires WellFormed(h) && NoDeadLeaves(h) && Walk(h, 0, pre).Ref?
    requires StrictlySorted(s)
    requires forall x :: x in s <==> x in Words(h) && pre <= x
    ensures s == Suggest(h, pre).1
  {
    SuggestOutcomes(h, pre);
    var out := Suggest(h, pre).1;
    forall i | 0 <= i < |out| ensures IsWord(out[i]) {
      assert out[i] in out;
      WalkIsWord(h, 0, out[i]);
    }
    SortedUnique(out, s);
  }
}
