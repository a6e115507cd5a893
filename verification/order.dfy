/** The order in which suggestions come out: lexicographic under the slot
    order of the alphabet, so 'a'..'z' come before the space character and
    a string comes before every longer string it is a prefix of. */
module SymbolOrder {
  import opened Alphabet

  /** `a` comes strictly before `b`. */
  predicate Precedes(a: string, b: string) {
    if a == [] then b != []
    else if b == [] then false
    else if a[0] == b[0] then Precedes(a[1..], b[1..])
    else SlotOf(a[0]) < SlotOf(b[0])
  }

  predicate StrictlySorted(s: seq<string>) {
    forall i, j :: 0 <= i < j < |s| ==> Precedes(s[i], s[j])
  }

  /** Every string of `s` with `pre` in front of it. */
  function Prefixed(pre: string, s: seq<string>): (r: seq<string>)
    ensures |r| == |s|
    ensures forall i :: 0 <= i < |s| ==> r[i] == pre + s[i]
  {
    seq(|s|, i requires 0 <= i < |s| => pre + s[i])
  }

  lemma {:induction false} PrefixedMember(pre: string, s: seq<string>, x: string)
    ensures x in Prefixed(pre, s) <==> pre <= x && x[|pre|..] in s
  {
    var r := Prefixed(pre, s);
    if x in r {
      var i :| 0 <= i < |r| && r[i] == x;
      assert x[|pre|..] == s[i];
    }
    if pre <= x && x[|pre|..] in s {
      var i :| 0 <= i < |s| && s[i] == x[|pre|..];
      assert r[i] == x;
    }
  }

  lemma {:induction false} PrefixedAppend(pre: string, a: seq<string>, b: seq<string>)
    ensures Prefixed(pre, a + b) == Prefixed(pre, a) + Prefixed(pre, b)
  {
  }

  lemma {:induction false} PrefixedTwice(p: string, q: string, s: seq<string>)
    ensures Prefixed(p, Prefixed(q, s)) == Prefixed(p + q, s)
  {
    forall i | 0 <= i < |s|
      ensures Prefixed(p, Prefixed(q, s))[i] == Prefixed(p + q, s)[i]
    {
      assert p + (q + s[i]) == (p + q) + s[i];
    }
  }

  /** Behind `pre`, a block of strings that all start with `sym` is the
      same block behind `pre + [sym]`. */
  lemma {:induction false} PrefixedBlock(pre: string, a: seq<string>, sym: char, e: seq<string>)
    ensures Prefixed(pre, a + Prefixed([sym], e)) == Prefixed(pre, a) + Prefixed(pre + [sym], e)
  {
    PrefixedAppend(pre, a, Prefixed([sym], e));
    PrefixedTwice(pre, [sym], e);
  }

  /** A common prefix does not change the order of two strings. */
  lemma {:induction false} PrecedesCommonPrefix(pre: string, a: string, b: string)
    ensures Precedes(pre + a, pre + b) == Precedes(a, b)
  {
    if pre != [] {
      assert (pre + a)[0] == (pre + b)[0];
      assert (pre + a)[1..] == pre[1..] + a;
      assert (pre + b)[1..] == pre[1..] + b;
      PrecedesCommonPrefix(pre[1..], a, b);
    } else {
      assert pre + a == a && pre + b == b;
    }
  }

  lemma {:induction false} PrefixedSorted(pre: string, s: seq<string>)
    requires StrictlySorted(s)
    ensures StrictlySorted(Prefixed(pre, s))
  {
    var r := Prefixed(pre, s);
    forall i, j | 0 <= i < j < |r| ensures Precedes(r[i], r[j]) {
      PrecedesCommonPrefix(pre, s[i], s[j]);
    }
  }

  /** Two sorted runs, the whole of the first before the whole of the
      second, make one sorted run. */
  lemma {:induction false} SortedConcat(a: seq<string>, b: seq<string>)
    requires StrictlySorted(a) && StrictlySorted(b)
    requires forall x, y :: x in a && y in b ==> Precedes(x, y)
    ensures StrictlySorted(a + b)
  {
    var r := a + b;
    forall i, j | 0 <= i < j < |r| ensures Precedes(r[i], r[j]) {
      if j < |a| {
        assert r[i] == a[i] && r[j] == a[j];
      } else if i >= |a| {
        assert r[i] == b[i - |a|] && r[j] == b[j - |a|];
      } else {
        assert r[i] in a && r[j] in b;
      }
    }
  }

  /** Precedes is irreflexive, transitive and total on words, so it is a
      strict total order on them. */
  lemma {:induction false} PrecedesIrreflexive(a: string)
    ensures !Precedes(a, a)
  {
    if a != [] {
      PrecedesIrreflexive(a[1..]);
    }
  }

  lemma {:induction false} PrecedesTransitive(a: string, b: string, c: string)
    requires IsWord(a) && IsWord(b) && IsWord(c)
    requires Precedes(a, b) && Precedes(b, c)
    ensures Precedes(a, c)
  {
    if a != [] && b != [] && c != [] {
      if a[0] == b[0] && b[0] == c[0] {
        PrecedesTransitive(a[1..], b[1..], c[1..]);
      }
    }
  }

  lemma {:induction false} PrecedesTotal(a: string, b: string)
    requires IsWord(a) && IsWord(b) && a != b
    ensures Precedes(a, b) || Precedes(b, a)
  {
    if a != [] && b != [] {
      if a[0] == b[0] {
        assert a[1..] != b[1..];
        PrecedesTotal(a[1..], b[1..]);
      } else {
        assert SlotOf(a[0]) != SlotOf(b[0]) by {
          if SlotOf(a[0]) == SlotOf(b[0]) {
            SlotInjective(a[0], b[0]);
          }
        }
      }
    }
  }

  /** A strictly sorted sequence of words is determined by its elements. */
  lemma {:induction false} SortedUnique(s: seq<string>, t: seq<string>)
    requires forall i :: 0 <= i < |s| ==> IsWord(s[i])
    requires StrictlySorted(s) && StrictlySorted(t)
    requires forall x :: x in s <==> x in t
    ensures s == t
  {
    if s != [] {
      assert s[0] in t;
    }
    if t != [] {
      assert t[0] in s;
    }
    if s != [] && t != [] {
      // the head of each is the least element of both
      assert s[0] == t[0] by {
        if s[0] != t[0] {
          assert t[0] in s && s[0] in t;
          var i :| 0 <= i < |s| && s[i] == t[0];
          var j :| 0 <= j < |t| && t[j] == s[0];
          assert i > 0 && j > 0;
          assert Precedes(s[0], t[0]) && Precedes(t[0], s[0]);
          PrecedesTransitive(s[0], t[0], s[0]);
          PrecedesIrreflexive(s[0]);
        }
      }
      forall x ensures x in s[1..] <==> x in t[1..] {
        if x in s[1..] {
          var i :| 1 <= i < |s| && s[i] == x;
          assert Precedes(s[0], x);
          PrecedesIrreflexive(x);
          assert x in t && x != t[0];
        }
        if x in t[1..] {
          var j :| 1 <= j < |t| && t[j] == x;
          assert Precedes(t[0], x);
          PrecedesIrreflexive(x);
          assert x in s && x != s[0];
        }
      }
      SortedUnique(s[1..], t[1..]);
      assert s == [s[0]] + s[1..] && t == [t[0]] + t[1..];
    }
  }
}
