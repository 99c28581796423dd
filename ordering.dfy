/** The order in which directory listings are sorted, and the sort itself. */
module Ordering {

  /** Lexicographic order on strings, character by character, a proper prefix
      coming first: how Python compares two strings. Comparing the UTF-8
      encodings byte by byte gives the same order, since UTF-8 preserves the
      order of code points. */
  predicate LexLessEq(a: string, b: string)
    decreases |a|
  {
    a == [] || (b != [] && (a[0] < b[0] || (a[0] == b[0] && LexLessEq(a[1..], b[1..]))))
  }

  lemma {:induction false} LexReflexive(a: string)
    ensures LexLessEq(a, a)
    decreases |a|
  {
    if a != [] { LexReflexive(a[1..]); }
  }

  lemma {:induction false} LexTotal(a: string, b: string)
    ensures LexLessEq(a, b) || LexLessEq(b, a)
    decreases |a|
  {
    if a != [] && b != [] && a[0] == b[0] { LexTotal(a[1..], b[1..]); }
  }

  lemma {:induction false} LexAntisymmetric(a: string, b: string)
    requires LexLessEq(a, b) && LexLessEq(b, a)
    ensures a == b
    decreases |a|
  {
    if a != [] {
      LexAntisymmetric(a[1..], b[1..]);
      assert a == [a[0]] + a[1..] && b == [b[0]] + b[1..];
    }
  }

  lemma {:induction false} LexTransitive(a: string, b: string, c: string)
    requires LexLessEq(a, b) && LexLessEq(b, c)
    ensures LexLessEq(a, c)
    decreases |a|
  {
    if a != [] && a[0] == b[0] && b[0] == c[0] {
      LexTransitive(a[1..], b[1..], c[1..]);
    }
  }

  /** Every element is at most every later one. */
  ghost predicate Sorted(s: seq<string>) {
    forall i, j :: 0 <= i < j < |s| ==> LexLessEq(s[i], s[j])
  }

  /** Puts x in front of the first element it does not exceed. */
  function Insert(x: string, s: seq<string>): (r: seq<string>)
    ensures multiset(r) == multiset(s) + multiset{x}
  {
    if s == [] then [x]
    else if LexLessEq(x, s[0]) then [x] + s
    else
      assert s == [s[0]] + s[1..];
      [s[0]] + Insert(x, s[1..])
  }

  lemma {:induction false} InsertSorted(x: string, s: seq<string>)
    requires Sorted(s)
    ensures Sorted(Insert(x, s))
  {
    if s == [] {
    } else if LexLessEq(x, s[0]) {
      SortedCons(x, s);
    } else {
      InsertSorted(x, s[1..]);
      LexTotal(x, s[0]);
      InsertedHeadLeast(x, s);
      SortedCons(s[0], Insert(x, s[1..]));
    }
  }

  /** A sorted sequence stays sorted with a head that is at most its first
      element. */
  lemma {:induction false} SortedCons(x: string, s: seq<string>)
    requires Sorted(s) && (s != [] ==> LexLessEq(x, s[0]))
    ensures Sorted([x] + s)
  {
    var r := [x] + s;
    forall k, m | 0 <= k < m < |r| ensures LexLessEq(r[k], r[m]) {
      if k == 0 {
        if m > 1 { LexTransitive(x, s[0], s[m - 1]); }
      } else {
        assert r[k] == s[k - 1] && r[m] == s[m - 1];
      }
    }
  }

  /** When x goes after s[0], s[0] is at most the head of the rest with x
      inserted. */
  lemma {:induction false} InsertedHeadLeast(x: string, s: seq<string>)
    requires Sorted(s) && s != [] && LexLessEq(s[0], x)
    ensures Insert(x, s[1..]) != [] && LexLessEq(s[0], Insert(x, s[1..])[0])
  {
    var rest := Insert(x, s[1..]);
    assert |rest| == |s[1..]| + 1 by { assert |multiset(rest)| == |multiset(s[1..])| + 1; }
    var h := rest[0];
    assert h in multiset(rest);
    assert h in multiset(s[1..]) + multiset{x};
    if h != x {
      assert h in s[1..];
      var n :| 0 <= n < |s[1..]| && s[1..][n] == h;
      assert s[n + 1] == h;
    }
  }

  /** A functional insertion sort: the reference for what a listing holds
      once it has been sorted. */
  function Sort(s: seq<string>): (r: seq<string>)
    ensures Sorted(r) && multiset(r) == multiset(s)
  {
    if s == [] then []
    else
      assert s == [s[0]] + s[1..];
      InsertSorted(s[0], Sort(s[1..]));
      Insert(s[0], Sort(s[1..]))
  }

  /** The head of a sorted sequence is at most each of its elements. */
  lemma {:induction false} SortedHeadLeast(t: seq<string>, x: string)
    requires Sorted(t) && x in t
    ensures LexLessEq(t[0], x)
  {
    var i :| 0 <= i < |t| && t[i] == x;
    if i == 0 { LexReflexive(x); }
  }

  /** Two sorted sequences with the same elements are the same sequence, so
      "sorted permutation of s" determines Sort(s). */
  lemma {:induction false} SortedUnique(t: seq<string>, u: seq<string>)
    requires Sorted(t) && Sorted(u) && multiset(t) == multiset(u)
    ensures t == u
    decreases |t|
  {
    if t != [] {
      assert |u| == |t| by { assert |multiset(u)| == |multiset(t)|; }
      assert t[0] in multiset(u) && u[0] in multiset(t);
      assert t[0] in u && u[0] in t;
      SortedHeadLeast(u, t[0]);
      SortedHeadLeast(t, u[0]);
      LexAntisymmetric(t[0], u[0]);
      SortedTail(t);
      SortedTail(u);
      TailMultiset(t, u);
      SortedUnique(t[1..], u[1..]);
      assert t == [t[0]] + t[1..] && u == [u[0]] + u[1..];
    }
  }

  lemma {:induction false} TailMultiset(t: seq<string>, u: seq<string>)
    requires t != [] && u != [] && t[0] == u[0] && multiset(t) == multiset(u)
    ensures multiset(t[1..]) == multiset(u[1..])
  {
    assert t == [t[0]] + t[1..] && u == [u[0]] + u[1..];
    assert multiset(t[1..]) == multiset(t) - multiset{t[0]};
    assert multiset(u[1..]) == multiset(u) - multiset{u[0]};
  }

  lemma {:induction false} SortedTail(t: seq<string>)
    requires Sorted(t) && t != []
    ensures Sorted(t[1..])
  {
    forall i, j | 0 <= i < j < |t| - 1 ensures LexLessEq(t[1..][i], t[1..][j]) {
      assert t[1..][i] == t[i + 1] && t[1..][j] == t[j + 1];
    }
  }

  /** Sorting a sequence that is already sorted changes nothing. */
  lemma {:induction false} SortSorted(s: seq<string>)
    requires Sorted(s)
    ensures Sort(s) == s
  {
    SortedUnique(Sort(s), s);
  }

  /** The state of inserting s[j] into the sorted prefix: apart from
      position j, s[..i + 1] is sorted, and s[j] is at most everything
      between j and i. */
  ghost predicate Inserting(s: seq<string>, i: nat, j: nat)
    requires j <= i < |s|
  {
    && (forall k, m :: 0 <= k < m <= i && k != j && m != j ==> LexLessEq(s[k], s[m]))
    && (forall m :: j < m <= i ==> LexLessEq(s[j], s[m]))
  }

  lemma {:induction false} InsertingStart(s: seq<string>, i: nat)
    requires i < |s| && Sorted(s[..i])
    ensures Inserting(s, i, i)
  {
    forall k, m | 0 <= k < m < i ensures LexLessEq(s[k], s[m]) {
      assert s[..i][k] == s[k] && s[..i][m] == s[m];
    }
  }

  lemma {:induction false} InsertingSwap(s: seq<string>, i: nat, j: nat)
    requires 0 < j <= i < |s| && Inserting(s, i, j) && !LexLessEq(s[j - 1], s[j])
    ensures Inserting(s[j - 1 := s[j]][j := s[j - 1]], i, j - 1)
  {
    LexTotal(s[j - 1], s[j]);
    var t := s[j - 1 := s[j]][j := s[j - 1]];
    forall m | j - 1 < m <= i ensures LexLessEq(t[j - 1], t[m]) {
      if m > j { LexTransitive(s[j], s[j - 1], s[m]); }
    }
  }

  lemma {:induction false} InsertingDone(s: seq<string>, i: nat, j: nat)
    requires j <= i < |s| && Inserting(s, i, j) && (j == 0 || LexLessEq(s[j - 1], s[j]))
    ensures Sorted(s[..i + 1])
  {
    forall k | 0 <= k < j ensures LexLessEq(s[k], s[j]) {
      if k < j - 1 { LexTransitive(s[k], s[j - 1], s[j]); }
    }
    var p := s[..i + 1];
    forall k, m | 0 <= k < m < |p| ensures LexLessEq(p[k], p[m]) {
      assert p[k] == s[k] && p[m] == s[m];
    }
  }

  /** Exchanging two elements keeps the multiset. */
  lemma {:induction false} SwapMultiset(s: seq<string>, i: nat, j: nat)
    requires i < j < |s|
    ensures multiset(s[i := s[j]][j := s[i]]) == multiset(s)
  {
    var t := s[i := s[j]];
    assert multiset(t) == multiset(s) - multiset{s[i]} + multiset{s[j]};
    assert multiset(t[j := s[i]]) == multiset(t) - multiset{t[j]} + multiset{s[i]};
  }

  /** Moves a[i] left past every larger element of the sorted prefix a[..i],
      so that a[..i + 1] becomes sorted. */
  method InsertLast(a: array<string>, i: nat)
    requires i < a.Length && Sorted(a[..i])
    modifies a
    ensures Sorted(a[..i + 1])
    ensures multiset(a[..]) == multiset(old(a[..]))
    ensures a[i + 1..] == old(a[i + 1..])
  {
    InsertingStart(a[..], i);
    var j := i;
    while j > 0 && !LexLessEq(a[j - 1], a[j])
      invariant 0 <= j <= i
      invariant multiset(a[..]) == multiset(old(a[..]))
      invariant Inserting(a[..], i, j)
      invariant a[i + 1..] == old(a[i + 1..])
    {
      ghost var s := a[..];
      InsertingSwap(s, i, j);
      SwapMultiset(s, j - 1, j);
      a[j - 1], a[j] := a[j], a[j - 1];
      assert a[..] == s[j - 1 := s[j]][j := s[j - 1]];
      j := j - 1;
    }
    InsertingDone(a[..], i, j);
  }

  /** Sorts an array in place (what `list.sort` does to a listing): afterwards
      the array holds the sorted permutation of what it held before. */
  method SortInPlace(a: array<string>)
    modifies a
    ensures a[..] == Sort(old(a[..]))
  {
    var i := 0;
    while i < a.Length
      invariant 0 <= i <= a.Length
      invariant Sorted(a[..i])
      invariant multiset(a[..]) == multiset(old(a[..]))
    {
      InsertLast(a, i);
      i := i + 1;
    }
    assert a[..] == a[..a.Length];
    SortedUnique(a[..], Sort(old(a[..])));
  }
}
