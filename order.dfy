/** The order `Array.prototype.sort()` uses when it is given no comparator:
    strings compared character by character by code, a proper prefix first;
    and `[...new Set(array)]`, which keeps the first copy of each string. */
module StringOrder {

  /** `a` sorts strictly before `b`. */
  predicate Below(a: string, b: string) {
    if a == [] then b != []
    else if b == [] then false
    else if a[0] != b[0] then a[0] < b[0]
    else Below(a[1..], b[1..])
  }

  /** `a` sorts before `b` or is equal to it. */
  predicate AtMost(a: string, b: string) {
    !Below(b, a)
  }

  lemma {:induction false} BelowIrreflexive(a: string)
    ensures !Below(a, a)
  {
    if a != [] {
      BelowIrreflexive(a[1..]);
    }
  }

  lemma {:induction false} BelowTransitive(a: string, b: string, c: string)
    requires Below(a, b) && Below(b, c)
    ensures Below(a, c)
  {
    if a != [] && a[0] == b[0] && b[0] == c[0] {
      BelowTransitive(a[1..], b[1..], c[1..]);
    }
  }

  /** Two different strings are ordered one way or the other. */
  lemma {:induction false} BelowTotal(a: string, b: string)
    ensures a == b || Below(a, b) || Below(b, a)
  {
    if a != [] && b != [] && a[0] == b[0] {
      BelowTotal(a[1..], b[1..]);
      if a[1..] == b[1..] {
        assert a == [a[0]] + a[1..] && b == [b[0]] + b[1..];
      }
    }
  }

  lemma BelowAsymmetric(a: string, b: string)
    ensures Below(a, b) ==> !Below(b, a)
  {
    if Below(a, b) && Below(b, a) {
      BelowTransitive(a, b, a);
      BelowIrreflexive(a);
    }
  }

  /** `AtMost` is transitive. */
  lemma AtMostTransitive(a: string, b: string, c: string)
    requires AtMost(a, b) && AtMost(b, c)
    ensures AtMost(a, c)
  {
    if Below(c, a) {
      BelowTotal(a, b);
      if Below(a, b) {
        BelowTransitive(c, a, b);
      } else {
        BelowTransitive(c, a, b);
      }
    }
  }

  /** Neighbours are in order. */
  predicate Sorted(s: seq<string>) {
    forall i :: 0 < i < |s| ==> AtMost(s[i - 1], s[i])
  }

  /** Neighbours are in strict order: sorted and without repeats. */
  predicate StrictlySorted(s: seq<string>) {
    forall i :: 0 < i < |s| ==> Below(s[i - 1], s[i])
  }

  predicate NoDuplicates(s: seq<string>) {
    forall i, j :: 0 <= i < j < |s| ==> s[i] != s[j]
  }

  /** In a sorted sequence the first element is at most every element. */
  lemma {:induction false} SortedFirst(s: seq<string>, j: nat)
    requires Sorted(s) && j < |s|
    ensures AtMost(s[0], s[j])
  {
    if j == 0 {
      BelowIrreflexive(s[0]);
    } else {
      SortedFirst(s, j - 1);
      AtMostTransitive(s[0], s[j - 1], s[j]);
    }
  }

  /** In a strictly sorted sequence every element is below every later one. */
  lemma {:induction false} StrictlySortedBelow(s: seq<string>, i: nat, j: nat)
    requires StrictlySorted(s) && i < j < |s|
    ensures Below(s[i], s[j])
  {
    if i + 1 < j {
      StrictlySortedBelow(s, i, j - 1);
      BelowTransitive(s[i], s[j - 1], s[j]);
    }
  }

  /** A strictly sorted sequence repeats nothing. */
  lemma StrictlySortedNoDuplicates(s: seq<string>)
    requires StrictlySorted(s)
    ensures NoDuplicates(s)
  {
    forall i, j | 0 <= i < j < |s| ensures s[i] != s[j] {
      StrictlySortedBelow(s, i, j);
      BelowIrreflexive(s[i]);
    }
  }

  /** `x` put into the sorted `s` before the first element not below it. */
  function Insert(x: string, s: seq<string>): (r: seq<string>)
    ensures multiset(r) == multiset(s) + multiset{x}
    ensures |r| == |s| + 1 && (r[0] == x || (s != [] && r[0] == s[0]))
  {
    if s == [] then [x]
    else if AtMost(x, s[0]) then [x] + s
    else
      assert s == [s[0]] + s[1..];
      [s[0]] + Insert(x, s[1..])
  }

  /** Inserting into a sorted sequence keeps it sorted. */
  lemma {:induction false} InsertSorted(x: string, s: seq<string>)
    requires Sorted(s)
    ensures Sorted(Insert(x, s))
  {
    if s != [] && !AtMost(x, s[0]) {
      var rest := Insert(x, s[1..]);
      assert Sorted(s[1..]);
      InsertSorted(x, s[1..]);
      BelowAsymmetric(s[0], x);
      assert AtMost(s[0], rest[0]);
      assert Insert(x, s) == [s[0]] + rest;
    }
  }

  /** The sorted permutation of `s` (the algorithm does not matter, see
      `SortedUnique`). */
  function Sort(s: seq<string>): (r: seq<string>)
    ensures Sorted(r) && multiset(r) == multiset(s)
  {
    if s == [] then []
    else
      assert s == [s[0]] + s[1..];
      InsertSorted(s[0], Sort(s[1..]));
      Insert(s[0], Sort(s[1..]))
  }

  /** Two sorted arrangements of the same strings are the same sequence, so
      every correct sorting algorithm gives `Sort`'s result. */
  lemma {:induction false} SortedUnique(a: seq<string>, b: seq<string>)
    requires Sorted(a) && Sorted(b) && multiset(a) == multiset(b)
    ensures a == b
  {
    if a != [] {
      assert a[0] in multiset(b) && b[0] in multiset(a) by {
        assert a[0] in multiset(a) && b[0] in multiset(b) by {
          assert |b| == |a| && b[0] == b[0];
        }
      }
      var i :| 0 <= i < |b| && b[i] == a[0];
      var j :| 0 <= j < |a| && a[j] == b[0];
      SortedFirst(a, j);
      SortedFirst(b, i);
      BelowTotal(a[0], b[0]);
      assert a[0] == b[0];
      assert a == [a[0]] + a[1..] && b == [b[0]] + b[1..];
      assert multiset(a) == multiset{a[0]} + multiset(a[1..]);
      assert multiset(b) == multiset{b[0]} + multiset(b[1..]);
      assert multiset(a[1..]) == multiset(a) - multiset{a[0]};
      assert multiset(b[1..]) == multiset(b) - multiset{b[0]};
      SortedRest(a);
      SortedRest(b);
      SortedUnique(a[1..], b[1..]);
    }
  }

  lemma SortedRest(s: seq<string>)
    requires Sorted(s) && s != []
    ensures Sorted(s[1..])
  {
    forall i | 0 < i < |s| - 1 ensures AtMost(s[1..][i - 1], s[1..][i]) {
      assert s[1..][i - 1] == s[i] && s[1..][i] == s[i + 1];
    }
  }

  /** `[...new Set(s)]`: the first copy of every string, in order. */
  function Distinct(s: seq<string>): (r: seq<string>)
    ensures forall x :: x in r <==> x in s
    ensures NoDuplicates(r)
  {
    if s == [] then []
    else
      var r := Distinct(s[..|s| - 1]);
      var x := s[|s| - 1];
      assert s == s[..|s| - 1] + [x];
      if x in r then r else r + [x]
  }

  /** With a sorted input, dropping repeats leaves a strictly sorted sequence. */
  lemma {:induction false} DistinctSorted(s: seq<string>)
    requires Sorted(s)
    ensures StrictlySorted(Distinct(s))
    ensures s != [] ==> Distinct(s) != [] && Distinct(s)[|Distinct(s)| - 1] == s[|s| - 1]
  {
    if s != [] {
      var init := s[..|s| - 1];
      var x := s[|s| - 1];
      SortedInit(s);
      DistinctSorted(init);
      var r := Distinct(init);
      if x in r {
        assert Distinct(s) == r;
        assert x in init;
        var k :| 0 <= k < |init| && init[k] == x;
        SortedTail(init, k);
        assert AtMost(s[|s| - 2], s[|s| - 1]);
        BelowTotal(init[|init| - 1], x);
      } else {
        assert Distinct(s) == r + [x];
        if r != [] {
          assert AtMost(s[|s| - 2], s[|s| - 1]);
          assert r[|r| - 1] in r;
          BelowTotal(r[|r| - 1], x);
        }
        StrictlySortedSnoc(r, x);
      }
    }
  }

  lemma SortedInit(s: seq<string>)
    requires Sorted(s) && s != []
    ensures Sorted(s[..|s| - 1])
  {
  }

  lemma StrictlySortedSnoc(r: seq<string>, x: string)
    requires StrictlySorted(r) && (r != [] ==> Below(r[|r| - 1], x))
    ensures StrictlySorted(r + [x])
  {
  }

  /** In a sorted sequence every element is at most the last. */
  lemma {:induction false} SortedTail(s: seq<string>, k: nat)
    requires Sorted(s) && k < |s|
    ensures AtMost(s[k], s[|s| - 1])
    decreases |s| - k
  {
    if k == |s| - 1 {
      BelowIrreflexive(s[k]);
    } else {
      SortedTail(s, k + 1);
      AtMostTransitive(s[k], s[k + 1], s[|s| - 1]);
    }
  }
}
