/**
 * Python's `list.sort(key=...)` and `sorted(..., reverse=True)` are stable
 * sorts. They are library calls in the source, so they are modelled as a
 * function: an insertion sort that places each element before the first one
 * it may precede, which keeps equal elements in their original order.
 */
module Sorting {

  /** `le` compares everything and chains: a total preorder. */
  ghost predicate TotalPreorder<T(!new)>(le: (T, T) -> bool) {
    && (forall a, b :: le(a, b) || le(b, a))
    && (forall a, b, c :: le(a, b) && le(b, c) ==> le(a, c))
  }

  ghost predicate SortedBy<T>(s: seq<T>, le: (T, T) -> bool) {
    forall i, j :: 0 <= i < j < |s| ==> le(s[i], s[j])
  }

  function Insert<T>(x: T, s: seq<T>, le: (T, T) -> bool): seq<T> {
    if s == [] || le(x, s[0]) then [x] + s else [s[0]] + Insert(x, s[1..], le)
  }

  function SortBy<T>(s: seq<T>, le: (T, T) -> bool): seq<T> {
    if s == [] then [] else Insert(s[0], SortBy(s[1..], le), le)
  }

  /** The elements satisfying `p`, in order: `[x for x in s if p(x)]`. */
  function Filter<T>(s: seq<T>, p: T -> bool): seq<T> {
    if s == [] then [] else (if p(s[0]) then [s[0]] else []) + Filter(s[1..], p)
  }

  lemma {:induction false} InsertPermutes<T>(x: T, s: seq<T>, le: (T, T) -> bool)
    ensures multiset(Insert(x, s, le)) == multiset{x} + multiset(s)
  {
    if s != [] && !le(x, s[0]) {
      InsertPermutes(x, s[1..], le);
      assert s == [s[0]] + s[1..];
    }
  }

  /** Sorting only reorders: the result is a permutation of the input. */
  lemma {:induction false} SortByPermutes<T>(s: seq<T>, le: (T, T) -> bool)
    ensures multiset(SortBy(s, le)) == multiset(s)
    ensures |SortBy(s, le)| == |s|
  {
    if s != [] {
      SortByPermutes(s[1..], le);
      InsertPermutes(s[0], SortBy(s[1..], le), le);
      assert s == [s[0]] + s[1..];
    }
    assert |multiset(SortBy(s, le))| == |multiset(s)|;
  }

  lemma {:induction false} InsertSorted<T(!new)>(x: T, s: seq<T>, le: (T, T) -> bool)
    requires TotalPreorder(le) && SortedBy(s, le)
    ensures SortedBy(Insert(x, s, le), le)
  {
    if s == [] || le(x, s[0]) {
      var r := [x] + s;
      forall i, j | 0 <= i < j < |r| ensures le(r[i], r[j]) {
        if i == 0 && j > 1 {
          assert le(s[0], s[j - 1]);
        }
      }
    } else {
      var t := Insert(x, s[1..], le);
      InsertSorted(x, s[1..], le);
      InsertPermutes(x, s[1..], le);
      var r := [s[0]] + t;
      forall i, j | 0 <= i < j < |r| ensures le(r[i], r[j]) {
        if i == 0 {
          assert r[j] in multiset(t);
          assert r[j] == x || r[j] in multiset(s[1..]);
          if r[j] != x {
            var k :| 1 <= k < |s| && s[k] == r[j];
          }
        }
      }
    }
  }

  /** With a total preorder, the result is in order. */
  lemma {:induction false} SortBySorted<T(!new)>(s: seq<T>, le: (T, T) -> bool)
    requires TotalPreorder(le)
    ensures SortedBy(SortBy(s, le), le)
  {
    if s != [] {
      SortBySorted(s[1..], le);
      InsertSorted(s[0], SortBy(s[1..], le), le);
    }
  }

  /** The indices below `n` that satisfy `p`, in increasing order. */
  function Positions(n: nat, p: nat -> bool): (r: seq<nat>)
    ensures forall k :: 0 <= k < |r| ==> r[k] < n
  {
    if n == 0 then [] else Positions(n - 1, p) + (if p(n - 1) then [n - 1] else [])
  }

  /** `Positions` holds every index below `n` that satisfies `p`, each once, and nothing else. */
  lemma {:induction false} PositionsSpec(n: nat, p: nat -> bool)
    ensures var r := Positions(n, p);
      && (forall k :: 0 <= k < |r| ==> p(r[k]))
      && (forall k, l :: 0 <= k < l < |r| ==> r[k] < r[l])
      && (forall i :: 0 <= i < n && p(i) ==> i in r)
  {
    if n > 0 {
      PositionsSpec(n - 1, p);
      var r0 := Positions(n - 1, p);
      var r := Positions(n, p);
      if p(n - 1) {
        assert r == r0 + [n - 1];
        forall i | 0 <= i < n && p(i) ensures i in r {
          if i < n - 1 {
            assert i in r0;
          } else {
            assert r[|r| - 1] == i;
          }
        }
      } else {
        assert r == r0;
      }
    }
  }

  /** The elements of `s` at the indices `idx`, in the order of `idx`. */
  function Pick<T>(s: seq<T>, idx: seq<nat>): (r: seq<T>)
    requires forall k :: 0 <= k < |idx| ==> idx[k] < |s|
    ensures |r| == |idx|
  {
    seq(|idx|, k requires 0 <= k < |idx| => s[idx[k]])
  }

  /** One more index picks one more element. */
  lemma PickAppend<T>(s: seq<T>, idx: seq<nat>, i: nat)
    requires i < |s| && forall k :: 0 <= k < |idx| ==> idx[k] < |s|
    ensures Pick(s, idx + [i]) == Pick(s, idx) + [s[i]]
  {
  }

  /** Predicates that agree below `n` pick the same positions. */
  lemma {:induction false} PositionsAgree(n: nat, p: nat -> bool, q: nat -> bool)
    requires forall i :: 0 <= i < n ==> p(i) == q(i)
    ensures Positions(n, p) == Positions(n, q)
  {
    if n > 0 {
      PositionsAgree(n - 1, p, q);
    }
  }

  /** The first element `Filter` keeps is the first element of `s` satisfying `p`. */
  lemma {:induction false} FilterHead<T>(s: seq<T>, p: T -> bool, f: nat)
    requires f < |s| && p(s[f]) && forall j :: 0 <= j < f ==> !p(s[j])
    ensures |Filter(s, p)| > 0 && Filter(s, p)[0] == s[f]
  {
    if f > 0 {
      FilterHead(s[1..], p, f - 1);
    }
  }

  /** Some element satisfies `p`, so a first one does. */
  lemma FirstSatisfying<T>(s: seq<T>, p: T -> bool, i: nat) returns (f: nat)
    requires i < |s| && p(s[i])
    ensures f <= i && p(s[f]) && forall j :: 0 <= j < f ==> !p(s[j])
    decreases i
  {
    if forall j :: 0 <= j < i ==> !p(s[j]) {
      f := i;
    } else {
      var j :| 0 <= j < i && p(s[j]);
      f := FirstSatisfying(s, p, j);
    }
  }

  lemma {:induction false} InsertFilter<T>(x: T, s: seq<T>, le: (T, T) -> bool, p: T -> bool)
    requires forall a, b :: p(a) && p(b) ==> le(a, b)
    ensures Filter(Insert(x, s, le), p) == (if p(x) then [x] else []) + Filter(s, p)
  {
    if s == [] || le(x, s[0]) {
      assert ([x] + s)[1..] == s;
      assert Filter([x] + s, p) == (if p(x) then [x] else []) + Filter(s, p);
    } else {
      var t := Insert(x, s[1..], le);
      InsertFilter(x, s[1..], le, p);
      assert ([s[0]] + t)[1..] == t;
      assert Filter([s[0]] + t, p) == (if p(s[0]) then [s[0]] else []) + Filter(t, p);
      assert Filter(s, p) == (if p(s[0]) then [s[0]] else []) + Filter(s[1..], p);
      if p(x) {
        assert !p(s[0]);
      }
    }
  }

  /**
   * Stability: for any class `p` of mutually equivalent elements, the members
   * of that class appear in the sorted list in their original order.
   */
  lemma {:induction false} SortByStable<T>(s: seq<T>, le: (T, T) -> bool, p: T -> bool)
    requires forall a, b :: p(a) && p(b) ==> le(a, b)
    ensures Filter(SortBy(s, le), p) == Filter(s, p)
  {
    if s != [] {
      SortByStable(s[1..], le, p);
      InsertFilter(s[0], SortBy(s[1..], le), le, p);
    }
  }

  /** `Filter` keeps exactly the elements satisfying `p`. */
  lemma {:induction false} FilterMembers<T>(s: seq<T>, p: T -> bool)
    ensures forall x :: x in Filter(s, p) <==> x in s && p(x)
    ensures |Filter(s, p)| <= |s|
  {
    if s != [] {
      FilterMembers(s[1..], p);
      assert s == [s[0]] + s[1..];
    }
  }

  ghost predicate NoDuplicates<T>(s: seq<T>) {
    forall i, j :: 0 <= i < j < |s| ==> s[i] != s[j]
  }

  lemma {:induction false} InsertNoDuplicates<T>(x: T, s: seq<T>, le: (T, T) -> bool)
    requires NoDuplicates(s) && x !in s
    ensures NoDuplicates(Insert(x, s, le))
  {
    if s != [] && !le(x, s[0]) {
      InsertNoDuplicates(x, s[1..], le);
      InsertPermutes(x, s[1..], le);
      var t := Insert(x, s[1..], le);
      assert s[0] !in multiset(t);
      forall i, j | 0 <= i < j < |[s[0]] + t| ensures ([s[0]] + t)[i] != ([s[0]] + t)[j] {
        if i == 0 {
          assert t[j - 1] in multiset(t);
        }
      }
    }
  }

  /** Sorting a list without duplicates gives a list without duplicates. */
  lemma {:induction false} SortByNoDuplicates<T>(s: seq<T>, le: (T, T) -> bool)
    requires NoDuplicates(s)
    ensures NoDuplicates(SortBy(s, le))
  {
    if s != [] {
      SortByNoDuplicates(s[1..], le);
      SortByPermutes(s[1..], le);
      assert s[0] !in multiset(s[1..]);
      assert s[0] !in multiset(SortBy(s[1..], le));
      InsertNoDuplicates(s[0], SortBy(s[1..], le), le);
    }
  }
}
