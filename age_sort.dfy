/**
 * `filteredAnimals.sort(compare)`: insertion sort driven by a comparator, once as a function
 * on sequences and once in place on an array, as `Array.prototype.sort` works on the
 * filtered copy. With the list's comparator it is a stable sort by ascending age.
 */
module AgeSort {
  import opened Animals

  /** A sort comparator: negative puts the first argument first, positive the second. */
  type Comparator = (Animal, Animal) -> int

  /** `compare` is the difference of the ages, as the list's comparator is. */
  ghost predicate ComparesAges(compare: Comparator) {
    forall a, b :: compare(a, b) == a.age - b.age
  }

  lemma ListComparatorComparesAges()
    ensures ComparesAges(CompareByAge)
  {
    forall a, b ensures CompareByAge(a, b) == a.age - b.age {
      CompareByAgeIsAgeDifference(a, b);
    }
  }

  ghost predicate SortedByAge(s: seq<Animal>) {
    forall i, j :: 0 <= i < j < |s| ==> s[i].age <= s[j].age
  }

  /** The records of `s` whose age is `k`, in the order of `s`. */
  function OfAge(s: seq<Animal>, k: nat): seq<Animal> {
    if s == [] then []
    else OfAge(s[..|s| - 1], k) + (if s[|s| - 1].age == k then [s[|s| - 1]] else [])
  }

  /** `r` keeps every group of records of equal age in the order it has in `s`. */
  ghost predicate StableFor(r: seq<Animal>, s: seq<Animal>) {
    forall k: nat :: OfAge(r, k) == OfAge(s, k)
  }

  lemma {:induction false} OfAgeAppend(a: seq<Animal>, b: seq<Animal>, k: nat)
    ensures OfAge(a + b, k) == OfAge(a, k) + OfAge(b, k)
  {
    if b == [] {
      assert a + b == a;
    } else {
      var b' := b[..|b| - 1];
      assert (a + b)[..|a + b| - 1] == a + b';
      OfAgeAppend(a, b', k);
    }
  }

  /**
   * Insert `x` into `t`, scanning from the right past every record the comparator puts
   * after `x`; a zero comparison leaves `x` behind the record, which keeps the sort stable.
   */
  function Insert(t: seq<Animal>, x: Animal, compare: Comparator): seq<Animal> {
    if t == [] || compare(t[|t| - 1], x) <= 0 then t + [x]
    else Insert(t[..|t| - 1], x, compare) + [t[|t| - 1]]
  }

  /** Insertion sort: insert each record, from the first to the last, into the sorted prefix. */
  function InsertionSort(s: seq<Animal>, compare: Comparator): seq<Animal> {
    if s == [] then [] else Insert(InsertionSort(s[..|s| - 1], compare), s[|s| - 1], compare)
  }

  /** Inserting adds exactly `x`, whatever the comparator. */
  lemma {:induction false} InsertPermutes(t: seq<Animal>, x: Animal, compare: Comparator)
    ensures multiset(Insert(t, x, compare)) == multiset(t) + multiset{x}
  {
    if t != [] && compare(t[|t| - 1], x) > 0 {
      var t' := t[..|t| - 1];
      assert t == t' + [t[|t| - 1]];
      InsertPermutes(t', x, compare);
    }
  }

  lemma {:induction false} InsertSorted(t: seq<Animal>, x: Animal, compare: Comparator)
    requires ComparesAges(compare)
    requires SortedByAge(t)
    ensures SortedByAge(Insert(t, x, compare))
  {
    if t != [] {
      var last := t[|t| - 1];
      if compare(last, x) > 0 {
        var t' := t[..|t| - 1];
        InsertSorted(t', x, compare);
        var r' := Insert(t', x, compare);
        InsertPermutes(t', x, compare);
        forall i | 0 <= i < |r'| ensures r'[i].age <= last.age {
          assert r'[i] in multiset(r');
          if r'[i] != x {
            assert r'[i] in t';
          }
        }
      }
    }
  }

  /** The records of age `k` in a one-record sequence. */
  lemma OfAgeSingle(y: Animal, k: nat)
    ensures OfAge([y], k) == if y.age == k then [y] else []
  {
    assert [y][..0] == [];
  }

  /**
   * Putting a record older than `x` behind a sequence that already has `x`'s group in the
   * right place keeps it there.
   */
  lemma OfAgeBehind(r: seq<Animal>, t: seq<Animal>, x: Animal, last: Animal, k: nat)
    requires last.age > x.age
    requires OfAge(r, k) == OfAge(t, k) + OfAge([x], k)
    ensures OfAge(r + [last], k) == OfAge(t + [last], k) + OfAge([x], k)
  {
    OfAgeAppend(r, [last], k);
    OfAgeAppend(t, [last], k);
    OfAgeSingle(x, k);
    OfAgeSingle(last, k);
  }

  lemma {:induction false} InsertOfAge(t: seq<Animal>, x: Animal, compare: Comparator, k: nat)
    requires ComparesAges(compare)
    ensures OfAge(Insert(t, x, compare), k) == OfAge(t, k) + OfAge([x], k)
  {
    if t == [] || compare(t[|t| - 1], x) <= 0 {
      OfAgeAppend(t, [x], k);
    } else {
      var last := t[|t| - 1];
      var t' := t[..|t| - 1];
      assert last.age > x.age;
      InsertOfAge(t', x, compare, k);
      OfAgeBehind(Insert(t', x, compare), t', x, last, k);
      assert t' + [last] == t;
    }
  }

  lemma StableInsert(t: seq<Animal>, s': seq<Animal>, x: Animal, compare: Comparator)
    requires ComparesAges(compare)
    requires StableFor(t, s')
    ensures StableFor(Insert(t, x, compare), s' + [x])
  {
    forall k: nat ensures OfAge(Insert(t, x, compare), k) == OfAge(s' + [x], k) {
      InsertOfAge(t, x, compare, k);
      OfAgeAppend(s', [x], k);
    }
  }

  /** Whatever the comparator, the sort only reorders: the result is a permutation of `s`. */
  lemma {:induction false} InsertionSortPermutes(s: seq<Animal>, compare: Comparator)
    ensures multiset(InsertionSort(s, compare)) == multiset(s)
  {
    if s != [] {
      var s' := s[..|s| - 1];
      assert s == s' + [s[|s| - 1]];
      InsertionSortPermutes(s', compare);
      InsertPermutes(InsertionSort(s', compare), s[|s| - 1], compare);
    }
  }

  /**
   * With an age comparator the sorted copy is in ascending age, and records of equal age
   * keep their original relative order.
   */
  lemma {:induction false} InsertionSortIsStableByAge(s: seq<Animal>, compare: Comparator)
    requires ComparesAges(compare)
    ensures SortedByAge(InsertionSort(s, compare))
    ensures StableFor(InsertionSort(s, compare), s)
  {
    if s != [] {
      var s' := s[..|s| - 1];
      var x := s[|s| - 1];
      assert s == s' + [x];
      InsertionSortIsStableByAge(s', compare);
      InsertSorted(InsertionSort(s', compare), x, compare);
      StableInsert(InsertionSort(s', compare), s', x, compare);
    }
  }

  /** Once the record to the left of position `j` is not after `x`, `x` goes right there. */
  lemma {:induction false} InsertSplit(t: seq<Animal>, x: Animal, compare: Comparator, j: nat)
    requires j <= |t|
    requires j == 0 || compare(t[j - 1], x) <= 0
    requires forall k :: j <= k < |t| ==> compare(t[k], x) > 0
    ensures Insert(t, x, compare) == t[..j] + [x] + t[j..]
    decreases |t|
  {
    if j == |t| {
      assert t[..j] == t;
    } else {
      var t' := t[..|t| - 1];
      assert compare(t[|t| - 1], x) > 0;
      assert Insert(t, x, compare) == Insert(t', x, compare) + [t[|t| - 1]];
      InsertSplit(t', x, compare, j);
      assert t'[..j] == t[..j];
      assert t[j..] == t'[j..] + [t[|t| - 1]];
    }
  }

  lemma Shifted(t: seq<Animal>, r: seq<Animal>, x: Animal, j: nat)
    requires j <= |t| && |r| == |t| + 1
    requires forall k :: 0 <= k < j ==> r[k] == t[k]
    requires r[j] == x
    requires forall k :: j < k < |r| ==> r[k] == t[k - 1]
    ensures r == t[..j] + [x] + t[j..]
  {
  }

  /**
   * `Array.prototype.sort(compare)` on the filtered copy: insertion sort in place, growing a
   * sorted prefix one record at a time.
   */
  method SortInPlace(a: array<Animal>, compare: Comparator)
    modifies a
    ensures a[..] == InsertionSort(old(a[..]), compare)
  {
    ghost var input := a[..];
    var i := 0;
    while i < a.Length
      invariant 0 <= i <= a.Length
      invariant a[..i] == InsertionSort(input[..i], compare)
      invariant forall k :: i <= k < a.Length ==> a[k] == input[k]
    {
      assert input[..i + 1] == input[..i] + [input[i]];
      InsertAt(a, i, compare);
      i := i + 1;
    }
    assert a[..] == a[..a.Length] && input == input[..a.Length];
  }

  /**
   * Insert `a[i]` into the prefix `a[..i]`: shift every record the comparator puts after it
   * one place right, then drop it into the gap.
   */
  method InsertAt(a: array<Animal>, i: nat, compare: Comparator)
    requires i < a.Length
    modifies a
    ensures a[..i + 1] == Insert(old(a[..i]), old(a[i]), compare)
    ensures forall k :: i < k < a.Length ==> a[k] == old(a[k])
  {
    ghost var sorted := a[..i];
    var x := a[i];
    var j := ShiftPastLater(a, i, x, compare);
    a[j] := x;
    InsertSplit(sorted, x, compare, j);
    Shifted(sorted, a[..i + 1], x, j);
  }

  /**
   * Shift right by one place, from position `i - 1` downwards, every record the comparator
   * puts after `x`, stopping at the first that is not; `j` is the gap left behind.
   */
  method ShiftPastLater(a: array<Animal>, i: nat, x: Animal, compare: Comparator) returns (j: nat)
    requires i < a.Length
    modifies a
    ensures j <= i
    ensures j == 0 || compare(old(a[j - 1]), x) <= 0
    ensures forall k :: 0 <= k < j ==> a[k] == old(a[k])
    ensures forall k :: j < k <= i ==> a[k] == old(a[k - 1])
    ensures forall k :: j <= k < i ==> compare(old(a[k]), x) > 0
    ensures forall k :: i < k < a.Length ==> a[k] == old(a[k])
  {
    j := i;
    while j > 0 && compare(a[j - 1], x) > 0
      invariant j <= i
      invariant forall k :: 0 <= k < j ==> a[k] == old(a[k])
      invariant forall k :: j < k <= i ==> a[k] == old(a[k - 1])
      invariant forall k :: j <= k < i ==> compare(old(a[k]), x) > 0
      invariant forall k :: i < k < a.Length ==> a[k] == old(a[k])
      decreases j
    {
      a[j] := a[j - 1];
      j := j - 1;
    }
  }
}
