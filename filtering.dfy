/**
 * The derived visible list: `[...data]`, filtered by age text, filtered by type, and sorted
 * by age when the sort flag is set.
 */
module Filtering {
  import opened Text
  import opened Animals
  import opened AgeSort

  /** `array.filter(keep)`: the records the callback accepts, in their original order. */
  function Keep(s: seq<Animal>, keep: Animal -> bool): seq<Animal> {
    if s == [] then []
    else Keep(s[..|s| - 1], keep) + (if keep(s[|s| - 1]) then [s[|s| - 1]] else [])
  }

  /** The callback `animal => animal.age.toString().includes(filterAge)`. */
  function AgeContains(filterAge: string): Animal -> bool {
    a => Includes(AgeText(a), filterAge)
  }

  /** The callback `animal => animal.type === filterType`. */
  function TypeIs(filterType: string): Animal -> bool {
    (a: Animal) => a.kind == filterType
  }

  /** The age filter, applied only when the filter text is not empty. */
  function FilterByAge(s: seq<Animal>, filterAge: string): seq<Animal> {
    if filterAge != "" then Keep(s, AgeContains(filterAge)) else s
  }

  /** The type filter, applied only when a type is chosen. */
  function FilterByType(s: seq<Animal>, filterType: string): seq<Animal> {
    if filterType != "" then Keep(s, TypeIs(filterType)) else s
  }

  /** The filtered copy of the fetched records, before any sort. */
  function Filtered(data: seq<Animal>, filterAge: string, filterType: string): seq<Animal> {
    FilterByType(FilterByAge(data, filterAge), filterType)
  }

  /** The list the component renders. */
  function Derive(data: seq<Animal>, filterAge: string, filterType: string, sortByAge: bool): seq<Animal> {
    var filtered := Filtered(data, filterAge, filterType);
    if sortByAge then InsertionSort(filtered, CompareByAge) else filtered
  }

  /** What the type filter lets through: everything when no type is chosen. */
  function TypeMatches(filterType: string): Animal -> bool {
    (a: Animal) => filterType == "" || a.kind == filterType
  }

  /** What both filters let through. */
  function Passes(filterAge: string, filterType: string): Animal -> bool {
    (a: Animal) => Includes(AgeText(a), filterAge) && (filterType == "" || a.kind == filterType)
  }

  /** `r[k]` is `s[idx[k]]`, and the positions `idx` increase strictly. */
  ghost predicate Picks(r: seq<Animal>, s: seq<Animal>, idx: seq<int>) {
    && |idx| == |r|
    && (forall k :: 0 <= k < |idx| ==> 0 <= idx[k] < |s| && r[k] == s[idx[k]])
    && (forall k, l :: 0 <= k < l < |idx| ==> idx[k] < idx[l])
  }

  /**
   * `r` is `s` restricted to exactly the positions whose record `keep` accepts, in the order
   * of `s`.
   */
  ghost predicate SelectsExactly(r: seq<Animal>, s: seq<Animal>, keep: Animal -> bool) {
    exists idx :: SelectedAt(r, s, keep, idx)
  }

  /** `idx` witnesses that `r` is exactly the part of `s` that `keep` accepts. */
  ghost predicate SelectedAt(r: seq<Animal>, s: seq<Animal>, keep: Animal -> bool, idx: seq<int>) {
    Picks(r, s, idx) && forall i :: 0 <= i < |s| ==> (i in idx <==> keep(s[i]))
  }

  lemma ExtendAccepted(r: seq<Animal>, s: seq<Animal>, keep: Animal -> bool, x: Animal, idx: seq<int>)
    requires SelectedAt(r, s, keep, idx) && keep(x)
    ensures SelectedAt(r + [x], s + [x], keep, idx + [|s|])
  {
    var idx2 := idx + [|s|];
    forall i | 0 <= i < |s| + 1 ensures i in idx2 <==> keep((s + [x])[i]) {
      if i < |s| {
        assert (s + [x])[i] == s[i];
      } else {
        assert idx2[|idx|] == i;
      }
    }
  }

  lemma ExtendRejected(r: seq<Animal>, s: seq<Animal>, keep: Animal -> bool, x: Animal, idx: seq<int>)
    requires SelectedAt(r, s, keep, idx) && !keep(x)
    ensures SelectedAt(r, s + [x], keep, idx)
  {
    forall i | 0 <= i < |s| + 1 ensures i in idx <==> keep((s + [x])[i]) {
      if i < |s| {
        assert (s + [x])[i] == s[i];
      } else {
        forall k | 0 <= k < |idx| ensures idx[k] != i {
        }
      }
    }
  }

  /** Appending one record to the source extends an exact selection by that record, if accepted. */
  lemma SelectsExtend(r: seq<Animal>, s: seq<Animal>, keep: Animal -> bool, x: Animal)
    requires SelectsExactly(r, s, keep)
    ensures SelectsExactly(r + (if keep(x) then [x] else []), s + [x], keep)
  {
    var idx :| SelectedAt(r, s, keep, idx);
    if keep(x) {
      ExtendAccepted(r, s, keep, x, idx);
      assert SelectedAt(r + [x], s + [x], keep, idx + [|s|]);
    } else {
      ExtendRejected(r, s, keep, x, idx);
      assert r + [] == r;
    }
  }

  /** The filter keeps exactly the accepted records, in their original order. */
  lemma {:induction false} KeepSelectsExactly(s: seq<Animal>, keep: Animal -> bool)
    ensures SelectsExactly(Keep(s, keep), s, keep)
  {
    if s == [] {
      assert SelectedAt([], [], keep, []);
    } else {
      var s' := s[..|s| - 1];
      KeepSelectsExactly(s', keep);
      SelectsExtend(Keep(s', keep), s', keep, s[|s| - 1]);
      assert s' + [s[|s| - 1]] == s;
    }
  }

  /** A sequence all of whose records are accepted selects itself. */
  lemma SelectsAll(s: seq<Animal>, keep: Animal -> bool)
    requires forall i :: 0 <= i < |s| ==> keep(s[i])
    ensures SelectsExactly(s, s, keep)
  {
    var idx := seq(|s|, i => i);
    assert Picks(s, s, idx);
    forall i | 0 <= i < |s| ensures i in idx {
      assert idx[i] == i;
    }
    assert SelectedAt(s, s, keep, idx);
  }

  /** Exact selection can be read with any callback that agrees on the records of `s`. */
  lemma SelectsCongruent(r: seq<Animal>, s: seq<Animal>, p: Animal -> bool, q: Animal -> bool)
    requires SelectsExactly(r, s, p)
    requires forall i :: 0 <= i < |s| ==> p(s[i]) == q(s[i])
    ensures SelectsExactly(r, s, q)
  {
    var idx :| SelectedAt(r, s, p, idx);
    assert SelectedAt(r, s, q, idx);
  }

  /** An exact selection holds precisely the accepted records of `s`. */
  lemma SelectsMembers(r: seq<Animal>, s: seq<Animal>, keep: Animal -> bool)
    requires SelectsExactly(r, s, keep)
    ensures forall a :: a in r <==> a in s && keep(a)
  {
    var idx :| SelectedAt(r, s, keep, idx);
    forall a ensures a in r <==> a in s && keep(a) {
      if a in r {
        var k :| 0 <= k < |r| && r[k] == a;
        assert idx[k] in idx;
      }
      if a in s && keep(a) {
        var i :| 0 <= i < |s| && s[i] == a;
        var k :| 0 <= k < |idx| && idx[k] == i;
        assert r[k] == a;
      }
    }
  }

  /**
   * The age filter keeps exactly the records, in their original order, whose decimal age
   * contains the filter text; an empty filter keeps the list as it is.
   */
  lemma FilterByAgeSelects(s: seq<Animal>, filterAge: string)
    ensures SelectsExactly(FilterByAge(s, filterAge), s, AgeContains(filterAge))
    ensures filterAge == "" ==> FilterByAge(s, filterAge) == s
  {
    if filterAge == "" {
      forall i | 0 <= i < |s| ensures AgeContains(filterAge)(s[i]) {
        IncludesEmpty(AgeText(s[i]));
      }
      SelectsAll(s, AgeContains(filterAge));
    } else {
      KeepSelectsExactly(s, AgeContains(filterAge));
    }
  }

  /**
   * The type filter keeps exactly the records of the chosen type, in their original order;
   * with no type chosen it keeps the list as it is.
   */
  lemma FilterByTypeSelects(s: seq<Animal>, filterType: string)
    ensures SelectsExactly(FilterByType(s, filterType), s, TypeMatches(filterType))
    ensures filterType == "" ==> FilterByType(s, filterType) == s
  {
    if filterType == "" {
      SelectsAll(s, TypeMatches(filterType));
    } else {
      KeepSelectsExactly(s, TypeIs(filterType));
      SelectsCongruent(FilterByType(s, filterType), s, TypeIs(filterType), TypeMatches(filterType));
    }
  }

  /** Filtering one more fetched record appends it to the filtered copy exactly when it passes. */
  lemma FilteredStep(s: seq<Animal>, x: Animal, filterAge: string, filterType: string)
    ensures Filtered(s + [x], filterAge, filterType) ==
      Filtered(s, filterAge, filterType) + (if Passes(filterAge, filterType)(x) then [x] else [])
  {
    assert (s + [x])[..|s|] == s;
    var byAge := FilterByAge(s, filterAge);
    var ageOk := AgeContains(filterAge)(x);
    IncludesEmpty(AgeText(x));
    assert FilterByAge(s + [x], filterAge) == byAge + (if ageOk then [x] else []);
    if filterType != "" {
      if ageOk {
        assert (byAge + [x])[..|byAge|] == byAge;
        assert Keep(byAge + [x], TypeIs(filterType)) == Keep(byAge, TypeIs(filterType)) + (if x.kind == filterType then [x] else []);
      } else {
        assert byAge + [] == byAge;
      }
    }
  }

  /**
   * The filtered copy is the fetched list restricted to exactly the records that pass both
   * filters, in the fetched order.
   */
  lemma {:induction false} FilteredSelects(data: seq<Animal>, filterAge: string, filterType: string)
    ensures SelectsExactly(Filtered(data, filterAge, filterType), data, Passes(filterAge, filterType))
  {
    if data == [] {
      assert SelectedAt([], [], Passes(filterAge, filterType), []);
    } else {
      var s' := data[..|data| - 1];
      var x := data[|data| - 1];
      assert s' + [x] == data;
      FilteredSelects(s', filterAge, filterType);
      FilteredStep(s', x, filterAge, filterType);
      SelectsExtend(Filtered(s', filterAge, filterType), s', Passes(filterAge, filterType), x);
    }
  }

  /**
   * The rendered list holds exactly the fetched records that pass both filters, each as
   * often as in the fetched list. Unsorted it is the filtered copy; sorted it is that copy
   * in ascending age, records of equal age in fetched order.
   */
  lemma DeriveSpec(data: seq<Animal>, filterAge: string, filterType: string, sortByAge: bool)
    ensures forall a :: a in Derive(data, filterAge, filterType, sortByAge) <==>
      a in data && Passes(filterAge, filterType)(a)
    ensures multiset(Derive(data, filterAge, filterType, sortByAge)) == multiset(Filtered(data, filterAge, filterType))
    ensures !sortByAge ==> SelectsExactly(Derive(data, filterAge, filterType, sortByAge), data, Passes(filterAge, filterType))
    ensures sortByAge ==> SortedByAge(Derive(data, filterAge, filterType, sortByAge))
    ensures sortByAge ==> StableFor(Derive(data, filterAge, filterType, sortByAge), Filtered(data, filterAge, filterType))
  {
    var filtered := Filtered(data, filterAge, filterType);
    FilteredSelects(data, filterAge, filterType);
    SelectsMembers(filtered, data, Passes(filterAge, filterType));
    if sortByAge {
      InsertionSortPermutes(filtered, CompareByAge);
      ListComparatorComparesAges();
      InsertionSortIsStableByAge(filtered, CompareByAge);
      var r := Derive(data, filterAge, filterType, sortByAge);
      forall a ensures a in r <==> a in filtered {
        assert a in r <==> a in multiset(r);
        assert a in filtered <==> a in multiset(filtered);
      }
    }
  }
}
