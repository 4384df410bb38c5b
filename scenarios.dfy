/** Sequences of user events on the animal list, and the list on a small fixed collection. */
module Scenarios {
  import opened Wrappers
  import opened Decimal
  import opened Text
  import opened Animals
  import opened AgeSort
  import opened Filtering
  import opened AnimalListView

  /** Pressing the sort button twice gives back the flag and the list shown before. */
  method ToggleSortTwice(list: AnimalList)
    requires list.Valid()
    modifies list`sortByAge
    ensures list.Valid()
    ensures list.sortByAge == old(list.sortByAge)
    ensures list.Visible() == old(list.Visible())
  {
    list.ToggleSort();
    list.ToggleSort();
  }

  /**
   * Share a record, type a date, confirm, and have the server accept: the request carries
   * the record's id and the typed date, and once the list is refetched the dialog is closed
   * with the typed date still in place.
   */
  method CheckupFlow(list: AnimalList, animal: Animal, date: string, refetched: seq<Animal>)
    returns (request: Request)
    requires list.Valid()
    modifies list
    ensures request == UpdateCheckup(animal.id, date)
    ensures list.Valid() && !list.modalOpen
    ensures list.selectedAnimal == Some(animal) && list.newCheckupDate == date
    ensures list.data == Some(refetched)
    ensures list.filterAge == old(list.filterAge) && list.filterType == old(list.filterType)
    ensures list.sortByAge == old(list.sortByAge)
  {
    list.ShareClick(animal);
    list.CheckupDateChange(date);
    request := list.Confirm();
    list.UpdateSuccess(refetched);
  }

  /** The list of two records, each kept or not by the two filters. */
  lemma FilteredPair(x: Animal, y: Animal, filterAge: string, filterType: string)
    ensures Filtered([x, y], filterAge, filterType) ==
      (if Passes(filterAge, filterType)(x) then [x] else []) +
      (if Passes(filterAge, filterType)(y) then [y] else [])
  {
    FilteredStep([], x, filterAge, filterType);
    FilteredStep([x], y, filterAge, filterType);
    assert [] + [x] == [x] && [x] + [y] == [x, y];
  }

  /** The decimal texts of the ages 5 and 15, and which contains which. */
  lemma AgeTexts()
    ensures NatToString(5) == "5" && NatToString(15) == "15"
    ensures Includes("5", "5") && Includes("15", "5") && Includes("15", "15") && !Includes("5", "15")
    ensures Includes("5", "") && Includes("15", "")
  {
    assert NatToString(15) == NatToString(1) + [DigitChar(5)];
    assert Includes("15", "5") by {
      assert Includes("5", "5");
    }
    IncludesEmpty("5");
    IncludesEmpty("15");
  }

  /** The age filter "5" keeps a dog of age 5 and a cat of age 15: both ages contain it. */
  lemma AgeFilterFiveKeepsBoth(dog: Animal, cat: Animal)
    requires dog.age == 5 && cat.age == 15
    ensures Derive([dog, cat], "5", "", false) == [dog, cat]
  {
    AgeTexts();
    FilteredPair(dog, cat, "5", "");
  }

  /** The age filter "15" keeps only the cat of age 15. */
  lemma AgeFilterFifteenKeepsCat(dog: Animal, cat: Animal)
    requires dog.age == 5 && cat.age == 15
    ensures Derive([dog, cat], "15", "", false) == [cat]
  {
    AgeTexts();
    FilteredPair(dog, cat, "15", "");
  }

  /** The type filter "cat" keeps only the cat. */
  lemma TypeFilterCatKeepsCat(dog: Animal, cat: Animal)
    requires dog.age == 5 && dog.kind == "dog" && cat.age == 15 && cat.kind == "cat"
    ensures Derive([dog, cat], "", "cat", false) == [cat]
  {
    AgeTexts();
    FilteredPair(dog, cat, "", "cat");
  }

  /** Sorting a cat of age 15 followed by a dog of age 5 puts the dog first. */
  lemma SortPutsDogFirst(dog: Animal, cat: Animal)
    requires dog.age == 5 && cat.age == 15
    ensures Derive([cat, dog], "", "", true) == [dog, cat]
  {
    AgeTexts();
    FilteredPair(cat, dog, "", "");
    CompareByAgeIsAgeDifference(cat, dog);
    assert Filtered([cat, dog], "", "") == [cat, dog];
    assert [cat, dog][..1] == [cat];
    assert InsertionSort([cat], CompareByAge) == [cat];
    assert [cat][..0] == [];
    assert Insert([cat], dog, CompareByAge) == [dog, cat];
  }
}
