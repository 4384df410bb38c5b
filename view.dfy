/**
 * The animal-list component as a state machine: its state hooks are the fields of a class,
 * its event handlers are the methods that update them, and a render computes the list the
 * page shows from that state.
 */
module AnimalListView {
  import opened Wrappers
  import opened Text
  import opened Animals
  import opened AgeSort
  import opened Filtering
  import opened TypeMenu

  /** A mutation the component hands to the server. */
  datatype Request =
    | UpdateCheckup(id: string, date: string)
    | DeleteAnimal(id: string)

  /** The caption of the sort button for a given state of the sort flag. */
  function SortLabel(sortByAge: bool): string {
    if sortByAge then "Sort by Age (Descending)" else "Sort by Age (Ascending)"
  }

  /**
   * The list shown while the button reads "Descending" is in ascending age: the comparator
   * never changes direction, so every record is at most as old as the ones after it.
   */
  lemma DescendingLabelShowsAscendingAges(data: seq<Animal>, filterAge: string, filterType: string, sortByAge: bool)
    requires SortLabel(sortByAge) == "Sort by Age (Descending)"
    ensures var r := Derive(data, filterAge, filterType, sortByAge);
      forall i, j :: 0 <= i < j < |r| ==> r[i].age <= r[j].age
  {
    DeriveSpec(data, filterAge, filterType, sortByAge);
  }

  /** Sorting only reorders: the sorted and the unsorted lists hold the same records. */
  lemma SortKeepsRecords(data: seq<Animal>, filterAge: string, filterType: string)
    ensures multiset(Derive(data, filterAge, filterType, true)) ==
      multiset(Derive(data, filterAge, filterType, false))
  {
    DeriveSpec(data, filterAge, filterType, true);
  }

  /**
   * Every type the menu offers matches at least one record: with the age filter empty,
   * choosing it never shows an empty list.
   */
  lemma MenuTypeShowsRecords(data: seq<Animal>, filterType: string, sortByAge: bool)
    requires filterType in DistinctTypes(data)
    ensures Derive(data, "", filterType, sortByAge) != []
  {
    DistinctTypesSpec(data);
    var a :| a in data && a.kind == filterType;
    IncludesEmpty(AgeText(a));
    DeriveSpec(data, "", filterType, sortByAge);
    assert a in Derive(data, "", filterType, sortByAge);
  }

  class AnimalList {
    /** The fetched records; `None` until the first fetch has answered. */
    var data: Option<seq<Animal>>
    var filterAge: string
    var filterType: string
    var sortByAge: bool
    var animalTypes: seq<string>
    var selectedAnimal: Option<Animal>
    var modalOpen: bool
    var newCheckupDate: string

    /**
     * The type menu always lists the distinct types of the records on hand, and the dialog is
     * open only with a record selected.
     */
    ghost predicate Valid()
      reads this
    {
      && animalTypes == (if data.Some? then DistinctTypes(data.value) else [])
      && (modalOpen ==> selectedAnimal.Some?)
    }

    /** The list the page shows; `None` stands for the loading screen. */
    function Visible(): Option<seq<Animal>>
      reads this
    {
      if data.None? then None else Some(Derive(data.value, filterAge, filterType, sortByAge))
    }

    /**
     * With the records on hand and no age filter, every type the menu offers shows at least
     * one record.
     */
    lemma MenuChoiceShowsRecords()
      requires Valid() && data.Some? && filterAge == "" && filterType in animalTypes
      ensures Visible().Some? && Visible().value != []
    {
      MenuTypeShowsRecords(data.value, filterType, sortByAge);
    }

    /** The component's first render: every hook at its initial value, nothing fetched yet. */
    constructor ()
      ensures Valid()
      ensures data == None && filterAge == "" && filterType == "" && !sortByAge
      ensures animalTypes == [] && selectedAnimal == None && !modalOpen && newCheckupDate == ""
    {
      data := None;
      filterAge := "";
      filterType := "";
      sortByAge := false;
      animalTypes := [];
      selectedAnimal := None;
      modalOpen := false;
      newCheckupDate := "";
    }

    /**
     * Compute the shown list as the render does: copy the records, filter the copy by age
     * text and by type when those filters are set, and sort it by age in place when the
     * sort flag is on. The fetched records themselves are left as they are.
     */
    method Render() returns (visible: Option<seq<Animal>>)
      ensures visible == Visible()
    {
      if data.None? {
        return None;
      }
      var filtered := data.value;
      if filterAge != "" {
        filtered := Keep(filtered, AgeContains(filterAge));
      }
      if filterType != "" {
        filtered := Keep(filtered, TypeIs(filterType));
      }
      if sortByAge {
        var buffer := new Animal[|filtered|](i requires 0 <= i < |filtered| => filtered[i]);
        assert buffer[..] == filtered;
        SortInPlace(buffer, CompareByAge);
        filtered := buffer[..];
      }
      visible := Some(filtered);
    }

    /** A fetch (the first one, or a refetch after the cache was invalidated) has answered. */
    method Reload(fetched: seq<Animal>)
      requires Valid()
      modifies this`data, this`animalTypes
      ensures Valid()
      ensures data == Some(fetched) && animalTypes == DistinctTypes(fetched)
    {
      data := Some(fetched);
      animalTypes := DistinctTypes(fetched);
    }

    /** The sort button flips the flag; the records shown stay the same ones. */
    method ToggleSort()
      requires Valid()
      modifies this`sortByAge
      ensures Valid()
      ensures sortByAge == !old(sortByAge)
      ensures data.Some? ==> multiset(Visible().value) == multiset(old(Visible()).value)
    {
      sortByAge := !sortByAge;
      if data.Some? {
        SortKeepsRecords(data.value, filterAge, filterType);
      }
    }

    /** Typing in the age filter box. */
    method SetFilterAge(value: string)
      requires Valid()
      modifies this`filterAge
      ensures Valid()
      ensures filterAge == value
    {
      filterAge := value;
    }

    /** Choosing an entry of the type menu; "All" is the empty string. */
    method SetFilterType(value: string)
      requires Valid()
      modifies this`filterType
      ensures Valid()
      ensures filterType == value
    {
      filterType := value;
    }

    /** A card's share button: select its record and open the checkup dialog. */
    method ShareClick(animal: Animal)
      requires Valid()
      modifies this`selectedAnimal, this`modalOpen
      ensures Valid()
      ensures selectedAnimal == Some(animal) && modalOpen
    {
      selectedAnimal := Some(animal);
      modalOpen := true;
    }

    /** A card's delete button: ask the server to delete the record; no state changes. */
    method DeleteClick(id: string) returns (request: Request)
      ensures request.DeleteAnimal? && request.id == id
    {
      request := DeleteAnimal(id);
    }

    /** Closing or cancelling the dialog: close it and clear the typed date. */
    method ModalClose()
      requires Valid()
      modifies this`modalOpen, this`newCheckupDate
      ensures Valid()
      ensures !modalOpen && newCheckupDate == ""
    {
      modalOpen := false;
      newCheckupDate := "";
    }

    /** Typing in the dialog's date box. */
    method CheckupDateChange(value: string)
      requires Valid()
      modifies this`newCheckupDate
      ensures Valid()
      ensures newCheckupDate == value
    {
      newCheckupDate := value;
    }

    /**
     * The dialog's update button, which exists only while the dialog is open: send the
     * selected record's id with the typed date. The dialog stays open until the server
     * answers.
     */
    method Confirm() returns (request: Request)
      requires Valid() && modalOpen
      ensures selectedAnimal.Some? && request.UpdateCheckup?
      ensures request.id == selectedAnimal.value.id && request.date == newCheckupDate
    {
      request := UpdateCheckup(selectedAnimal.value.id, newCheckupDate);
    }

    /**
     * The update was accepted: the cached list is refetched and the dialog closes. The
     * selection and the typed date are kept.
     */
    method UpdateSuccess(refetched: seq<Animal>)
      requires Valid()
      modifies this`data, this`animalTypes, this`modalOpen
      ensures Valid()
      ensures data == Some(refetched) && animalTypes == DistinctTypes(refetched) && !modalOpen
    {
      Reload(refetched);
      modalOpen := false;
    }

    /** The delete was accepted: the cached list is refetched. */
    method DeleteSuccess(refetched: seq<Animal>)
      requires Valid()
      modifies this`data, this`animalTypes
      ensures Valid()
      ensures data == Some(refetched) && animalTypes == DistinctTypes(refetched)
    {
      Reload(refetched);
    }
  }
}
