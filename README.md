# Animal list view-model in Dafny

This project models the animal-list component of a small React front end for a veterinary
record service. The component shows the fetched animal records as cards. The user can:

- narrow the list by a fragment of the age's decimal text;
- narrow it by type, chosen from a menu of the distinct types present;
- sort it by age;
- open a dialog that sends a new checkup date for one animal;
- delete an animal.

The model has these parts:

- **Animal records.** `Animals.Animal` has an id, name, age, type (the field is called `kind`,
  since `type` is a Dafny keyword) and next checkup date.
- **Number text.** `Number.prototype.toString` and `parseInt` on whole numbers become
  `Decimal.NatToString` and `Decimal.ParseInt`. `String.prototype.includes` becomes
  `Text.Includes`.
- **The comparator.** The list's comparator, `parseInt(a.age) - parseInt(b.age)`, is
  `Animals.CompareByAge`. A lemma shows it equals the difference of the ages.
- **The sort.** `AgeSort` models `Array.prototype.sort` with that comparator two ways: an
  insertion sort on sequences, and an in-place insertion sort on an array proved equal to it.
  With an age comparator the sort is a stable, ascending permutation.
- **Filtering.** `Filtering` models `Array.prototype.filter` (`Keep`), the two filters and
  the derived list (`Derive`). Each filter keeps exactly the accepted records, in their
  original order; `SelectsExactly` states this with an explicit index witness.
- **The type menu.** `TypeMenu` models `[...new Set(data.map((animal) => animal.type))]`. The
  result has no duplicates, holds exactly the types present, and lists them in
  first-occurrence order.
- **The component.** `AnimalListView.AnimalList` is a class:
  - its fields are the state hooks;
  - its methods are the event handlers, plus `Render`, which computes the list shown the way
    the render body does (copy, filter, sort in place on a fresh array);
  - `Valid` says the type menu always matches the records on hand, and the dialog is open only
    with a record selected.
- **Scenarios.** `Scenarios` holds client-style sequences of events, and the list on a dog of
  age 5 and a cat of age 15.

The component appears twice in the source: once in `src/App.jsx` and once in
`src/components/AnimalList.jsx`. The two are the same apart from how the query client is
obtained (a module-level client in `src/App.jsx`, `useQueryClient()` in the other file) and
the other file's imports and export. The table cites `src/App.jsx`. From App.jsx:38 on, the
same code in `src/components/AnimalList.jsx` is 13 lines earlier (App.jsx:99-113 is
AnimalList.jsx:86-100).

## Model

| member | source | states |
|---|---|---|
| Decimal.NatToString | src/App.jsx:102 | the decimal text of an age is a non-empty string of digits, with a leading `0` only for zero |
| Decimal.ParseInt | src/App.jsx:112 | on unsigned decimal text, `parseInt` reads the leading run of digits, and gives no number when the text is empty or does not start with a digit |
| Decimal.ParseIntOfNatToString | src/App.jsx:112 | parsing the decimal text of an age gives back that age |
| Decimal.NatToStringInjective | src/App.jsx:102 | two ages have the same decimal text only if they are equal |
| Text.IncludesIff | src/App.jsx:102 | `includes` holds exactly when the fragment occurs at some position of the text |
| Text.IncludesEmpty | src/App.jsx:100-104 | every text includes the empty fragment |
| Animals.CompareByAgeIsAgeDifference | src/App.jsx:112 | the list's comparator is the age of the first record minus the age of the second |
| AgeSort.ListComparatorComparesAges | src/App.jsx:112 | the list's comparator is an age comparator for all records |
| AgeSort.InsertionSortPermutes | src/App.jsx:111-113 | whatever the comparator, sorting yields a permutation of the filtered list |
| AgeSort.InsertionSortIsStableByAge | src/App.jsx:111-113 | with an age comparator the sorted list is in ascending age, and records of equal age keep their relative order |
| AgeSort.SortInPlace | src/App.jsx:112 | sorting the array in place leaves in it the insertion sort of its old contents |
| AgeSort.InsertAt | src/App.jsx:112 | one insertion step puts the next record into the sorted prefix and leaves the rest of the array alone |
| AgeSort.ShiftPastLater | src/App.jsx:112 | the records after the inserted one move one place right, exactly as far as the comparator puts them after it |
| Filtering.KeepSelectsExactly | src/App.jsx:101-103 | `filter` keeps exactly the records the callback accepts, in their original order |
| Filtering.FilterByAgeSelects | src/App.jsx:100-104 | the age filter keeps exactly the records whose decimal age contains the filter text, in order; an empty filter keeps the list unchanged |
| Filtering.FilterByTypeSelects | src/App.jsx:105-109 | the type filter keeps exactly the records of the chosen type, in order; no chosen type keeps the list unchanged |
| Filtering.SelectsMembers | src/App.jsx:99-109 | an exact selection holds precisely the accepted records of its source |
| Filtering.FilteredStep | src/App.jsx:99-109 | one more fetched record is appended to the filtered list exactly when it passes both filters |
| Filtering.FilteredSelects | src/App.jsx:99-109 | the filtered list is the fetched list restricted to exactly the records passing both filters, in fetched order |
| Filtering.DeriveSpec | src/App.jsx:99-113 | the shown list holds exactly the fetched records passing both filters. Unsorted, it is an order-preserving selection from the fetched list. Sorted, it is an ascending, stable permutation of the filtered list |
| TypeMenu.Dedup | src/App.jsx:49 | spreading a `Set` holds the same values as its source, each once |
| TypeMenu.DedupKeepsFirstOccurrenceOrder | src/App.jsx:49 | the `Set` lists its values in the order of their first occurrences |
| TypeMenu.DistinctTypesSpec | src/App.jsx:47-52 | the type menu, built by mapping the records to their types and spreading a `Set` of them, holds exactly the types some record has, without duplicates, in first-occurrence order |
| AnimalListView.DescendingLabelShowsAscendingAges | src/App.jsx:145 | whenever the button's caption for the sort flag reads "Sort by Age (Descending)", the list derived with that flag is in ascending age |
| AnimalListView.SortKeepsRecords | src/App.jsx:111-113 | the sorted and unsorted lists hold the same records with the same multiplicities |
| AnimalListView.MenuTypeShowsRecords | src/App.jsx:136-141 | with no age filter, choosing a type the menu offers never shows an empty list |
| AnimalListView.AnimalList.MenuChoiceShowsRecords | src/App.jsx:136-141 | in any valid state with records on hand and no age filter, a type chosen from the menu shows at least one record |
| AnimalListView.AnimalList.constructor | src/App.jsx:38-45 | the first render starts with nothing fetched, empty filters, no sort, no selection, dialog closed, empty date |
| AnimalListView.AnimalList.Render | src/App.jsx:99-113 | the list computed by copying, filtering and sorting in place is the derived list of the current state; nothing is shown before the first fetch |
| AnimalListView.AnimalList.Reload | src/App.jsx:47-52 | a fetched list replaces the records and the type menu is recomputed from it |
| AnimalListView.AnimalList.ToggleSort | src/App.jsx:67-69 | the sort flag is negated; the shown records are the same, with the same multiplicities |
| AnimalListView.AnimalList.SetFilterAge | src/App.jsx:71-73 | the age filter becomes the typed text and nothing else changes |
| AnimalListView.AnimalList.SetFilterType | src/App.jsx:75-77 | the type filter becomes the chosen value and nothing else changes |
| AnimalListView.AnimalList.ShareClick | src/App.jsx:79-82 | the record is selected and the dialog opens; filters, sort flag and typed date are unchanged |
| AnimalListView.AnimalList.DeleteClick | src/App.jsx:84-86 | a delete request for the given id is sent and the state does not change |
| AnimalListView.AnimalList.ModalClose | src/App.jsx:87-90 | the dialog closes and the typed date is cleared; the selection is kept |
| AnimalListView.AnimalList.CheckupDateChange | src/App.jsx:92-94 | the typed date becomes the entered value and nothing else changes |
| AnimalListView.AnimalList.Confirm | src/App.jsx:196-201 | pressed in the open dialog, a record is selected and the update request carries that record's id and the typed date |
| AnimalListView.AnimalList.UpdateSuccess | src/App.jsx:54-59 | the refetched list replaces the records and the dialog closes; the typed date and selection are kept |
| AnimalListView.AnimalList.DeleteSuccess | src/App.jsx:61-65 | the refetched list replaces the records and the type menu follows it |
| Scenarios.ToggleSortTwice | src/App.jsx:67-69 | pressing the sort button twice restores the sort flag and the shown list, and no other field may change |
| Scenarios.CheckupFlow | src/App.jsx:54-59 | share, type a date, confirm, success: the request carries the id and date, and the dialog ends closed with the date still typed |
| Scenarios.AgeFilterFiveKeepsBoth | src/App.jsx:100-104 | the age filter "5" keeps both a record aged 5 and one aged 15 |
| Scenarios.AgeFilterFifteenKeepsCat | src/App.jsx:100-104 | the age filter "15" keeps only the record aged 15 |
| Scenarios.TypeFilterCatKeepsCat | src/App.jsx:105-109 | the type filter "cat" keeps only the cat |
| Scenarios.SortPutsDogFirst | src/App.jsx:111-113 | sorting a cat aged 15 followed by a dog aged 5 puts the dog first |

## Left out

- The HTTP requests (`getAnimals`, `updateAnimal`, `deleteAnimal`) are not part of this model. Handlers return the request they would send as a `Request` value. A fetch's answer comes in as the argument of `Reload`, `UpdateSuccess` or `DeleteSuccess`.
- The data-fetching library's state is not modelled: no loading flag, no error screen, no failed or pending mutation, no cache keys. `None` for `data` stands for the loading screen.
- The effect that recomputes `animalTypes` runs after a render, so for one render the menu can show the previous types. `Reload` updates the records and the menu in one step.
- AnimalListView.AnimalList.Confirm: requires a valid state with the dialog open, since the update button exists only inside the open dialog (src/App.jsx:158-210). Called any other way the source would read `selectedAnimal.id` of a null selection and throw; the model does not represent that failure.
- Decimal.ParseInt: models `parseInt` only on unsigned decimal text. Leading whitespace, a `+` or `-` sign and the `0x` prefix are not modelled; the model only ever parses the decimal text of a whole number.
- Ages are whole numbers (`nat`). Ages held as strings, negative or fractional ages, and `parseInt` turning text into `NaN` are not modelled. The `NaN` branch of `CompareByAge`, read as 0, is unreachable for whole-number ages.
- JavaScript numbers are doubles; ages beyond 2^53 are not given their rounding.
- `Array.prototype.sort` is modelled as insertion sort. The engine's own algorithm is not part of this model. The language requires the sort to be stable, and two stable sorts by the same key give the same result.
- The card component, date formatting, dialog and page layout, styling and the application wrapper are not part of this model.
- Strings are compared as sequences of characters, as `===` does; there is no Unicode normalisation.
