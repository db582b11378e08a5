# Student dashboard: store, chart tallies and grid cross-filter

A Dafny model of the client-side logic of an Angular student-records
dashboard. The dashboard keeps an ordered list of flat student records
`{id, name, gpa, gender, email, phone}`, draws two charts from it, and shows
it in a grid that a click on either chart filters.

- `seqs.dfy` (module `Seqs`): `Array.prototype.filter` over sequences, the
  order-preserving subsequence relation it yields, and counting by a key
  function, which both chart tallies are built from.
- `records.dfy` (module `Records`): the student record, the click payload, the
  four gender categories, and the pure list helpers behind the store and the
  grid. These are the largest-id fold, `findIndex`/`find` by id, the id filter
  of both `deleteStudents`, and the in-place replacement of `updateStudent`.
- `labels.dfy` (module `Labels`): `split('-')`, the decimal subset of
  `parseFloat`, and the grid's `parseRange`.
- `store.dfy` (module `StudentStore`): the browser storage key `'studentsData'`
  as a shared `Storage` object, and the `Students` service as a class. The
  class holds the in-memory list, the side-bar flag and `totalStudents`.
- `charts.dfy` (module `Charts`): the six GPA buckets, the gender tally as
  counting loops proved against `CountKey`, and the `ChartsComponent` fields
  they fill.
- `table.dfy` (module `Table`): the cross-filter, the selection, and the
  `TableComponent` fields its handlers update.
- `agreement.dfy` (module `Agreement`): what the grid shows after a chart
  click, compared with what the chart counted under the clicked label.

The model keeps two inconsistencies of the code as they are:

- The pie chart's last bucket `3.8-4.0` counts a GPA of exactly 4.0. The grid
  filters that label with an exclusive upper bound, so those students
  disappear (`Agreement.LastSliceMissesTopGpa`, `Agreement.TopGpaExample`).
- The gender chart counts an empty gender under `Others`. The grid compares
  the raw field, so those students are missing from the `Others` filter
  (`Agreement.OthersBarCountsEmptyGender`, `Agreement.EmptyGenderExample`).

For the other five slices and three bars, the grid shows exactly the students
the chart counted (`Agreement.SliceShowsItsBucket`,
`Agreement.BarShowsItsGender`).

A GPA is a `real`, since the code only compares it with the constants 0,
3.0, 3.2, 3.4, 3.6, 3.8 and 4.0. A JavaScript number produced by `parseFloat`
is `Labels.Num`, either a finite value or `NaN`, which every comparison
rejects. The seed list the store falls back to comes from a module that is
not part of this model. It is the constructor parameter `seed`.

## Model

| member | source | states |
|---|---|---|
| Seqs.Filter | src/app/students.services.ts:73-75 | `filter` never returns more elements than it was given |
| Seqs.FilterMembers | src/app/students.services.ts:73-75 | `filter` returns only elements of the input that pass the test, and returns every element that passes |
| Seqs.FilterMultiset | src/app/students.services.ts:73-75 | `filter` keeps every passing element as many times as it occurs, and drops every other element |
| Seqs.FilterIsSubsequence | src/app/table/table.component.ts:73-80 | a filter result is an order-preserving subsequence of its input |
| Seqs.SubsequenceMembers | src/app/table/table.component.ts:73-80 | every element of an order-preserving subsequence occurs in the original list |
| Seqs.FilterKeepsAll | src/app/students.services.ts:73-75 | a test every element passes returns the input unchanged |
| Seqs.FilterAppend | src/app/charts/charts.component.ts:105-113 | filtering a concatenation filters each part, so a tally extends one student at a time |
| Seqs.FilterCongruent | src/app/table/table.component.ts:73-80 | two tests that agree on every record select the same rows |
| Seqs.FilterCountSplit | src/app/charts/charts.component.ts:105-113 | when a test is the disjoint union of two others, its count is the sum of theirs |
| Seqs.CountKeySnoc | src/app/charts/charts.component.ts:105-113 | one more student raises only the counter of its own key, by one |
| Seqs.SumCountsIsCountInRange | src/app/charts/charts.component.ts:105-113 | each student raises at most one counter, so the counters of keys 0..n-1 add up to the number of students whose key lies in that range |
| Seqs.NoKeyBelowZero | src/app/charts/charts.component.ts:105-113 | no student falls in an empty key range |
| Seqs.CountInRangeSplit | src/app/charts/charts.component.ts:105-113 | the keys below n are those below n-1 plus the key n-1 |
| Records.MaxId | src/app/students.services.ts:45-47 | the fold from 0 with `Math.max` (the helper `Records.Max`) is never negative, bounds every id, and is 0 or one of the ids |
| Records.WithNextId | src/app/students.services.ts:44-48 | the stored record is the input with its id overwritten by one above the largest id, or by 1 when the list holds no positive id |
| Records.Prepended | src/app/students.services.ts:48-49 | the new record comes first with an id above every other, the old list follows unchanged, and the length grows by one |
| Records.PrependedPreservesUniqueIds | src/app/students.services.ts:48-49 | adding keeps ids unique, grows the list by one, puts the input (id overwritten) first and keeps the old list behind it |
| Records.FindIndex | src/app/students.services.ts:62-64 | `findIndex` returns the first position holding the id, or -1 when none does |
| Records.FindIndexIsFirst | src/app/students.services.ts:62-64 | a position holding the id with none before it is the one `findIndex` returns |
| Records.FindById | src/app/table/table.component.ts:160 | `find` returns the first record of the list holding the id, and nothing exactly when no record holds it |
| Records.FindByIdUnique | src/app/table/table.component.ts:160 | with unique ids, a lookup returns the one record with that id |
| Records.RemoveIds | src/app/students.services.ts:73-75 | the result keeps exactly the records whose id is not selected, each as often as it occurs, in their original order; the test `!selectedIds.has(student.id)` is the helper `Records.IdNotIn` |
| Records.RemoveAbsentIds | src/app/students.services.ts:72-76 | removing ids that no record holds, the empty set included, leaves the list as it was |
| Records.RemoveIdsPreservesUniqueIds | src/app/students.services.ts:73-75 | deleting keeps the remaining ids unique |
| Records.SubsequencePreservesUniqueIds | src/app/students.services.ts:73-75 | any order-preserving subsequence of a list with unique ids has unique ids |
| Records.ReplaceFirst | src/app/students.services.ts:62-67 | the first record holding the id is replaced and every other position is kept, the length included; without such a record nothing changes |
| Records.ReplaceFirstIsFound | src/app/students.services.ts:62-68 | after the replacement, looking up the id finds the updated record when the id was present |
| Records.ReplaceFirstKeepsIds | src/app/students.services.ts:62-68 | an absent id changes nothing, and replacing keeps ids unique |
| Labels.Split | src/app/table/table.component.ts:223 | `split('-')` yields at least one piece, no piece holds a hyphen, and there are two or more pieces exactly when the label holds one |
| Labels.JoinSplit | src/app/table/table.component.ts:223 | joining the pieces with the hyphen gives the label back |
| Labels.SplitAfterPiece | src/app/table/table.component.ts:223 | text before the first hyphen is the first piece, and the rest splits on its own |
| Labels.SplitFirstPiece | src/app/table/table.component.ts:223 | hyphen-free text that ends the label or precedes a hyphen is the first piece |
| Labels.DigitRun | src/app/table/table.component.ts:224-225 | the length of the longest run of digits at the front |
| Labels.Pow10 | src/app/table/table.component.ts:224-225 | the scale of a decimal fraction is at least 1 |
| Labels.ParseFloat | src/app/table/table.component.ts:224-225 | `parseFloat` is NaN exactly when the text starts with neither a digit nor a point followed by a digit, and is otherwise non-negative |
| Labels.ParseFloatDigit | src/app/table/table.component.ts:224-225 | a single digit parses to its value |
| Labels.ParseFloatDigitPointDigit | src/app/table/table.component.ts:224-225 | `d.e` parses to d + e/10 |
| Labels.ParseRange | src/app/table/table.component.ts:222-227 | a label without a hyphen parses its whole text as the lower bound, and the missing upper bound is NaN |
| Labels.ParseRangePieces | src/app/table/table.component.ts:222-227 | the bounds are parsed from the text before the first hyphen and the text between it and the next hyphen |
| Labels.ParseRangeOfPoints | src/app/table/table.component.ts:222-227 | `d.e-f.g` parses to (d + e/10, f + g/10) |
| Labels.ParseRangeOfDigitAndPoint | src/app/table/table.component.ts:222-227 | `d-f.g` parses to (d, f + g/10) |
| StudentStore.Storage.Load | src/app/table/table.component.ts:206 | reading the key gives the stored list, or `[]` when the key is absent |
| StudentStore.Students.constructor | src/app/students.services.ts:11-17 | the side bar starts shown, `totalStudents` matches the list, and the data is loaded as `loadInitialData` does |
| StudentStore.Students.SetShowSideBarState | src/app/students.services.ts:19-21 | the flag takes the value, and the lists and the count are unchanged |
| StudentStore.Students.GetShowSideBarState | src/app/students.services.ts:23-25 | returns the flag as last set |
| StudentStore.Students.LoadInitialData | src/app/students.services.ts:27-35 | a persisted list is adopted as it is; without one, both copies become the seed list; `totalStudents` matches |
| StudentStore.Students.FetchData | src/app/students.services.ts:37-41 | both copies become the seed list and `totalStudents` its length |
| StudentStore.Students.AddStudent | src/app/students.services.ts:43-56 | the input is prepended under a fresh id above every existing id, the persisted copy equals the new list, `totalStudents` its length, and unique ids stay unique; `StudentStore.DeleteThenAddScenario` runs delete-then-add on `[1, 2]` and shows the new record gets id 3 in front of record 2 |
| StudentStore.Students.UpdateStudent | src/app/students.services.ts:58-69 | only the persisted copy changes: it becomes the stored list with the first record holding the id replaced |
| StudentStore.Students.DeleteStudents | src/app/students.services.ts:71-80 | both copies become the list without the selected ids, and `totalStudents` its length |
| Charts.GpaBucket | src/app/charts/charts.component.ts:107-112 | a GPA lands in exactly the bucket whose bounds hold it, and in some bucket exactly when it lies in [0, 4] |
| Charts.HalfOpenBucket | src/app/charts/charts.component.ts:107-111 | the first five buckets are half-open ranges [lo, hi) |
| Charts.ClosedLastBucket | src/app/charts/charts.component.ts:112 | the last bucket is the closed range [3.8, 4.0] |
| Charts.GpaRangeCounts | src/app/charts/charts.component.ts:96-113 | the loop yields six counters, each the number of students in its bucket |
| Charts.GpaCountsTotal | src/app/charts/charts.component.ts:105-113 | the six counts add up to the number of students with a GPA in [0, 4], and never exceed the number of students |
| Charts.GpaCountsCoverAll | src/app/charts/charts.component.ts:105-113 | when every GPA lies in [0, 4], the counts add up to the number of students |
| Charts.EffectiveGender | src/app/charts/charts.component.ts:131 | the gender used for counting is never empty: the field when set, `Others` otherwise |
| Charts.GenderColumn | src/app/charts/charts.component.ts:131-132 | a student goes to the column of its gender, with an empty gender read as `Others`, and to none when the gender is not a category |
| Charts.GenderCounts | src/app/charts/charts.component.ts:123-133 | the dictionary keeps exactly the four keys, each mapped to the number of students counted under it |
| Charts.GenderCountsAtMost | src/app/charts/charts.component.ts:123-133 | the four counts add up to at most the number of students |
| Charts.GenderColumnCounted | src/app/charts/charts.component.ts:131-132 | a student whose gender is a category or empty is counted |
| Charts.GenderCountsCoverAll | src/app/charts/charts.component.ts:123-133 | when every gender is a category or empty, the four counts add up to the number of students |
| Charts.ChartsComponent.constructor | src/app/charts/charts.component.ts:36-72 | the chart data and the clicked point start empty |
| Charts.ChartsComponent.UpdateChartData | src/app/charts/charts.component.ts:95-120 | six slices in the fixed range order, zero counts included, each named by its range, counting its bucket, and sliced |
| Charts.ChartsComponent.UpdateGenderChartData | src/app/charts/charts.component.ts:122-140 | four counts in the order Male, Female, Others, Prefer not to say |
| Charts.ChartsComponent.StoreClickedData | src/app/charts/charts.component.ts:205-208 | the clicked data becomes a one-element list with the point's name and value |
| Table.CrossFiltered | src/app/table/table.component.ts:72-81 | a gender label or a label with a hyphen yields an order-preserving subsequence of the rows; any other label leaves the shown rows as they were |
| Table.CrossFilterByGender | src/app/table/table.component.ts:72-75 | a gender label keeps exactly the rows whose raw gender field equals it, each as often as it occurs, in order; the test `student.gender === name` is the helper `Table.GenderIs` |
| Table.CrossFilterByRange | src/app/table/table.component.ts:76-80 | a non-gender label `a-b…` keeps exactly the rows with parseFloat(a) <= gpa < parseFloat(b), each as often as it occurs, in order |
| Table.RangeLabelFilter | src/app/table/table.component.ts:76-80 | a label `a-b…` that is not a gender filters the rows by the two numbers parsed from the text around its first hyphen |
| Table.RangeFilterExactly | src/app/table/table.component.ts:79 | filtering by `min <= gpa < max` keeps exactly the rows whose GPA lies in that half-open range, each as often as it occurs, in their original order, and none when either bound is NaN; the test is the helper `Table.GpaWithin`, with JavaScript's `>=` and `<` on a possibly-NaN bound as `Labels.AtLeast` and `Labels.Below` |
| Table.SingletonHasMember | src/app/table/table.component.ts:158-159 | a one-element id set has an element to take |
| Table.SingletonMember | src/app/table/table.component.ts:158-159 | the element of a one-element set does not depend on how it is taken |
| Table.SelectedRecord | src/app/table/table.component.ts:157-164 | a selected row exists only when exactly one id is checked, and is then a row holding a checked id |
| Table.SelectedRecordSpec | src/app/table/table.component.ts:157-164 | with exactly one id checked, the selected row is the first row with that id, or none; otherwise there is none |
| Table.TableComponent.constructor | src/app/table/table.component.ts:35-38 | no rows, no selected row and no checked ids |
| Table.TableComponent.SetClickedData | src/app/table/table.component.ts:55-89 | an empty payload shows all rows; otherwise the first point's name filters the rows by gender or GPA range, or leaves them |
| Table.TableComponent.OnRowSelected | src/app/table/table.component.ts:139-155 | the row's id is added or removed, then the selected row is recomputed from the ids |
| Table.TableComponent.UpdateSelectedRowData | src/app/table/table.component.ts:157-164 | the selected row becomes the row of the single checked id, or none |
| Table.TableComponent.DeleteStudents | src/app/table/table.component.ts:166-183 | with nothing checked nothing changes; otherwise the stored list loses exactly the checked ids, both row lists become it, and the selection is cleared |
| Table.TableComponent.OnPaginationChanged | src/app/table/table.component.ts:214-220 | no checked ids and no selected row |
| Table.TableComponent.ReloadTableData | src/app/table/table.component.ts:205-212 | both row lists become the stored list, `[]` when the key is absent |
| Table.TableComponent.ResetData | src/app/table/table.component.ts:129-137 | the same as a reload |
| Agreement.BucketNameParses | src/app/table/table.component.ts:222-227 | each slice name parses back to the bounds of its bucket |
| Agreement.BucketNameIsRange | src/app/table/table.component.ts:72-76 | a slice name is not a gender and holds a hyphen, so it is read as a range |
| Agreement.SliceFilter | src/app/table/table.component.ts:76-80 | clicking slice k keeps the rows with Bounds[k] <= gpa < Bounds[k+1] |
| Agreement.HalfOpenRangeIsBucket | src/app/table/table.component.ts:79 | for the first five buckets, the grid's range test and the chart's bucket test select the same rows |
| Agreement.SliceShowsItsBucket | src/app/table/table.component.ts:76-80 | clicking one of the first five slices shows exactly the students the chart counted in it, in order |
| Agreement.LastBucketSplits | src/app/charts/charts.component.ts:112 | the last bucket's count is the grid's [3.8, 4.0) count plus the number of 4.0 GPAs |
| Agreement.LastSliceMissesTopGpa | src/app/table/table.component.ts:79 | clicking `3.8-4.0` shows the chart's count for that slice minus the students with GPA 4.0 |
| Agreement.TopGpaExample | src/app/table/table.component.ts:79 | a lone student with GPA 4.0 is counted in the last slice, yet clicking it shows nothing |
| Agreement.CategoriesDistinct | src/app/charts/charts.component.ts:123-128 | the four keys are non-empty and pairwise different |
| Agreement.GenderColumnIs | src/app/charts/charts.component.ts:131-132 | outside `Others`, a student is counted under a category exactly when its raw gender equals it |
| Agreement.BarShowsItsGender | src/app/table/table.component.ts:72-75 | clicking Male, Female or Prefer not to say shows exactly the students the chart counted under it |
| Agreement.OthersBarCountsEmptyGender | src/app/table/table.component.ts:74 | the `Others` count is the grid's `Others` rows plus the students with an empty gender |
| Agreement.EmptyGenderExample | src/app/charts/charts.component.ts:131 | a lone student with an empty gender is counted under `Others`, yet clicking that bar shows nothing |

## Left out

- Browser storage and JSON: the persisted copy is a `seq<Student>` in the `Storage` object, and `JSON.stringify`/`JSON.parse` are taken to round-trip exactly. A stored empty string, which `if (storedData)` treats as absent, cannot arise from `JSON.stringify` and is not modelled.
- rxjs subjects: notifying subscribers is modelled as the field taking the new value. Subscriptions in `ngOnInit` of both components, and the `data` input setter of the grid, are not modelled.
- AG Grid calls (`setRowData`, `setQuickFilter`, `paginationSetPageSize`, `deselectAll`), `onGridReady`, `applyFilter` and `onPageSizeChange` change only the grid widget's own state.
- `Renderer2` writes of the clicked label, `ChangeDetectorRef.detectChanges`, `console.log`, the event emitter of `storeClickedData`, and the Highcharts option objects (titles, tooltips, legends, the four single-point gender series).
- `refreshData` in the grid only clears the label on screen and calls the store's `fetchData`, which is modelled.
- `ChartsComponent.ngOnInit` only reads storage and calls the two update methods when the list is non-empty.
- Labels.ParseFloat: reads only unsigned decimal forms (`ddd`, `ddd.ddd`, `ddd.`, `.ddd`). Leading whitespace, signs, exponents and `Infinity` are not modelled; slice names and gender names never use them.
- Records.Student: ids and GPAs are always numbers. A missing id, which `s.id || 0` reads as 0, is not modelled, and neither is a missing or non-numeric GPA. An empty `gender` stands for a missing one, since both are falsy.
- Reals are exact. The code compares binary floating-point values against the same decimal constants, so rounding is not modelled.
- Charts.GenderCounts: `gender in genderCounts` is modelled as membership in the four keys. JavaScript's `in` also accepts inherited keys such as `toString`, which would add a fifth key holding NaN.
- Table.TableComponent.OnRowSelected: `null` and `undefined` are both `None`. `find` yields `undefined` when no row holds the id, while the other paths set `null`.
- StudentStore.Students: `currentStudents` and `showSideBarState` (the observables) are the fields themselves.
- The seed list of students comes from a module that is not part of this model; it is the `seed` parameter.
- `src/app/app-routing.module.ts` and `src/app/user-details/user-details.component.ts` hold no logic of the three parts modelled here.
