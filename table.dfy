/**
 * The grid component's state (table.component.ts): the rows it holds, the
 * rows it shows after a chart click, and the checked rows.
 */
module Table {
  import opened Seqs
  import opened Records
  import opened Labels
  import opened StudentStore

  /** The gender filter `student.gender === name`: the raw field, with no
      defaulting of an empty gender. */
  function GenderIs(name: string): (p: Student -> bool)
    ensures forall x :: p(x) <==> x.gender == name
  {
    (x: Student) => x.gender == name
  }

  /** The GPA filter `student.gpa >= min && student.gpa < max`. */
  function GpaWithin(min: Num, max: Num): (p: Student -> bool)
    ensures forall x :: p(x) <==> min.Finite? && max.Finite? && min.value <= x.gpa < max.value
  {
    (x: Student) => AtLeast(x.gpa, min) && Below(x.gpa, max)
  }

  /** The rows the `clickedData` setter shows for a non-empty payload whose
      first point is named `name`, given the full rows and the rows shown so far. */
  function CrossFiltered(name: string, rows: seq<Student>, shown: seq<Student>): (r: seq<Student>)
    ensures name in GenderCategories || '-' in name ==> IsSubsequence(r, rows)
    ensures name !in GenderCategories && '-' !in name ==> r == shown
  {
    if name in GenderCategories then
      FilterIsSubsequence(rows, GenderIs(name));
      Filter(rows, GenderIs(name))
    else if '-' in name then
      var range := ParseRange(name);
      FilterIsSubsequence(rows, GpaWithin(range.0, range.1));
      Filter(rows, GpaWithin(range.0, range.1))
    else shown
  }

  /** A gender label keeps exactly the rows whose gender field equals it, in order. */
  lemma CrossFilterByGender(name: string, rows: seq<Student>, shown: seq<Student>)
    requires name in GenderCategories
    ensures IsSubsequence(CrossFiltered(name, rows, shown), rows)
    ensures forall i :: 0 <= i < |CrossFiltered(name, rows, shown)| ==> CrossFiltered(name, rows, shown)[i].gender == name
    ensures forall i :: 0 <= i < |rows| && rows[i].gender == name ==> rows[i] in CrossFiltered(name, rows, shown)
    ensures forall x :: multiset(CrossFiltered(name, rows, shown))[x] == if x.gender == name then multiset(rows)[x] else 0
  {
    FilterIsSubsequence(rows, GenderIs(name));
    FilterMembers(rows, GenderIs(name));
    FilterMultiset(rows, GenderIs(name));
  }

  /** A label `a-b…` that is not a gender keeps exactly the rows with
      parseFloat(a) <= gpa < parseFloat(b), each as often as it occurs, in
      order, where `a` is the text before the first hyphen and `b` the text
      up to the next one. */
  lemma CrossFilterByRange(a: string, b: string, t: string, rows: seq<Student>, shown: seq<Student>)
    requires '-' !in a && '-' !in b
    requires t == [] || t[0] == '-'
    ensures var r := CrossFiltered(a + "-" + b + t, rows, shown);
      && IsSubsequence(r, rows)
      && (forall i :: 0 <= i < |r| ==> AtLeast(r[i].gpa, ParseFloat(a)) && Below(r[i].gpa, ParseFloat(b)))
      && (forall i :: 0 <= i < |rows| && AtLeast(rows[i].gpa, ParseFloat(a)) && Below(rows[i].gpa, ParseFloat(b)) ==> rows[i] in r)
      && (forall x :: multiset(r)[x] == if AtLeast(x.gpa, ParseFloat(a)) && Below(x.gpa, ParseFloat(b)) then multiset(rows)[x] else 0)
  {
    RangeLabelFilter(a, b, t, rows, shown);
    RangeFilterExactly(rows, ParseFloat(a), ParseFloat(b));
  }

  /** A range label filters by the two parsed bounds. */
  lemma RangeLabelFilter(a: string, b: string, t: string, rows: seq<Student>, shown: seq<Student>)
    requires '-' !in a && '-' !in b
    requires t == [] || t[0] == '-'
    ensures CrossFiltered(a + "-" + b + t, rows, shown) == Filter(rows, GpaWithin(ParseFloat(a), ParseFloat(b)))
  {
    var name := a + "-" + b + t;
    assert name[|a|] == '-';
    assert name !in GenderCategories by {
      assert forall k :: 0 <= k < 4 ==> '-' !in GenderCategories[k];
    }
    ParseRangePieces(a, b, t);
  }

  /** The range filter keeps exactly the rows with min <= gpa < max, each as
      often as it occurs, in order. */
  lemma RangeFilterExactly(rows: seq<Student>, min: Num, max: Num)
    ensures var r := Filter(rows, GpaWithin(min, max));
      && IsSubsequence(r, rows)
      && (forall i :: 0 <= i < |r| ==> AtLeast(r[i].gpa, min) && Below(r[i].gpa, max))
      && (forall i :: 0 <= i < |rows| && AtLeast(rows[i].gpa, min) && Below(rows[i].gpa, max) ==> rows[i] in r)
      && (forall x :: multiset(r)[x] == if AtLeast(x.gpa, min) && Below(x.gpa, max) then multiset(rows)[x] else 0)
  {
    var within := GpaWithin(min, max);
    FilterIsSubsequence(rows, within);
    FilterMembers(rows, within);
    FilterMultiset(rows, within);
  }

  /** The row shown as selected for the checked ids: the first row with the
      id when exactly one id is checked, nothing otherwise. */
  ghost function SelectedRecord(rows: seq<Student>, ids: set<int>): (r: Option<Student>)
    ensures |ids| != 1 ==> r == None
    ensures r.Some? ==> r.value in rows && r.value.id in ids
  {
    if |ids| == 1 then
      SingletonHasMember(ids);
      var id :| id in ids;
      FindById(rows, id)
    else None
  }

  lemma {:induction false} SingletonHasMember(ids: set<int>)
    requires |ids| == 1
    ensures exists a :: a in ids
  {
    if forall a :: a !in ids {
      assert false;
    }
  }

  lemma {:induction false} SingletonMember(ids: set<int>, a: int, b: int)
    requires |ids| == 1 && a in ids && b in ids
    ensures a == b
  {
    var rest := ids - {a};
    assert ids == rest + {a};
    assert |rest| == 0;
    assert b in rest + {a};
  }

  /** With exactly one id checked, the selected row is the first row holding
      that id (none if no row does); with zero or several, there is none. */
  lemma SelectedRecordSpec(rows: seq<Student>, ids: set<int>, id: int)
    ensures ids == {id} ==> SelectedRecord(rows, ids) == FindById(rows, id)
    ensures |ids| != 1 ==> SelectedRecord(rows, ids) == None
  {
  }

  class TableComponent {
    var rowData: seq<Student>
    var filteredRowData: seq<Student>
    var selectedRowData: Option<Student>
    var selectedRowIds: set<int>
    const storage: Storage

    constructor (storage: Storage)
      ensures this.storage == storage
      ensures rowData == [] && filteredRowData == [] && selectedRowData == None && selectedRowIds == {}
    {
      this.storage := storage;
      rowData := [];
      filteredRowData := [];
      selectedRowData := None;
      selectedRowIds := {};
    }

    /** The `clickedData` input: an empty payload shows all rows; otherwise
        the first point's name picks the filter. */
    method SetClickedData(value: seq<ClickedPoint>)
      modifies this
      ensures |value| == 0 ==> filteredRowData == rowData
      ensures |value| > 0 ==> filteredRowData == CrossFiltered(value[0].name, rowData, old(filteredRowData))
      ensures rowData == old(rowData) && selectedRowData == old(selectedRowData) && selectedRowIds == old(selectedRowIds)
    {
      if |value| > 0 {
        var name := value[0].name;
        if name in GenderCategories {
          filteredRowData := Filter(rowData, GenderIs(name));
        } else if '-' in name {
          var range := ParseRange(name);
          filteredRowData := Filter(rowData, GpaWithin(range.0, range.1));
        }
      } else {
        filteredRowData := rowData;
      }
    }

    /** Check or uncheck one row, then recompute the selected row. */
    method OnRowSelected(isSelected: bool, row: Student)
      modifies this
      ensures selectedRowIds == if isSelected then old(selectedRowIds) + {row.id} else old(selectedRowIds) - {row.id}
      ensures selectedRowData == SelectedRecord(rowData, selectedRowIds)
      ensures rowData == old(rowData) && filteredRowData == old(filteredRowData)
    {
      var rowId := row.id;
      if isSelected {
        selectedRowData := Some(row);
        selectedRowIds := selectedRowIds + {rowId};
      } else {
        selectedRowIds := selectedRowIds - {rowId};
        if selectedRowData.Some? && selectedRowData.value.id == rowId {
          selectedRowData := None;
        }
      }
      UpdateSelectedRowData();
    }

    method UpdateSelectedRowData()
      modifies this
      ensures selectedRowData == SelectedRecord(rowData, selectedRowIds)
      ensures rowData == old(rowData) && filteredRowData == old(filteredRowData) && selectedRowIds == old(selectedRowIds)
    {
      if |selectedRowIds| == 1 {
        SingletonHasMember(selectedRowIds);
        var selectedId :| selectedId in selectedRowIds;
        selectedRowData := FindById(rowData, selectedId);
        ghost var picked :| picked in selectedRowIds && SelectedRecord(rowData, selectedRowIds) == FindById(rowData, picked);
        SingletonMember(selectedRowIds, picked, selectedId);
      } else {
        selectedRowData := None;
      }
    }

    /** With rows checked, delete them from the persisted list, show what
        remains and clear the selection; with none checked, do nothing. */
    method DeleteStudents()
      modifies this, storage
      ensures old(selectedRowIds) == {} ==>
        && storage.studentsData == old(storage.studentsData)
        && rowData == old(rowData) && filteredRowData == old(filteredRowData)
        && selectedRowData == old(selectedRowData) && selectedRowIds == {}
      ensures old(selectedRowIds) != {} ==>
        && storage.studentsData == Some(RemoveIds(old(storage.Load()), old(selectedRowIds)))
        && rowData == RemoveIds(old(storage.Load()), old(selectedRowIds))
        && filteredRowData == rowData
        && selectedRowIds == {} && selectedRowData == None
    {
      if |selectedRowIds| == 0 {
        return;
      }
      var currentStudents := storage.Load();
      var updatedStudents := RemoveIds(currentStudents, selectedRowIds);
      storage.studentsData := Some(updatedStudents);
      rowData := updatedStudents;
      filteredRowData := updatedStudents;
      selectedRowIds := {};
      selectedRowData := None;
    }

    /** Changing page or page size clears the selection. */
    method OnPaginationChanged()
      modifies this
      ensures selectedRowIds == {} && selectedRowData == None
      ensures rowData == old(rowData) && filteredRowData == old(filteredRowData)
    {
      selectedRowData := None;
      selectedRowIds := {};
    }

    /** Show the persisted list (`[]` when the key is absent), unfiltered. */
    method ReloadTableData()
      modifies this
      ensures rowData == storage.Load() && filteredRowData == rowData
      ensures selectedRowData == old(selectedRowData) && selectedRowIds == old(selectedRowIds)
    {
      var storedData := storage.Load();
      rowData := storedData;
      filteredRowData := storedData;
    }

    /** The same as a reload, besides clearing the clicked label on screen. */
    method ResetData()
      modifies this
      ensures rowData == storage.Load() && filteredRowData == rowData
      ensures selectedRowData == old(selectedRowData) && selectedRowIds == old(selectedRowIds)
    {
      ReloadTableData();
    }
  }
}
