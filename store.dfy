/**
 * The student store (students.services.ts): the in-memory list behind the
 * `studentsData` subject, the side-bar flag behind the `showSideBar`
 * subject, `totalStudents`, and the copy persisted in the browser's storage
 * under the key `'studentsData'`.
 */
module StudentStore {
  import opened Seqs
  import opened Records

  /** The browser's local storage, reduced to the one key the dashboard uses.
      `None` means the key is absent. */
  class Storage {
    var studentsData: Option<seq<Student>>

    constructor (initial: Option<seq<Student>>)
      ensures studentsData == initial
    {
      studentsData := initial;
    }

    /** `JSON.parse(localStorage.getItem('studentsData') || '[]')`. */
    function Load(): (r: seq<Student>)
      reads this
      ensures studentsData.Some? ==> r == studentsData.value
      ensures studentsData.None? ==> r == []
    {
      match studentsData
      case Some(stored) => stored
      case None => []
    }
  }

  class Students {
    /** The value of the `studentsData` subject: what subscribers see. */
    var studentsData: seq<Student>
    /** The value of the `showSideBar` subject. */
    var showSideBar: bool
    var totalStudents: int
    const storage: Storage
    /** The seed dataset used when nothing is persisted. */
    const seed: seq<Student>

    ghost predicate Valid()
      reads this
    {
      totalStudents == |studentsData|
    }

    /** The store starts with the side bar shown and then loads its data. */
    constructor (storage: Storage, seed: seq<Student>)
      modifies storage
      ensures this.storage == storage && this.seed == seed
      ensures Valid() && showSideBar
      ensures old(storage.studentsData).Some? ==>
        studentsData == old(storage.studentsData).value && storage.studentsData == old(storage.studentsData)
      ensures old(storage.studentsData).None? ==>
        studentsData == seed && storage.studentsData == Some(seed)
    {
      this.storage := storage;
      this.seed := seed;
      studentsData := [];
      showSideBar := true;
      totalStudents := 0;
      new;
      LoadInitialData();
    }

    method SetShowSideBarState(value: bool)
      modifies this
      ensures showSideBar == value
      ensures studentsData == old(studentsData) && totalStudents == old(totalStudents)
    {
      showSideBar := value;
    }

    method GetShowSideBarState() returns (value: bool)
      ensures value == showSideBar
    {
      value := showSideBar;
    }

    /** Adopt the persisted list when there is one, otherwise fall back to the seed. */
    method LoadInitialData()
      modifies this, storage
      ensures Valid() && showSideBar == old(showSideBar)
      ensures old(storage.studentsData).Some? ==>
        studentsData == old(storage.studentsData).value && storage.studentsData == old(storage.studentsData)
      ensures old(storage.studentsData).None? ==>
        studentsData == seed && storage.studentsData == Some(seed)
    {
      var storedData := storage.studentsData;
      if storedData.Some? {
        studentsData := storedData.value;
        totalStudents := |storedData.value|;
      } else {
        FetchData();
      }
    }

    /** Reset both copies to the seed list. */
    method FetchData()
      modifies this, storage
      ensures Valid() && showSideBar == old(showSideBar)
      ensures studentsData == seed && storage.studentsData == Some(seed)
    {
      studentsData := seed;
      storage.studentsData := Some(seed);
      totalStudents := |seed|;
    }

    /** Put the student in front under the id one above the largest present,
        and persist the new list. */
    method AddStudent(student: Student)
      modifies this, storage
      ensures Valid() && showSideBar == old(showSideBar)
      ensures studentsData == Prepended(old(studentsData), student)
      ensures storage.studentsData == Some(studentsData)
      ensures studentsData[0].id > 0 && studentsData[0] == student.(id := studentsData[0].id)
      ensures forall i :: 0 <= i < |old(studentsData)| ==> old(studentsData)[i].id < studentsData[0].id
      ensures UniqueIds(old(studentsData)) ==> UniqueIds(studentsData)
    {
      var currentStudents := studentsData;
      var largestId := MaxId(currentStudents);
      var newStudent := student.(id := largestId + 1);
      studentsData := [newStudent] + currentStudents;
      storage.studentsData := Some(studentsData);
      totalStudents := |studentsData|;
      if UniqueIds(currentStudents) {
        PrependedPreservesUniqueIds(currentStudents, student);
      }
    }

    /** Replace, in the persisted copy only, the first record whose id matches;
        the in-memory list is not touched. An absent key is read as `[]` and
        written back as `[]`. */
    method UpdateStudent(updatedStudent: Student)
      modifies storage
      ensures storage.studentsData == Some(ReplaceFirst(old(storage.Load()), updatedStudent))
    {
      var stored := storage.Load();
      var currentStudents := new Student[|stored|](j requires 0 <= j < |stored| => stored[j]);
      var studentIndex := FindIndex(stored, updatedStudent.id);
      if studentIndex > -1 {
        currentStudents[studentIndex] := updatedStudent;
      }
      assert currentStudents[..] == ReplaceFirst(stored, updatedStudent);
      storage.studentsData := Some(currentStudents[..]);
    }

    /** Drop every record whose id is selected and persist the result. */
    method DeleteStudents(selectedIds: set<int>)
      modifies this, storage
      ensures Valid() && showSideBar == old(showSideBar)
      ensures studentsData == RemoveIds(old(studentsData), selectedIds)
      ensures storage.studentsData == Some(studentsData)
    {
      var updatedStudents := RemoveIds(studentsData, selectedIds);
      studentsData := updatedStudents;
      storage.studentsData := Some(updatedStudents);
      totalStudents := |updatedStudents|;
    }
  }

  /** A client of the store: deleting id 1 from `[1, 2]` and then adding a
      student gives the new student id 3, in front of record 2. */
  method DeleteThenAddScenario(name: string, email: string, phone: string)
  {
    var s1 := Student(1, "A", 3.5, "Male", "", "");
    var s2 := Student(2, "B", 3.9, "Female", "", "");
    var storage := new Storage(Some([s1, s2]));
    var store := new Students(storage, []);
    assert store.studentsData == [s1, s2];
    assert RemoveIds([s1, s2], {1}) == [s2] by {
      assert [s1, s2][1..] == [s2] && [s2][1..] == [];
      assert Filter([s2], IdNotIn({1})) == [s2];
    }
    store.DeleteStudents({1});
    var x := Student(0, name, 3.0, "Others", email, phone);
    assert Prepended([s2], x) == [x.(id := 3), s2] by {
      assert MaxId([s2]) == 2 by { assert [s2][..0] == []; }
    }
    store.AddStudent(x);
    assert store.studentsData == [x.(id := 3), s2];
    assert store.totalStudents == 2 && storage.studentsData == Some([x.(id := 3), s2]);
  }
}
