/**
 * The flat student record shared by the store, the charts and the grid, and
 * the pure helpers over lists of records that the store and the grid use:
 * the largest-id fold of `addStudent`, the `findIndex`/`find` by id of
 * `updateStudent` and `updateSelectedRowData`, and the id filter of both
 * `deleteStudents`.
 */
module Records {
  import opened Seqs

  datatype Option<T> = None | Some(value: T)

  /** One student: `{id, name, gpa, gender, email, phone}`. An empty `gender`
      stands for a missing or empty field (both are falsy in the source). */
  datatype Student = Student(id: int, name: string, gpa: real, gender: string, email: string, phone: string)

  /** The payload a chart click hands to the grid: `{name, y}`. */
  datatype ClickedPoint = ClickedPoint(name: string, y: int)

  /** The four gender categories, in the order of the column chart. */
  const GenderCategories: seq<string> := ["Male", "Female", "Others", "Prefer not to say"]

  ghost predicate UniqueIds(s: seq<Student>) {
    forall i, j :: 0 <= i < j < |s| ==> s[i].id != s[j].id
  }

  function Max(a: int, b: int): int { if a < b then b else a }

  /** `reduce((maxId, s) => Math.max(maxId, s.id || 0), 0)`: a left fold
      that starts at 0, so the result is never negative. */
  function MaxId(s: seq<Student>): (m: int)
    ensures m >= 0
    ensures forall i :: 0 <= i < |s| ==> s[i].id <= m
    ensures m == 0 || exists i :: 0 <= i < |s| && s[i].id == m
  {
    if s == [] then 0 else Max(MaxId(s[..|s| - 1]), s[|s| - 1].id)
  }

  /** The record `addStudent` stores: the input with its id overwritten. */
  function WithNextId(s: seq<Student>, student: Student): (r: Student)
    ensures r.id >= 1
    ensures forall i :: 0 <= i < |s| ==> s[i].id < r.id
    ensures r.id == 1 || exists i :: 0 <= i < |s| && s[i].id == r.id - 1
    ensures r == student.(id := r.id)
  {
    student.(id := MaxId(s) + 1)
  }

  /** The list after `addStudent`: the new record in front of the old ones. */
  function Prepended(s: seq<Student>, student: Student): (r: seq<Student>)
    ensures |r| == |s| + 1 && r[1..] == s
    ensures r[0] == student.(id := r[0].id)
    ensures forall i :: 1 <= i < |r| ==> r[i].id < r[0].id
  {
    [WithNextId(s, student)] + s
  }

  /** Adding a student keeps the ids unique, puts the new record first, keeps
      the old records in order behind it and grows the list by one. */
  lemma PrependedPreservesUniqueIds(s: seq<Student>, student: Student)
    requires UniqueIds(s)
    ensures UniqueIds(Prepended(s, student))
    ensures |Prepended(s, student)| == |s| + 1
    ensures Prepended(s, student)[0] == student.(id := Prepended(s, student)[0].id)
    ensures Prepended(s, student)[1..] == s
  {
  }

  /** `findIndex(s => s.id === id)`: the first position holding `id`, or -1. */
  function FindIndex(s: seq<Student>, id: int): (i: int)
    ensures -1 <= i < |s|
    ensures i >= 0 ==> s[i].id == id && forall j :: 0 <= j < i ==> s[j].id != id
    ensures i == -1 ==> forall j :: 0 <= j < |s| ==> s[j].id != id
  {
    if s == [] then -1
    else if s[0].id == id then 0
    else
      var k := FindIndex(s[1..], id);
      if k == -1 then -1 else k + 1
  }

  /** `find(row => row.id === id)`: the first record holding `id`, if any. */
  function FindById(s: seq<Student>, id: int): (r: Option<Student>)
    ensures r.Some? ==> r.value in s && r.value.id == id
    ensures r.None? <==> forall i :: 0 <= i < |s| ==> s[i].id != id
    ensures r.Some? ==> exists i :: 0 <= i < |s| && s[i] == r.value && forall j :: 0 <= j < i ==> s[j].id != id
  {
    var i := FindIndex(s, id);
    if i >= 0 then Some(s[i]) else None
  }

  /** The list `updateStudent` persists: the first record holding the
      updated record's id is replaced by it; without such a record the list
      is unchanged. */
  function ReplaceFirst(s: seq<Student>, updated: Student): (r: seq<Student>)
    ensures |r| == |s|
    ensures forall j :: 0 <= j < |s| && s[j].id != updated.id ==> r[j] == s[j]
    ensures forall i :: 0 <= i < |s| && s[i].id == updated.id && (forall j :: 0 <= j < i ==> s[j].id != updated.id) ==>
      r[i] == updated && forall j :: 0 <= j < |s| && j != i ==> r[j] == s[j]
  {
    var i := FindIndex(s, updated.id);
    if i >= 0 then s[i := updated] else s
  }

  /** After the replacement a lookup by the id finds the updated record,
      provided the id was present. */
  lemma ReplaceFirstIsFound(s: seq<Student>, updated: Student)
    requires exists j :: 0 <= j < |s| && s[j].id == updated.id
    ensures FindById(ReplaceFirst(s, updated), updated.id) == Some(updated)
  {
    var i := FindIndex(s, updated.id);
    var r := ReplaceFirst(s, updated);
    assert r[i] == updated;
    forall j | 0 <= j < i ensures r[j].id != updated.id {
      assert r[j] == s[j];
    }
    assert FindIndex(r, updated.id) == i by {
      FindIndexIsFirst(r, updated.id, i);
    }
  }

  /** A position holding `id` with no earlier one is what `FindIndex` returns. */
  lemma FindIndexIsFirst(s: seq<Student>, id: int, i: nat)
    requires i < |s| && s[i].id == id
    requires forall j :: 0 <= j < i ==> s[j].id != id
    ensures FindIndex(s, id) == i
  {
  }

  /** Replacing with an absent id changes nothing, and replacing keeps the
      ids unique when the id was present. */
  lemma ReplaceFirstKeepsIds(s: seq<Student>, updated: Student)
    ensures (forall j :: 0 <= j < |s| ==> s[j].id != updated.id) ==> ReplaceFirst(s, updated) == s
    ensures UniqueIds(s) ==> UniqueIds(ReplaceFirst(s, updated))
  {
  }

  /** With unique ids, the record found is the only one with that id. */
  lemma FindByIdUnique(s: seq<Student>, k: nat)
    requires UniqueIds(s) && k < |s|
    ensures FindById(s, s[k].id) == Some(s[k])
  {
  }

  /** The filter predicate `!selectedIds.has(student.id)`. */
  function IdNotIn(ids: set<int>): (p: Student -> bool)
    ensures forall x :: p(x) <==> x.id !in ids
  {
    (x: Student) => x.id !in ids
  }

  /** `filter(s => !selectedIds.has(s.id))`. */
  function RemoveIds(s: seq<Student>, ids: set<int>): (r: seq<Student>)
    ensures forall i :: 0 <= i < |r| ==> r[i] in s && r[i].id !in ids
    ensures forall i :: 0 <= i < |s| && s[i].id !in ids ==> s[i] in r
    ensures IsSubsequence(r, s)
    ensures forall x :: multiset(r)[x] == if x.id in ids then 0 else multiset(s)[x]
  {
    FilterIsSubsequence(s, IdNotIn(ids));
    FilterMembers(s, IdNotIn(ids));
    FilterMultiset(s, IdNotIn(ids));
    Filter(s, IdNotIn(ids))
  }

  /** Removing ids none of which is present leaves the list as it was; in
      particular an empty set changes nothing. */
  lemma RemoveAbsentIds(s: seq<Student>, ids: set<int>)
    requires forall i :: 0 <= i < |s| ==> s[i].id !in ids
    ensures RemoveIds(s, ids) == s
  {
    FilterKeepsAll(s, IdNotIn(ids));
  }

  /** Removing ids keeps the remaining ids unique. */
  lemma {:induction false} RemoveIdsPreservesUniqueIds(s: seq<Student>, ids: set<int>)
    requires UniqueIds(s)
    ensures UniqueIds(RemoveIds(s, ids))
  {
    SubsequencePreservesUniqueIds(RemoveIds(s, ids), s);
  }

  lemma {:induction false} SubsequencePreservesUniqueIds(r: seq<Student>, s: seq<Student>)
    requires UniqueIds(s) && IsSubsequence(r, s)
    ensures UniqueIds(r)
  {
    if s != [] {
      assert UniqueIds(s[1..]) by {
        forall i, j | 0 <= i < j < |s[1..]| ensures s[1..][i].id != s[1..][j].id {
          assert s[1..][i] == s[i + 1] && s[1..][j] == s[j + 1];
        }
      }
      if IsSubsequence(r, s[1..]) {
        SubsequencePreservesUniqueIds(r, s[1..]);
      } else {
        SubsequencePreservesUniqueIds(r[1..], s[1..]);
        SubsequenceMembers(r[1..], s[1..]);
        forall i, j | 0 <= i < j < |r| ensures r[i].id != r[j].id {
          if i == 0 {
            assert r[j] == r[1..][j - 1];
            assert r[j] in s[1..];
            var k :| 0 <= k < |s[1..]| && s[1..][k] == r[j];
            assert s[k + 1] == r[j];
          } else {
            assert r[i] == r[1..][i - 1] && r[j] == r[1..][j - 1];
          }
        }
      }
    }
  }
}
