/**
 * How a click on a chart segment, handed to the grid as its label, relates to
 * what the chart counted under that label. For five of the six GPA slices and
 * three of the four gender bars the grid shows exactly the students the chart
 * counted. Two do not agree, and the model keeps both as the source has them:
 * the last GPA bucket counts a GPA of 4.0 but the grid's upper bound is
 * exclusive, and the chart counts an empty gender as `'Others'` but the grid
 * compares the raw field.
 */
module Agreement {
  import opened Seqs
  import opened Records
  import opened Labels
  import opened Charts
  import opened Table

  /** Each pie slice's name parses back to the bounds of its bucket. */
  lemma BucketNameParses(k: nat)
    requires k < 6
    ensures ParseRange(BucketNames[k]) == (Finite(Bounds[k]), Finite(Bounds[k + 1]))
  {
    var name, lo, hi := BucketNames[k], Bounds[k], Bounds[k + 1];
    if k == 0 {
      ParseRangeOfDigitAndPoint(name, '0', '3', '0', lo, hi);
    } else if k == 1 {
      ParseRangeOfPoints(name, '3', '0', '3', '2', lo, hi);
    } else if k == 2 {
      ParseRangeOfPoints(name, '3', '2', '3', '4', lo, hi);
    } else if k == 3 {
      ParseRangeOfPoints(name, '3', '4', '3', '6', lo, hi);
    } else if k == 4 {
      ParseRangeOfPoints(name, '3', '6', '3', '8', lo, hi);
    } else {
      ParseRangeOfPoints(name, '3', '8', '4', '0', lo, hi);
    }
  }

  /** A slice name starts with a digit and holds a hyphen, so the grid reads
      it as a range, never as a gender. */
  lemma BucketNameIsRange(k: nat)
    requires k < 6
    ensures BucketNames[k] !in GenderCategories && '-' in BucketNames[k]
  {
  }

  /** The rows the grid shows for a pie slice's name. */
  lemma SliceFilter(k: nat, rows: seq<Student>, shown: seq<Student>)
    requires k < 6
    ensures CrossFiltered(BucketNames[k], rows, shown) == Filter(rows, GpaWithin(Finite(Bounds[k]), Finite(Bounds[k + 1])))
  {
    BucketNameParses(k);
    BucketNameIsRange(k);
  }

  /** The predicate `gpa == g`. */
  function GpaIs(g: real): Student -> bool {
    (x: Student) => x.gpa == g
  }

  /** On the first five buckets the grid's half-open range test and the
      chart's bucket test pick the same students. */
  lemma HalfOpenRangeIsBucket(k: nat, rows: seq<Student>)
    requires k < 5
    ensures Filter(rows, GpaWithin(Finite(Bounds[k]), Finite(Bounds[k + 1]))) == Filter(rows, KeyIs(BucketOf, k))
  {
    var within := GpaWithin(Finite(Bounds[k]), Finite(Bounds[k + 1]));
    var inBucket := KeyIs(BucketOf, k);
    forall x: Student ensures within(x) == inBucket(x) {
      assert within(x) == (Bounds[k] <= x.gpa < Bounds[k + 1]);
      assert inBucket(x) == (GpaBucket(x.gpa) == k);
      HalfOpenBucket(k, x.gpa);
    }
    FilterCongruent(rows, within, inBucket);
  }

  /** Clicking one of the first five slices shows exactly the students the
      chart counted in it, in their order. */
  lemma SliceShowsItsBucket(k: nat, rows: seq<Student>, shown: seq<Student>)
    requires k < 5
    ensures CrossFiltered(BucketNames[k], rows, shown) == Filter(rows, KeyIs(BucketOf, k))
    ensures |CrossFiltered(BucketNames[k], rows, shown)| == CountKey(rows, BucketOf, k)
  {
    SliceFilter(k, rows, shown);
    HalfOpenRangeIsBucket(k, rows);
  }

  /** The chart's last bucket is the grid's range `[3.8, 4.0)` plus the
      students whose GPA is exactly 4.0. */
  lemma LastBucketSplits(rows: seq<Student>)
    ensures |Filter(rows, KeyIs(BucketOf, 5))|
         == |Filter(rows, GpaWithin(Finite(3.8), Finite(4.0)))| + |Filter(rows, GpaIs(4.0))|
  {
    var inBucket := KeyIs(BucketOf, 5);
    var within := GpaWithin(Finite(3.8), Finite(4.0));
    var top := GpaIs(4.0);
    forall x: Student ensures inBucket(x) == (within(x) || top(x)) && !(within(x) && top(x)) {
      assert inBucket(x) == (BucketOf(x) == 5);
      assert within(x) == (3.8 <= x.gpa < 4.0);
      assert top(x) == (x.gpa == 4.0);
      ClosedLastBucket(x.gpa);
    }
    FilterCountSplit(rows, inBucket, within, top);
  }

  /** Clicking the last slice, `3.8-4.0`, shows the students the chart
      counted in it except those whose GPA is exactly 4.0. */
  lemma LastSliceMissesTopGpa(rows: seq<Student>, shown: seq<Student>)
    ensures |CrossFiltered(BucketNames[5], rows, shown)| + |Filter(rows, GpaIs(4.0))| == CountKey(rows, BucketOf, 5)
  {
    SliceFilter(5, rows, shown);
    LastBucketSplits(rows);
  }

  /** A single student with GPA 4.0 is counted in the last slice, yet the
      grid shows nothing when that slice is clicked. */
  lemma TopGpaExample(x: Student, shown: seq<Student>)
    requires x.gpa == 4.0
    ensures BucketOf(x) == 5 && CountKey([x], BucketOf, 5) == 1
    ensures CrossFiltered(BucketNames[5], [x], shown) == []
  {
    SliceFilter(5, [x], shown);
    assert [x][1..] == [];
  }

  /** The four category names are non-empty and pairwise different. */
  lemma CategoriesDistinct()
    ensures forall i, j :: 0 <= i < j < 4 ==> GenderCategories[i] != GenderCategories[j]
    ensures "" !in GenderCategories
  {
  }

  /** A student counted under bar k has gender GenderCategories[k], and the
      converse holds for every bar but `Others`. */
  lemma GenderColumnIs(x: Student, k: nat)
    requires k < 4 && k != 2
    ensures GenderColumn(x) == k <==> x.gender == GenderCategories[k]
  {
  }

  /** Clicking the Male, Female or Prefer-not-to-say bar shows exactly the
      students the chart counted under it. */
  lemma BarShowsItsGender(k: nat, rows: seq<Student>, shown: seq<Student>)
    requires k < 4 && k != 2
    ensures CrossFiltered(GenderCategories[k], rows, shown) == Filter(rows, KeyIs(GenderColumn, k))
    ensures |CrossFiltered(GenderCategories[k], rows, shown)| == CountKey(rows, GenderColumn, k)
  {
    var sameGender := GenderIs(GenderCategories[k]);
    var inColumn := KeyIs(GenderColumn, k);
    forall x: Student ensures sameGender(x) == inColumn(x) {
      assert sameGender(x) == (x.gender == GenderCategories[k]);
      assert inColumn(x) == (GenderColumn(x) == k);
      GenderColumnIs(x, k);
    }
    FilterCongruent(rows, sameGender, inColumn);
  }

  /** The chart's `Others` bar also counts students with an empty gender,
      which the grid's `Others` filter leaves out. */
  lemma OthersBarCountsEmptyGender(rows: seq<Student>, shown: seq<Student>)
    ensures |CrossFiltered("Others", rows, shown)| + |Filter(rows, GenderIs(""))| == CountKey(rows, GenderColumn, 2)
  {
    var inColumn := KeyIs(GenderColumn, 2);
    var others := GenderIs("Others");
    var empty := GenderIs("");
    forall x: Student ensures inColumn(x) == (others(x) || empty(x)) && !(others(x) && empty(x)) {
      assert inColumn(x) == (GenderColumn(x) == 2);
      assert others(x) == (x.gender == "Others");
      assert empty(x) == (x.gender == "");
      CategoriesDistinct();
      if x.gender != "" {
        assert EffectiveGender(x) == x.gender;
      }
    }
    assert "Others" == GenderCategories[2];
    FilterCountSplit(rows, inColumn, others, empty);
  }

  /** A single student with no gender is counted under `Others`, yet the grid
      shows nothing when that bar is clicked. */
  lemma EmptyGenderExample(x: Student, shown: seq<Student>)
    requires x.gender == ""
    ensures GenderColumn(x) == 2 && CountKey([x], GenderColumn, 2) == 1
    ensures CrossFiltered("Others", [x], shown) == []
  {
  }
}
