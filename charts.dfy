/**
 * The chart component (charts.component.ts): the GPA pie chart's six range
 * buckets, the gender column chart's four counts, and the point a click on
 * either chart stores for the grid.
 */
module Charts {
  import opened Seqs
  import opened Records

  /** Bucket k covers `Bounds[k] <= gpa < Bounds[k + 1]`; the last one also
      takes `gpa == 4.0`. */
  const Bounds: seq<real> := [0.0, 3.0, 3.2, 3.4, 3.6, 3.8, 4.0]

  /** The bucket names, in the order the pie chart lists them. */
  const BucketNames: seq<string> := ["0-3.0", "3.0-3.2", "3.2-3.4", "3.4-3.6", "3.6-3.8", "3.8-4.0"]

  /** A slice of the pie chart: `{name, y, sliced}`. */
  datatype ChartPoint = ChartPoint(name: string, y: int, sliced: bool)

  /** `g` lies in bucket `k` according to the bucket table. */
  ghost predicate InBucket(k: int, g: real) {
    0 <= k < 6 && Bounds[k] <= g && (g < Bounds[k + 1] || (k == 5 && g == Bounds[6]))
  }

  /** The `if`/`else if` chain of `updateChartData`: the index of the range
      counter a GPA increments, or -1 when it increments none. */
  function GpaBucket(g: real): (k: int)
    ensures -1 <= k < 6
    ensures k >= 0 <==> 0.0 <= g <= 4.0
    ensures forall j {:trigger InBucket(j, g)} :: InBucket(j, g) <==> k >= 0 && j == k
  {
    if g >= 0.0 && g < 3.0 then 0
    else if g >= 3.0 && g < 3.2 then 1
    else if g >= 3.2 && g < 3.4 then 2
    else if g >= 3.4 && g < 3.6 then 3
    else if g >= 3.6 && g < 3.8 then 4
    else if g >= 3.8 && g <= 4.0 then 5
    else -1
  }

  /** The first five buckets are half-open. */
  lemma HalfOpenBucket(k: nat, g: real)
    requires k < 5
    ensures GpaBucket(g) == k <==> Bounds[k] <= g < Bounds[k + 1]
  {
  }

  /** The last bucket is closed: it takes 4.0. */
  lemma ClosedLastBucket(g: real)
    ensures GpaBucket(g) == 5 <==> 3.8 <= g <= 4.0
  {
  }

  function BucketOf(x: Student): int {
    GpaBucket(x.gpa)
  }

  /** The predicate `0 <= gpa <= 4`. */
  const GpaInDomain: Student -> bool := (x: Student) => 0.0 <= x.gpa <= 4.0

  /** The counting loop of `updateChartData`: one counter per range, each
      student incrementing at most one of them. */
  method GpaRangeCounts(students: seq<Student>) returns (counts: seq<nat>)
    ensures |counts| == 6
    ensures forall k :: 0 <= k < 6 ==> counts[k] == CountKey(students, BucketOf, k)
  {
    var ranges := new nat[6](_ => 0);
    for i := 0 to |students|
      invariant forall k :: 0 <= k < 6 ==> ranges[k] == CountKey(students[..i], BucketOf, k)
    {
      assert students[..i + 1] == students[..i] + [students[i]];
      forall k | 0 <= k < 6
        ensures CountKey(students[..i + 1], BucketOf, k)
             == CountKey(students[..i], BucketOf, k) + (if BucketOf(students[i]) == k then 1 else 0)
      {
        CountKeySnoc(students[..i], students[i], BucketOf, k);
      }
      var b := GpaBucket(students[i].gpa);
      if b >= 0 {
        ranges[b] := ranges[b] + 1;
      }
    }
    assert students[..|students|] == students;
    counts := ranges[..];
  }

  /** Every student whose GPA lies in [0, 4] is counted in exactly one bucket
      and no other student is counted: the six counts add up to the number of
      students with a GPA in [0, 4]. */
  lemma GpaCountsTotal(students: seq<Student>)
    ensures SumCounts(students, BucketOf, 6) == |Filter(students, GpaInDomain)|
    ensures SumCounts(students, BucketOf, 6) <= |students|
  {
    SumCountsIsCountInRange(students, BucketOf, 6);
    FilterCongruent(students, KeyBelow(BucketOf, 6), GpaInDomain);
  }

  /** When every GPA lies in [0, 4] the six counts add up to the number of students. */
  lemma GpaCountsCoverAll(students: seq<Student>)
    requires forall i :: 0 <= i < |students| ==> 0.0 <= students[i].gpa <= 4.0
    ensures SumCounts(students, BucketOf, 6) == |students|
  {
    GpaCountsTotal(students);
    FilterKeepsAll(students, GpaInDomain);
  }

  /** `student.gender || 'Others'`. */
  function EffectiveGender(x: Student): (g: string)
    ensures g != ""
    ensures x.gender != "" ==> g == x.gender
    ensures x.gender == "" ==> g == "Others"
  {
    if x.gender == "" then "Others" else x.gender
  }

  /** The gender counter a student increments in `updateGenderChartData`, as
      its position in the column order, or -1 when it increments none. */
  function GenderColumn(x: Student): (k: int)
    ensures -1 <= k < 4
    ensures k >= 0 ==> GenderCategories[k] == EffectiveGender(x)
    ensures k == -1 <==> EffectiveGender(x) !in GenderCategories
    ensures x.gender == "" ==> k == 2
  {
    var g := EffectiveGender(x);
    if g == "Male" then 0
    else if g == "Female" then 1
    else if g == "Others" then 2
    else if g == "Prefer not to say" then 3
    else -1
  }

  /** The counting loop of `updateGenderChartData` over the dictionary
      `genderCounts`, whose keys are the four categories. */
  method GenderCounts(students: seq<Student>) returns (genderCounts: map<string, nat>)
    ensures forall g :: g in genderCounts <==> g in GenderCategories
    ensures forall k :: 0 <= k < 4 ==> GenderCategories[k] in genderCounts && genderCounts[GenderCategories[k]] == CountKey(students, GenderColumn, k)
  {
    genderCounts := map["Male" := 0, "Female" := 0, "Others" := 0, "Prefer not to say" := 0];
    for i := 0 to |students|
      invariant forall g :: g in genderCounts <==> g in GenderCategories
      invariant forall k :: 0 <= k < 4 ==> genderCounts[GenderCategories[k]] == CountKey(students[..i], GenderColumn, k)
    {
      assert students[..i + 1] == students[..i] + [students[i]];
      forall k | 0 <= k < 4
        ensures CountKey(students[..i + 1], GenderColumn, k)
             == CountKey(students[..i], GenderColumn, k) + (if GenderColumn(students[i]) == k then 1 else 0)
      {
        CountKeySnoc(students[..i], students[i], GenderColumn, k);
      }
      var gender := EffectiveGender(students[i]);
      if gender in genderCounts {
        genderCounts := genderCounts[gender := genderCounts[gender] + 1];
      }
    }
    assert students[..|students|] == students;
  }

  /** The four gender counts never exceed the number of students: a gender
      outside the categories is counted nowhere. */
  lemma GenderCountsAtMost(students: seq<Student>)
    ensures SumCounts(students, GenderColumn, 4) <= |students|
  {
    SumCountsIsCountInRange(students, GenderColumn, 4);
  }

  lemma GenderColumnCounted(x: Student)
    requires x.gender == "" || x.gender in GenderCategories
    ensures 0 <= GenderColumn(x) < 4
  {
  }

  /** When every gender is one of the categories or empty, the four gender
      counts add up to the number of students. */
  lemma GenderCountsCoverAll(students: seq<Student>)
    requires forall i :: 0 <= i < |students| ==> students[i].gender == "" || students[i].gender in GenderCategories
    ensures SumCounts(students, GenderColumn, 4) == |students|
  {
    SumCountsIsCountInRange(students, GenderColumn, 4);
    forall i | 0 <= i < |students| ensures KeyBelow(GenderColumn, 4)(students[i]) {
      GenderColumnCounted(students[i]);
    }
    FilterKeepsAll(students, KeyBelow(GenderColumn, 4));
  }

  /** The component's state: the pie chart's data, the column chart's data
      and the last clicked point. */
  class ChartsComponent {
    var gpaSeries: seq<ChartPoint>
    var columnChartData: seq<int>
    var clickedData: seq<ClickedPoint>

    constructor ()
      ensures gpaSeries == [] && columnChartData == [] && clickedData == []
    {
      gpaSeries := [];
      columnChartData := [];
      clickedData := [];
    }

    /** Six slices in the fixed range order, zero counts included. */
    method UpdateChartData(students: seq<Student>)
      modifies this
      ensures |gpaSeries| == 6
      ensures forall k :: 0 <= k < 6 ==> gpaSeries[k] == ChartPoint(BucketNames[k], CountKey(students, BucketOf, k), true)
      ensures columnChartData == old(columnChartData) && clickedData == old(clickedData)
    {
      var counts := GpaRangeCounts(students);
      gpaSeries := seq(6, k requires 0 <= k < 6 => ChartPoint(BucketNames[k], counts[k], true));
    }

    /** The counts in the order Male, Female, Others, Prefer not to say. */
    method UpdateGenderChartData(students: seq<Student>)
      modifies this
      ensures |columnChartData| == 4
      ensures forall k :: 0 <= k < 4 ==> columnChartData[k] == CountKey(students, GenderColumn, k)
      ensures gpaSeries == old(gpaSeries) && clickedData == old(clickedData)
    {
      var genderCounts := GenderCounts(students);
      // GenderCategories lists "Male", "Female", "Others", "Prefer not to say" in bar order
      var male := genderCounts[GenderCategories[0]];
      var female := genderCounts[GenderCategories[1]];
      var others := genderCounts[GenderCategories[2]];
      var undisclosed := genderCounts[GenderCategories[3]];
      columnChartData := [male, female, others, undisclosed];
    }

    /** A click keeps exactly the clicked point's name and value. */
    method StoreClickedData(point: ClickedPoint)
      modifies this
      ensures clickedData == [ClickedPoint(point.name, point.y)]
      ensures gpaSeries == old(gpaSeries) && columnChartData == old(columnChartData)
    {
      clickedData := [ClickedPoint(point.name, point.y)];
    }
  }
}
