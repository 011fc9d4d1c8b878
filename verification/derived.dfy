/** The two derived fields of the transform stage: the age group `pd.cut`
    assigns (DAG.py:104-106) and the region looked up from the country
    (DAG.py:109-116). */
module Derived {
  import opened Results
  import opened Tables

  // ---------------------------------------------------------------------------
  // Age groups
  // ---------------------------------------------------------------------------

  /** The bin edges handed to `pd.cut`; bin `k` is the right-closed interval
      `(AgeEdges[k], AgeEdges[k + 1]]`. */
  const AgeEdges: seq<real> := [0.0, 18.0, 25.0, 35.0, 50.0, 100.0]

  const AgeLabels: seq<string> := ["<18", "18-25", "26-35", "36-50", "50+"]

  /** The cells an age group can hold once it is defined. */
  const LabelCells: set<Cell> := set k | 0 <= k < 5 :: Text(AgeLabels[k])

  predicate InBin(age: real, k: nat)
    requires k < 5
  {
    AgeEdges[k] < age <= AgeEdges[k + 1]
  }

  /** Searches the bins from `k` upwards, as `pd.cut` does with sorted edges. */
  function BucketFrom(age: real, k: nat): (r: Option<nat>)
    requires k <= 5
    ensures r.Some? ==> k <= r.value < 5 && InBin(age, r.value)
    ensures r.None? ==> forall m :: k <= m < 5 ==> !InBin(age, m)
    decreases 5 - k
  {
    if k == 5 then None
    else if InBin(age, k) then Some(k)
    else BucketFrom(age, k + 1)
  }

  /** The bin `pd.cut(age, bins=AgeEdges)` puts `age` into; none outside (0, 100]. */
  function AgeBucket(age: real): (r: Option<nat>)
    ensures r.Some? ==> r.value < 5 && InBin(age, r.value)
    ensures r.None? <==> !(0.0 < age <= 100.0)
  {
    var r := BucketFrom(age, 0);
    assert r.None? ==> !InBin(age, 0) && !InBin(age, 1) && !InBin(age, 2) && !InBin(age, 3) && !InBin(age, 4);
    r
  }

  /** The bin of an age is the unique `k` whose interval holds it. */
  lemma AgeBucketUnique(age: real, k: nat)
    requires k < 5 && InBin(age, k)
    ensures AgeBucket(age) == Some(k)
  {
    var m := AgeBucket(age).value;
    assert InBin(age, m);
  }

  /** A larger age never lands in an earlier bin. */
  lemma AgeBucketMonotone(a1: real, a2: real)
    requires a1 <= a2
    requires AgeBucket(a1).Some? && AgeBucket(a2).Some?
    ensures AgeBucket(a1).value <= AgeBucket(a2).value
  {
    var k1, k2 := AgeBucket(a1).value, AgeBucket(a2).value;
    assert InBin(a1, k1) && InBin(a2, k2);
    assert forall m, n :: 0 <= m < n <= 5 ==> AgeEdges[m] < AgeEdges[n];
  }

  /** The label of the bin, or none when `pd.cut` leaves the value missing. */
  function AgeGroup(age: real): (r: Option<string>)
    ensures r.Some? <==> 0.0 < age <= 100.0
    ensures r.Some? ==> Text(r.value) in LabelCells
    ensures forall k :: 0 <= k < 5 && InBin(age, k) ==> r == Some(AgeLabels[k])
  {
    assert forall k :: 0 <= k < 5 && InBin(age, k) ==> AgeBucket(age) == Some(k) by {
      forall k | 0 <= k < 5 && InBin(age, k) ensures AgeBucket(age) == Some(k) {
        AgeBucketUnique(age, k);
      }
    }
    match AgeBucket(age)
    case Some(k) => Some(AgeLabels[k])
    case None => None
  }

  /** The five bins and labels written out one by one, as the edges and
      labels lists read side by side. */
  function CutAge(age: real): Option<string> {
    if 0.0 < age <= 18.0 then Some("<18")
    else if 18.0 < age <= 25.0 then Some("18-25")
    else if 25.0 < age <= 35.0 then Some("26-35")
    else if 35.0 < age <= 50.0 then Some("36-50")
    else if 50.0 < age <= 100.0 then Some("50+")
    else None
  }

  /** The bin search with its label table agrees with the written-out bins
      for every age. */
  lemma AgeGroupIsCut(age: real)
    ensures AgeGroup(age) == CutAge(age)
  {
    if 0.0 < age <= 18.0 {
      assert InBin(age, 0);
    } else if 18.0 < age <= 25.0 {
      assert InBin(age, 1);
    } else if 25.0 < age <= 35.0 {
      assert InBin(age, 2);
    } else if 35.0 < age <= 50.0 {
      assert InBin(age, 3);
    } else if 50.0 < age <= 100.0 {
      assert InBin(age, 4);
    }
  }

  /** The right-closed bins in action: an age on an edge belongs to the bin below it. */
  lemma AgeGroupExamples()
    ensures AgeGroup(40.0) == Some("36-50")
    ensures AgeGroup(18.0) == Some("<18")
    ensures AgeGroup(25.0) == Some("18-25")
    ensures AgeGroup(100.0) == Some("50+")
    ensures AgeGroup(0.0) == None && AgeGroup(100.5) == None && AgeGroup(-3.0) == None
  {
    AgeBucketUnique(40.0, 3);
    AgeBucketUnique(18.0, 0);
    AgeBucketUnique(25.0, 1);
    AgeBucketUnique(100.0, 4);
  }

  /** The age-group cell derived from one age cell. */
  function AgeGroupCell(age: Cell): (r: Cell)
    ensures r.Null? || r in LabelCells
    ensures r.Null? <==> !(age.Num? && 0.0 < age.v <= 100.0)
    ensures forall k :: 0 <= k < 5 && age.Num? && InBin(age.v, k) ==> r == Text(AgeLabels[k])
  {
    match age
    case Num(v) => (match AgeGroup(v) case Some(l) => Text(l) case None => Null)
    case _ => Null
  }

  // ---------------------------------------------------------------------------
  // Regions
  // ---------------------------------------------------------------------------

  const RegionTable: map<string, string> := map[
    "japan" := "asia", "south korea" := "asia", "india" := "asia",
    "australia" := "oceania",
    "uk" := "europe", "germany" := "europe", "france" := "europe",
    "brazil" := "south_america",
    "canada" := "north_america", "usa" := "north_america"
  ]

  const Regions: set<string> :=
    {"asia", "oceania", "europe", "south_america", "north_america", "other"}

  const RegionCells: set<Cell> := set r | r in Regions :: Text(r)

  /** `country.map(RegionTable).fillna('other')` for one cell: a missing or
      non-text country, or one the table does not list, becomes `other`. */
  function RegionOf(country: Cell): (r: string)
    ensures r in Regions
    ensures r == "other" <==> !(country.Text? && country.s in RegionTable)
    ensures country.Text? && country.s in RegionTable ==> r == RegionTable[country.s]
  {
    if country.Text? && country.s in RegionTable then
      assert forall c :: c in RegionTable ==> RegionTable[c] in Regions - {"other"};
      RegionTable[country.s]
    else "other"
  }

  lemma RegionExamples()
    ensures RegionOf(Text("usa")) == "north_america"
    ensures RegionOf(Text("japan")) == "asia"
    ensures RegionOf(Text("south korea")) == "asia"
    ensures RegionOf(Text("mexico")) == "other"
    ensures RegionOf(Null) == "other"
  {
  }
}
