/**
 * The whole conversion: filter the existing rows, split every name, group the rows by
 * region and build one region tree per group. Each tree is what one output file holds,
 * so the result is a map from region name to tree.
 */
module Pipeline {
  import opened Wrappers
  import opened Text
  import opened Address
  import opened Records
  import opened Aggregate

  /** The trees the script writes, one per region, or the error that stops it. */
  function Convert(records: seq<Record>): (r: Result<map<string, Region>, SplitError>)
    ensures r.Failure? <==> exists x :: x in records && x.status == Exists && AllSpace(x.name)
  {
    var existing := Existing(records);
    match SplitRows(existing)
    case Failure(e) => Failure(e)
    case Success(rows) =>
      Success(Trees(rows))
  }

  /** One tree per region of the split rows, built from that region's group. */
  function Trees(rows: seq<Row>): (m: map<string, Region>)
    ensures m.Keys == Regions(rows)
    ensures forall region :: region in m ==> m[region].name == region
  {
    map region | region in Regions(rows) :: GroupOfRegion(rows, region); RegionOf(region, GroupOf(rows, region))
  }

  /**
   * The loop over `df.groupby('시도')`. The order in which groups are visited is left open:
   * each group is turned into its tree independently of the others.
   */
  method BuildAll(rows: seq<Row>) returns (files: map<string, Region>)
    ensures files == Trees(rows)
  {
    var todo := Regions(rows);
    files := map[];
    while todo != {}
      invariant todo <= Regions(rows)
      invariant files.Keys == Regions(rows) - todo
      invariant forall region :: region in files ==> files[region] == Trees(rows)[region]
      decreases todo
    {
      var region :| region in todo;
      GroupOfRegion(rows, region);
      var tree := BuildRegion(region, GroupOf(rows, region));
      files := files[region := tree];
      todo := todo - {region};
    }
  }

  /** The whole script: filter, split, then one tree per group. */
  method ConvertAll(records: seq<Record>) returns (out: Result<map<string, Region>, SplitError>)
    ensures out == Convert(records)
  {
    var existing := Existing(records);
    var split := SplitRows(existing);
    if split.Failure? {
      return Failure(split.error);
    }
    var files := BuildAll(split.value);
    out := Success(files);
  }

  /** A registry with no existing row converts to no trees at all. */
  lemma NothingExisting(records: seq<Record>)
    requires forall k :: 0 <= k < |records| ==> records[k].status != Exists
    ensures Convert(records) == Success(map[])
  {
    ExistingOfAbolished(records);
    assert Regions([]) == {};
  }

  /** Abolished rows play no part: removing one anywhere leaves the output unchanged. */
  lemma AbolishedIgnored(before: seq<Record>, x: Record, after: seq<Record>)
    requires x.status != Exists
    ensures Convert(before + [x] + after) == Convert(before + after)
  {
    var left := before + [x];
    ExistingAppend(left, after);
    ExistingAppend(before, [x]);
    ExistingAppend(before, after);
    assert Existing([x]) == [] by {
      assert [x][1..] == [];
    }
    assert Existing(left + after) == Existing(before + after);
    assert before + [x] + after == left + after;
  }

  function ExampleRecords(a: string, b: string, c: string, k0: string, k1: string, k2: string): seq<Record> {
    [Record(k0, a, Exists), Record(k1, a + " " + b, Exists), Record(k2, a + " " + b + " " + c, Exists)]
  }

  function ExampleRows(a: string, b: string, c: string, k0: string, k1: string, k2: string): seq<Row> {
    [Row(k0, a, None, None), Row(k1, a, Some(b), None), Row(k2, a, Some(b), Some(c))]
  }

  lemma {:induction false} ExampleSplit(a: string, b: string, c: string, k0: string, k1: string, k2: string)
    requires IsToken(a) && IsToken(b) && IsToken(c)
    ensures SplitRows(Existing(ExampleRecords(a, b, c, k0, k1, k2))) == Success(ExampleRows(a, b, c, k0, k1, k2))
  {
    var recs := ExampleRecords(a, b, c, k0, k1, k2);
    var rows := ExampleRows(a, b, c, k0, k1, k2);
    assert Existing(recs) == recs by {
      assert Existing(recs[2..]) == recs[2..] by { assert recs[2..][1..] == []; }
      assert Existing(recs[1..]) == recs[1..] by { assert recs[1..][1..] == recs[2..]; }
    }
    forall k | 0 <= k < |recs|
      ensures SplitAddress(recs[k].name) == Success(Parts(rows[k].region, rows[k].district, rows[k].locality))
    {
      if k == 0 {
        SplitOneToken(a);
      } else if k == 1 {
        SplitTwoTokens(a, b);
      } else {
        SplitThreeTokens(a, b, c);
      }
    }
    SplitRowsEach(recs, rows);
  }

  lemma {:induction false} ExampleDistricts(a: string, b: string, c: string, k0: string, k1: string, k2: string)
    ensures Districts(ExampleRows(a, b, c, k0, k1, k2)) == [District(Take(k2, 5), b, [Leaf(k2, c)])]
  {
    var rows := ExampleRows(a, b, c, k0, k1, k2);
    var p1, p2 := rows[..1], rows[..2];
    assert Init(p1) == [] && Last(p1) == rows[0];
    assert Init(p2) == p1 && Last(p2) == rows[1];
    assert Init(rows) == p2 && Last(rows) == rows[2];
    assert Seen(p1) == [];
    assert Seen(p2) == [];
    assert Seen(rows) == [b];
    assert Leaves(p1, b) == [];
    assert Leaves(p2, b) == [];
    assert Leaves(rows, b) == [Leaf(k2, c)];
    assert CodeOf(rows, b) == Take(k2, 5);
  }

  lemma {:induction false} ExampleGroup(a: string, b: string, c: string, k0: string, k1: string, k2: string)
    ensures Regions(ExampleRows(a, b, c, k0, k1, k2)) == {a}
    ensures GroupOf(ExampleRows(a, b, c, k0, k1, k2), a) == ExampleRows(a, b, c, k0, k1, k2)
  {
    var rows := ExampleRows(a, b, c, k0, k1, k2);
    assert rows[0] in rows;
    assert GroupOf(rows[2..], a) == rows[2..] by { assert rows[2..][1..] == []; }
    assert GroupOf(rows[1..], a) == rows[1..] by { assert rows[1..][1..] == rows[2..]; }
  }

  lemma {:induction false} ExampleTrees(a: string, b: string, c: string, k0: string, k1: string, k2: string)
    ensures Trees(ExampleRows(a, b, c, k0, k1, k2))
      == map[a := Region(Take(k0, 2), a, [District(Take(k2, 5), b, [Leaf(k2, c)])])]
  {
    var rows := ExampleRows(a, b, c, k0, k1, k2);
    ExampleGroup(a, b, c, k0, k1, k2);
    ExampleDistricts(a, b, c, k0, k1, k2);
    assert Trees(rows).Keys == {a};
    assert Trees(rows)[a] == RegionOf(a, rows);
  }

  /**
   * The smallest registry: a region row, a district row and a locality row, all existing.
   * It yields one region tree, coded by the region row, with one district coded by the
   * locality row and one leaf; the region and district rows add no leaves. With
   * a = "서울특별시", b = "종로구", c = "청운동" and codes 1100000000, 1111000000,
   * 1111010100 this is the tree {11 서울특별시 [{11110 종로구 [{1111010100 청운동}]}]}.
   */
  lemma ThreeLevelExample(a: string, b: string, c: string, k0: string, k1: string, k2: string)
    requires IsToken(a) && IsToken(b) && IsToken(c)
    ensures Convert(ExampleRecords(a, b, c, k0, k1, k2))
      == Success(map[a := Region(Take(k0, 2), a, [District(Take(k2, 5), b, [Leaf(k2, c)])])])
  {
    ExampleSplit(a, b, c, k0, k1, k2);
    ExampleTrees(a, b, c, k0, k1, k2);
  }
}
