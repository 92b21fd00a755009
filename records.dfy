/**
 * The registry rows the converter works on: the status filter, the split of every name
 * into three columns, and the grouping of rows by region.
 */
module Records {
  import opened Wrappers
  import opened Text
  import opened Address

  /** The status value of a row that still exists (the other value marks it abolished). */
  const Exists: string := "존재"

  /** One registry row: code (법정동코드, as `str()` renders it), full name (법정동명), status (폐지여부). */
  datatype Record = Record(code: string, name: string, status: string)

  /** A row after the split: its code and the three name columns 시도, 시군구, 읍면동. */
  datatype Row = Row(code: string, region: string, district: Option<string>, locality: Option<string>)

  /** `df[df['폐지여부'] == '존재']`: the rows whose status is the existing one, in order. */
  function Existing(records: seq<Record>): (r: seq<Record>)
    ensures forall x :: x in r <==> x in records && x.status == Exists
    ensures |r| <= |records|
  {
    if records == [] then []
    else (if records[0].status == Exists then [records[0]] else []) + Existing(records[1..])
  }

  /** With no existing row, nothing is kept. */
  lemma {:induction false} ExistingOfAbolished(records: seq<Record>)
    requires forall k :: 0 <= k < |records| ==> records[k].status != Exists
    ensures Existing(records) == []
    decreases |records|
  {
    if records != [] {
      ExistingOfAbolished(records[1..]);
    }
  }

  /** The filter keeps relative order: filtering a concatenation concatenates the filtered parts. */
  lemma {:induction false} ExistingAppend(a: seq<Record>, b: seq<Record>)
    ensures Existing(a + b) == Existing(a) + Existing(b)
    decreases |a|
  {
    if a == [] {
      assert a + b == b;
    } else {
      assert (a + b)[1..] == a[1..] + b;
      ExistingAppend(a[1..], b);
    }
  }

  /** Filtering twice is filtering once. */
  lemma {:induction false} ExistingIdempotent(records: seq<Record>)
    ensures Existing(Existing(records)) == Existing(records)
    decreases |records|
  {
    if records != [] {
      var head := if records[0].status == Exists then [records[0]] else [];
      ExistingAppend(head, Existing(records[1..]));
      ExistingIdempotent(records[1..]);
      assert Existing(head) == head;
    }
  }

  function RowOf(code: string, p: Parts): Row {
    Row(code, p.region, p.district, p.locality)
  }

  /**
   * The column assignment that applies the splitter to every name. The first name without
   * a token raises, so the whole split fails exactly when some name is all whitespace.
   */
  function SplitRows(records: seq<Record>): (r: Result<seq<Row>, SplitError>)
    ensures r.Failure? <==> exists k :: 0 <= k < |records| && AllSpace(records[k].name)
    ensures r.Success? ==> |r.value| == |records|
    ensures r.Success? ==> forall k :: 0 <= k < |records| ==>
      SplitAddress(records[k].name).Success? &&
      r.value[k] == RowOf(records[k].code, SplitAddress(records[k].name).value)
  {
    if records == [] then Success([])
    else
      match SplitAddress(records[0].name)
      case Failure(e) => Failure(e)
      case Success(p) =>
        match SplitRows(records[1..])
        case Failure(e) => Failure(e)
        case Success(rest) => Success([RowOf(records[0].code, p)] + rest)
  }

  /** The split succeeds with `rows` when every name splits into the matching row. */
  lemma SplitRowsEach(records: seq<Record>, rows: seq<Row>)
    requires |rows| == |records|
    requires forall k :: 0 <= k < |records| ==>
      SplitAddress(records[k].name) == Success(Parts(rows[k].region, rows[k].district, rows[k].locality))
      && rows[k].code == records[k].code
    ensures SplitRows(records) == Success(rows)
  {
    assert forall k :: 0 <= k < |records| ==> !AllSpace(records[k].name);
  }

  /** A row can be placed in the tree: it has both a district and a locality. */
  predicate Complete(r: Row) {
    r.district.Some? && r.locality.Some?
  }

  /** A row is complete exactly when its name had three or more tokens. */
  lemma CompleteIffThreeTokens(code: string, name: string)
    requires !AllSpace(name)
    ensures Complete(RowOf(code, SplitAddress(name).value)) <==> |Tokens(name)| >= 3
  {
    SplitByTokenCount(name);
  }

  /** The region names that occur among the rows: the keys of `df.groupby('시도')`. */
  function Regions(rows: seq<Row>): set<string> {
    set r | r in rows :: r.region
  }

  /** One group of `df.groupby('시도')`: the rows of that region, in their original order. */
  function GroupOf(rows: seq<Row>, region: string): (g: seq<Row>)
    ensures forall x :: x in g <==> x in rows && x.region == region
  {
    if rows == [] then []
    else (if rows[0].region == region then [rows[0]] else []) + GroupOf(rows[1..], region)
  }

  /** A region has a non-empty group exactly when it occurs among the rows. */
  lemma GroupOfRegion(rows: seq<Row>, region: string)
    ensures region in Regions(rows) <==> GroupOf(rows, region) != []
  {
    if region in Regions(rows) {
      var x :| x in rows && x.region == region;
      assert x in GroupOf(rows, region);
    }
  }

  /**
   * Grouping keeps the rows' order and multiplicity: the group of a concatenation is the
   * concatenation of the groups, so a group's first row is the region's first row.
   */
  lemma {:induction false} GroupOfAppend(a: seq<Row>, b: seq<Row>, region: string)
    ensures GroupOf(a + b, region) == GroupOf(a, region) + GroupOf(b, region)
    decreases |a|
  {
    if a == [] {
      assert a + b == b;
    } else {
      var head := if a[0].region == region then [a[0]] else [];
      assert (a + b)[0] == a[0] && (a + b)[1..] == a[1..] + b;
      assert GroupOf(a + b, region) == head + GroupOf(a[1..] + b, region);
      assert GroupOf(a, region) == head + GroupOf(a[1..], region);
      GroupOfAppend(a[1..], b, region);
    }
  }
}
