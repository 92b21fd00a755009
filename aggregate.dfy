/**
 * The per-region fold: the rows of one region become a region node whose children are
 * the district nodes, each holding its locality leaves.
 */
module Aggregate {
  import opened Wrappers
  import opened Text
  import opened Records

  /** A locality leaf `{code, name}`. */
  datatype Leaf = Leaf(code: string, name: string)

  /** A district node `{code, name, children}`. */
  datatype District = District(code: string, name: string, children: seq<Leaf>)

  /** A region node `{code, name, children}`, the content of one output file. */
  datatype Region = Region(code: string, name: string, children: seq<District>)

  /** Row `r` contributes a leaf to the district named `d`. */
  predicate Feeds(r: Row, d: string) {
    r.district == Some(d) && r.locality.Some?
  }

  function Init(rows: seq<Row>): seq<Row>
    requires rows != []
  {
    rows[..|rows| - 1]
  }

  function Last(rows: seq<Row>): Row
    requires rows != []
  {
    rows[|rows| - 1]
  }

  /** Some complete row names district `d`. */
  predicate Mentions(rows: seq<Row>, d: string) {
    exists k :: 0 <= k < |rows| && Feeds(rows[k], d)
  }

  predicate Distinct(ds: seq<string>) {
    forall j, k :: 0 <= j < k < |ds| ==> ds[j] != ds[k]
  }

  /**
   * The district names of the complete rows, each once, in the order in which they were
   * first seen.
   */
  function Seen(rows: seq<Row>): (ds: seq<string>)
    ensures Distinct(ds)
    ensures forall d :: d in ds <==> Mentions(rows, d)
    decreases |rows|
  {
    if rows == [] then []
    else
      var prev := Seen(Init(rows));
      var r := Last(rows);
      assert forall d :: Mentions(rows, d) <==> Mentions(Init(rows), d) || Feeds(r, d);
      if Complete(r) && r.district.value !in prev then prev + [r.district.value] else prev
  }

  /** The leaves of district `d`: one per row that feeds it, full code and locality, in row order. */
  function Leaves(rows: seq<Row>, d: string): seq<Leaf>
    decreases |rows|
  {
    if rows == [] then []
    else
      var r := Last(rows);
      Leaves(Init(rows), d) + (if Feeds(r, d) then [Leaf(r.code, r.locality.value)] else [])
  }

  /** A district that no row feeds has no leaves. */
  lemma {:induction false} LeavesOfUnmentioned(rows: seq<Row>, d: string)
    requires !Mentions(rows, d)
    ensures Leaves(rows, d) == []
    decreases |rows|
  {
    if rows != [] {
      assert !Mentions(Init(rows), d) by {
        forall k | 0 <= k < |Init(rows)| ensures !Feeds(Init(rows)[k], d) {
          assert Init(rows)[k] == rows[k];
        }
      }
      LeavesOfUnmentioned(Init(rows), d);
    }
  }

  /** The code of district `d`: the 5-character prefix of the code of the last row that feeds it. */
  function CodeOf(rows: seq<Row>, d: string): string
    decreases |rows|
  {
    if rows == [] then ""
    else if Feeds(Last(rows), d) then Take(Last(rows).code, 5)
    else CodeOf(Init(rows), d)
  }

  function NodeOf(rows: seq<Row>, d: string): District {
    District(CodeOf(rows, d), d, Leaves(rows, d))
  }

  /**
   * The children of a region: one node per district named by a complete row, in first-seen
   * order, each named by its key; nodes are unique by name.
   */
  function Districts(rows: seq<Row>): (r: seq<District>)
    ensures |r| == |Seen(rows)|
    ensures forall k :: 0 <= k < |r| ==> r[k] == NodeOf(rows, Seen(rows)[k])
    ensures forall d :: (exists k :: 0 <= k < |r| && r[k].name == d) <==> Mentions(rows, d)
    ensures forall j, k :: 0 <= j < k < |r| ==> r[j].name != r[k].name
  {
    var ds := Seen(rows);
    var r := seq(|ds|, k requires 0 <= k < |ds| => NodeOf(rows, ds[k]));
    forall d ensures (exists k :: 0 <= k < |r| && r[k].name == d) <==> d in ds {
      if d in ds {
        var k :| 0 <= k < |ds| && ds[k] == d;
        assert r[k].name == d;
      }
    }
    r
  }

  /** The region node for region `name` built from its (non-empty) group of rows. */
  function RegionOf(name: string, group: seq<Row>): Region
    requires group != []
  {
    Region(Take(group[0].code, 2), name, Districts(group))
  }

  /**
   * The loop of the converter over one group. Its region code is the 2-character prefix of
   * the FIRST row's code, whatever later rows say; `nodes` plays the insertion-ordered
   * dictionary of districts, `order` its key order.
   */
  method BuildRegion(name: string, group: seq<Row>) returns (tree: Region)
    requires group != []
    ensures tree.code == Take(group[0].code, 2) && tree.name == name
    ensures tree == RegionOf(name, group)
  {
    var code := Take(group[0].code, 2);
    var nodes: map<string, District> := map[];
    var order: seq<string> := [];
    var i := 0;
    while i < |group|
      invariant 0 <= i <= |group|
      invariant order == Seen(group[..i])
      invariant forall d :: d in nodes <==> d in order
      invariant forall d :: d in nodes ==> nodes[d] == NodeOf(group[..i], d)
    {
      var row := group[i];
      assert group[..i + 1] != [] && Init(group[..i + 1]) == group[..i] && Last(group[..i + 1]) == row;
      if row.district.Some? && row.locality.Some? {
        var d := row.district.value;
        if d !in nodes {
          LeavesOfUnmentioned(group[..i], d);
          // the dictionary's default entry: no code or name yet, no children
          nodes := nodes[d := District("", "", [])];
          order := order + [d];
        }
        var node := nodes[d];
        node := node.(code := Take(row.code, 5));
        node := node.(name := d);
        node := node.(children := node.children + [Leaf(row.code, row.locality.value)]);
        nodes := nodes[d := node];
      }
      i := i + 1;
    }
    assert group[..i] == group;
    tree := Region(code, name, seq(|order|, k requires 0 <= k < |order| => nodes[order[k]]));
  }

  /** The leaves of all districts, counted. */
  function LeafTotal(ds: seq<District>): nat
    decreases |ds|
  {
    if ds == [] then 0 else LeafTotal(ds[..|ds| - 1]) + |ds[|ds| - 1].children|
  }

  /** The number of rows that have both a district and a locality. */
  function CompleteCount(rows: seq<Row>): nat
    decreases |rows|
  {
    if rows == [] then 0 else CompleteCount(Init(rows)) + (if Complete(Last(rows)) then 1 else 0)
  }

  /** A row that lacks a district or a locality changes nothing. */
  lemma SkippedRowNoEffect(rows: seq<Row>, r: Row)
    requires !Complete(r)
    ensures Districts(rows + [r]) == Districts(rows)
  {
    var rows' := rows + [r];
    assert Init(rows') == rows && Last(rows') == r;
    assert forall d :: NodeOf(rows', d) == NodeOf(rows, d);
  }

  /**
   * One complete row with district `d`: a new name appends a node holding the row's leaf;
   * a known name keeps its place, takes the row's 5-character code and gains the leaf at
   * the end of its children. Every other node is unchanged.
   */
  lemma {:induction false} CompleteRowStep(rows: seq<Row>, r: Row)
    requires Complete(r)
    ensures var d := r.district.value;
      var leaf := Leaf(r.code, r.locality.value);
      && (d !in Seen(rows) ==>
            Districts(rows + [r]) == Districts(rows) + [District(Take(r.code, 5), d, [leaf])])
      && (forall m :: 0 <= m < |Seen(rows)| && Seen(rows)[m] == d ==>
            Districts(rows + [r])
              == Districts(rows)[m := District(Take(r.code, 5), d, Districts(rows)[m].children + [leaf])])
  {
    var d := r.district.value;
    var rows' := rows + [r];
    assert Init(rows') == rows && Last(rows') == r;
    assert forall e :: e != d ==> NodeOf(rows', e) == NodeOf(rows, e);
    if d !in Seen(rows) {
      LeavesOfUnmentioned(rows, d);
      assert Seen(rows') == Seen(rows) + [d];
      assert NodeOf(rows', d) == District(Take(r.code, 5), d, [Leaf(r.code, r.locality.value)]);
    }
  }

  lemma {:induction false} LeafTotalUpdate(ds: seq<District>, m: nat, x: District)
    requires m < |ds|
    ensures LeafTotal(ds[m := x]) + |ds[m].children| == LeafTotal(ds) + |x.children|
    decreases |ds|
  {
    var ds' := ds[m := x];
    if m < |ds| - 1 {
      assert ds'[..|ds'| - 1] == ds[..|ds| - 1][m := x];
      LeafTotalUpdate(ds[..|ds| - 1], m, x);
    } else {
      assert ds'[..|ds'| - 1] == ds[..|ds| - 1];
    }
  }

  /** Every complete row adds exactly one leaf: the tree holds as many leaves as complete rows. */
  lemma {:induction false} LeafCount(rows: seq<Row>)
    ensures LeafTotal(Districts(rows)) == CompleteCount(rows)
    decreases |rows|
  {
    if rows != [] {
      var prev, r := Init(rows), Last(rows);
      assert rows == prev + [r];
      LeafCount(prev);
      if !Complete(r) {
        SkippedRowNoEffect(prev, r);
      } else {
        var d := r.district.value;
        CompleteRowStep(prev, r);
        var ds := Districts(prev);
        if d in Seen(prev) {
          var m :| 0 <= m < |Seen(prev)| && Seen(prev)[m] == d;
          var x := District(Take(r.code, 5), d, ds[m].children + [Leaf(r.code, r.locality.value)]);
          LeafTotalUpdate(ds, m, x);
        } else {
          var ds' := ds + [District(Take(r.code, 5), d, [Leaf(r.code, r.locality.value)])];
          assert ds'[..|ds'| - 1] == ds;
        }
      }
    }
  }

  /**
   * Districts keep the order in which their names were first seen: every row feeding a
   * later district comes after some row feeding each earlier one.
   */
  lemma {:induction false} FirstSeenOrder(rows: seq<Row>, j: nat, k: nat, a: nat)
    requires j < k < |Seen(rows)|
    requires a < |rows| && Feeds(rows[a], Seen(rows)[k])
    ensures exists b :: 0 <= b < a && Feeds(rows[b], Seen(rows)[j])
    decreases |rows|
  {
    var prev, r := Init(rows), Last(rows);
    var sp := Seen(prev);
    assert j < |sp| && Seen(rows)[j] == sp[j];
    assert Mentions(prev, sp[j]);
    if a < |prev| {
      assert prev[a] == rows[a];
      assert k < |sp| by {
        if k == |sp| {
          assert Mentions(prev, Seen(rows)[k]);
        }
      }
      assert Seen(rows)[k] == sp[k];
      FirstSeenOrder(prev, j, k, a);
      var b :| 0 <= b < a && Feeds(prev[b], sp[j]);
      assert rows[b] == prev[b];
    } else {
      var b :| 0 <= b < |prev| && Feeds(prev[b], sp[j]);
      assert rows[b] == prev[b];
    }
  }

  /**
   * Last write wins: a district's code is the 5-character prefix of the code of the last
   * row that feeds it.
   */
  lemma {:induction false} LastWriteWins(rows: seq<Row>, d: string)
    requires Mentions(rows, d)
    ensures exists a :: (0 <= a < |rows| && Feeds(rows[a], d) && CodeOf(rows, d) == Take(rows[a].code, 5)
                         && forall b :: a < b < |rows| ==> !Feeds(rows[b], d))
    decreases |rows|
  {
    var prev, r := Init(rows), Last(rows);
    if !Feeds(r, d) {
      var a :| 0 <= a < |rows| && Feeds(rows[a], d);
      assert a < |prev| && prev[a] == rows[a];
      LastWriteWins(prev, d);
      var a' :| 0 <= a' < |prev| && Feeds(prev[a'], d) && CodeOf(prev, d) == Take(prev[a'].code, 5)
        && forall b :: a' < b < |prev| ==> !Feeds(prev[b], d);
      assert rows[a'] == prev[a'];
      assert forall b :: a' < b < |rows| ==> !Feeds(rows[b], d) by {
        forall b | a' < b < |rows| ensures !Feeds(rows[b], d) {
          if b < |prev| { assert rows[b] == prev[b]; }
        }
      }
    } else {
      assert Feeds(rows[|rows| - 1], d);
    }
  }

  /**
   * Earlier results are never altered: more rows only append districts after the known
   * ones and only append leaves after a district's existing leaves.
   */
  lemma {:induction false} FoldOnlyAppends(rows: seq<Row>, more: seq<Row>, d: string)
    ensures Seen(rows) <= Seen(rows + more)
    ensures Leaves(rows, d) <= Leaves(rows + more, d)
    decreases |more|
  {
    if more == [] {
      assert rows + more == rows;
    } else {
      var all := rows + more;
      assert Init(all) == rows + Init(more);
      FoldOnlyAppends(rows, Init(more), d);
    }
  }

  /** The leaves of a district are the locality leaves of the rows that feed it, in row order. */
  lemma {:induction false} LeavesFromRows(rows: seq<Row>, d: string, i: nat)
    requires i < |Leaves(rows, d)|
    ensures exists a :: (0 <= a < |rows| && Feeds(rows[a], d)
                         && Leaves(rows, d)[i] == Leaf(rows[a].code, rows[a].locality.value))
    decreases |rows|
  {
    var prev, r := Init(rows), Last(rows);
    if i < |Leaves(prev, d)| {
      LeavesFromRows(prev, d, i);
      var a :| 0 <= a < |prev| && Feeds(prev[a], d)
        && Leaves(prev, d)[i] == Leaf(prev[a].code, prev[a].locality.value);
      assert rows[a] == prev[a];
    } else {
      assert Feeds(rows[|rows| - 1], d);
    }
  }
}
