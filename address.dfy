/**
 * The address splitter `split_address_three_levels`: a full administrative name is cut
 * on whitespace into (region, district, locality) by its token count alone.
 */
module Address {
  import opened Wrappers
  import opened Text

  /** The triple (시도, 시군구, 읍면동); `None` stands for Python's `None`. */
  datatype Parts = Parts(region: string, district: Option<string>, locality: Option<string>)

  /** `parts[0]` on an empty token list raises this. */
  datatype SplitError = IndexError

  /** The components that are present, most general first. */
  function Components(p: Parts): seq<string> {
    [p.region]
    + (if p.district.Some? then [p.district.value] else [])
    + (if p.locality.Some? then [p.locality.value] else [])
  }

  /** Three or more parts joined by spaces: the first, the middle ones joined, the last. */
  lemma JoinMiddle(parts: seq<string>)
    requires |parts| >= 3
    ensures Join(parts, " ") == parts[0] + " " + (Join(parts[1..|parts| - 1], " ") + " " + parts[|parts| - 1])
  {
    var n := |parts|;
    var mid, last := parts[1..n - 1], parts[n - 1];
    assert parts[1..] == mid + [last];
    JoinSnoc(mid, last, " ");
    assert Join(parts[1..], " ") == Join(mid, " ") + " " + last;
    assert Join(parts, " ") == parts[0] + " " + Join(parts[1..], " ");
  }

  /**
   * The case split on the token list: `parts[0]` fails on an empty list; otherwise the
   * first min(|parts|, 3) - 1 cut points are kept, so the present components, joined by
   * single spaces, give back the parts joined by single spaces.
   */
  function SplitTokens(parts: seq<string>): (r: Result<Parts, SplitError>)
    ensures r.Failure? <==> parts == []
    ensures r.Success? ==> r.value.region == parts[0]
    ensures r.Success? ==> |Components(r.value)| == if |parts| < 3 then |parts| else 3
    ensures r.Success? ==> Join(Components(r.value), " ") == Join(parts, " ")
  {
    if |parts| < 2 then
      if |parts| == 0 then Failure(IndexError) else Success(Parts(parts[0], None, None))
    else if |parts| == 2 then
      assert Components(Parts(parts[0], Some(parts[1]), None)) == parts;
      Success(Parts(parts[0], Some(parts[1]), None))
    else
      var p := Parts(parts[0], Some(Join(parts[1..|parts| - 1], " ")), Some(parts[|parts| - 1]));
      JoinMiddle(parts);
      assert Components(p) == [parts[0], p.district.value, parts[|parts| - 1]];
      assert Components(p)[1..] == [p.district.value, parts[|parts| - 1]];
      assert Components(p)[1..][1..] == [parts[|parts| - 1]];
      assert Join(Components(p)[1..], " ") == p.district.value + " " + parts[|parts| - 1];
      Success(p)
  }

  /**
   * `split_address_three_levels(name)`. It fails exactly when the name is empty or
   * all whitespace; otherwise the region is a single token, a locality only comes with
   * a district, and every present component is non-empty.
   */
  function SplitAddress(name: string): (r: Result<Parts, SplitError>)
    ensures r.Failure? <==> AllSpace(name)
    ensures r.Success? ==> IsToken(r.value.region)
    ensures r.Success? && r.value.locality.Some? ==> r.value.district.Some?
    ensures r.Success? && r.value.locality.Some? ==> IsToken(r.value.locality.value)
    ensures r.Success? && r.value.district.Some? ==> r.value.district.value != []
  {
    TokensEmpty(name);
    SplitTokens(Tokens(name))
  }

  /** A name written as tokens joined by single spaces splits by those tokens. */
  lemma SplitJoined(ts: seq<string>)
    requires forall k :: 0 <= k < |ts| ==> IsToken(ts[k])
    ensures SplitAddress(Join(ts, " ")) == SplitTokens(ts)
  {
    TokensOfJoin(ts);
  }

  /**
   * The split is decided by the token count: one token gives (t0, None, None), two give
   * (t0, t1, None), and three or more give (t0, the middle tokens, the last token), where
   * the district splits again into exactly the middle tokens.
   */
  lemma SplitByTokenCount(name: string)
    requires !AllSpace(name)
    ensures var ts := Tokens(name); var p := SplitAddress(name).value;
      && |Components(p)| == (if |ts| < 3 then |ts| else 3)
      && p.region == ts[0]
      && (|ts| == 1 ==> p.district == None && p.locality == None)
      && (|ts| == 2 ==> p.district == Some(ts[1]) && p.locality == None)
      && (|ts| >= 3 ==> p.district == Some(Join(ts[1..|ts| - 1], " ")))
      && (|ts| >= 3 ==> p.district.Some? && Tokens(p.district.value) == ts[1..|ts| - 1])
      && (|ts| >= 3 ==> p.locality == Some(ts[|ts| - 1]))
  {
    TokensEmpty(name);
    var ts := Tokens(name);
    if |ts| >= 3 {
      TokensOfJoin(ts[1..|ts| - 1]);
    }
  }

  /**
   * Reconstruction: the present components joined by single spaces give back the
   * whitespace-normalised name, `' '.join(name.split())`.
   */
  lemma SplitReconstructs(name: string)
    requires !AllSpace(name)
    ensures Join(Components(SplitAddress(name).value), " ") == Normalize(name)
  {
    TokensEmpty(name);
  }

  /** Whitespace layout does not matter: a name splits as its normalised form does. */
  lemma SplitIgnoresSpacing(name: string)
    ensures SplitAddress(Normalize(name)) == SplitAddress(name)
  {
    NormalizeIdempotent(name);
  }

  /** A single token splits into (that token, None, None). */
  lemma SplitOneToken(a: string)
    requires IsToken(a)
    ensures SplitAddress(a) == Success(Parts(a, None, None))
  {
    SplitJoined([a]);
  }

  /** Two tokens split into (first, second, None). */
  lemma SplitTwoTokens(a: string, b: string)
    requires IsToken(a) && IsToken(b)
    ensures SplitAddress(a + " " + b) == Success(Parts(a, Some(b), None))
  {
    SplitJoined([a, b]);
    assert [a, b][1..] == [b];
  }

  /** Three tokens split into (first, second, third). */
  lemma SplitThreeTokens(a: string, b: string, c: string)
    requires IsToken(a) && IsToken(b) && IsToken(c)
    ensures SplitAddress(a + " " + b + " " + c) == Success(Parts(a, Some(b), Some(c)))
  {
    var ts := [a, b, c];
    SplitJoined(ts);
    assert ts[1..] == [b, c] && ts[1..][1..] == [c];
    assert Join([b, c], " ") == b + " " + c;
    assert Join(ts, " ") == a + " " + (b + " " + c);
    assert a + " " + b + " " + c == a + " " + (b + " " + c);
    assert ts[1..2] == [b];
  }

  /**
   * Four tokens keep all four words: the middle two form the district, whatever the last
   * token's suffix. So "경기도 가평군 설악면 신천리", whose last word is a village (리),
   * gives ("경기도", "가평군 설악면", "신천리").
   */
  lemma SplitFourTokens(a: string, b: string, c: string, d: string)
    requires IsToken(a) && IsToken(b) && IsToken(c) && IsToken(d)
    ensures SplitAddress(a + " " + b + " " + c + " " + d) == Success(Parts(a, Some(b + " " + c), Some(d)))
  {
    var ts := [a, b, c, d];
    SplitJoined(ts);
    assert ts[1..] == [b, c, d] && ts[1..][1..] == [c, d] && ts[1..][1..][1..] == [d];
    assert Join([c, d], " ") == c + " " + d;
    assert Join([b, c, d], " ") == b + " " + (c + " " + d);
    assert Join(ts, " ") == a + " " + (b + " " + (c + " " + d));
    assert a + " " + b + " " + c + " " + d == a + " " + (b + " " + (c + " " + d));
    assert ts[1..3] == [b, c] && [b, c][1..] == [c];
    assert Join([b, c], " ") == b + " " + c;
  }
}
