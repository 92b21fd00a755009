/**
 * The parts of Python's string semantics the converter relies on:
 * `str.split()` with no separator, `sep.join(parts)` and the slice `s[:n]`.
 */
module Text {

  /** The characters for which Python's `str.isspace()` holds; `str.split()` splits on runs of them. */
  predicate IsSpace(c: char) {
    c == ' ' || ('\t' <= c <= '\r') || ('\U{1c}' <= c <= '\U{1f}') ||
    c == '\U{85}' || c == '\U{a0}' || c == '\U{1680}' || ('\U{2000}' <= c <= '\U{200a}') ||
    c == '\U{2028}' || c == '\U{2029}' || c == '\U{202f}' || c == '\U{205f}' || c == '\U{3000}'
  }

  predicate SpaceFree(s: string) {
    forall i :: 0 <= i < |s| ==> !IsSpace(s[i])
  }

  predicate AllSpace(s: string) {
    forall i :: 0 <= i < |s| ==> IsSpace(s[i])
  }

  /** A token as `str.split()` yields it: non-empty and without whitespace. */
  predicate IsToken(t: string) {
    t != [] && SpaceFree(t)
  }

  /** The Python slice `s[:n]`: the first `n` characters, or all of `s` when it is shorter. */
  function Take(s: string, n: nat): (r: string)
    ensures r <= s
    ensures |r| == if |s| < n then |s| else n
  {
    if |s| <= n then s else s[..n]
  }

  /** The longest prefix of `s` free of whitespace. */
  function Word(s: string): (w: string)
    ensures w <= s && SpaceFree(w)
    ensures |w| < |s| ==> IsSpace(s[|w|])
    ensures s != [] && !IsSpace(s[0]) ==> w != []
  {
    if s == [] || IsSpace(s[0]) then [] else [s[0]] + Word(s[1..])
  }

  /** `s.split()`: the maximal runs of non-whitespace characters, left to right. */
  function Tokens(s: string): (ts: seq<string>)
    ensures forall k :: 0 <= k < |ts| ==> IsToken(ts[k])
    decreases |s|
  {
    if s == [] then []
    else if IsSpace(s[0]) then Tokens(s[1..])
    else
      var w := Word(s);
      [w] + Tokens(s[|w|..])
  }

  /** `sep.join(ts)`. */
  function Join(ts: seq<string>, sep: string): (r: string)
    ensures |ts| > 0 ==> ts[0] <= r
  {
    if |ts| == 0 then ""
    else if |ts| == 1 then ts[0]
    else ts[0] + sep + Join(ts[1..], sep)
  }

  /** `' '.join(s.split())`: the tokens of `s` separated by single spaces. */
  function Normalize(s: string): string {
    Join(Tokens(s), " ")
  }

  /** The characters of `s` that are not whitespace, in order. */
  function NonSpace(s: string): (r: string)
    ensures SpaceFree(r) && |r| <= |s|
  {
    if s == [] then []
    else (if IsSpace(s[0]) then [] else [s[0]]) + NonSpace(s[1..])
  }

  function Concat(ts: seq<string>): string {
    if ts == [] then [] else ts[0] + Concat(ts[1..])
  }

  /** A name has no tokens exactly when it is empty or all whitespace. */
  lemma {:induction false} TokensEmpty(s: string)
    ensures Tokens(s) == [] <==> AllSpace(s)
    decreases |s|
  {
    if s != [] {
      if IsSpace(s[0]) {
        TokensEmpty(s[1..]);
        if AllSpace(s[1..]) {
          forall i | 0 <= i < |s| ensures IsSpace(s[i]) {
            if i > 0 { assert s[i] == s[1..][i - 1]; }
          }
        } else {
          var i :| 0 <= i < |s[1..]| && !IsSpace(s[1..][i]);
          assert !IsSpace(s[i + 1]);
        }
      } else {
        assert !IsSpace(s[0]);
      }
    }
  }

  lemma {:induction false} NonSpaceAppend(a: string, b: string)
    ensures NonSpace(a + b) == NonSpace(a) + NonSpace(b)
    decreases |a|
  {
    if a != [] {
      assert (a + b)[1..] == a[1..] + b;
      NonSpaceAppend(a[1..], b);
    } else {
      assert a + b == b;
    }
  }

  lemma {:induction false} NonSpaceOfSpaceFree(t: string)
    requires SpaceFree(t)
    ensures NonSpace(t) == t
    decreases |t|
  {
    if t != [] {
      NonSpaceOfSpaceFree(t[1..]);
      assert [t[0]] + t[1..] == t;
    }
  }

  /** Splitting loses no non-whitespace character and reorders none. */
  lemma {:induction false} TokensKeepText(s: string)
    ensures Concat(Tokens(s)) == NonSpace(s)
    decreases |s|
  {
    if s != [] {
      if IsSpace(s[0]) {
        TokensKeepText(s[1..]);
      } else {
        var w := Word(s);
        var rest := s[|w|..];
        TokensKeepText(rest);
        assert s == w + rest;
        NonSpaceAppend(w, rest);
        NonSpaceOfSpaceFree(w);
        assert Tokens(s) == [w] + Tokens(rest);
        assert Tokens(s)[1..] == Tokens(rest);
      }
    }
  }

  lemma {:induction false} WordOfToken(t: string, rest: string)
    requires IsToken(t)
    requires rest == [] || IsSpace(rest[0])
    ensures Word(t + rest) == t
    decreases |t|
  {
    assert (t + rest)[0] == t[0];
    if |t| == 1 {
      assert (t + rest)[1..] == rest;
    } else {
      assert (t + rest)[1..] == t[1..] + rest;
      WordOfToken(t[1..], rest);
      assert [t[0]] + t[1..] == t;
    }
  }

  lemma {:induction false} TokensOfToken(t: string)
    requires IsToken(t)
    ensures Tokens(t) == [t]
  {
    WordOfToken(t, []);
    assert t + [] == t;
    assert t[|t|..] == [];
  }

  lemma {:induction false} TokensOfSpaced(t: string, rest: string)
    requires IsToken(t)
    ensures Tokens(t + " " + rest) == [t] + Tokens(rest)
  {
    var s := t + " " + rest;
    assert s == t + (" " + rest);
    WordOfToken(t, " " + rest);
    assert s[|t|..] == " " + rest;
    assert (" " + rest)[1..] == rest;
  }

  /** Round trip: splitting tokens joined by single spaces gives the tokens back. */
  lemma {:induction false} TokensOfJoin(ts: seq<string>)
    requires forall k :: 0 <= k < |ts| ==> IsToken(ts[k])
    ensures Tokens(Join(ts, " ")) == ts
    decreases |ts|
  {
    if |ts| == 1 {
      TokensOfToken(ts[0]);
    } else if |ts| > 1 {
      TokensOfJoin(ts[1..]);
      TokensOfSpaced(ts[0], Join(ts[1..], " "));
      assert [ts[0]] + ts[1..] == ts;
    }
  }

  /** A word stops at the first whitespace, whatever follows it. */
  lemma {:induction false} WordBeforeSpace(a: string, t: string)
    requires t == [] || IsSpace(t[0])
    ensures Word(a + t) == Word(a)
    decreases |a|
  {
    if a == [] {
      assert a + t == t;
    } else {
      assert (a + t)[0] == a[0];
      assert (a + t)[1..] == a[1..] + t;
      WordBeforeSpace(a[1..], t);
    }
  }

  /**
   * Any whitespace character separates: the tokens on its two sides are never glued
   * together, so a run of whitespace acts as one separator and tokens are maximal runs.
   */
  lemma {:induction false} TokensAtSpace(a: string, c: char, b: string)
    requires IsSpace(c)
    ensures Tokens(a + [c] + b) == Tokens(a) + Tokens(b)
    decreases |a|
  {
    var s := a + [c] + b;
    if a == [] {
      assert s == [c] + b && s[1..] == b;
    } else if IsSpace(a[0]) {
      assert s[0] == a[0] && s[1..] == a[1..] + [c] + b;
      TokensAtSpace(a[1..], c, b);
    } else {
      assert s == a + ([c] + b) && s[0] == a[0];
      WordBeforeSpace(a, [c] + b);
      var w := Word(a);
      assert s[|w|..] == a[|w|..] + [c] + b;
      TokensAtSpace(a[|w|..], c, b);
    }
  }

  /** Normalising whitespace does not change the tokens, so normalising twice is normalising once. */
  lemma NormalizeIdempotent(s: string)
    ensures Tokens(Normalize(s)) == Tokens(s)
    ensures Normalize(Normalize(s)) == Normalize(s)
  {
    TokensOfJoin(Tokens(s));
  }

  lemma {:induction false} JoinSnoc(ts: seq<string>, t: string, sep: string)
    requires |ts| > 0
    ensures Join(ts + [t], sep) == Join(ts, sep) + sep + t
    decreases |ts|
  {
    if |ts| == 1 {
      assert (ts + [t])[1..] == [t];
    } else {
      assert (ts + [t])[1..] == ts[1..] + [t];
      JoinSnoc(ts[1..], t, sep);
    }
  }
}
