# Legal-dong code registry to per-region trees

This project models the core of `csv_to_json.py`. The script reads the national register of
legal administrative-division codes (법정동코드). Each row holds a code, a full name and a status.
The script keeps the rows that still exist, splits each name into region (시도), district (시군구)
and locality (읍면동), and builds one tree per region. A region node holds district nodes, and
each district node holds locality leaves.

The Dafny modules follow the script's stages:

- `Wrappers`: `Option` (Python's `None`) and `Result` (for the one exception the core can raise).
- `Text`: the Python string operations the core relies on. These are `str.split()` with no
  separator (splitting on runs of `str.isspace()` characters), `' '.join(...)` and the slice `s[:n]`.
- `Address`: the splitter `split_address_three_levels`, which decides by token count alone.
- `Records`: the status filter, the mapping of the splitter over every row, and grouping by region.
- `Aggregate`: the loop that builds one region's tree. `BuildRegion` is an imperative method with a
  map plus a key-order sequence, standing for the insertion-ordered `defaultdict`. It is proved
  equal to a declarative definition (`Seen`, `Leaves`, `CodeOf`, `Districts`), and the fold's
  properties are proved as lemmas about that definition.
- `Pipeline`: the loop over the region groups, with one tree per region as the result.

The script has no suffix-driven classification. It does not drop names whose last word ends
in 리 (village), has no special branch for the autonomous city, and does not zero-pad leaf codes.
It splits by token count alone, and this model does the same. For example, a four-word name
ending in 리 is kept, and its middle two words form the district (`SplitFourTokens`). Leaf codes
are the full code, unchanged. A blank name raises `IndexError`, which stops the script; the
model returns that error rather than treating the name as excluded.

## Model

| member | source | states |
|---|---|---|
| Text.Tokens | csv_to_json.py:11 | every token that `name.strip().split()` yields is non-empty and free of whitespace |
| Text.TokensAtSpace | csv_to_json.py:11 | any whitespace character separates: the tokens of a + [c] + b, for a whitespace c, are the tokens of a followed by those of b, so a run of whitespace is one separator and tokens are maximal runs |
| Text.TokensEmpty | csv_to_json.py:11-13 | a name has no tokens exactly when it is empty or all whitespace |
| Text.TokensKeepText | csv_to_json.py:11 | splitting neither loses nor reorders any non-whitespace character: the tokens concatenate to the name with its whitespace removed |
| Text.TokensOfJoin | csv_to_json.py:11 | round trip: splitting tokens joined by single spaces gives the same tokens back |
| Text.NormalizeIdempotent | csv_to_json.py:11 | `' '.join(s.split())` keeps the tokens of `s`, so applying it twice is the same as applying it once |
| Text.Join | csv_to_json.py:17 | `sep.join(ts)` begins with the first part |
| Text.JoinSnoc | csv_to_json.py:17 | appending a part to a non-empty list appends the separator and that part to the join |
| Text.Take | csv_to_json.py:45 | the slice `s[:n]` is a prefix of `s` of length min(\|s\|, n), so a code shorter than n is kept whole |
| Address.SplitTokens | csv_to_json.py:12-17 | the case split on the token list fails exactly on an empty list; otherwise the region is the first token, there are min(token count, 3) components, and the components joined by single spaces equal the tokens joined by single spaces |
| Address.SplitAddress | csv_to_json.py:10-17 | fails (IndexError) exactly when the name is blank; otherwise the region is one token, a locality implies a district, the locality is one token and the district is non-empty |
| Address.SplitJoined | csv_to_json.py:11-17 | a name made of tokens joined by single spaces splits according to exactly those tokens |
| Address.SplitByTokenCount | csv_to_json.py:11-17 | the result has min(token count, 3) components: 1 token gives (t0, None, None), 2 give (t0, t1, None), 3 or more give (t0, the middle tokens joined by single spaces, last token), and that district splits back into exactly the middle tokens |
| Address.SplitReconstructs | csv_to_json.py:11-17 | the present components, joined by single spaces, give the whitespace-normalised name `' '.join(name.split())` |
| Address.SplitIgnoresSpacing | csv_to_json.py:11 | a name splits the same way as its whitespace-normalised form |
| Address.SplitOneToken | csv_to_json.py:12-13 | one token t gives (t, None, None) |
| Address.SplitTwoTokens | csv_to_json.py:14-15 | "a b" gives (a, b, None) |
| Address.SplitThreeTokens | csv_to_json.py:16-17 | "a b c" gives (a, b, c) |
| Address.SplitFourTokens | csv_to_json.py:16-17 | "a b c d" gives (a, "b c", d), whatever the suffix of d (so a village name ending in 리 is kept) |
| Records.Existing | csv_to_json.py:7 | the kept rows are exactly the rows whose status is 존재 |
| Records.ExistingAppend | csv_to_json.py:7 | the status filter preserves order: filtering a concatenation concatenates the filtered parts |
| Records.ExistingOfAbolished | csv_to_json.py:7 | with no row whose status is 존재, nothing is kept |
| Records.ExistingIdempotent | csv_to_json.py:7 | filtering twice is the same as filtering once |
| Records.SplitRows | csv_to_json.py:19 | splitting the name column fails exactly when some name is blank; otherwise row k carries row k's code and the split of row k's name |
| Records.SplitRowsEach | csv_to_json.py:19 | if every name splits into the matching row, the whole column split yields those rows |
| Records.CompleteIffThreeTokens | csv_to_json.py:42-43 | a row has both a district and a locality exactly when its name has three or more tokens, so region rows and district rows are skipped |
| Records.GroupOf | csv_to_json.py:22 | a group holds exactly the rows of its region |
| Records.GroupOfRegion | csv_to_json.py:22 | a group is non-empty exactly for the regions that occur |
| Records.GroupOfAppend | csv_to_json.py:22 | grouping keeps the rows' order and multiplicity: the group of a concatenation is the concatenation of the groups |
| Aggregate.Seen | csv_to_json.py:35 | the district keys are pairwise distinct, and a name is a key exactly when some non-skipped row has that district |
| Aggregate.LeavesOfUnmentioned | csv_to_json.py:35 | a district that no non-skipped row names has no leaves, like the default entry of the dictionary |
| Aggregate.Districts | csv_to_json.py:52 | the region's children are one node per key in first-insertion order; each node's name equals its key, and nodes are unique by name |
| Aggregate.BuildRegion | csv_to_json.py:25-52 | the loop's tree has the first row's code cut to 2 characters and the group's name, and equals the declarative tree (`RegionOf`) |
| Aggregate.SkippedRowNoEffect | csv_to_json.py:42-43 | a row without a district or without a locality changes nothing |
| Aggregate.CompleteRowStep | csv_to_json.py:45-50 | a non-skipped row whose district is new appends a node holding just its leaf; one whose district is known keeps that node's place, overwrites its code with the row's 5-character prefix and appends the leaf; every other node is unchanged |
| Aggregate.LeafCount | csv_to_json.py:37-50 | the tree holds exactly as many leaves as there are non-skipped rows |
| Aggregate.FirstSeenOrder | csv_to_json.py:35-52 | districts appear in the order their names were first seen: every row feeding a later district is preceded by a row feeding each earlier one |
| Aggregate.LastWriteWins | csv_to_json.py:45 | a district's code is the 5-character prefix of the code of the last non-skipped row with that district name |
| Aggregate.FoldOnlyAppends | csv_to_json.py:37-50 | more rows never alter earlier results: the district order and each district's leaves can only be extended at the end |
| Aggregate.LeavesFromRows | csv_to_json.py:47-50 | every leaf of a district is (full code unchanged, locality) of some row with that district |
| Pipeline.Convert | csv_to_json.py:7-52 | the conversion fails exactly when some existing row has a blank name |
| Pipeline.NothingExisting | csv_to_json.py:7-52 | a registry with no existing row converts to no trees |
| Pipeline.Trees | csv_to_json.py:22-52 | there is one tree per region that occurs, and it carries the region's name |
| Pipeline.BuildAll | csv_to_json.py:22-27 | the loop over the groups, whatever the order it visits them in, builds exactly one tree per region, each equal to that region's tree in `Trees` |
| Pipeline.ConvertAll | csv_to_json.py:7-52 | filtering, splitting and the loop over the groups together yield the result of `Convert` |
| Pipeline.AbolishedIgnored | csv_to_json.py:7 | removing an abolished row from anywhere in the input leaves the output unchanged |
| Pipeline.ThreeLevelExample | csv_to_json.py:7-52 | a region row, a district row and a locality row give one tree: the region code comes from the first row, and there is one district coded by the locality row with one leaf |

## Left out

- Pipeline.Convert: for a registry with no row whose status is 존재, the model yields no trees (`NothingExisting`). pandas may instead raise at the three-column assignment of line 19 when `apply` runs on an empty column. Either way no file is written. The model does not capture that error.
- Reading the CSV file with pandas and cp949 decoding is not modelled. It is I/O; the input is a sequence of (code, name, status) records.
- Codes are modelled as the strings that `str()` produces. pandas reads the code column as integers, and for the register's 10-digit codes, which never start with 0, `str()` gives back the digits.
- Names are modelled as strings. An empty name cell would reach the splitter as a floating-point NaN and fail at `.strip()` with AttributeError; that case is not modelled.
- The pandas `apply`/`pd.Series` column assignment is not modelled beyond its meaning. The splitter is mapped over the rows, and the first blank name aborts the whole run.
- The order in which `groupby` visits regions (sorted keys) is not modelled. Each region's tree is built and written independently, so the result is a map from region name to tree.
- JSON serialisation, file naming, writing and the progress message are not modelled. These are I/O. Also, district objects start from the dictionary default `{"children": []}`, so their JSON keys come out as children, code, name. The model's field order does not capture this.
- The `if not group.empty else ""` fallback is left out. A group produced by `groupby` is never empty, so the branch is dead; `BuildRegion` and `RegionOf` require a non-empty group instead.
- Python's `defaultdict` values are dictionaries mutated in place. The model keeps them as values in a map and reassigns the entry. Nothing else refers to these objects, so aliasing plays no part.
