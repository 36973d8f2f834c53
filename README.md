# csv2json row conversion, modelled in Dafny

csv2json turns each CSV record into a JSON object. A header may name a path.
When a separator is given (the `--dimensional-separator` option), the header
is split on it, and the cell is stored under a nested key. When several cells
end up under the same key, their values are merged rather than overwritten.
This project models that row-to-document transformation from `src/main.rs` and
proves properties of it:

- `json.dfy` (module `Json`) is the value type: strings, arrays and objects.
  Objects are maps, so no key order is modelled. It also defines `Leaves`, the
  set of cell strings stored in a value.
- `splitter.dfy` (module `Splitter`) is `dimensional_converter`. It covers
  Rust's `str::contains`, `str::split` with a string pattern (left to right,
  non-overlapping matches) and `join`.
- `merger.dfy` (module `Merger`) is `merge_values`. `Merge` is the pure
  function that gives the rules. `MergeValues` is the imperative form: it
  updates the first object one key of the second object at a time, as the
  source does. It is proved equal to `Merge`.
- `rows.dfy` (module `Rows`) is `prepare_upsert` and `row_to_object`. `Fold`
  is a left fold over the zipped pairs. `RowToObject` is the source's loop,
  which updates one map. It is proved equal to the fold.

The model follows the code where it is quirky:

- The nested key is the rest of the header re-joined with a literal `"."`.
- The key of the recursive conversion is thrown away.

So `"a.b.c"` with separator `"."` becomes `("a", {"b.c": {"c": v}})`, and
`"a_b_c"` with `"_"` becomes `("a", {"b.c": v})`. `ConvertDottedExample` and
`ConvertOtherSeparatorExample` prove both. The nested key is `next_key`; the
key returned by the recursive call is discarded (src/main.rs:20-23). Rows
whose length differs from the header count are not rejected: `zip` stops at
the shorter list (src/main.rs:90), and the model does the same.

## Model

| member | source | states |
|---|---|---|
| `Splitter.Contains` | src/main.rs:16 | a header contains the separator only if the separator is no longer than the header |
| `Splitter.Join` | src/main.rs:19 | the joined text starts with the first part; `SplitJoin` is its inverse |
| `Splitter.FindFirst` | src/main.rs:16-18 | the separator is contained exactly when a first occurrence exists; the index returned is an occurrence and no earlier index is one |
| `Splitter.Split` | src/main.rs:17 | splitting always yields at least one piece |
| `Splitter.SplitJoin` | src/main.rs:17 | joining the pieces of a split with the separator gives the header back |
| `Splitter.SplitPiecesSeparatorFree` | src/main.rs:17 | no piece of a split contains the separator |
| `Splitter.SplitSingle` | src/main.rs:16-17 | a header splits into more than one piece exactly when it contains the separator |
| `Splitter.Remainder` | src/main.rs:19 | `next_key` is the text after the first separator with every later separator replaced by "."; it is strictly shorter than the header, so the recursion ends |
| `Splitter.Convert` | src/main.rs:14-29 | the key never contains the separator, and is the text before its first occurrence when the header has one; the value is a chain of one-entry objects ending in the cell; the value is a plain string exactly when nothing was split |
| `Splitter.ConvertPlain` | src/main.rs:15-28 | with no separator, or a header without it, the result is the header and the cell as a string |
| `Splitter.ConvertNested` | src/main.rs:17-24 | with the separator present, the key is the prefix before the first occurrence, and the value is a one-entry object from `next_key` to the value (not the key) of converting `next_key` again |
| `Splitter.ConvertHeaderRoundTrip` | src/main.rs:17-24 | the header is the returned key, the separator and a rest whose separators, replaced by ".", give the nested key; with "." as separator the header is exactly key + "." + nested key |
| `Splitter.ConvertOneDot` | src/main.rs:17-24 | a header `x.y` with "." as the separator gives `(x, {y: cell})` |
| `Splitter.ConvertDottedExample` | src/main.rs:17-24 | `"a.b.c"` with "." gives `("a", {"b.c": {"c": v}})` |
| `Splitter.ConvertOtherSeparatorExample` | src/main.rs:19-20 | `"a_b_c"` with "_" gives `("a", {"b.c": v})`: only the first level is split |
| `Merger.Merge` | src/main.rs:41-86 | the result is an object exactly when both operands are; its keys are then the union of theirs; an array result has one slot per element of an array operand and per non-array operand |
| `Merger.MergeValues` | src/main.rs:41-86 | the in-place loop over the second object's keys, with its recursive merges, computes exactly `Merge` |
| `Merger.MergeObjects` | src/main.rs:43-57 | two objects: union of keys; a key of one side keeps that side's value; a shared key holds the merge of both entries |
| `Merger.MergeArrays` | src/main.rs:64-68 | two arrays: the second is appended to the first, so the length is the sum and order is kept |
| `Merger.MergeMixed` | src/main.rs:75-85 | exactly one array: the other operand goes last, whichever position held the array; no array and not two objects: `[v1, v2]` |
| `Merger.MergeShape` | src/main.rs:43-85 | the result is an object when both operands are objects and an array otherwise, never a string. The panics at src/main.rs:59 and 70 cannot fire, because `is_object()` and `is_array()` already guarantee that the `if let` patterns match; `Merge` has one exhaustive `match` with no such branch |
| `Merger.MergeEmptyObject` | src/main.rs:43-57 | merging an empty object on either side leaves the other object unchanged |
| `Merger.MergeLeaves` | src/main.rs:41-86 | the strings stored in the result are exactly those of the two operands |
| `Rows.Zip` | src/main.rs:90 | the pairs are the headers and cells at the same position, up to the shorter of the two |
| `Rows.PrepareUpsert` | src/main.rs:31-38 | a vacant entry yields the new data unchanged; an occupied one yields the merge of the stored value and the data, which is an object exactly when both are objects |
| `Rows.Upsert` | src/main.rs:93-94 | the key afterwards holds the value if it was absent and the merge of the old and new values if present; the key set gains only this key; every other key is unchanged |
| `Rows.RowToObject` | src/main.rs:88-97 | the loop over the zipped pairs builds exactly the left fold of upserts of the converted pairs |
| `Rows.AssembleTruncates` | src/main.rs:90 | only the first `min(headers, cells)` pairs matter |
| `Rows.Assemble` | src/main.rs:88-96 | the document's keys are exactly the converted keys of the zipped pairs, one per pair, and no others |
| `Rows.AssembleKeys` | src/main.rs:88-96 | the document's keys are exactly the converted keys of the first `min(headers, cells)` headers |
| `Rows.AssemblePlainDistinct` | src/main.rs:88-96 | with no separator and distinct headers, each header maps to its own cell as a string |
| `Rows.AssembleLeaves` | src/main.rs:88-96 | the strings stored in the document are exactly the first `min(headers, cells)` cells: no distinct cell string is lost and none is invented |
| `Rows.FoldSnoc` | src/main.rs:91-95 | processing one more pair upserts that pair's converted key and value into the document so far |
| `Rows.RepeatedHeaderExample` | src/main.rs:88-96 | headers `x,x,x` with cells `1,2,3` give `{"x": ["1","2","3"]}` |
| `Rows.NestingExample` | src/main.rs:88-96 | headers `x.y1`, `x.y2` with "." give `{x: {y1: c1, y2: c2}}` |
| `Rows.NestedMergeExample` | src/main.rs:88-96 | headers `x.y1`, `x.y2`, `x.y1` with "." give `{x: {y1: [c1, c3], y2: c2}}` |

## Left out

- `main` (src/main.rs:99-135) is not modelled: command-line parsing, reading the CSV file, skipping unreadable records and printing JSON are I/O.
- `src/sys/mod.rs` is not part of this model: `get_file_name` and `write_json_to_file` are thin filesystem wrappers.
- Key order is not modelled. `row_to_object` returns a `HashMap`, and the order of a serde_json object depends on crate features. Objects are Dafny maps, and no claim is made about order.
- JSON null, booleans and numbers are not modelled, because the converter never creates them: every leaf is a cell string.
- Convert: requires a non-empty separator. With an empty separator `contains` always holds, the re-joined remainder is never shorter, and the source's recursion never ends.
- Text is `seq<char>`, while Rust's `contains` and `split` match on the UTF-8 bytes of a `String`. For valid UTF-8 both find the same matches, because UTF-8 is self-synchronising: a match of encoded bytes always starts and ends on a character boundary.
- Ownership and moves are not modelled. `merge_values` takes its arguments by value and changes them in place; the model works on immutable values, and `MergeValues` updates a local copy of the first object.
- MergeLeaves: states which strings occur in the result, not how many times each one occurs.
- AssembleLeaves: like MergeLeaves, it is stated over sets of cells, not multisets.
- Row independence is not stated as a lemma. Each row is a pure function of its headers, cells and separator, so nothing is shared between rows.
