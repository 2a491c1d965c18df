# assert-json, modelled in Dafny

assert-json is a test helper. It checks that a JavaScript value matches a
JSON text, and when they differ it fails with an assertion error that names
the first line that differs and shows a few lines from each side. This
project models its core, `index.js`, and proves what that code promises.

- **`deepReplace(o, props)`** (module `Replace`). This reconciles the parsed
  expected value `o` with the caller's value `props` so that both render with
  the same key order.
  - `Replace.Replaced` is a declarative reference definition.
  - `Replace.DeepReplace` follows the source branch by branch. It has three
    alternative branches:
    - Two object-like values: the key loop over
      `new Set(keys(o) ++ keys(props))` merges, deletes or copies one key per
      turn (`Replace.ReplaceEntries`, one turn being `Replace.ReplaceKey`).
    - Two arrays: `o.length = props.length`, then the slot loop
      (`Replace.ReplaceElems`).
    - Anything else: `props` is returned.
  - `DeepReplace`, `ReplaceEntries` and `ReplaceElems` are proved to compute
    exactly `Replaced`, or to throw exactly when it does. `ReplaceKey` is
    proved to keep the key loop's invariant.
  - Module `ReplaceLaws` proves what the result is: its key layout, that
    its content is `props` up to key order, when the merge changes nothing,
    and that merging twice is merging once. It also proves a sufficient
    condition for the merge not to throw (`SafeMergeSucceeds`), and shows
    concrete inputs on which it does throw.
- **Line comparison** (module `LineDiff`). This is the second half of
  `diffJSON` together with `getFrame`.
  - The two texts are split on `"\n"`.
  - The shorter line list is padded with holes by assigning `length`.
  - The scan stops at the first pair of lines that are not strictly equal.
  - Each frame is `slice(i - 5, i + 5).join("\n")` (`LineDiff.GetFrame`).
    `LineDiff.Join` is `join("\n")`, and `LineDiff.Texts` is how `join`
    prints a hole: as `""`.
  - `LineDiff.ScanLines` is the loop itself. It is proved equal to the
    function `DiffText`, whose properties are proved as lemmas.
- **`diffJSON`, `equal`, `equalFile` and `fail`** (module `AssertJson`).
  These cover the rendering, the merge, the comparison and the message
  `"<message> at line <line + 1>"`. `equalFile` appends the cleaned path to
  that message. `AssertJson.Fail` is `fail` (index.js:82-89), and
  `AssertJson.Report` is what `equal` and `equalFile` make of the result of
  `diffJSON` (index.js:73-79, 94-100).
- **JavaScript values** (module `Json`) and **array operations** (module
  `JsArray`).
  - A value is a datatype. An object is a list of entries kept in insertion
    order, which is the enumeration order the order-preserving wrapper gives
    parsed JSON.
  - The modules also define own-key lookup, assignment and `delete`,
    `length` assignment that leaves holes, and `slice` with negative
    indices.

The merge throws a `TypeError` in the cases below, and the model returns the
`TypeError` outcome for each:
- Both values pass the object test (`typeof` is `"object"`, not an array)
  and either one of them is `null`, so `Object.keys(null)` throws. For
  example `{}` against `null`, `null` against `{}`, or `{a: null}` against
  `{a: {}}`.
- A call `o.hasOwnProperty(k)` or `props.hasOwnProperty(k)` finds an own key
  `"hasOwnProperty"` whose value is not a function (`Replace.HasOwnPropertyThrows`).
  - `o` has that key from the start, so the first test throws.
  - `props` has it and `o` has some key. The first test on `o` then
    succeeds, and the test on `props` throws.
  - `o` is empty and `props` has the key. Only `o` is tested, and every key
    is copied. The copied key makes the next test on `o` throw, unless it
    was the last key.

`JSON.stringify(v, null, 2)` is not modelled. Each operation that renders
takes it as the parameter `render`. Where a property needs different values
to render differently, that is a hypothesis of the lemma. The hypothesis is
stated only for defined values (no `undefined` at any depth,
`Json.Defined`), because those are the values `JSON.stringify` tells apart.

## Model

| member | source | states |
|---|---|---|
| `Replace.DeepReplace` | index.js:17-42 | The result, or the `TypeError` it throws, is exactly the reference definition `Replaced`: object branch when both are object-like (either one null throws), array branch when both are arrays, otherwise `props` itself |
| `Replace.ReplaceEntries` | index.js:22-32 | The key loop over the `Set` of both key lists ends with the object branch of the reference definition, or throws exactly when that definition throws |
| `Replace.ReplaceKey` | index.js:23-31 | One turn of the key loop, whether it merges, deletes or copies, keeps the loop invariant: survivors merged in `o`'s order, then the remaining keys of `o`, then the copied keys of `props`. When a turn throws, so does the whole merge |
| `Replace.ReplaceElems` | index.js:34-39 | Resizing to `props.length` and merging slot by slot gives exactly the reference array branch. A throwing slot makes the whole merge throw |
| `Replace.SetOrder` | index.js:22 | Iteration order of `new Set(ks)`: no repeats, same members as `ks` |
| `Replace.SetOrderOfUnion` | index.js:22 | For key lists without repeats, the `Set` iterates `o`'s keys first, then the keys only `props` has, in `props`'s order |
| `Replace.Without` | index.js:26-29 | The keys of one list that the other lacks: a key is in it exactly when it is in the first list and not in the second |
| `Replace.Shared` | index.js:24-25 | The keys of one list that the other also has: membership is exactly "in both" |
| `Replace.SurvivorsKeys` | index.js:24-27 | After `n` keys of `o`, the surviving entries carry exactly the keys of `o` that `props` has, in `o`'s order |
| `Replace.SurvivorsErrorPersists` | index.js:25 | Once a nested merge throws, every later stage of the key loop is a throw |
| `Replace.ElemsErrorPersists` | index.js:37 | Once a slot's merge throws, every later stage of the slot loop is a throw |
| `ReplaceLaws.ObjectReplacedEntries` | index.js:22-31 | Object result: the shared keys come in `o`'s order, then the keys only `props` has in `props`'s order. Keys only `o` has are deleted. The keys are distinct and are exactly those of `props`. A shared key holds the merge of both values; a copied key holds `props`'s value |
| `ReplaceLaws.SurvivorsEntries` | index.js:24-25 | Each surviving entry is a key both objects own, holding the merge of the two values |
| `ReplaceLaws.ArrayReplacedElems` | index.js:34-39 | Array result: exactly `props.length` slots. Slot `t` is the merge of `o[t]` (undefined past the old end) with `props[t]`. Slots past the old end equal `props[t]` |
| `ReplaceLaws.ElemsReplacedEntries` | index.js:35-38 | After `n` slots, the loop holds `n` values, each the merge of the resized slot with `props`'s slot |
| `ReplaceLaws.ReplacedEquiv` | index.js:17-42 | A merge that does not throw yields a well-formed value deep-equal to `props` up to key order, whatever `o` was |
| `ReplaceLaws.EquivSafe` | index.js:17-42 | A value equivalent to one free of `null` and own "hasOwnProperty" keys is free of them too |
| `ReplaceLaws.SafeMergeSucceeds` | index.js:18-31 | Without `null` and without an own "hasOwnProperty" key at any depth, the merge does not throw |
| `ReplaceLaws.SafeSurvivors` | index.js:23-31 | On safe objects no stage of the key loop throws |
| `ReplaceLaws.SafeElems` | index.js:36-38 | On safe arrays no stage of the slot loop throws |
| `ReplaceLaws.EquivMergeIsIdentity` | index.js:17-42 | Merging a value deep-equal up to key order into a safe `o` returns `o` unchanged, key order included |
| `ReplaceLaws.EquivObjectIdentity` | index.js:22-32 | Object case of the above: all keys are shared, each merges back to its own value, and nothing is added |
| `ReplaceLaws.SurvivorsKeepAll` | index.js:23-31 | When every key of `o` is in `props` and merges back to its own value, every entry of `o` survives in place |
| `ReplaceLaws.EquivEntry` | index.js:24-25 | Under equivalence, each key of `o` is in `props`, and merging its value gives that value back |
| `ReplaceLaws.EquivElems` | index.js:34-39 | Under equivalence, the slot loop gives `o`'s slots back |
| `ReplaceLaws.ReplacedIsIdentityIff` | index.js:17-42 | For a safe `o`, the merge returns `o` unchanged exactly when `props` is deep-equal to `o` up to key order (both directions) |
| `ReplaceLaws.ReplacedIdempotent` | index.js:17-42 | For a safe `props`, merging `props` into the result again changes nothing |
| `ReplaceLaws.NullMemberThrows` | index.js:18-22 | `deepReplace({a: null}, {a: null})` throws: both nulls pass the object test, and `Object.keys(null)` throws |
| `ReplaceLaws.MergeIntoEmpty` | index.js:22-32 | For a `props` with no own `"hasOwnProperty"` key, merging into `{}` copies every entry of `props`, in order |
| `ReplaceLaws.ObjectIntoEmpty` | index.js:28-29 | For a `props` with no own `"hasOwnProperty"` key and no keys of `o`, the key loop only copies, so the entries equal `props`'s |
| `ReplaceLaws.NullBreaksIdempotence` | index.js:17-42 | Without the safety condition, merging is not idempotent: the first merge of `{a: null}` into `{}` succeeds, and merging again throws |
| `ReplaceLaws.OwnHasOwnPropertyThrows` | index.js:24 | An own key "hasOwnProperty" shadows the method the loop calls, so the merge throws |
| `Json.Assign` | index.js:24-29 | `o[k] = v`: keys stay distinct, `k` now reads `v`, the key set gains only `k`, and every other key reads as before |
| `Json.Delete` | index.js:27 | `delete o[k]`: keys stay distinct, the key set loses exactly `k`, and every other key reads as before |
| `Json.EquivReflexive` | index.js:17-42 | Every well-formed value is deep-equal to itself |
| `Json.EquivDefined` | index.js:17-42 | A value deep-equal to a defined value has no `undefined` at any depth either |
| `JsArray.SetLength` | index.js:35 | `a.length = n`: exactly `n` slots; the old ones up to `n`, then holes |
| `JsArray.ClampIndex` | index.js:67 | A `slice` index lies in `[0, len]`; a negative one counts back from the end |
| `JsArray.Slice` | index.js:67 | A `slice` is never longer than its array |
| `LineDiff.Split` | index.js:52-53 | `split("\n")` yields at least one piece, none containing a newline |
| `LineDiff.SplitJoin` | index.js:52-53 | Joining a split on `"\n"` gives the text back |
| `LineDiff.JoinSplit` | index.js:52-53 | Splitting a join of newline-free lines gives the lines back |
| `LineDiff.SplitInjective` | index.js:52-53 | Two texts split the same exactly when they are equal |
| `LineDiff.JoinInjective` | index.js:67 | Non-empty lists of newline-free lines join the same exactly when they are equal |
| `LineDiff.Padded` | index.js:54 | Padding to `n`: exactly `n` slots, the lines then holes |
| `LineDiff.FirstMismatch` | index.js:55-63 | Nothing is found exactly when all pairs from `from` on are equal. A found index is the first pair that differs |
| `LineDiff.FirstDifferenceSpec` | index.js:52-63 | The scan finds nothing exactly when the line lists are equal. Otherwise it stops where both lists have a line and the lines differ, or where one list has run out. Lines are not trimmed |
| `LineDiff.FrameWindow` | index.js:66-68 | A frame is at most ten lines. For `i >= 5` it starts five lines before `i`. For `i < 5` the start counts from the end: with ten lines or more the frame is empty, and with more than five it starts after line `i` |
| `LineDiff.DiffTextSymmetric` | index.js:51-63 | Swapping the two texts reports nothing exactly when the original order does; otherwise it reports the same line with the two frames swapped |
| `LineDiff.FirstMismatchSymmetric` | index.js:55-56 | The scan's first mismatch does not depend on which side is which |
| `LineDiff.DiffTextNoneIff` | index.js:51-63 | The comparison reports nothing exactly when the two texts are the same |
| `LineDiff.DiffTextLine` | index.js:55-58 | The reported line index is the first line where the texts differ |
| `LineDiff.ScanLines` | index.js:51-63 | The split, pad and scan loop returns exactly the comparison `DiffText` |
| `LineDiff.FrameWrapsNearStart` | index.js:66-68 | Seven-line texts that first differ at index 1 are framed by lines 3-5 of each side, which skip the differing line. Equal lines 3-5 give equal frames |
| `LineDiff.FrameNearStart` | index.js:67 | On seven lines, the frame around line 1 is lines 3-5 |
| `LineDiff.PaddingAddsEmptyLine` | index.js:54-67 | Seven lines against eight, first differing at index 5: the shorter side's frame ends with an extra empty segment from the hole |
| `LineDiff.PaddedFrame` | index.js:67 | Around line 5 of eight slots, the frame is every line plus one empty segment per hole |
| `LineDiff.FirstDifferenceAt` | index.js:55-56 | Lists equal before `i` and different at `i` first differ at `i` |
| `LineDiff.DiffOfJoins` | index.js:51-63 | Comparing two joined line lists works on those lists, padded to the longer length |
| `LineDiff.TextsOfPadded` | index.js:54-67 | `join` renders each hole of the padded list as the empty string, so the padded lines read as the lines, then empty strings |
| `LineDiff.WholeFrame` | index.js:67 | When the window covers both ends, the frame is the whole padded list |
| `LineDiff.EarlyMismatchEmptyFrames` | index.js:55-68 | A difference in the first five lines of texts with ten or more lines is reported with two empty frames |
| `LineDiff.FirstLineMismatchHidden` | index.js:55-68 | Ten-line texts that differ only in line 0 are different, yet the reported frames are both empty |
| `LineDiff.ClippedFramesDiffer` | index.js:66-68 | With frames clipped to the lines that exist, a reported difference always shows in the frames |
| `LineDiff.WindowsDiffer` | index.js:66-68 | Clipped windows around a first difference differ, either at the differing line or in length |
| `LineDiff.ClippedFrameNearStart` | test/test.js:91-99 | With clipped frames, seven-line texts that first differ at index 1 get the first six lines of each side as frames, the differing line included |
| `LineDiff.ClippedFrameNoPadding` | test/test.js:101-109 | With clipped frames, seven lines against eight that first differ at index 5 get each side's own lines as frames, with no segment for padding |
| `LineDiff.ClippedWholeFrame` | index.js:66-68 | When the clipped window covers every line, the frame is the whole side |
| `LineDiff.ClippedDiffTextNoneIff` | index.js:51-63 | With clipped frames, the comparison reports nothing exactly when the texts agree |
| `AssertJson.DiffJson` | index.js:44-64 | `diffJSON` renders the expected value first, then merges and renders the actual one. The result is exactly `DiffJsonSpec`: the comparison of the two renderings, or a throw when the merge throws or yields `undefined` |
| `AssertJson.Equal` | index.js:70-80 | `equal` passes when there is no difference. Otherwise it calls `fail`, which throws an `AssertionError` with `"<message> at line <line + 1>"` exactly when the two frames differ. It throws a `TypeError` when the merge throws or when the merged value renders as `undefined` (`split` on `undefined`) |
| `AssertJson.EqualFile` | index.js:91-101 | `equalFile` is the same as `equal`, with a newline, six spaces and the parenthesised path appended to the message |
| `AssertJson.Decimal` | index.js:76 | A line number in the message is a non-empty run of decimal digits with no leading zero |
| `AssertJson.DigitChar` | index.js:76 | A digit character stands for its value |
| `AssertJson.DecimalRoundTrip` | index.js:76 | The printed line number reads back as the number |
| `AssertJson.MessageNamesLine` | index.js:76 | A reported message is the message, `" at line "`, digits that read back as the 0-based line plus one, then the suffix |
| `AssertJson.EquivalentActualPasses` | index.js:44-80 | For an expected value with no `null` and no own `"hasOwnProperty"` key at any depth (`ReplaceLaws.MergeSafe`), an actual value deep-equal to it up to key order passes: the merge returns the expected value, so both renderings are the same text |
| `AssertJson.DiffJsonNoneIff` | index.js:44-64 | For an expected value with no `null` and no own `"hasOwnProperty"` key (`ReplaceLaws.MergeSafe`), and a renderer that tells defined values apart, `diffJSON` on a defined actual value finds no difference exactly when actual and expected are deep-equal up to key order |
| `AssertJson.DiffJsonNoneMeansEquiv` | index.js:44-64 | No false pass, for any expected value: with a renderer that tells defined values apart, a defined actual value for which `diffJSON` finds no difference is deep-equal to the expected one up to key order |
| `AssertJson.NullEqualThrows` | index.js:18-22 | `equal({a: null}, '{"a": null}')` throws although the values are deep-equal: the merge meets `null` on both sides and `Object.keys(null)` throws |
| `AssertJson.EarlyMismatchGoesUnreported` | index.js:55-80 | Texts that differ in their first five lines, with ten lines or more, still pass `equal`: both frames are empty |
| `AssertJson.ClippedReportPassesIff` | index.js:70-89 | With clipped frames, a report passes exactly when the texts agree: `fail`'s `assert.equal` then throws on every difference |
| `AssertJson.ClippedEqualPassesIff` | index.js:44-89 | With clipped frames, an expected value with no `null` and no own `"hasOwnProperty"` key (`ReplaceLaws.MergeSafe`), and a renderer that tells defined values apart, `equal` on a defined actual value passes exactly when the values are deep-equal up to key order. Otherwise it fails or throws, including when the actual value holds `null` |
| `AssertJson.EqualReportsLineTwo` | test/test.js:8-17 | `equal({a: 1}, '{"a": 3}')`, with three-line renderings differing in the middle line, fails "at line 2" and shows both whole renderings |
| `AssertJson.EqualFileReportsLineTwo` | test/test.js:19-31 | The same call through `equalFile` fails "at line 2", followed by the path on the next line |
| `AssertJson.LineTwoDiff` | index.js:44-64 | For those renderings, `diffJSON` reports line index 1 with the whole texts as frames |
| `AssertJson.LineTwoReport` | index.js:73-78 | A difference at index 1 with differing frames fails with a message naming line 2 |
| `AssertJson.LineTwoMessage` | index.js:76 | Line index 1 is printed as "at line 2" |
| `AssertJson.UndefinedMemberPasses` | index.js:44-56 | `equal({a: undefined}, "{}")`: the merge keeps the undefined member, so the result is not deep-equal to `{}`. A renderer that drops undefined members prints both alike, so no difference is reported |
| `AssertJson.ReplaceOneKey` | test/test.js:44-49 | `deepReplace({a: x}, {a: y})` is `{a: y}` |
| `AssertJson.MiddleLineDiffers` | index.js:55-61 | Three-line texts differing in the middle line: the difference is at index 1, and each frame is the whole text |

## Left out

- Object identity and aliasing: `deepReplace` mutates `o` in place and returns that same object (test/test.js:44-81 checks `o === o2`). The model works on values, so it does not show that the result is `o`, or that nested objects are reused.
- When a nested merge throws, the source has already mutated `o` partway. The model returns only the `TypeError` outcome, not that half-changed object.
- Parsing the expected text (parse-json, with its error messages giving line and column) is not part of this model. The expected value is already parsed.
- The ordered-object wrapper is not modelled. Only its effect is: objects enumerate keys in insertion order, and property reads and writes reach the wrapped object.
- `JSON.stringify(v, null, 2)` is the parameter `render`. Where a lemma needs distinct values to render distinctly, it takes that as a hypothesis.
- `fs.readFileSync` and `cleanPath` are not modelled. `equalFile` takes the parsed file content and the path to display as parameters.
- `Error.captureStackTrace` only trims the stack trace, and it is not modelled.
- Numbers are mathematical integers. Floating point, and values JSON cannot carry (functions, symbols, `__proto__` keys, cyclic objects), are not modelled.
- `ReplaceLaws.NullMemberThrows` follows the code, not test/test.js:83-87. That test expects `deepReplace({a: null}, {a: null})` not to throw, but `Object.keys(null)` throws.
- `AssertJson.EquivalentActualPasses`, `AssertJson.DiffJsonNoneIff` and `AssertJson.ClippedEqualPassesIff` require an expected value with no `null` and no own `"hasOwnProperty"` key (`ReplaceLaws.MergeSafe`). Without it, `equal` throws a `TypeError` on deep-equal values that hold `null` at the same place (`AssertJson.NullEqualThrows`). The direction "no difference found implies deep-equal" holds without it (`AssertJson.DiffJsonNoneMeansEquiv`).
- `AssertJson.DiffJsonNoneIff` and `AssertJson.ClippedEqualPassesIff` are stated only for defined actual values. `JSON.stringify` drops a member whose value is `undefined` and prints an `undefined` slot as `null`. So an actual value holding `undefined` can pass `equal` without being deep-equal to the expected one (`AssertJson.UndefinedMemberPasses`).
- `AssertJson.Equal`: a call with an `undefined` actual value ends in `Threw` (the `TypeError` from splitting the rendering). test/test.js:33-38 expects an error saying "actual value is undefined", but index.js has no such guard.
- `diffText` and `parseJSON` are not exported by index.js:103. The `LineDiff` lemmas state test/test.js:90-120 against `DiffText` instead.

## Findings

| source | as written | input that shows it | evidently intended | confidence | as-written member | corrected member |
|---|---|---|---|---|---|---|
| index.js:66-68 | For `i < 5`, `slice(i - 5, i + 5)` counts the negative start from the end of the list, so near the top the frame wraps to later lines and can skip line `i` | `"1\n3\n3\n4\n5\n6\n7"` against `"1\n2\n3\n4\n5\n6\n7"`: line index 1 is reported, and both frames are `"4\n5\n6"`, which are equal (test/test.js:91-99 expects `"1\n3\n3\n4\n5\n6"`) | Clip the window to start at line 0 | high, not executed | `LineDiff.FrameWrapsNearStart` | `LineDiff.ClippedFrameNearStart` |
| index.js:54-67 | Padding the shorter list assigns `length`, and `join` renders each hole as an empty segment, so the shorter side's frame gains a trailing `"\n"` | `"1\n2\n3\n4\n5\n7\n7"` against `"1\n2\n3\n4\n5\n6\n7\n8"`: the actual frame is `"1\n2\n3\n4\n5\n7\n7\n"` (test/test.js:101-109 expects no trailing newline) | Frames show only the lines that exist | high, not executed | `LineDiff.PaddingAddsEmptyLine` | `LineDiff.ClippedFrameNoPadding` |
| index.js:55-84 | A difference in the first five lines of a rendering with ten or more lines gets two empty frames, and `assert.equal("", "")` does not throw, so `equal` passes on values that differ | Two ten-line renderings that differ only in their first line | `equal` fails whenever the renderings differ | high, not executed | `AssertJson.EarlyMismatchGoesUnreported` | `AssertJson.ClippedEqualPassesIff` |
