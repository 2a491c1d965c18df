/** `diffJSON`, `equal` and `equalFile` (index.js:44-101): the actual value is
    merged into the parsed expected value, both are rendered, the renderings
    are compared line by line, and a difference is reported as an assertion
    error whose message names the 1-based line. Rendering (`JSON.stringify`
    with two-space indentation) is the parameter `render`. */
module AssertJson {
  import opened JsArray
  import opened Json
  import opened Replace
  import opened ReplaceLaws
  import opened LineDiff

  /** How a call of `equal` or `equalFile` ends: it returns, it throws the
      `AssertionError` of `assert.equal`, or it throws a `TypeError` from the
      merge or from splitting an `undefined` rendering. */
  datatype Verdict = Pass | AssertionError(message: string, actual: string, expected: string) | Threw

  const EqualMessage := "Actual value doesn't match JSON"
  const EqualFileMessage := "Actual value doesn't match JSON file"

  // ---------------------------------------------------------------------------
  // Line numbers in messages
  // ---------------------------------------------------------------------------

  predicate IsDigits(s: string) {
    forall t :: 0 <= t < |s| ==> '0' <= s[t] <= '9'
  }

  function DigitChar(d: nat): (c: char)
    requires d < 10
    ensures '0' <= c <= '9' && c as int - '0' as int == d
  {
    ('0' as int + d) as char
  }

  /** A number in a template literal: its decimal digits, no leading zero. */
  function Decimal(n: nat): (s: string)
    ensures |s| >= 1 && IsDigits(s)
    ensures |s| > 1 ==> s[0] != '0'
  {
    if n < 10 then [DigitChar(n)] else Decimal(n / 10) + [DigitChar(n % 10)]
  }

  /** The number a string of decimal digits denotes. */
  function DecimalValue(s: string): nat
    requires IsDigits(s)
  {
    if s == [] then 0 else DecimalValue(s[..|s| - 1]) * 10 + (s[|s| - 1] as int - '0' as int)
  }

  /** Reading the digits back gives the number. */
  lemma {:induction false} DecimalRoundTrip(n: nat)
    ensures DecimalValue(Decimal(n)) == n
  {
    if n >= 10 {
      DecimalRoundTrip(n / 10);
      var s := Decimal(n);
      assert s[..|s| - 1] == Decimal(n / 10);
    }
  }

  /** `${message} at line ${line + 1}` followed by `suffix`. */
  function LineMessage(message: string, line: nat, suffix: string): string {
    message + " at line " + Decimal(line + 1) + suffix
  }

  /** What `equalFile` appends: a newline, six spaces and the path in
      parentheses. */
  function FileSuffix(displayPath: string): string {
    "\n" + "      " + "(" + displayPath + ")"
  }

  // ---------------------------------------------------------------------------
  // diffJSON
  // ---------------------------------------------------------------------------

  /** `diffJSON(actual, expected)` on the parsed expected value: the expected
      rendering is taken first, then the actual value is merged into the
      expected one and rendered; an `undefined` result renders as `undefined`,
      on which `split` throws. */
  function DiffJsonSpec(actual: Value, expected: Value, render: Value -> string): Outcome<Option<Diff>> {
    var expectedText := render(expected);
    match Replaced(expected, actual)
    case TypeError => TypeError
    case Ok(v) => if v.Undefined? then TypeError else Ok(DiffText(render(v), expectedText))
  }

  method DiffJson(actual: Value, expected: Value, render: Value -> string) returns (r: Outcome<Option<Diff>>)
    requires WellFormed(actual) && WellFormed(expected)
    ensures r == DiffJsonSpec(actual, expected, render)
  {
    var expectedText := render(expected);
    var replaced := DeepReplace(expected, actual);
    if replaced.TypeError? || replaced.value.Undefined? {
      return TypeError;
    }
    var actualText := render(replaced.value);
    var d := ScanLines(actualText, expectedText);
    return Ok(d);
  }

  // ---------------------------------------------------------------------------
  // fail, equal, equalFile
  // ---------------------------------------------------------------------------

  /** `fail`: `assert.equal(diff.actual, diff.expected, message)` throws
      exactly when the two frames differ. */
  function Fail(d: Diff, message: string): Verdict {
    if d.actual == d.expected then Pass else AssertionError(message, d.actual, d.expected)
  }

  /** What a call makes of the outcome of `diffJSON`. */
  function Report(r: Outcome<Option<Diff>>, message: string, suffix: string): Verdict {
    match r
    case TypeError => Threw
    case Ok(None) => Pass
    case Ok(Some(d)) => Fail(d, LineMessage(message, d.line, suffix))
  }

  /** `equal(actual, expected, message)` (index.js:70-80). */
  method Equal(actual: Value, expected: Value, message: string, render: Value -> string) returns (v: Verdict)
    requires WellFormed(actual) && WellFormed(expected)
    ensures v == Report(DiffJsonSpec(actual, expected, render), message, "")
  {
    var result := DiffJson(actual, expected, render);
    match result
    case TypeError => v := Threw;
    case Ok(None) => v := Pass;
    case Ok(Some(d)) => v := Fail(d, LineMessage(message, d.line, ""));
  }

  /** `equalFile(actual, expectedFilename, message)` (index.js:91-101) on the
      value parsed from the file, with `displayPath` for the cleaned path. */
  method EqualFile(actual: Value, expected: Value, message: string, displayPath: string, render: Value -> string)
    returns (v: Verdict)
    requires WellFormed(actual) && WellFormed(expected)
    ensures v == Report(DiffJsonSpec(actual, expected, render), message, FileSuffix(displayPath))
  {
    var result := DiffJson(actual, expected, render);
    match result
    case TypeError => v := Threw;
    case Ok(None) => v := Pass;
    case Ok(Some(d)) => v := Fail(d, LineMessage(message, d.line, FileSuffix(displayPath)));
  }

  // ---------------------------------------------------------------------------
  // What a caller gets
  // ---------------------------------------------------------------------------

  /** The message of a reported difference reads back as the message, " at
      line ", the 1-based number of the first differing line, and the suffix. */
  lemma MessageNamesLine(d: Diff, message: string, suffix: string)
    requires Report(Ok(Some(d)), message, suffix).AssertionError?
    ensures var m := Report(Ok(Some(d)), message, suffix).message;
      var k := |message| + |" at line "|;
      && k <= |m| - |suffix|
      && m[..k] == message + " at line "
      && m[|m| - |suffix|..] == suffix
      && IsDigits(m[k..|m| - |suffix|])
      && DecimalValue(m[k..|m| - |suffix|]) == d.line + 1
  {
    var m := Report(Ok(Some(d)), message, suffix).message;
    var k := |message| + |" at line "|;
    assert m == message + " at line " + Decimal(d.line + 1) + suffix;
    assert m[k..|m| - |suffix|] == Decimal(d.line + 1);
    DecimalRoundTrip(d.line + 1);
  }

  /** An actual value deep-equal to the expected one up to key order passes:
      the merge gives back the expected value itself, so both renderings are
      the same text. */
  lemma EquivalentActualPasses(actual: Value, expected: Value, render: Value -> string, message: string, suffix: string)
    requires WellFormed(actual) && WellFormed(expected) && MergeSafe(expected) && expected != Undefined
    requires Equiv(expected, actual)
    ensures DiffJsonSpec(actual, expected, render) == Ok(None)
    ensures Report(DiffJsonSpec(actual, expected, render), message, suffix) == Pass
  {
    EquivMergeIsIdentity(expected, actual);
    DiffTextNoneIff(render(expected), render(expected));
  }

  /** When the rendering tells defined values apart, `diffJSON` on a defined
      actual value finds no difference exactly when the actual value is
      deep-equal to the expected one up to key order. */
  lemma DiffJsonNoneIff(actual: Value, expected: Value, render: Value -> string)
    requires WellFormed(actual) && WellFormed(expected) && MergeSafe(expected)
    requires Defined(actual) && Defined(expected)
    requires forall a, b | Defined(a) && Defined(b) :: render(a) == render(b) ==> a == b
    ensures DiffJsonSpec(actual, expected, render) == Ok(None) <==> Equiv(expected, actual)
  {
    DiffJsonNoneMeansEquiv(actual, expected, render);
    if Equiv(expected, actual) {
      EquivalentActualPasses(actual, expected, render, "", "");
    }
  }

  /** No false pass, for every parsed expected value: when the rendering tells
      defined values apart, a defined actual value for which `diffJSON` finds
      no difference is deep-equal to the expected one up to key order. */
  lemma DiffJsonNoneMeansEquiv(actual: Value, expected: Value, render: Value -> string)
    requires WellFormed(actual) && WellFormed(expected)
    requires Defined(actual) && Defined(expected)
    requires forall a, b | Defined(a) && Defined(b) :: render(a) == render(b) ==> a == b
    ensures DiffJsonSpec(actual, expected, render) == Ok(None) ==> Equiv(expected, actual)
  {
    if DiffJsonSpec(actual, expected, render) == Ok(None) {
      var v := Replaced(expected, actual).value;
      ReplacedEquiv(expected, actual);
      EquivDefined(v, actual);
      DiffTextNoneIff(render(v), render(expected));
      assert v == expected;
    }
  }

  /** `equal({a: null}, '{"a": null}')` throws although the two values are
      deep-equal: the merge meets `null` on both sides. */
  lemma NullEqualThrows(render: Value -> string, message: string, suffix: string)
    ensures Equiv(Obj([("a", Null)]), Obj([("a", Null)]))
    ensures Report(DiffJsonSpec(Obj([("a", Null)]), Obj([("a", Null)]), render), message, suffix) == Threw
  {
    EquivReflexive(Obj([("a", Null)]));
    NullMemberThrows();
  }

  /** A difference in the first five lines of a rendering of ten lines or more
      goes unreported: both frames are empty and `assert.equal("", "")` does
      not throw, although the texts differ. */
  lemma EarlyMismatchGoesUnreported(actualText: string, expectedText: string, message: string, suffix: string)
    requires DiffText(actualText, expectedText).Some?
    requires DiffText(actualText, expectedText).value.line < 5
    requires Max(|Split(actualText)|, |Split(expectedText)|) >= 10
    ensures actualText != expectedText
    ensures Report(Ok(DiffText(actualText, expectedText)), message, suffix) == Pass
  {
    DiffTextNoneIff(actualText, expectedText);
    EarlyMismatchEmptyFrames(actualText, expectedText);
  }

  // ---------------------------------------------------------------------------
  // With clipped frames
  // ---------------------------------------------------------------------------

  /** `diffJSON` with clipped frames. */
  function ClippedDiffJsonSpec(actual: Value, expected: Value, render: Value -> string): Outcome<Option<Diff>> {
    var expectedText := render(expected);
    match Replaced(expected, actual)
    case TypeError => TypeError
    case Ok(v) => if v.Undefined? then TypeError else Ok(ClippedDiffText(render(v), expectedText))
  }

  /** With clipped frames a report passes exactly when the two texts agree. */
  lemma ClippedReportPassesIff(actualText: string, expectedText: string, message: string, suffix: string)
    ensures Report(Ok(ClippedDiffText(actualText, expectedText)), message, suffix) == Pass <==> actualText == expectedText
  {
    ClippedDiffTextNoneIff(actualText, expectedText);
    if ClippedDiffText(actualText, expectedText).Some? {
      ClippedFramesDiffer(actualText, expectedText);
    }
  }

  /** With clipped frames and a rendering that tells defined values apart,
      `equal` on a defined actual value passes exactly when that value is
      deep-equal to the expected one up to key order; otherwise it throws. */
  lemma ClippedEqualPassesIff(actual: Value, expected: Value, render: Value -> string, message: string, suffix: string)
    requires WellFormed(actual) && WellFormed(expected) && MergeSafe(expected)
    requires Defined(actual) && Defined(expected)
    requires forall a, b | Defined(a) && Defined(b) :: render(a) == render(b) ==> a == b
    ensures Report(ClippedDiffJsonSpec(actual, expected, render), message, suffix) == Pass <==> Equiv(expected, actual)
  {
    if Replaced(expected, actual).TypeError? {
      if Equiv(expected, actual) {
        EquivMergeIsIdentity(expected, actual);
      }
    } else {
      var v := Replaced(expected, actual).value;
      ReplacedEquiv(expected, actual);
      EquivDefined(v, actual);
      ClippedReportPassesIff(render(v), render(expected), message, suffix);
      ReplacedIsIdentityIff(expected, actual);
    }
  }

  /** `equal({a: undefined}, "{}")`: the merge copies the undefined member, so
      the result is not deep-equal to `{}`; yet a rendering that drops
      undefined members, as `JSON.stringify` does, prints both as `{}`, and the
      call passes. */
  lemma UndefinedMemberPasses(render: Value -> string)
    requires render(Obj([("a", Undefined)])) == render(Obj([]))
    ensures Replaced(Obj([]), Obj([("a", Undefined)])) == Ok(Obj([("a", Undefined)]))
    ensures !Equiv(Obj([]), Obj([("a", Undefined)]))
    ensures DiffJsonSpec(Obj([("a", Undefined)]), Obj([]), render) == Ok(None)
  {
    MergeIntoEmpty([("a", Undefined)]);
    assert Keys([("a", Undefined)])[0] == "a";
    assert "a" in KeySet([("a", Undefined)]) && "a" !in KeySet([]);
    DiffTextNoneIff(render(Obj([("a", Undefined)])), render(Obj([])));
  }

  // ---------------------------------------------------------------------------
  // The calls of the tests
  // ---------------------------------------------------------------------------

  /** `equal({a: 1}, '{"a": 3}')`: with three-line renderings whose middle
      lines differ (`  "a": 1` against `  "a": 3`), the message says "at line
      2" and the frames are the whole renderings. */
  lemma EqualReportsLineTwo(render: Value -> string, A: seq<string>, B: seq<string>)
    requires NoNewlines(A) && NoNewlines(B) && |A| == |B| == 3 && A[0] == B[0] && A[1] != B[1]
    requires render(Obj([("a", Num(1))])) == Join(A)
    requires render(Obj([("a", Num(3))])) == Join(B)
    ensures Report(DiffJsonSpec(Obj([("a", Num(1))]), Obj([("a", Num(3))]), render), EqualMessage, "")
         == AssertionError(EqualMessage + " at line 2", Join(A), Join(B))
  {
    LineTwoDiff(render, A, B);
    JoinInjective(A, B);
    LineTwoReport(DiffJsonSpec(Obj([("a", Num(1))]), Obj([("a", Num(3))]), render), EqualMessage, "", Join(A), Join(B));
    var m := EqualMessage + " at line 2";
    assert m + "" == m;
  }

  /** `equalFile({a: 1}, "test.json")` on the same renderings: "at line 2",
      then the path on the next line. */
  lemma EqualFileReportsLineTwo(render: Value -> string, A: seq<string>, B: seq<string>, displayPath: string)
    requires NoNewlines(A) && NoNewlines(B) && |A| == |B| == 3 && A[0] == B[0] && A[1] != B[1]
    requires render(Obj([("a", Num(1))])) == Join(A)
    requires render(Obj([("a", Num(3))])) == Join(B)
    ensures Report(DiffJsonSpec(Obj([("a", Num(1))]), Obj([("a", Num(3))]), render), EqualFileMessage, FileSuffix(displayPath))
         == AssertionError(EqualFileMessage + " at line 2" + FileSuffix(displayPath), Join(A), Join(B))
  {
    LineTwoDiff(render, A, B);
    JoinInjective(A, B);
    LineTwoReport(DiffJsonSpec(Obj([("a", Num(1))]), Obj([("a", Num(3))]), render), EqualFileMessage, FileSuffix(displayPath), Join(A), Join(B));
  }

  /** The comparison of the example renderings reports line index 1 with both
      whole texts as frames. */
  lemma LineTwoDiff(render: Value -> string, A: seq<string>, B: seq<string>)
    requires NoNewlines(A) && NoNewlines(B) && |A| == |B| == 3 && A[0] == B[0] && A[1] != B[1]
    requires render(Obj([("a", Num(1))])) == Join(A)
    requires render(Obj([("a", Num(3))])) == Join(B)
    ensures DiffJsonSpec(Obj([("a", Num(1))]), Obj([("a", Num(3))]), render) == Ok(Some(Diff(1, Join(A), Join(B))))
  {
    ReplaceOneKey(3, 1);
    MiddleLineDiffers(A, B);
  }

  /** A difference at line index 1 whose frames differ fails with the message
      naming line 2. */
  lemma LineTwoReport(r: Outcome<Option<Diff>>, message: string, suffix: string, x: string, y: string)
    requires r == Ok(Some(Diff(1, x, y))) && x != y
    ensures Report(r, message, suffix) == AssertionError(message + " at line 2" + suffix, x, y)
  {
    LineTwoMessage(message, suffix);
  }

  lemma LineTwoMessage(message: string, suffix: string)
    ensures LineMessage(message, 1, suffix) == message + " at line 2" + suffix
  {
    assert Decimal(2) == "2";
    assert " at line " + "2" == " at line 2";
  }

  /** `deepReplace({a: x}, {a: y})` is `{a: y}`. */
  lemma ReplaceOneKey(x: int, y: int)
    ensures Replaced(Obj([("a", Num(x))]), Obj([("a", Num(y))])) == Ok(Obj([("a", Num(y))]))
  {
    var oe, pe := [("a", Num(x))], [("a", Num(y))];
    var none: seq<(string, Value)> := [];
    assert Keys(oe) == ["a"] && Keys(pe) == ["a"];
    assert Position(Keys(pe), "a") == 0;
    assert Survivors(oe, pe, 0) == Ok(none);
    assert none + [("a", Num(y))] == pe;
    assert Survivors(oe, pe, 1) == Ok(pe);
    assert Without(Keys(pe), Keys(oe)) == [];
    assert Added(oe, pe) == none && pe + none == pe;
    assert !HasOwnPropertyThrows(oe, pe);
  }

  /** Three-line renderings that differ in their middle line: the difference
      is at index 1 and each frame is the whole text. */
  lemma MiddleLineDiffers(A: seq<string>, B: seq<string>)
    requires NoNewlines(A) && NoNewlines(B) && |A| == |B| == 3 && A[0] == B[0] && A[1] != B[1]
    ensures DiffText(Join(A), Join(B)) == Some(Diff(1, Join(A), Join(B)))
  {
    DiffOfJoins(A, B);
    var a, b := Padded(A, 3), Padded(B, 3);
    assert FirstDifference(A, B) == Some(1) by {
      assert a[0] == b[0] && a[1] != b[1];
    }
    WholeFrame(A, 3, 1);
    WholeFrame(B, 3, 1);
    TextsOfPadded(A, 3);
    TextsOfPadded(B, 3);
    assert A + seq(0, _ => "") == A && B + seq(0, _ => "") == B;
  }
}
