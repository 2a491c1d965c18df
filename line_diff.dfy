/** The text comparison at the end of `diffJSON` (index.js:51-63) and
    `getFrame` (index.js:66-68): both renderings are split into lines, the
    shorter list is padded with `undefined`, and the first line where the two
    differ is reported with a window of up to ten lines from each side. */
module LineDiff {
  import opened JsArray
  import opened Json

  datatype Option<T> = None | Some(value: T)

  /** The object `diffJSON` returns: a 0-based line index and the two frames. */
  datatype Diff = Diff(line: nat, actual: string, expected: string)

  const Newline: char := '\n'

  // ---------------------------------------------------------------------------
  // Splitting and joining on "\n"
  // ---------------------------------------------------------------------------

  /** `s.split("\n")`: the runs between newlines, at least one of them. */
  function Split(s: string): (r: seq<string>)
    ensures |r| >= 1
    ensures forall t :: 0 <= t < |r| ==> Newline !in r[t]
    decreases |s|
  {
    if Newline in s then
      var j := Position(s, Newline);
      [s[..j]] + Split(s[j + 1..])
    else
      [s]
  }

  /** `ls.join("\n")` for a list of strings. */
  function Join(ls: seq<string>): string {
    if |ls| == 0 then ""
    else if |ls| == 1 then ls[0]
    else ls[0] + [Newline] + Join(ls[1..])
  }

  predicate NoNewlines(ls: seq<string>) {
    forall t :: 0 <= t < |ls| ==> Newline !in ls[t]
  }

  /** Joining the pieces of a split gives the text back. */
  lemma {:induction false} SplitJoin(s: string)
    ensures Join(Split(s)) == s
    decreases |s|
  {
    if Newline in s {
      var j := Position(s, Newline);
      var rest := Split(s[j + 1..]);
      var ls := [s[..j]] + rest;
      assert Split(s) == ls;
      assert ls[0] == s[..j] && ls[1..] == rest && |ls| > 1;
      assert Join(ls) == s[..j] + [Newline] + Join(rest);
      SplitJoin(s[j + 1..]);
      assert s == s[..j] + [Newline] + s[j + 1..];
    }
  }

  /** Splitting a join of newline-free lines gives the lines back. */
  lemma {:induction false} JoinSplit(ls: seq<string>)
    requires |ls| >= 1 && NoNewlines(ls)
    ensures Split(Join(ls)) == ls
  {
    if |ls| > 1 {
      var head, rest := ls[0], Join(ls[1..]);
      var s := head + [Newline] + rest;
      assert Join(ls) == s;
      FirstNewline(head, rest);
      assert s[..|head|] == head && s[|head| + 1..] == rest;
      assert Split(s) == [head] + Split(rest);
      JoinSplit(ls[1..]);
      assert ls == [head] + ls[1..];
    }
  }

  /** The first newline after a newline-free line is the one that ends it. */
  lemma {:induction false} FirstNewline(head: string, rest: string)
    requires Newline !in head
    ensures Newline in head + [Newline] + rest
    ensures Position(head + [Newline] + rest, Newline) == |head|
  {
    var s := head + [Newline] + rest;
    assert s[|head|] == Newline;
    if head != [] {
      assert s[0] == head[0];
      FirstNewline(head[1..], rest);
      assert s[1..] == head[1..] + [Newline] + rest;
    }
  }

  /** Different texts split differently: splitting on "\n" loses nothing. */
  lemma SplitInjective(x: string, y: string)
    ensures Split(x) == Split(y) <==> x == y
  {
    SplitJoin(x);
    SplitJoin(y);
  }

  /** Different non-empty lists of newline-free lines join differently. */
  lemma JoinInjective(a: seq<string>, b: seq<string>)
    requires |a| >= 1 && |b| >= 1 && NoNewlines(a) && NoNewlines(b)
    ensures Join(a) == Join(b) <==> a == b
  {
    JoinSplit(a);
    JoinSplit(b);
  }

  // ---------------------------------------------------------------------------
  // Padding and the scan
  // ---------------------------------------------------------------------------

  /** `lines.length = n` on the result of a split: the lines, then holes. */
  function Padded(lines: seq<string>, n: nat): (r: seq<Option<string>>)
    ensures |r| == n
    ensures forall t :: 0 <= t < n ==> r[t] == if t < |lines| then Some(lines[t]) else None
  {
    SetLength(seq(|lines|, t requires 0 <= t < |lines| => Some(lines[t])), n, None)
  }

  /** The first index at or after `from` where `a` and `b` are not strictly
      equal, if any. */
  function FirstMismatch(a: seq<Option<string>>, b: seq<Option<string>>, from: nat): (r: Option<nat>)
    requires |a| == |b| && from <= |a|
    ensures r.None? <==> forall t :: from <= t < |a| ==> a[t] == b[t]
    ensures r.Some? ==>
      && from <= r.value < |a| && a[r.value] != b[r.value]
      && forall t :: from <= t < r.value ==> a[t] == b[t]
    decreases |a| - from
  {
    if from == |a| then None
    else if a[from] != b[from] then Some(from)
    else FirstMismatch(a, b, from + 1)
  }

  /** The scan of index.js:54-63 on the split lines: the index of the first
      padded line pair that differs. */
  function FirstDifference(actualLines: seq<string>, expectedLines: seq<string>): Option<nat> {
    var n := Max(|actualLines|, |expectedLines|);
    FirstMismatch(Padded(actualLines, n), Padded(expectedLines, n), 0)
  }

  /** The scan finds nothing exactly when the line lists are equal; otherwise
      it stops at the first index where both lists have a line and the lines
      differ, or where one list has run out (a hole never equals a line, not
      even an empty one). No line is trimmed. */
  lemma FirstDifferenceSpec(actualLines: seq<string>, expectedLines: seq<string>)
    ensures FirstDifference(actualLines, expectedLines).None? <==> actualLines == expectedLines
    ensures FirstDifference(actualLines, expectedLines).Some? ==>
      var i := FirstDifference(actualLines, expectedLines).value;
      && i <= Min(|actualLines|, |expectedLines|)
      && i < Max(|actualLines|, |expectedLines|)
      && (forall t :: 0 <= t < i ==> actualLines[t] == expectedLines[t])
      && (i < |actualLines| && i < |expectedLines| ==> actualLines[i] != expectedLines[i])
      && (i == |actualLines| || i == |expectedLines| ==> |actualLines| != |expectedLines|)
  {
    var n := Max(|actualLines|, |expectedLines|);
    var a, b := Padded(actualLines, n), Padded(expectedLines, n);
    assert |actualLines| < n ==> a[|actualLines|] == None != b[|actualLines|];
    assert |expectedLines| < n ==> a[|expectedLines|] != None == b[|expectedLines|];
    if FirstDifference(actualLines, expectedLines).None? {
      forall t | 0 <= t < |actualLines| ensures actualLines[t] == expectedLines[t] {
        assert a[t] == b[t];
      }
    } else {
      var i := FirstDifference(actualLines, expectedLines).value;
      forall t | 0 <= t < i ensures t < |actualLines| && t < |expectedLines| && actualLines[t] == expectedLines[t] {
        assert a[t] == b[t];
      }
      assert a[i] != b[i];
    }
  }

  // ---------------------------------------------------------------------------
  // Frames, as written
  // ---------------------------------------------------------------------------

  /** `undefined` joins as the empty string. */
  function Texts(lines: seq<Option<string>>): seq<string> {
    seq(|lines|, t requires 0 <= t < |lines| => if lines[t].Some? then lines[t].value else "")
  }

  /** `getFrame(lines, i)`: `lines.slice(i - 5, i + 5).join("\n")`. */
  function GetFrame(lines: seq<Option<string>>, i: int): string {
    Join(Texts(Slice(lines, i - 5, i + 5)))
  }

  /** The window `getFrame` takes: at most ten lines; from five lines before `i`
      when `i >= 5`; when `i < 5` the negative start counts from the end, so
      the window is empty once there are ten lines or more, and starts after
      line `i` once there are more than five. */
  lemma FrameWindow(lines: seq<Option<string>>, i: nat)
    requires i < |lines|
    ensures |Slice(lines, i - 5, i + 5)| <= 10
    ensures i >= 5 ==> Slice(lines, i - 5, i + 5) == lines[i - 5..Min(i + 5, |lines|)]
    ensures i < 5 && |lines| >= 10 ==> Slice(lines, i - 5, i + 5) == [] && GetFrame(lines, i) == ""
    ensures i < 5 && |lines| < 10 ==>
      Slice(lines, i - 5, i + 5) == lines[Max(|lines| + i - 5, 0)..Min(i + 5, |lines|)]
    ensures i < 5 && 5 < |lines| ==> ClampIndex(i - 5, |lines|) > i
  {
  }

  /** The comparison of two renderings (index.js:52-63): `None` when the
      texts agree line for line, otherwise the first differing line and the
      frames around it. */
  function DiffText(actualText: string, expectedText: string): Option<Diff> {
    var actualLines, expectedLines := Split(actualText), Split(expectedText);
    var n := Max(|actualLines|, |expectedLines|);
    match FirstDifference(actualLines, expectedLines)
    case None => None
    case Some(i) => Some(Diff(i, GetFrame(Padded(actualLines, n), i), GetFrame(Padded(expectedLines, n), i)))
  }

  /** The comparison reports nothing exactly when the two texts are the same. */
  lemma DiffTextNoneIff(actualText: string, expectedText: string)
    ensures DiffText(actualText, expectedText).None? <==> actualText == expectedText
  {
    FirstDifferenceSpec(Split(actualText), Split(expectedText));
    SplitInjective(actualText, expectedText);
  }

  /** The reported line is the first line of the two texts that differs. */
  lemma DiffTextLine(actualText: string, expectedText: string)
    requires DiffText(actualText, expectedText).Some?
    ensures var i := DiffText(actualText, expectedText).value.line;
      var actualLines, expectedLines := Split(actualText), Split(expectedText);
      && i < Max(|actualLines|, |expectedLines|)
      && (forall t :: 0 <= t < i ==> t < |actualLines| && t < |expectedLines| && actualLines[t] == expectedLines[t])
      && (i < |actualLines| && i < |expectedLines| ==> actualLines[i] != expectedLines[i])
  {
    FirstDifferenceSpec(Split(actualText), Split(expectedText));
  }

  /** Swapping the two texts reports the same line with the frames swapped,
      and reports nothing exactly when the original order does. */
  lemma DiffTextSymmetric(actualText: string, expectedText: string)
    ensures DiffText(expectedText, actualText) ==
      match DiffText(actualText, expectedText)
      case None => None
      case Some(d) => Some(Diff(d.line, d.expected, d.actual))
  {
    var A, B := Split(actualText), Split(expectedText);
    var n := Max(|A|, |B|);
    assert Max(|B|, |A|) == n;
    FirstMismatchSymmetric(Padded(A, n), Padded(B, n), 0);
  }

  /** The scan does not depend on which side is which. */
  lemma {:induction false} FirstMismatchSymmetric(a: seq<Option<string>>, b: seq<Option<string>>, from: nat)
    requires |a| == |b| && from <= |a|
    ensures FirstMismatch(a, b, from) == FirstMismatch(b, a, from)
    decreases |a| - from
  {
    if from < |a| && a[from] == b[from] {
      FirstMismatchSymmetric(a, b, from + 1);
    }
  }

  /** The scan as index.js:52-63 runs it: split, pad both lists to the longer
      length, walk the indices and return at the first pair that differs. */
  method ScanLines(actualText: string, expectedText: string) returns (d: Option<Diff>)
    ensures d == DiffText(actualText, expectedText)
  {
    var actualLines := Split(actualText);
    var expectedLines := Split(expectedText);
    var n := Max(|actualLines|, |expectedLines|);
    var a := Padded(actualLines, n);
    var b := Padded(expectedLines, n);
    var i := 0;
    while i < |a|
      invariant 0 <= i <= |a| == |b| == n
      invariant FirstMismatch(a, b, i) == FirstMismatch(a, b, 0)
    {
      if a[i] != b[i] {
        return Some(Diff(i, GetFrame(a, i), GetFrame(b, i)));
      }
      i := i + 1;
    }
    return None;
  }

  // ---------------------------------------------------------------------------
  // Frames, clipped: the window the frames are meant to show
  // ---------------------------------------------------------------------------

  /** The lines of one side from five before `i` up to five after, clipped to
      the lines that exist, with no padding. */
  function ClippedFrame(lines: seq<string>, i: nat): string {
    var lo, hi := Max(i - 5, 0), Min(i + 5, |lines|);
    Join(if lo < hi then lines[lo..hi] else [])
  }

  /** The comparison with clipped frames. */
  function ClippedDiffText(actualText: string, expectedText: string): Option<Diff> {
    match FirstDifference(Split(actualText), Split(expectedText))
    case None => None
    case Some(i) => Some(Diff(i, ClippedFrame(Split(actualText), i), ClippedFrame(Split(expectedText), i)))
  }

  /** With clipped frames a reported difference always shows in the frames:
      line `i` lies in both windows (or one side has fewer lines). */
  lemma ClippedFramesDiffer(actualText: string, expectedText: string)
    requires ClippedDiffText(actualText, expectedText).Some?
    ensures ClippedDiffText(actualText, expectedText).value.actual != ClippedDiffText(actualText, expectedText).value.expected
  {
    var A, B := Split(actualText), Split(expectedText);
    FirstDifferenceSpec(A, B);
    var i := FirstDifference(A, B).value;
    assert ClippedDiffText(actualText, expectedText).value == Diff(i, ClippedFrame(A, i), ClippedFrame(B, i));
    WindowsDiffer(A, B, i);
  }

  /** The clipped windows around a first difference `i` differ: at `i` itself,
      or in length when one side ends at `i`. */
  lemma WindowsDiffer(A: seq<string>, B: seq<string>, i: nat)
    requires 1 <= |A| && 1 <= |B| && NoNewlines(A) && NoNewlines(B)
    requires i <= |A| && i <= |B| && i < Max(|A|, |B|)
    requires i < |A| && i < |B| ==> A[i] != B[i]
    ensures ClippedFrame(A, i) != ClippedFrame(B, i)
  {
    var lo := Max(i - 5, 0);
    var hiA, hiB := Min(i + 5, |A|), Min(i + 5, |B|);
    assert lo < hiA && lo < hiB;
    var wA, wB := A[lo..hiA], B[lo..hiB];
    assert ClippedFrame(A, i) == Join(wA) && ClippedFrame(B, i) == Join(wB);
    assert NoNewlines(wA) by {
      forall t | 0 <= t < |wA| ensures Newline !in wA[t] {
        assert wA[t] == A[lo + t];
      }
    }
    assert NoNewlines(wB) by {
      forall t | 0 <= t < |wB| ensures Newline !in wB[t] {
        assert wB[t] == B[lo + t];
      }
    }
    JoinInjective(wA, wB);
    if i < |A| && i < |B| {
      assert wA[i - lo] == A[i] && wB[i - lo] == B[i];
    } else {
      assert |wA| != |wB|;
    }
  }

  /** Two seven-line texts that first differ at index 1 (as with
      "1\n3\n3\n4\n5\n6\n7" and "1\n2\n3\n4\n5\n6\n7"): the clipped
      frames are the first six lines of each side, differing line included. */
  lemma ClippedFrameNearStart(A: seq<string>, B: seq<string>)
    requires NoNewlines(A) && NoNewlines(B)
    requires |A| == 7 && |B| == 7 && A[0] == B[0] && A[1] != B[1]
    ensures ClippedDiffText(Join(A), Join(B)) == Some(Diff(1, Join(A[..6]), Join(B[..6])))
  {
    JoinSplit(A);
    JoinSplit(B);
    assert A[..1] == B[..1];
    FirstDifferenceAt(A, B, 1);
    assert A[0..6] == A[..6] && B[0..6] == B[..6];
  }

  /** Seven lines against eight that first differ at index 5 (as with
      "1\n2\n3\n4\n5\n7\n7" and "1\n2\n3\n4\n5\n6\n7\n8"): each clipped
      frame is exactly the lines its side has, with no segment for padding. */
  lemma ClippedFrameNoPadding(A: seq<string>, B: seq<string>)
    requires NoNewlines(A) && NoNewlines(B)
    requires |A| == 7 && |B| == 8 && A[..5] == B[..5] && A[5] != B[5]
    ensures ClippedDiffText(Join(A), Join(B)) == Some(Diff(5, Join(A), Join(B)))
  {
    JoinSplit(A);
    JoinSplit(B);
    FirstDifferenceAt(A, B, 5);
    ClippedWholeFrame(A, 5);
    ClippedWholeFrame(B, 5);
  }

  /** When the window around `i` covers every line, the clipped frame is the
      whole side. */
  lemma ClippedWholeFrame(lines: seq<string>, i: nat)
    requires 1 <= |lines| && i <= 5 && |lines| <= i + 5
    ensures ClippedFrame(lines, i) == Join(lines)
  {
    assert lines[0..|lines|] == lines;
  }

  /** The clipped comparison reports nothing exactly when the texts agree. */
  lemma ClippedDiffTextNoneIff(actualText: string, expectedText: string)
    ensures ClippedDiffText(actualText, expectedText).None? <==> actualText == expectedText
  {
    FirstDifferenceSpec(Split(actualText), Split(expectedText));
    SplitInjective(actualText, expectedText);
  }

  // ---------------------------------------------------------------------------
  // Concrete inputs
  // ---------------------------------------------------------------------------

  /** Two seven-line texts that first differ at index 1 (as with
      "1\n3\n3\n4\n5\n6\n7" and "1\n2\n3\n4\n5\n6\n7"): the start `1 - 5`
      counts back from the end, so both frames are lines 3-5 and leave out
      the line that differs; when those lines agree the frames are equal. */
  lemma FrameWrapsNearStart(A: seq<string>, B: seq<string>)
    requires NoNewlines(A) && NoNewlines(B)
    requires |A| == 7 && |B| == 7 && A[0] == B[0] && A[1] != B[1]
    ensures DiffText(Join(A), Join(B)) == Some(Diff(1, Join(A[3..6]), Join(B[3..6])))
    ensures A[3..6] == B[3..6] ==> DiffText(Join(A), Join(B)).value.actual == DiffText(Join(A), Join(B)).value.expected
  {
    assert A[..1] == B[..1];
    FirstDifferenceAt(A, B, 1);
    DiffOfJoins(A, B);
    FrameNearStart(A);
    FrameNearStart(B);
  }

  /** On seven lines, the frame around line 1 is lines 3-5. */
  lemma FrameNearStart(lines: seq<string>)
    requires |lines| == 7
    ensures GetFrame(Padded(lines, 7), 1) == Join(lines[3..6])
  {
    var a := Padded(lines, 7);
    assert ClampIndex(1 - 5, 7) == 3 && ClampIndex(1 + 5, 7) == 6;
    assert Slice(a, 1 - 5, 1 + 5) == a[3..6];
    assert Texts(a[3..6]) == lines[3..6];
  }

  /** Seven lines against eight that first differ at index 5 (as with the
      texts "1\n2\n3\n4\n5\n7\n7" and "1\n2\n3\n4\n5\n6\n7\n8"): the hole
      that pads the shorter side joins as an empty last segment of its frame. */
  lemma PaddingAddsEmptyLine(A: seq<string>, B: seq<string>)
    requires NoNewlines(A) && NoNewlines(B)
    requires |A| == 7 && |B| == 8 && A[..5] == B[..5] && A[5] != B[5]
    ensures DiffText(Join(A), Join(B)) == Some(Diff(5, Join(A + [""]), Join(B)))
  {
    FirstDifferenceAt(A, B, 5);
    DiffOfJoins(A, B);
    PaddedFrame(A, 8);
    PaddedFrame(B, 8);
  }

  /** Around line 5 of one side of eight lines, the frame is all of its
      lines, and one more empty segment per hole. */
  lemma PaddedFrame(lines: seq<string>, n: nat)
    requires n == 8 && 7 <= |lines| <= 8
    ensures GetFrame(Padded(lines, n), 5) == Join(lines + seq(n - |lines|, _ => ""))
    ensures |lines| == 7 ==> lines + seq(n - |lines|, _ => "") == lines + [""]
    ensures |lines| == 8 ==> lines + seq(n - |lines|, _ => "") == lines
  {
    WholeFrame(lines, n, 5);
    TextsOfPadded(lines, n);
  }

  /** Line lists that agree before index `i` and differ at `i` first differ at `i`. */
  lemma FirstDifferenceAt(A: seq<string>, B: seq<string>, i: nat)
    requires i < |A| && i < |B| && A[..i] == B[..i] && A[i] != B[i]
    ensures FirstDifference(A, B) == Some(i)
  {
    var n := Max(|A|, |B|);
    var a, b := Padded(A, n), Padded(B, n);
    forall t | 0 <= t < i ensures a[t] == b[t] {
      assert A[t] == A[..i][t];
    }
    assert a[i] != b[i];
  }

  /** The comparison of two joined line lists works on those lists. */
  lemma DiffOfJoins(A: seq<string>, B: seq<string>)
    requires |A| >= 1 && |B| >= 1 && NoNewlines(A) && NoNewlines(B)
    ensures var n := Max(|A|, |B|);
      DiffText(Join(A), Join(B)) ==
        match FirstDifference(A, B)
        case None => None
        case Some(i) => Some(Diff(i, GetFrame(Padded(A, n), i), GetFrame(Padded(B, n), i)))
  {
    JoinSplit(A);
    JoinSplit(B);
  }

  /** The padded lines as `join` sees them: the lines, then empty strings. */
  lemma TextsOfPadded(lines: seq<string>, n: nat)
    requires |lines| <= n
    ensures Texts(Padded(lines, n)) == lines + seq(n - |lines|, _ => "")
  {
  }

  /** When the window around `i` reaches past both ends (`n + i <= 5` and
      `n <= i + 5`), the frame is every line. */
  lemma WholeFrame(lines: seq<string>, n: nat, i: nat)
    requires |lines| <= n && i <= 5 && n <= i + 5 && (i < 5 ==> n + i <= 5)
    ensures GetFrame(Padded(lines, n), i) == Join(Texts(Padded(lines, n)))
  {
    assert ClampIndex(i - 5, n) == 0 && ClampIndex(i + 5, n) == n;
    assert Slice(Padded(lines, n), i - 5, i + 5) == Padded(lines, n);
  }

  /** A difference in the first five lines of a rendering of ten lines or more
      is reported with two empty frames. */
  lemma EarlyMismatchEmptyFrames(actualText: string, expectedText: string)
    requires DiffText(actualText, expectedText).Some?
    requires DiffText(actualText, expectedText).value.line < 5
    requires Max(|Split(actualText)|, |Split(expectedText)|) >= 10
    ensures DiffText(actualText, expectedText).value.actual == ""
    ensures DiffText(actualText, expectedText).value.expected == ""
  {
    FirstDifferenceSpec(Split(actualText), Split(expectedText));
  }

  /** Two ten-line texts that differ only in their first line: both frames
      are empty. */
  lemma FirstLineMismatchHidden(A: seq<string>, B: seq<string>)
    requires NoNewlines(A) && NoNewlines(B)
    requires |A| == |B| == 10 && A[0] != B[0]
    ensures Join(A) != Join(B)
    ensures DiffText(Join(A), Join(B)) == Some(Diff(0, "", ""))
  {
    JoinSplit(A);
    JoinSplit(B);
    var a, b := Padded(A, 10), Padded(B, 10);
    assert FirstDifference(A, B) == Some(0) by {
      assert a[0] != b[0];
    }
    assert Slice(a, -5, 5) == [] && Slice(b, -5, 5) == [];
  }
}
