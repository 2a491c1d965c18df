/** The two JavaScript array operations the comparison relies on: assigning
    `length` (which truncates, or extends with unset slots) and
    `Array.prototype.slice` with integer arguments. */
module JsArray {

  function Min(a: int, b: int): int { if a < b then a else b }

  function Max(a: int, b: int): int { if a < b then b else a }

  /** `a.length = n`: the first `n` elements survive; slots past the old end are
      unset, and reading one yields `hole`. */
  function SetLength<T>(a: seq<T>, n: nat, hole: T): (r: seq<T>)
    ensures |r| == n
    ensures forall i :: 0 <= i < n ==> r[i] == if i < |a| then a[i] else hole
  {
    if n <= |a| then a[..n] else a + seq(n - |a|, _ => hole)
  }

  /** The index `slice` derives from a start or end argument: a negative one
      counts back from the end, and either kind is clamped to `[0, len]`. */
  function ClampIndex(rel: int, len: nat): (k: nat)
    ensures k <= len
    ensures rel >= 0 ==> k == Min(rel, len)
    ensures rel < 0 ==> k == Max(len + rel, 0)
  {
    if rel < 0 then (if len + rel < 0 then 0 else len + rel)
    else if rel < len then rel
    else len
  }

  /** `a.slice(start, end)`: the run between the two clamped indices, empty
      when the start index is not before the end index. */
  function Slice<T>(a: seq<T>, start: int, end: int): (r: seq<T>)
    ensures |r| <= |a|
  {
    var k := ClampIndex(start, |a|);
    var f := ClampIndex(end, |a|);
    if k < f then a[k..f] else []
  }
}
