/** `deepReplace(o, props)` (index.js:17-42): reconciles `o` with `props` so that
    the result holds the content of `props` laid out in the key order of `o`.
    `diffJSON` calls it with the parsed expected value as `o` and the caller's
    actual value as `props`, so that both sides render with the same key order. */
module Replace {
  import opened JsArray
  import opened Json

  /** The own key that shadows `Object.prototype.hasOwnProperty`. */
  const HasOwnProperty := "hasOwnProperty"

  /** `typeof v === "object" && !Array.isArray(v)`: a plain object, or null. */
  predicate ObjectLike(v: Value) {
    v.Null? || v.Obj?
  }

  /** `ks` without the keys that occur in `among`, in order. */
  function Without(ks: seq<string>, among: seq<string>): (r: seq<string>)
    ensures forall k :: k in r <==> k in ks && k !in among
  {
    if ks == [] then []
    else
      var last := ks[|ks| - 1];
      Without(ks[..|ks| - 1], among) + (if last in among then [] else [last])
  }

  /** `ks` restricted to the keys that occur in `among`, in order. */
  function Shared(ks: seq<string>, among: seq<string>): (r: seq<string>)
    ensures forall k :: k in r <==> k in ks && k in among
  {
    if ks == [] then []
    else
      var last := ks[|ks| - 1];
      Shared(ks[..|ks| - 1], among) + (if last in among then [last] else [])
  }

  /** Iteration order of `new Set(ks)`: each key once, at its first occurrence. */
  function SetOrder(ks: seq<string>): (r: seq<string>)
    ensures Distinct(r)
    ensures forall k :: k in r <==> k in ks
  {
    if ks == [] then []
    else
      var d := SetOrder(ks[..|ks| - 1]);
      var last := ks[|ks| - 1];
      if last in d then d else d + [last]
  }

  /** The entries of `pe` at the keys `ks`, in the order of `ks`. */
  function EntriesAt(pe: seq<(string, Value)>, ks: seq<string>): (r: seq<(string, Value)>)
    requires forall k :: k in ks ==> k in Keys(pe)
    ensures |r| == |ks|
    ensures forall t :: 0 <= t < |ks| ==> r[t] == (ks[t], Lookup(pe, ks[t]))
  {
    seq(|ks|, t requires 0 <= t < |ks| => (ks[t], Lookup(pe, ks[t])))
  }

  // ---------------------------------------------------------------------------
  // The reference definition
  // ---------------------------------------------------------------------------

  /** What `deepReplace(o, props)` returns, or `TypeError` when it throws. */
  function Replaced(o: Value, props: Value): Outcome<Value>
    decreases props, 2
  {
    if ObjectLike(o) && ObjectLike(props) then
      if o.Null? || props.Null? then TypeError  // Object.keys(null)
      else
        match ObjectReplaced(o.entries, props.entries)
        case Ok(es) => Ok(Obj(es))
        case TypeError => TypeError
    else if o.Arr? && props.Arr? then
      match ElemsReplaced(o.elems, props.elems, |props.elems|)
      case Ok(xs) => Ok(Arr(xs))
      case TypeError => TypeError
    else
      Ok(props)
  }

  /** When the key loop calls an own "hasOwnProperty" value, which is not a
      function: `o` has that key from the start (the first test on `o` throws);
      `props` has it and `o` has a key (the first test on `props` throws); or `o`
      is empty and the key, copied from `props`, is followed by another key. */
  predicate HasOwnPropertyThrows(oe: seq<(string, Value)>, pe: seq<(string, Value)>) {
    || HasOwnProperty in Keys(oe)
    || (HasOwnProperty in Keys(pe) && (|oe| > 0 || pe[|pe| - 1].0 != HasOwnProperty))
  }

  /** The object branch: the entries of `o` whose keys `props` also has, with
      values merged recursively, in `o`'s order; then the keys only `props` has,
      with `props`'s values, in `props`'s order. */
  function ObjectReplaced(oe: seq<(string, Value)>, pe: seq<(string, Value)>): Outcome<seq<(string, Value)>>
    decreases Obj(pe), 1
  {
    if HasOwnPropertyThrows(oe, pe) then TypeError
    else
      match Survivors(oe, pe, |oe|)
      case Ok(s) => Ok(s + Added(oe, pe))
      case TypeError => TypeError
  }

  /** The entries among the first `n` of `o` that survive, merged. */
  function Survivors(oe: seq<(string, Value)>, pe: seq<(string, Value)>, n: nat): Outcome<seq<(string, Value)>>
    requires n <= |oe|
    decreases Obj(pe), 0, n
  {
    if n == 0 then Ok([])
    else
      match Survivors(oe, pe, n - 1)
      case TypeError => TypeError
      case Ok(s) =>
        var k := oe[n - 1].0;
        if k in Keys(pe) then
          var j := Position(Keys(pe), k);
          assert pe[j] in pe;
          match Replaced(oe[n - 1].1, pe[j].1)
          case TypeError => TypeError
          case Ok(r) => Ok(s + [(k, r)])
        else Ok(s)
  }

  /** The entries of `props` whose keys `o` lacks, in `props`'s order. */
  function Added(oe: seq<(string, Value)>, pe: seq<(string, Value)>): seq<(string, Value)> {
    EntriesAt(pe, Without(Keys(pe), Keys(oe)))
  }

  /** The array branch: the first `n` slots of `o` resized to `props.length`,
      each merged with the slot of `props` at the same index. */
  function ElemsReplaced(oa: seq<Value>, pa: seq<Value>, n: nat): Outcome<seq<Value>>
    requires n <= |pa|
    decreases Arr(pa), 0, n
  {
    if n == 0 then Ok([])
    else
      match ElemsReplaced(oa, pa, n - 1)
      case TypeError => TypeError
      case Ok(xs) =>
        match Replaced(SetLength(oa, |pa|, Undefined)[n - 1], pa[n - 1])
        case TypeError => TypeError
        case Ok(r) => Ok(xs + [r])
  }

  // ---------------------------------------------------------------------------
  // The source's algorithm
  // ---------------------------------------------------------------------------

  /** `deepReplace(o, props)` as index.js:17-42 runs it, branch by branch. */
  method DeepReplace(o: Value, props: Value) returns (r: Outcome<Value>)
    requires WellFormed(o) && WellFormed(props)
    ensures r == Replaced(o, props)
    decreases props, 2
  {
    if ObjectLike(o) && ObjectLike(props) {
      if o.Null? || props.Null? {
        return TypeError;  // Object.keys(null)
      }
      var es := ReplaceEntries(o.entries, props.entries);
      r := if es.TypeError? then TypeError else Ok(Obj(es.value));
    } else if o.Arr? && props.Arr? {
      var xs := ReplaceElems(o.elems, props.elems);
      r := if xs.TypeError? then TypeError else Ok(Arr(xs.value));
    } else {
      r := Ok(props);
    }
  }

  /** The object branch (index.js:22-32): one pass over the keys of both objects
      in `Set` order, deleting, merging or copying one key at a time. */
  method ReplaceEntries(oe: seq<(string, Value)>, pe: seq<(string, Value)>) returns (r: Outcome<seq<(string, Value)>>)
    requires Distinct(Keys(oe)) && Distinct(Keys(pe))
    requires forall t :: 0 <= t < |oe| ==> WellFormed(oe[t].1)
    requires forall t :: 0 <= t < |pe| ==> WellFormed(pe[t].1)
    ensures r == ObjectReplaced(oe, pe)
    decreases Obj(pe), 1
  {
    var keys := SetOrder(Keys(oe) + Keys(pe));
    KeyLoopStart(oe, pe);
    var cur := oe;
    var i := 0;
    while i < |keys|
      invariant i <= |keys|
      invariant KeyLoopInvariant(oe, pe, i, cur)
    {
      var next := ReplaceKey(oe, pe, i, keys[i], cur);
      if next.TypeError? {
        return TypeError;
      }
      cur := next.value;
      i := i + 1;
    }
    KeyLoopDone(oe, pe, cur);
    return Ok(cur);
  }

  /** One turn of the key loop (index.js:23-31) for the `i`-th key `k`: test
      that `o` owns `k`, then that `props` owns it, and merge, delete or copy. */
  method ReplaceKey(oe: seq<(string, Value)>, pe: seq<(string, Value)>, i: nat, k: string, cur: seq<(string, Value)>)
    returns (next: Outcome<seq<(string, Value)>>)
    requires Distinct(Keys(oe)) && Distinct(Keys(pe))
    requires forall t :: 0 <= t < |oe| ==> WellFormed(oe[t].1)
    requires forall t :: 0 <= t < |pe| ==> WellFormed(pe[t].1)
    requires KeyLoopInvariant(oe, pe, i, cur) && i < |oe| + |Without(Keys(pe), Keys(oe))|
    requires i < |SetOrder(Keys(oe) + Keys(pe))| && k == SetOrder(Keys(oe) + Keys(pe))[i]
    ensures next.TypeError? ==> ObjectReplaced(oe, pe) == TypeError
    ensures next.Ok? ==> KeyLoopInvariant(oe, pe, i + 1, next.value)
    decreases Obj(pe), 0
  {
    if i < |oe| {
      FirstPassFacts(oe, pe, i, cur);
    } else {
      SecondPassFacts(oe, pe, i, cur);
    }
    if HasOwnProperty in Keys(cur) {
      return TypeError;  // o.hasOwnProperty is the own value, not a function
    }
    if k in Keys(cur) {
      if HasOwnProperty in Keys(pe) {
        return TypeError;  // props.hasOwnProperty is the own value, not a function
      }
      if k in Keys(pe) {
        var j := Position(Keys(pe), k);
        assert pe[j] in pe;
        var sub := DeepReplace(Lookup(cur, k), pe[j].1);
        if sub.TypeError? {
          MergeThrows(oe, pe, i, cur);
          return TypeError;
        }
        MergedStep(oe, pe, i, cur, sub.value);
        next := Ok(Assign(cur, k, sub.value));
      } else {
        DeletedStep(oe, pe, i, cur);
        next := Ok(Delete(cur, k));
      }
    } else {
      CopiedStep(oe, pe, i, cur);
      next := Ok(Assign(cur, k, Lookup(pe, k)));
    }
  }

  /** The array branch (index.js:34-39): `o.length = props.length`, then each
      slot is merged with the slot of `props` at the same index. */
  method ReplaceElems(oa: seq<Value>, pa: seq<Value>) returns (r: Outcome<seq<Value>>)
    requires forall t :: 0 <= t < |oa| ==> WellFormed(oa[t])
    requires forall t :: 0 <= t < |pa| ==> WellFormed(pa[t])
    ensures r == ElemsReplaced(oa, pa, |pa|)
    decreases Arr(pa), 0
  {
    var elems := SetLength(oa, |pa|, Undefined);
    var i := 0;
    while i < |elems|
      invariant |elems| == |pa| && ElemsLoopInvariant(oa, pa, i, elems)
    {
      ElemsLoopSlot(oa, pa, i, elems);
      var sub := DeepReplace(elems[i], pa[i]);
      if sub.TypeError? {
        ElemsLoopThrows(oa, pa, i, elems);
        return TypeError;
      }
      ElemsLoopStep(oa, pa, i, elems, sub.value);
      elems := elems[i := sub.value];
      i := i + 1;
    }
    ElemsLoopDone(oa, pa, elems);
    return Ok(elems);
  }

  // ---------------------------------------------------------------------------
  // Facts the algorithm's proof uses
  // ---------------------------------------------------------------------------

  /** The state of `o` after the key loop has handled `i` keys: first the keys
      of `o` (each merged or deleted), then the keys only `props` has (each
      copied); and no test so far has met an own "hasOwnProperty". */
  ghost predicate KeyLoopInvariant(oe: seq<(string, Value)>, pe: seq<(string, Value)>, i: nat, cur: seq<(string, Value)>) {
    var w := Without(Keys(pe), Keys(oe));
    && i <= |oe| + |w|
    && Distinct(Keys(cur))
    && (i > 0 ==> HasOwnProperty !in Keys(oe))
    && (i > 0 && |oe| > 0 ==> HasOwnProperty !in Keys(pe))
    && (i > |oe| ==> HasOwnProperty !in w[..i - 1 - |oe|])
    && Survivors(oe, pe, Min(i, |oe|)).Ok?
    && (i <= |oe| ==> cur == Survivors(oe, pe, i).value + oe[i..])
    && (i >= |oe| ==> cur == Survivors(oe, pe, |oe|).value + EntriesAt(pe, w[..i - |oe|]))
  }

  lemma KeyLoopStart(oe: seq<(string, Value)>, pe: seq<(string, Value)>)
    requires Distinct(Keys(oe)) && Distinct(Keys(pe))
    ensures |SetOrder(Keys(oe) + Keys(pe))| == |oe| + |Without(Keys(pe), Keys(oe))|
    ensures KeyLoopInvariant(oe, pe, 0, oe)
  {
    SetOrderOfUnion(Keys(oe), Keys(pe));
  }

  /** What the tests at the head of the loop find for the `i`-th key when it is
      a key of `o`: `o` owns it, with its original value. */
  lemma FirstPassFacts(oe: seq<(string, Value)>, pe: seq<(string, Value)>, i: nat, cur: seq<(string, Value)>)
    requires Distinct(Keys(oe)) && Distinct(Keys(pe))
    requires KeyLoopInvariant(oe, pe, i, cur) && i < |oe|
    ensures |SetOrder(Keys(oe) + Keys(pe))| == |oe| + |Without(Keys(pe), Keys(oe))|
    ensures SetOrder(Keys(oe) + Keys(pe))[i] == oe[i].0
    ensures oe[i].0 in Keys(cur) && Lookup(cur, oe[i].0) == oe[i].1
    ensures HasOwnProperty in Keys(cur) ==> ObjectReplaced(oe, pe) == TypeError
    ensures HasOwnProperty in Keys(pe) ==> ObjectReplaced(oe, pe) == TypeError
    ensures HasOwnProperty !in Keys(cur) ==> HasOwnProperty !in Keys(oe)
  {
    SetOrderOfUnion(Keys(oe), Keys(pe));
    assert (Keys(oe) + Without(Keys(pe), Keys(oe)))[i] == Keys(oe)[i];
    assert Min(i, |oe|) == i;
    FirstPassStep(oe, pe, i, cur);
    if i == 0 {
      assert cur == oe;
    }
  }

  /** What the tests at the head of the loop find for the `i`-th key when it is
      a key only `props` has: `o` does not own it yet. */
  lemma SecondPassFacts(oe: seq<(string, Value)>, pe: seq<(string, Value)>, i: nat, cur: seq<(string, Value)>)
    requires Distinct(Keys(oe)) && Distinct(Keys(pe))
    requires KeyLoopInvariant(oe, pe, i, cur) && |oe| <= i < |oe| + |Without(Keys(pe), Keys(oe))|
    ensures |SetOrder(Keys(oe) + Keys(pe))| == |oe| + |Without(Keys(pe), Keys(oe))|
    ensures SetOrder(Keys(oe) + Keys(pe))[i] == Without(Keys(pe), Keys(oe))[i - |oe|]
    ensures Without(Keys(pe), Keys(oe))[i - |oe|] !in Keys(cur)
    ensures HasOwnProperty in Keys(cur) ==> ObjectReplaced(oe, pe) == TypeError
  {
    SetOrderOfUnion(Keys(oe), Keys(pe));
    var w := Without(Keys(pe), Keys(oe));
    var keys := SetOrder(Keys(oe) + Keys(pe));
    assert keys == Keys(oe) + w;
    assert keys[i] == w[i - |oe|];
    assert Min(i, |oe|) == |oe|;
    var j := i - |oe|;
    assert cur == Survivors(oe, pe, |oe|).value + EntriesAt(pe, w[..j]);
    SecondPassStep(oe, pe, j, cur);
    if HasOwnProperty in Keys(cur) {
      CopiedHasOwnPropertyThrows(oe, pe, j);
    }
    assert Without(Keys(pe), Keys(oe))[i - |oe|] !in Keys(cur);
  }

  lemma MergeThrows(oe: seq<(string, Value)>, pe: seq<(string, Value)>, i: nat, cur: seq<(string, Value)>)
    requires KeyLoopInvariant(oe, pe, i, cur) && i < |oe| && oe[i].0 in Keys(pe)
    requires Replaced(oe[i].1, pe[Position(Keys(pe), oe[i].0)].1).TypeError?
    ensures ObjectReplaced(oe, pe) == TypeError
  {
    SurvivorsErrorPersists(oe, pe, i + 1, |oe|);
  }

  lemma MergedStep(oe: seq<(string, Value)>, pe: seq<(string, Value)>, i: nat, cur: seq<(string, Value)>, r: Value)
    requires Distinct(Keys(oe)) && Distinct(Keys(pe))
    requires KeyLoopInvariant(oe, pe, i, cur) && i < |oe| && oe[i].0 in Keys(pe)
    requires HasOwnProperty !in Keys(oe) && HasOwnProperty !in Keys(pe)
    requires Replaced(oe[i].1, pe[Position(Keys(pe), oe[i].0)].1) == Ok(r)
    ensures KeyLoopInvariant(oe, pe, i + 1, Assign(cur, oe[i].0, r))
  {
    assert Min(i, |oe|) == i;
    var s := Survivors(oe, pe, i).value;
    FirstPassEdit(oe, pe, i, cur, r);
    var next := Assign(cur, oe[i].0, r);
    SurvivorsMerged(oe, pe, i + 1, s, r);
    FirstPassInvariant(oe, pe, i + 1, next);
  }

  lemma DeletedStep(oe: seq<(string, Value)>, pe: seq<(string, Value)>, i: nat, cur: seq<(string, Value)>)
    requires Distinct(Keys(oe)) && Distinct(Keys(pe))
    requires KeyLoopInvariant(oe, pe, i, cur) && i < |oe| && oe[i].0 !in Keys(pe)
    requires HasOwnProperty !in Keys(oe) && HasOwnProperty !in Keys(pe)
    ensures KeyLoopInvariant(oe, pe, i + 1, Delete(cur, oe[i].0))
  {
    assert Min(i, |oe|) == i;
    var s := Survivors(oe, pe, i).value;
    FirstPassEdit(oe, pe, i, cur, Undefined);
    var next := Delete(cur, oe[i].0);
    assert Survivors(oe, pe, i + 1) == Ok(s);
    FirstPassInvariant(oe, pe, i + 1, next);
  }

  /** Merging the `i`-th key of `o` replaces its entry in place; deleting it
      drops that entry and nothing else. */
  lemma FirstPassEdit(oe: seq<(string, Value)>, pe: seq<(string, Value)>, i: nat, cur: seq<(string, Value)>, r: Value)
    requires Distinct(Keys(oe)) && Distinct(Keys(cur)) && i < |oe|
    requires Survivors(oe, pe, i).Ok? && cur == Survivors(oe, pe, i).value + oe[i..]
    ensures Assign(cur, oe[i].0, r) == Survivors(oe, pe, i).value + [(oe[i].0, r)] + oe[i + 1..]
    ensures Delete(cur, oe[i].0) == Survivors(oe, pe, i).value + oe[i + 1..]
  {
    var n := |Survivors(oe, pe, i).value|;
    FirstPassStep(oe, pe, i, cur);
    AssignExisting(cur, n, r);
    assert cur[n := (oe[i].0, r)] == cur[..n] + [(oe[i].0, r)] + cur[n + 1..];
  }

  /** The loop state during the first pass, from its parts. */
  lemma FirstPassInvariant(oe: seq<(string, Value)>, pe: seq<(string, Value)>, i: nat, cur: seq<(string, Value)>)
    requires 0 < i <= |oe| && Distinct(Keys(cur))
    requires HasOwnProperty !in Keys(oe) && HasOwnProperty !in Keys(pe)
    requires Survivors(oe, pe, i).Ok? && cur == Survivors(oe, pe, i).value + oe[i..]
    ensures KeyLoopInvariant(oe, pe, i, cur)
  {
    assert Min(i, |oe|) == i;
    if i == |oe| {
      var w := Without(Keys(pe), Keys(oe));
      assert oe[i..] == [] && w[..0] == [];
      assert cur == Survivors(oe, pe, |oe|).value + EntriesAt(pe, w[..0]);
    }
  }

  lemma CopiedStep(oe: seq<(string, Value)>, pe: seq<(string, Value)>, i: nat, cur: seq<(string, Value)>)
    requires Distinct(Keys(oe)) && Distinct(Keys(pe))
    requires KeyLoopInvariant(oe, pe, i, cur) && |oe| <= i < |oe| + |Without(Keys(pe), Keys(oe))|
    requires HasOwnProperty !in Keys(cur)
    ensures var k := Without(Keys(pe), Keys(oe))[i - |oe|];
      k in Keys(pe) && KeyLoopInvariant(oe, pe, i + 1, Assign(cur, k, Lookup(pe, k)))
  {
    var w := Without(Keys(pe), Keys(oe));
    var j := i - |oe|;
    SecondPassStep(oe, pe, j, cur);
    var k := w[j];
    var next := Assign(cur, k, Lookup(pe, k));
    assert next == Survivors(oe, pe, |oe|).value + EntriesAt(pe, w[..j + 1]);
    assert HasOwnProperty !in w[..j];
    assert Min(i + 1, |oe|) == |oe|;
  }

  lemma KeyLoopDone(oe: seq<(string, Value)>, pe: seq<(string, Value)>, cur: seq<(string, Value)>)
    requires Distinct(Keys(pe))
    requires KeyLoopInvariant(oe, pe, |oe| + |Without(Keys(pe), Keys(oe))|, cur)
    ensures ObjectReplaced(oe, pe) == Ok(cur)
  {
    var w := Without(Keys(pe), Keys(oe));
    assert w[..|w|] == w;
    if HasOwnProperty in Keys(pe) && |oe| == 0 {
      WithoutNothing(Keys(pe));
    }
  }

  /** One key of `o` in the first pass: it stands right after the survivors so
      far, so merging assigns in place and deleting drops exactly that entry. */
  lemma FirstPassStep(oe: seq<(string, Value)>, pe: seq<(string, Value)>, i: nat, cur: seq<(string, Value)>)
    requires Distinct(Keys(oe)) && Distinct(Keys(cur)) && i < |oe|
    requires Survivors(oe, pe, i).Ok? && cur == Survivors(oe, pe, i).value + oe[i..]
    ensures var n := |Survivors(oe, pe, i).value|;
      && n < |cur| && cur[n] == oe[i]
      && oe[i].0 in Keys(cur) && Lookup(cur, oe[i].0) == oe[i].1
      && cur[..n] == Survivors(oe, pe, i).value && cur[n + 1..] == oe[i + 1..]
    ensures HasOwnProperty in Keys(cur) ==> HasOwnProperty in Keys(oe)
  {
    var s := Survivors(oe, pe, i).value;
    SurvivorsKeys(oe, pe, i);
    KeysAppend(s, oe[i..]);
    assert cur[|s|] == oe[i];
    assert Keys(cur)[|s|] == oe[i].0;
    PositionOfDistinct(Keys(cur), |s|);
    assert cur[..|s|] == s && cur[|s| + 1..] == oe[i + 1..];
    assert Keys(oe[i..]) == Keys(oe)[i..];
    assert Keys(oe) == Keys(oe)[..i] + Keys(oe)[i..];
  }

  lemma AssignExisting(es: seq<(string, Value)>, j: nat, v: Value)
    requires Distinct(Keys(es)) && j < |es|
    ensures Assign(es, es[j].0, v) == es[j := (es[j].0, v)]
    ensures Delete(es, es[j].0) == es[..j] + es[j + 1..]
  {
    assert Keys(es)[j] == es[j].0;
    PositionOfDistinct(Keys(es), j);
  }

  /** The `j`-th key only `props` has, in the second pass: `o` does not have it
      yet, so assigning it appends the entry copied from `props`. */
  lemma SecondPassStep(oe: seq<(string, Value)>, pe: seq<(string, Value)>, j: nat, cur: seq<(string, Value)>)
    requires Distinct(Keys(cur)) && Distinct(Keys(pe))
    requires j < |Without(Keys(pe), Keys(oe))|
    requires Survivors(oe, pe, |oe|).Ok?
    requires cur == Survivors(oe, pe, |oe|).value + EntriesAt(pe, Without(Keys(pe), Keys(oe))[..j])
    ensures Without(Keys(pe), Keys(oe))[j] !in Keys(cur)
    ensures Without(Keys(pe), Keys(oe))[j] in Keys(pe)
    ensures var k := Without(Keys(pe), Keys(oe))[j];
      Assign(cur, k, Lookup(pe, k)) == Survivors(oe, pe, |oe|).value + EntriesAt(pe, Without(Keys(pe), Keys(oe))[..j + 1])
    ensures HasOwnProperty in Keys(cur) ==>
      HasOwnProperty in Keys(oe) || HasOwnProperty in Without(Keys(pe), Keys(oe))[..j]
    ensures HasOwnProperty in Without(Keys(pe), Keys(oe))[..j] ==> HasOwnProperty in Keys(cur)
  {
    SecondPassFresh(oe, pe, j, cur);
    SecondPassAppend(oe, pe, j, cur);
  }

  lemma SecondPassFresh(oe: seq<(string, Value)>, pe: seq<(string, Value)>, j: nat, cur: seq<(string, Value)>)
    requires Distinct(Keys(pe))
    requires j < |Without(Keys(pe), Keys(oe))|
    requires Survivors(oe, pe, |oe|).Ok?
    requires cur == Survivors(oe, pe, |oe|).value + EntriesAt(pe, Without(Keys(pe), Keys(oe))[..j])
    ensures Without(Keys(pe), Keys(oe))[j] !in Keys(cur)
    ensures Without(Keys(pe), Keys(oe))[j] in Keys(pe)
    ensures HasOwnProperty in Keys(cur) ==>
      HasOwnProperty in Keys(oe) || HasOwnProperty in Without(Keys(pe), Keys(oe))[..j]
    ensures HasOwnProperty in Without(Keys(pe), Keys(oe))[..j] ==> HasOwnProperty in Keys(cur)
  {
    var w := Without(Keys(pe), Keys(oe));
    var k := w[j];
    assert k in w;
    SecondPassKeys(oe, pe, j, cur);
    WithoutDistinct(Keys(pe), Keys(oe));
    assert k !in w[..j];
  }

  lemma SecondPassAppend(oe: seq<(string, Value)>, pe: seq<(string, Value)>, j: nat, cur: seq<(string, Value)>)
    requires Distinct(Keys(cur))
    requires j < |Without(Keys(pe), Keys(oe))|
    requires Survivors(oe, pe, |oe|).Ok?
    requires cur == Survivors(oe, pe, |oe|).value + EntriesAt(pe, Without(Keys(pe), Keys(oe))[..j])
    requires Without(Keys(pe), Keys(oe))[j] !in Keys(cur)
    ensures var k := Without(Keys(pe), Keys(oe))[j];
      k in Keys(pe) &&
      Assign(cur, k, Lookup(pe, k)) == Survivors(oe, pe, |oe|).value + EntriesAt(pe, Without(Keys(pe), Keys(oe))[..j + 1])
  {
    var w := Without(Keys(pe), Keys(oe));
    var k := w[j];
    assert k in w;
    AssignNew(cur, k, Lookup(pe, k));
    EntriesAtSnoc(pe, w, j);
    var s := Survivors(oe, pe, |oe|).value;
    assert cur + [(k, Lookup(pe, k))] == s + (EntriesAt(pe, w[..j]) + [(k, Lookup(pe, k))]);
  }

  /** In the second pass `o` holds the shared keys, then the copied ones. */
  lemma SecondPassKeys(oe: seq<(string, Value)>, pe: seq<(string, Value)>, j: nat, cur: seq<(string, Value)>)
    requires j <= |Without(Keys(pe), Keys(oe))|
    requires Survivors(oe, pe, |oe|).Ok?
    requires cur == Survivors(oe, pe, |oe|).value + EntriesAt(pe, Without(Keys(pe), Keys(oe))[..j])
    ensures Keys(cur) == Shared(Keys(oe), Keys(pe)) + Without(Keys(pe), Keys(oe))[..j]
  {
    var w := Without(Keys(pe), Keys(oe));
    SurvivorsKeys(oe, pe, |oe|);
    assert Keys(oe)[..|oe|] == Keys(oe);
    KeysAppend(Survivors(oe, pe, |oe|).value, EntriesAt(pe, w[..j]));
    EntriesAtKeys(pe, w[..j]);
  }

  lemma EntriesAtSnoc(pe: seq<(string, Value)>, ks: seq<string>, j: nat)
    requires j < |ks| && forall k :: k in ks ==> k in Keys(pe)
    ensures EntriesAt(pe, ks[..j + 1]) == EntriesAt(pe, ks[..j]) + [(ks[j], Lookup(pe, ks[j]))]
  {
  }

  /** The key "hasOwnProperty", copied from `props` into an `o` with no own keys
      and followed by another key of `props`, makes the next test throw. */
  lemma CopiedHasOwnPropertyThrows(oe: seq<(string, Value)>, pe: seq<(string, Value)>, j: nat)
    requires Distinct(Keys(pe))
    requires j < |Without(Keys(pe), Keys(oe))|
    requires HasOwnProperty in Keys(oe) || HasOwnProperty in Without(Keys(pe), Keys(oe))[..j]
    ensures HasOwnPropertyThrows(oe, pe)
  {
  }

  lemma EntriesAtKeys(pe: seq<(string, Value)>, ks: seq<string>)
    requires forall k :: k in ks ==> k in Keys(pe)
    ensures Keys(EntriesAt(pe, ks)) == ks
  {
  }

  lemma KeysAppend(a: seq<(string, Value)>, b: seq<(string, Value)>)
    ensures Keys(a + b) == Keys(a) + Keys(b)
  {
  }

  lemma WithoutNothing(ks: seq<string>)
    ensures Without(ks, []) == ks
  {
  }

  lemma {:induction false} WithoutDistinct(ks: seq<string>, among: seq<string>)
    requires Distinct(ks)
    ensures Distinct(Without(ks, among))
  {
    if ks != [] {
      WithoutDistinct(ks[..|ks| - 1], among);
    }
  }

  /** The state of the array after the slot loop has handled `i` slots: the
      merged slots, then the resized slots not reached yet. */
  ghost predicate ElemsLoopInvariant(oa: seq<Value>, pa: seq<Value>, i: nat, elems: seq<Value>) {
    && i <= |pa|
    && ElemsReplaced(oa, pa, i).Ok?
    && |ElemsReplaced(oa, pa, i).value| == i
    && elems == ElemsReplaced(oa, pa, i).value + SetLength(oa, |pa|, Undefined)[i..]
  }

  lemma ElemsLoopSlot(oa: seq<Value>, pa: seq<Value>, i: nat, elems: seq<Value>)
    requires forall t :: 0 <= t < |oa| ==> WellFormed(oa[t])
    requires ElemsLoopInvariant(oa, pa, i, elems) && i < |pa|
    ensures i < |elems| && elems[i] == SetLength(oa, |pa|, Undefined)[i]
    ensures WellFormed(elems[i])
  {
  }

  lemma ElemsLoopThrows(oa: seq<Value>, pa: seq<Value>, i: nat, elems: seq<Value>)
    requires ElemsLoopInvariant(oa, pa, i, elems) && i < |pa|
    requires Replaced(SetLength(oa, |pa|, Undefined)[i], pa[i]).TypeError?
    ensures ElemsReplaced(oa, pa, |pa|).TypeError?
  {
    ElemsErrorPersists(oa, pa, i + 1, |pa|);
  }

  lemma ElemsLoopStep(oa: seq<Value>, pa: seq<Value>, i: nat, elems: seq<Value>, r: Value)
    requires ElemsLoopInvariant(oa, pa, i, elems) && i < |pa|
    requires Replaced(SetLength(oa, |pa|, Undefined)[i], pa[i]) == Ok(r)
    ensures ElemsLoopInvariant(oa, pa, i + 1, elems[i := r])
  {
    var xs := ElemsReplaced(oa, pa, i).value;
    assert ElemsReplaced(oa, pa, i + 1) == Ok(xs + [r]);
    var rest := SetLength(oa, |pa|, Undefined)[i..];
    assert elems[i := r] == xs + [r] + rest[1..];
    assert rest[1..] == SetLength(oa, |pa|, Undefined)[i + 1..];
  }

  lemma ElemsLoopDone(oa: seq<Value>, pa: seq<Value>, elems: seq<Value>)
    requires ElemsLoopInvariant(oa, pa, |pa|, elems)
    ensures ElemsReplaced(oa, pa, |pa|) == Ok(elems)
  {
    var rest := SetLength(oa, |pa|, Undefined)[|pa|..];
    var xs := ElemsReplaced(oa, pa, |pa|).value;
    assert rest == [] && xs + rest == xs;
  }

  /** A set built from a list without repeats followed by another such list
      iterates the first list, then the new keys of the second. */
  lemma {:induction false} SetOrderOfUnion(a: seq<string>, b: seq<string>)
    requires Distinct(a) && Distinct(b)
    ensures SetOrder(a + b) == a + Without(b, a)
  {
    if b == [] {
      assert a + b == a;
      SetOrderOfDistinct(a);
    } else {
      var b' := b[..|b| - 1];
      assert (a + b)[..|a + b| - 1] == a + b';
      SetOrderOfUnion(a, b');
    }
  }

  lemma {:induction false} SetOrderOfDistinct(a: seq<string>)
    requires Distinct(a)
    ensures SetOrder(a) == a
  {
    if a != [] {
      SetOrderOfDistinct(a[..|a| - 1]);
    }
  }

  /** The survivors carry exactly the keys of `o` that `props` has, in `o`'s order. */
  lemma {:induction false} SurvivorsKeys(oe: seq<(string, Value)>, pe: seq<(string, Value)>, n: nat)
    requires n <= |oe| && Survivors(oe, pe, n).Ok?
    ensures Keys(Survivors(oe, pe, n).value) == Shared(Keys(oe)[..n], Keys(pe))
  {
    if n > 0 {
      SurvivorsKeys(oe, pe, n - 1);
      assert Keys(oe)[..n][..n - 1] == Keys(oe)[..n - 1];
    }
  }

  /** One more key of `o` that `props` shares, merged without a throw. */
  lemma SurvivorsMerged(oe: seq<(string, Value)>, pe: seq<(string, Value)>, n: nat, s: seq<(string, Value)>, r: Value)
    requires 0 < n <= |oe| && Survivors(oe, pe, n - 1) == Ok(s) && oe[n - 1].0 in Keys(pe)
    requires Replaced(oe[n - 1].1, pe[Position(Keys(pe), oe[n - 1].0)].1) == Ok(r)
    ensures Survivors(oe, pe, n) == Ok(s + [(oe[n - 1].0, r)])
  {
  }

  lemma {:induction false} SurvivorsErrorPersists(oe: seq<(string, Value)>, pe: seq<(string, Value)>, n: nat, m: nat)
    requires n <= m <= |oe| && Survivors(oe, pe, n).TypeError?
    ensures Survivors(oe, pe, m).TypeError?
    decreases m - n
  {
    if n < m {
      SurvivorsErrorPersists(oe, pe, n + 1, m);
    }
  }

  lemma {:induction false} ElemsErrorPersists(oa: seq<Value>, pa: seq<Value>, n: nat, m: nat)
    requires n <= m <= |pa| && ElemsReplaced(oa, pa, n).TypeError?
    ensures ElemsReplaced(oa, pa, m).TypeError?
    decreases m - n
  {
    if n < m {
      ElemsErrorPersists(oa, pa, n + 1, m);
    }
  }
}
