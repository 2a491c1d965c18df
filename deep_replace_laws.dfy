/** What `deepReplace` promises about its result: the key layout of the object
    branch, the slots of the array branch, that the result carries the content
    of `props` (deep equality up to key order), and the consequences
    `diffJSON` relies on — merging a value into an equivalent one changes
    nothing, and merging twice is merging once. */
module ReplaceLaws {
  import opened JsArray
  import opened Json
  import opened Replace

  /** A value the merge never throws on: no `null` and no own key
      "hasOwnProperty" at any depth. */
  predicate MergeSafe(v: Value) {
    match v
    case Null => false
    case Arr(xs) => forall i | 0 <= i < |xs| :: MergeSafe(xs[i])
    case Obj(es) => HasOwnProperty !in Keys(es) && forall i | 0 <= i < |es| :: MergeSafe(es[i].1)
    case _ => true
  }

  // ---------------------------------------------------------------------------
  // The object branch
  // ---------------------------------------------------------------------------

  /** Object branch (index.js:22-31): the keys of `o` that `props` shares keep
      their place from `o`, the keys only `props` has follow in `props`'s order,
      the keys only `o` has are gone; a shared key holds the merge of the two
      values, a copied key the value of `props` untouched. */
  lemma ObjectReplacedEntries(oe: seq<(string, Value)>, pe: seq<(string, Value)>)
    requires Distinct(Keys(oe)) && Distinct(Keys(pe)) && ObjectReplaced(oe, pe).Ok?
    ensures var r := ObjectReplaced(oe, pe).value;
      && Keys(r) == Shared(Keys(oe), Keys(pe)) + Without(Keys(pe), Keys(oe))
      && Distinct(Keys(r))
      && (forall k :: k in Keys(r) <==> k in Keys(pe))
      && forall t :: 0 <= t < |r| ==>
           r[t].0 in Keys(pe) &&
           if r[t].0 in Keys(oe) then Replaced(Lookup(oe, r[t].0), Lookup(pe, r[t].0)) == Ok(r[t].1)
           else r[t].1 == Lookup(pe, r[t].0)
  {
    var s := Survivors(oe, pe, |oe|).value;
    var w := Without(Keys(pe), Keys(oe));
    var r := ObjectReplaced(oe, pe).value;
    assert r == s + EntriesAt(pe, w);
    SurvivorsKeys(oe, pe, |oe|);
    assert Keys(oe)[..|oe|] == Keys(oe);
    SurvivorsEntries(oe, pe, |oe|);
    EntriesAtKeys(pe, w);
    KeysAppend(s, EntriesAt(pe, w));
    SharedDistinct(Keys(oe), Keys(pe));
    WithoutDistinct(Keys(pe), Keys(oe));
    DisjointAppend(Shared(Keys(oe), Keys(pe)), w, Keys(oe));
    forall t | 0 <= t < |r|
      ensures r[t].0 in Keys(pe)
      ensures if r[t].0 in Keys(oe) then Replaced(Lookup(oe, r[t].0), Lookup(pe, r[t].0)) == Ok(r[t].1)
              else r[t].1 == Lookup(pe, r[t].0)
    {
      if t >= |s| {
        assert r[t] == (w[t - |s|], Lookup(pe, w[t - |s|]));
        assert w[t - |s|] in w;
      }
    }
  }

  /** Each survivor is a key both objects own, holding the merge of their values. */
  lemma {:induction false} SurvivorsEntries(oe: seq<(string, Value)>, pe: seq<(string, Value)>, n: nat)
    requires Distinct(Keys(oe)) && n <= |oe| && Survivors(oe, pe, n).Ok?
    ensures var s := Survivors(oe, pe, n).value;
      forall t :: 0 <= t < |s| ==>
        s[t].0 in Keys(oe) && s[t].0 in Keys(pe) &&
        Replaced(Lookup(oe, s[t].0), Lookup(pe, s[t].0)) == Ok(s[t].1)
  {
    if n > 0 {
      SurvivorsEntries(oe, pe, n - 1);
      var k := oe[n - 1].0;
      assert Keys(oe)[n - 1] == k;
      PositionOfDistinct(Keys(oe), n - 1);
    }
  }

  lemma {:induction false} SharedDistinct(ks: seq<string>, among: seq<string>)
    requires Distinct(ks)
    ensures Distinct(Shared(ks, among))
  {
    if ks != [] {
      SharedDistinct(ks[..|ks| - 1], among);
    }
  }

  /** Keys of `o` followed by keys outside `o` repeat nothing. */
  lemma DisjointAppend(a: seq<string>, b: seq<string>, within: seq<string>)
    requires Distinct(a) && Distinct(b)
    requires forall k :: k in a ==> k in within
    requires forall k :: k in b ==> k !in within
    ensures Distinct(a + b)
  {
    forall i, j | 0 <= i < j < |a + b| ensures (a + b)[i] != (a + b)[j] {
      if i < |a| && j >= |a| {
        assert (a + b)[i] in a && (a + b)[j] in b;
      }
    }
  }

  // ---------------------------------------------------------------------------
  // The array branch
  // ---------------------------------------------------------------------------

  /** Array branch (index.js:34-39): the result has `props.length` slots; slot
      `t` is the merge of `o[t]` (undefined past the old end of `o`) with
      `props[t]`, so a slot past the old end is `props[t]` itself. */
  lemma ArrayReplacedElems(oa: seq<Value>, pa: seq<Value>)
    requires Replaced(Arr(oa), Arr(pa)).Ok?
    ensures var r := Replaced(Arr(oa), Arr(pa)).value;
      && r.Arr? && |r.elems| == |pa|
      && (forall t :: 0 <= t < |pa| ==>
            Replaced(if t < |oa| then oa[t] else Undefined, pa[t]) == Ok(r.elems[t]))
      && forall t :: |oa| <= t < |pa| ==> r.elems[t] == pa[t]
  {
    ElemsReplacedEntries(oa, pa, |pa|);
  }

  lemma {:induction false} ElemsReplacedEntries(oa: seq<Value>, pa: seq<Value>, n: nat)
    requires n <= |pa| && ElemsReplaced(oa, pa, n).Ok?
    ensures var xs := ElemsReplaced(oa, pa, n).value;
      |xs| == n &&
      forall t :: 0 <= t < n ==> Replaced(SetLength(oa, |pa|, Undefined)[t], pa[t]) == Ok(xs[t])
  {
    if n > 0 {
      ElemsReplacedEntries(oa, pa, n - 1);
    }
  }

  // ---------------------------------------------------------------------------
  // Content: the result is `props` up to key order
  // ---------------------------------------------------------------------------

  /** Whatever `o` was, a merge that does not throw yields a value deep-equal to
      `props` up to key order (a well-formed one). */
  lemma {:induction false} ReplacedEquiv(o: Value, p: Value)
    requires WellFormed(o) && WellFormed(p) && Replaced(o, p).Ok?
    ensures WellFormed(Replaced(o, p).value) && Equiv(Replaced(o, p).value, p)
    decreases p
  {
    if ObjectLike(o) && ObjectLike(p) {
      var oe, pe := o.entries, p.entries;
      var r := ObjectReplaced(oe, pe).value;
      ObjectReplacedEntries(oe, pe);
      forall t | 0 <= t < |r|
        ensures WellFormed(r[t].1) && Equiv(r[t].1, Lookup(pe, r[t].0))
      {
        var k := r[t].0;
        var j := Position(Keys(pe), k);
        assert pe[j] in pe;
        if k in Keys(oe) {
          var i := Position(Keys(oe), k);
          ReplacedEquiv(oe[i].1, pe[j].1);
        } else {
          EquivReflexive(pe[j].1);
        }
      }
      assert KeySet(r) == KeySet(pe);
    } else if o.Arr? && p.Arr? {
      var oa, pa := o.elems, p.elems;
      var xs := ElemsReplaced(oa, pa, |pa|).value;
      ElemsReplacedEntries(oa, pa, |pa|);
      forall t | 0 <= t < |pa| ensures WellFormed(xs[t]) && Equiv(xs[t], pa[t]) {
        ReplacedEquiv(SetLength(oa, |pa|, Undefined)[t], pa[t]);
      }
    } else {
      EquivReflexive(p);
    }
  }

  /** A value equivalent to a merge-safe value is merge-safe. */
  lemma {:induction false} EquivSafe(a: Value, b: Value)
    requires Equiv(a, b) && MergeSafe(b)
    ensures MergeSafe(a)
  {
    match a
    case Arr(xs) =>
      forall i | 0 <= i < |xs| ensures MergeSafe(xs[i]) {
        EquivSafe(xs[i], b.elems[i]);
      }
    case Obj(es) =>
      assert HasOwnProperty !in KeySet(es);
      forall i | 0 <= i < |es| ensures MergeSafe(es[i].1) {
        assert Keys(es)[i] == es[i].0;
        EquivSafe(es[i].1, Lookup(b.entries, es[i].0));
      }
    case _ =>
  }

  // ---------------------------------------------------------------------------
  // When the merge throws, and when it changes nothing
  // ---------------------------------------------------------------------------

  /** Neither `null` nor an own "hasOwnProperty" anywhere: the merge returns. */
  lemma {:induction false} SafeMergeSucceeds(o: Value, p: Value)
    requires WellFormed(o) && WellFormed(p) && MergeSafe(o) && MergeSafe(p)
    ensures Replaced(o, p).Ok?
    decreases p, 1
  {
    if o.Obj? && p.Obj? {
      SafeSurvivors(o.entries, p.entries, |o.entries|);
    } else if o.Arr? && p.Arr? {
      SafeElems(o.elems, p.elems, |p.elems|);
    }
  }

  lemma {:induction false} SafeSurvivors(oe: seq<(string, Value)>, pe: seq<(string, Value)>, n: nat)
    requires WellFormed(Obj(oe)) && WellFormed(Obj(pe)) && MergeSafe(Obj(oe)) && MergeSafe(Obj(pe))
    requires n <= |oe|
    ensures Survivors(oe, pe, n).Ok?
    decreases Obj(pe), 0, n
  {
    if n > 0 {
      SafeSurvivors(oe, pe, n - 1);
      var k := oe[n - 1].0;
      if k in Keys(pe) {
        var j := Position(Keys(pe), k);
        assert pe[j] in pe;
        SafeMergeSucceeds(oe[n - 1].1, pe[j].1);
      }
    }
  }

  lemma {:induction false} SafeElems(oa: seq<Value>, pa: seq<Value>, n: nat)
    requires WellFormed(Arr(oa)) && WellFormed(Arr(pa)) && MergeSafe(Arr(oa)) && MergeSafe(Arr(pa))
    requires n <= |pa|
    ensures ElemsReplaced(oa, pa, n).Ok?
    decreases Arr(pa), 0, n
  {
    if n > 0 {
      SafeElems(oa, pa, n - 1);
      SafeMergeSucceeds(SetLength(oa, |pa|, Undefined)[n - 1], pa[n - 1]);
    }
  }

  /** Merging a value into an equivalent merge-safe value gives back that value
      unchanged, key order included. */
  lemma {:induction false} EquivMergeIsIdentity(o: Value, p: Value)
    requires WellFormed(o) && WellFormed(p) && MergeSafe(o) && Equiv(o, p)
    ensures Replaced(o, p) == Ok(o)
    decreases p, 2
  {
    if o.Obj? {
      EquivObjectIdentity(o.entries, p.entries);
    } else if o.Arr? {
      EquivElems(o.elems, p.elems, |p.elems|);
      assert o.elems[..|p.elems|] == o.elems;
    }
  }

  /** The object case: every key of `o` is shared and merges back to its own
      value, and `props` has no key of its own to add. */
  lemma {:induction false} EquivObjectIdentity(oe: seq<(string, Value)>, pe: seq<(string, Value)>)
    requires WellFormed(Obj(oe)) && WellFormed(Obj(pe)) && MergeSafe(Obj(oe)) && Equiv(Obj(oe), Obj(pe))
    ensures ObjectReplaced(oe, pe) == Ok(oe)
    decreases Obj(pe), 1
  {
    assert HasOwnProperty !in KeySet(pe);
    forall t | 0 <= t < |oe|
      ensures oe[t].0 in Keys(pe) && Replaced(oe[t].1, pe[Position(Keys(pe), oe[t].0)].1) == Ok(oe[t].1)
    {
      EquivEntry(oe, pe, t);
    }
    SurvivorsKeepAll(oe, pe, |oe|);
    forall k | k in Keys(pe) ensures k in Keys(oe) {
      assert k in KeySet(pe);
    }
    WithoutCovered(Keys(pe), Keys(oe));
    assert oe[..|oe|] + Added(oe, pe) == oe;
  }

  lemma {:induction false} WithoutCovered(ks: seq<string>, among: seq<string>)
    requires forall k :: k in ks ==> k in among
    ensures Without(ks, among) == []
  {
    if ks != [] {
      assert ks[|ks| - 1] in ks;
      WithoutCovered(ks[..|ks| - 1], among);
    }
  }

  /** When every key of `o` is shared and merges back to its own value, the
      survivors are all of `o`. */
  lemma {:induction false} SurvivorsKeepAll(oe: seq<(string, Value)>, pe: seq<(string, Value)>, n: nat)
    requires n <= |oe|
    requires forall t | 0 <= t < n ::
      oe[t].0 in Keys(pe) && Replaced(oe[t].1, pe[Position(Keys(pe), oe[t].0)].1) == Ok(oe[t].1)
    ensures Survivors(oe, pe, n) == Ok(oe[..n])
  {
    if n > 0 {
      SurvivorsKeepAll(oe, pe, n - 1);
      var e := oe[n - 1];
      SurvivorsMerged(oe, pe, n, oe[..n - 1], e.1);
      assert (e.0, e.1) == e;
      PrefixSnoc(oe, n);
    } else {
      assert oe[..0] == [];
    }
  }

  /** An entry of `o` meets an equivalent value under the same key in `props`,
      and merging it gives it back. */
  lemma {:induction false} EquivEntry(oe: seq<(string, Value)>, pe: seq<(string, Value)>, t: nat)
    requires WellFormed(Obj(oe)) && WellFormed(Obj(pe)) && MergeSafe(Obj(oe)) && Equiv(Obj(oe), Obj(pe))
    requires t < |oe|
    ensures oe[t].0 in Keys(pe)
    ensures Replaced(oe[t].1, pe[Position(Keys(pe), oe[t].0)].1) == Ok(oe[t].1)
    decreases Obj(pe), 0, 0
  {
    var k := oe[t].0;
    assert Keys(oe)[t] == k;
    assert k in KeySet(pe);
    var j := Position(Keys(pe), k);
    assert pe[j] in pe;
    assert Equiv(oe[t].1, pe[j].1);
    assert WellFormed(oe[t].1) && WellFormed(pe[j].1) && MergeSafe(oe[t].1);
    EquivMergeIsIdentity(oe[t].1, pe[j].1);
  }

  lemma PrefixSnoc<T>(s: seq<T>, n: nat)
    requires 0 < n <= |s|
    ensures s[..n - 1] + [s[n - 1]] == s[..n]
  {
  }

  lemma {:induction false} EquivElems(oa: seq<Value>, pa: seq<Value>, n: nat)
    requires WellFormed(Arr(oa)) && WellFormed(Arr(pa)) && MergeSafe(Arr(oa)) && Equiv(Arr(oa), Arr(pa))
    requires n <= |pa|
    ensures ElemsReplaced(oa, pa, n) == Ok(oa[..n])
    decreases Arr(pa), 0, n
  {
    if n > 0 {
      EquivElems(oa, pa, n - 1);
      EquivMergeIsIdentity(oa[n - 1], pa[n - 1]);
      PrefixSnoc(oa, n);
    }
  }

  /** For a merge-safe `o`, the merge leaves `o` as it is exactly when `props`
      is deep-equal to it up to key order. */
  lemma ReplacedIsIdentityIff(o: Value, p: Value)
    requires WellFormed(o) && WellFormed(p) && MergeSafe(o)
    ensures Replaced(o, p) == Ok(o) <==> Equiv(o, p)
  {
    if Replaced(o, p) == Ok(o) {
      ReplacedEquiv(o, p);
    }
    if Equiv(o, p) {
      EquivMergeIsIdentity(o, p);
    }
  }

  /** For a fixed merge-safe `props`, merging the result again changes nothing. */
  lemma ReplacedIdempotent(o: Value, p: Value)
    requires WellFormed(o) && WellFormed(p) && MergeSafe(p) && Replaced(o, p).Ok?
    ensures Replaced(Replaced(o, p).value, p) == Replaced(o, p)
  {
    var r := Replaced(o, p).value;
    ReplacedEquiv(o, p);
    EquivSafe(r, p);
    EquivMergeIsIdentity(r, p);
  }

  // ---------------------------------------------------------------------------
  // The error cases, on concrete values
  // ---------------------------------------------------------------------------

  /** `deepReplace({a: null}, {a: null})` throws: the recursion reaches two
      nulls, both pass the object test, and `Object.keys(null)` throws. */
  lemma NullMemberThrows()
    ensures Replaced(Obj([("a", Null)]), Obj([("a", Null)])) == TypeError
  {
    assert Keys([("a", Null)]) == ["a"];
  }

  /** Merging into an empty object copies every entry of `props`, in order. */
  lemma MergeIntoEmpty(pe: seq<(string, Value)>)
    requires Distinct(Keys(pe)) && HasOwnProperty !in Keys(pe)
    ensures Replaced(Obj([]), Obj(pe)) == Ok(Obj(pe))
  {
    ObjectIntoEmpty(pe);
  }

  lemma ObjectIntoEmpty(pe: seq<(string, Value)>)
    requires Distinct(Keys(pe)) && HasOwnProperty !in Keys(pe)
    ensures ObjectReplaced([], pe) == Ok(pe)
  {
    var none: seq<(string, Value)> := [];
    assert Keys(none) == [];
    WithoutNothing(Keys(pe));
    EntriesAtOwnKeys(pe);
    assert Added(none, pe) == pe;
    assert Survivors(none, pe, |none|) == Ok(none);
    assert !HasOwnPropertyThrows(none, pe);
    assert none + pe == pe;
  }

  /** The entries of an object at its own keys are the object itself. */
  lemma EntriesAtOwnKeys(es: seq<(string, Value)>)
    requires Distinct(Keys(es))
    ensures EntriesAt(es, Keys(es)) == es
  {
    forall t | 0 <= t < |es| ensures Lookup(es, es[t].0) == es[t].1 {
      assert Keys(es)[t] == es[t].0;
      PositionOfDistinct(Keys(es), t);
    }
  }

  /** Without the safety condition the merge is not idempotent: merging
      `{a: null}` into `{}` copies the null, and merging again throws. */
  lemma NullBreaksIdempotence()
    ensures Replaced(Obj([]), Obj([("a", Null)])) == Ok(Obj([("a", Null)]))
    ensures Replaced(Obj([("a", Null)]), Obj([("a", Null)])) == TypeError
  {
    var pe := [("a", Null)];
    assert Keys(pe) == ["a"];
    MergeIntoEmpty(pe);
    NullMemberThrows();
  }

  /** An own key "hasOwnProperty" shadows the method the key loop calls. */
  lemma OwnHasOwnPropertyThrows(v: Value)
    ensures Replaced(Obj([(HasOwnProperty, v)]), Obj([])) == TypeError
  {
    assert Keys([(HasOwnProperty, v)]) == [HasOwnProperty];
  }
}
