/** JavaScript values of the JSON data model, and the insertion-ordered object
    operations (own-key test, read, assign, delete) that the merge performs. */
module Json {

  /** A value as JavaScript sees it. `Undefined` is what reading an unset array
      slot yields (and what a caller's value may hold explicitly). An object is
      an association list in key enumeration order: insertion order, which is
      what the order-preserving wrapper around parsed JSON guarantees. */
  datatype Value =
    | Undefined
    | Null
    | Bool(b: bool)
    | Num(n: int)
    | Str(s: string)
    | Arr(elems: seq<Value>)
    | Obj(entries: seq<(string, Value)>)

  /** The result of an operation that may throw a JavaScript `TypeError`. */
  datatype Outcome<+T> = Ok(value: T) | TypeError

  predicate Distinct<T(==)>(s: seq<T>) {
    forall i, j | 0 <= i < j < |s| :: s[i] != s[j]
  }

  /** `Object.keys(o)`: the own keys in enumeration order. */
  function Keys(es: seq<(string, Value)>): (ks: seq<string>)
    ensures |ks| == |es|
    ensures forall i :: 0 <= i < |es| ==> ks[i] == es[i].0
  {
    seq(|es|, i requires 0 <= i < |es| => es[i].0)
  }

  function KeySet(es: seq<(string, Value)>): set<string> {
    set k | k in Keys(es)
  }

  /** Where `k` first occurs in `ks`. */
  function Position<T(==)>(ks: seq<T>, k: T): (j: nat)
    requires k in ks
    ensures j < |ks| && ks[j] == k
    ensures forall t :: 0 <= t < j ==> ks[t] != k
  {
    if ks[0] == k then 0 else Position(ks[1..], k) + 1
  }

  /** `o[k]` for an own key `k`. */
  function Lookup(es: seq<(string, Value)>, k: string): Value
    requires k in Keys(es)
  {
    es[Position(Keys(es), k)].1
  }

  /** `o[k] = v`: an own key keeps its place and gets the new value; a new key
      is appended, so enumeration order stays insertion order. */
  function Assign(es: seq<(string, Value)>, k: string, v: Value): (r: seq<(string, Value)>)
    requires Distinct(Keys(es))
    ensures Distinct(Keys(r))
    ensures k in Keys(r) && Lookup(r, k) == v
    ensures forall k' :: k' in Keys(r) <==> k' in Keys(es) || k' == k
    ensures forall k' :: k' in Keys(es) && k' != k ==> Lookup(r, k') == Lookup(es, k')
  {
    if k in Keys(es) then
      var j := Position(Keys(es), k);
      var r := es[j := (k, v)];
      assert Keys(r) == Keys(es);
      PositionOfDistinct(Keys(r), j);
      forall k' | k' in Keys(es) && k' != k
        ensures Lookup(r, k') == Lookup(es, k')
      {
        PositionOfDistinct(Keys(es), Position(Keys(es), k'));
      }
      r
    else
      var r := es + [(k, v)];
      assert Keys(r) == Keys(es) + [k];
      PositionOfDistinct(Keys(r), |es|);
      forall k' | k' in Keys(es) && k' != k
        ensures Lookup(r, k') == Lookup(es, k')
      {
        PositionOfDistinct(Keys(es), Position(Keys(es), k'));
        PositionOfDistinct(Keys(r), Position(Keys(es), k'));
      }
      r
  }

  /** `delete o[k]`: the entry goes, every other entry keeps its place. */
  function Delete(es: seq<(string, Value)>, k: string): (r: seq<(string, Value)>)
    requires Distinct(Keys(es))
    ensures Distinct(Keys(r))
    ensures forall k' :: k' in Keys(r) <==> k' in Keys(es) && k' != k
    ensures forall k' :: k' in Keys(r) ==> Lookup(r, k') == Lookup(es, k')
  {
    if k in Keys(es) then
      var j := Position(Keys(es), k);
      var r := es[..j] + es[j + 1..];
      assert Keys(r) == Keys(es)[..j] + Keys(es)[j + 1..];
      forall k' | k' in Keys(r)
        ensures Lookup(r, k') == Lookup(es, k')
      {
        LookupAfterRemoval(es, j, k');
      }
      r
    else
      es
  }

  /** Removing the entry at `j` leaves every other key's value as it was. */
  lemma LookupAfterRemoval(es: seq<(string, Value)>, j: nat, k: string)
    requires Distinct(Keys(es)) && j < |es|
    requires k in Keys(es[..j] + es[j + 1..])
    ensures k in Keys(es)
    ensures Lookup(es[..j] + es[j + 1..], k) == Lookup(es, k)
  {
    var r := es[..j] + es[j + 1..];
    assert Keys(r) == Keys(es)[..j] + Keys(es)[j + 1..];
    var t := Position(Keys(r), k);
    assert Lookup(r, k) == r[t].1 && r[t].0 == k;
    var u := if t < j then t else t + 1;
    assert r[t] == es[u];
    assert Keys(es)[u] == k;
    PositionOfDistinct(Keys(es), u);
  }

  /** Assigning a key the object lacks appends the entry. */
  lemma AssignNew(es: seq<(string, Value)>, k: string, v: Value)
    requires Distinct(Keys(es)) && k !in Keys(es)
    ensures Assign(es, k, v) == es + [(k, v)]
  {
  }

  /** In a list without repeats, every element is found where it stands. */
  lemma PositionOfDistinct<T>(ks: seq<T>, i: nat)
    requires Distinct(ks) && i < |ks|
    ensures Position(ks, ks[i]) == i
  {
  }

  /** Every object, at every depth, has distinct keys: a JavaScript object
      cannot hold the same own key twice. */
  predicate WellFormed(v: Value) {
    match v
    case Arr(xs) => forall i | 0 <= i < |xs| :: WellFormed(xs[i])
    case Obj(es) => Distinct(Keys(es)) && forall i | 0 <= i < |es| :: WellFormed(es[i].1)
    case _ => true
  }

  /** No `undefined` at any depth: every value parsed from JSON text is
      defined, and only defined values render as distinct JSON texts
      (`JSON.stringify` drops a member whose value is `undefined` and prints
      an `undefined` slot as `null`). */
  predicate Defined(v: Value) {
    match v
    case Undefined => false
    case Arr(xs) => forall i | 0 <= i < |xs| :: Defined(xs[i])
    case Obj(es) => forall i | 0 <= i < |es| :: Defined(es[i].1)
    case _ => true
  }

  /** Deep equality that ignores key order (the relation `assert.deepStrictEqual`
      decides on JSON-like values): same kind, same key set, same length, and
      equal leaves. */
  predicate Equiv(a: Value, b: Value) {
    match a
    case Arr(xs) =>
      b.Arr? && |xs| == |b.elems| &&
      forall i | 0 <= i < |xs| :: Equiv(xs[i], b.elems[i])
    case Obj(es) =>
      b.Obj? && KeySet(es) == KeySet(b.entries) &&
      forall i | 0 <= i < |es| ::
        assert es[i].0 in KeySet(b.entries) by { assert Keys(es)[i] == es[i].0; }
        Equiv(es[i].1, Lookup(b.entries, es[i].0))
    case _ => a == b
  }

  /** Every well-formed value is equivalent to itself. */
  lemma {:induction false} EquivReflexive(v: Value)
    requires WellFormed(v)
    ensures Equiv(v, v)
  {
    match v
    case Arr(xs) =>
      forall i | 0 <= i < |xs| ensures Equiv(xs[i], xs[i]) {
        EquivReflexive(xs[i]);
      }
    case Obj(es) =>
      forall i | 0 <= i < |es| ensures Equiv(es[i].1, Lookup(es, es[i].0)) {
        PositionOfDistinct(Keys(es), i);
        EquivReflexive(es[i].1);
      }
    case _ =>
  }

  /** A value equivalent to a defined value is defined. */
  lemma {:induction false} EquivDefined(a: Value, b: Value)
    requires Equiv(a, b) && Defined(b)
    ensures Defined(a)
  {
    match a
    case Arr(xs) =>
      forall i | 0 <= i < |xs| ensures Defined(xs[i]) {
        EquivDefined(xs[i], b.elems[i]);
      }
    case Obj(es) =>
      forall i | 0 <= i < |es| ensures Defined(es[i].1) {
        assert Keys(es)[i] == es[i].0;
        var j := Position(Keys(b.entries), es[i].0);
        assert b.entries[j].1 == Lookup(b.entries, es[i].0);
        EquivDefined(es[i].1, b.entries[j].1);
      }
    case _ =>
  }
}
