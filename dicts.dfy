/** A string-keyed dictionary whose values may be `undefined`, and `mapDict`,
    the dictionary counterpart of `Array.prototype.map`
    (challenges/dict/src/index.ts). */
module Dicts {

  /** `Some(v)` is a defined value; `None` is a key whose value is `undefined`. */
  datatype Option<+T> = None | Some(value: T)

  /** A dictionary object: `order` is its key enumeration order (the result of
      `Object.keys`) and `slots` holds the value stored under each own key. */
  datatype Dict<T> = Dict(order: seq<string>, slots: map<string, Option<T>>) {

    /** Keys are unique, and the enumeration lists exactly the own keys. */
    ghost predicate Valid() {
      && (forall i, j :: 0 <= i < j < |order| ==> order[i] != order[j])
      && (forall k :: k in slots <==> k in order)
    }
  }

  /** The empty dictionary `{}`. */
  function Empty<T>(): Dict<T> {
    Dict([], map[])
  }

  /** The keys of `keys` whose value in `slots` is defined, in the same order. */
  function DefinedKeys<T>(keys: seq<string>, slots: map<string, Option<T>>): seq<string>
    requires forall k :: k in keys ==> k in slots
  {
    if keys == [] then []
    else
      var last := keys[|keys| - 1];
      DefinedKeys(keys[..|keys| - 1], slots) + (if slots[last].Some? then [last] else [])
  }

  /** The state of `out` after the `forEach` callback has run for the first
      `n` enumerated keys: key number `idx` (counting from 0, skipped keys
      included) with a defined value `v` gets `fn(v, idx)`, stored as it is.
      The callback may itself return `undefined` (`None`); the key is then an
      own key of `out` that holds `undefined`. */
  function MapUpTo<T, S>(d: Dict<T>, fn: (T, nat) -> Option<S>, n: nat): Dict<S>
    requires d.Valid() && n <= |d.order|
  {
    if n == 0 then Empty()
    else
      var out := MapUpTo(d, fn, n - 1);
      var key := d.order[n - 1];
      match d.slots[key]
      case None => out
      case Some(v) => Dict(out.order + [key], out.slots[key := fn(v, n - 1)])
  }

  /** What `mapDict(dict, fn)` returns. */
  function Mapped<T, S>(d: Dict<T>, fn: (T, nat) -> Option<S>): Dict<S>
    requires d.Valid()
  {
    MapUpTo(d, fn, |d.order|)
  }

  /** `mapDict`: a fresh dictionary is filled key by key while the input is only read. */
  method MapDict<T, S>(d: Dict<T>, fn: (T, nat) -> Option<S>) returns (out: Dict<S>)
    requires d.Valid()
    ensures out == Mapped(d, fn)
    ensures out.Valid()
    ensures forall k :: k in out.slots <==> k in d.slots && d.slots[k].Some?
    ensures forall i :: 0 <= i < |d.order| && d.slots[d.order[i]].Some? ==>
              out.slots[d.order[i]] == fn(d.slots[d.order[i]].value, i)
    ensures out.order == DefinedKeys(d.order, d.slots)
  {
    out := Empty();
    var idx := 0;
    while idx < |d.order|
      invariant 0 <= idx <= |d.order|
      invariant out == MapUpTo(d, fn, idx)
    {
      var key := d.order[idx];
      var item := d.slots[key];
      if item.Some? {
        out := Dict(out.order + [key], out.slots[key := fn(item.value, idx)]);
      }
      idx := idx + 1;
    }
    MappedKeys(d, fn);
    MappedValues(d, fn);
    MappedOrder(d, fn);
  }

  /** Everything the loop has established after `n` keys: the partial output is
      a well-formed dictionary, its keys are the defined keys
      among the first `n`, in that order, and each holds `fn` of its value and
      its position among all enumerated keys. */
  lemma {:induction false} MapUpToFacts<T, S>(d: Dict<T>, fn: (T, nat) -> Option<S>, n: nat)
    requires d.Valid() && n <= |d.order|
    ensures MapUpTo(d, fn, n).Valid()
    ensures forall k :: k in MapUpTo(d, fn, n).slots <==> k in d.order[..n] && d.slots[k].Some?
    ensures forall i :: 0 <= i < n && d.slots[d.order[i]].Some? ==>
              MapUpTo(d, fn, n).slots[d.order[i]] == fn(d.slots[d.order[i]].value, i)
    ensures MapUpTo(d, fn, n).order == DefinedKeys(d.order[..n], d.slots)
  {
    if n > 0 {
      MapUpToFacts(d, fn, n - 1);
      var prev := MapUpTo(d, fn, n - 1);
      var key := d.order[n - 1];
      assert d.order[..n] == d.order[..n - 1] + [key];
      assert d.order[..n][..n - 1] == d.order[..n - 1];
      assert key !in d.order[..n - 1] by {
        forall i | 0 <= i < n - 1 ensures d.order[i] != key { }
      }
      assert key !in prev.slots;
    }
  }

  /** The output's keys are exactly the input keys whose value is defined; a
      key holding `undefined` gets no entry. */
  lemma MappedKeys<T, S>(d: Dict<T>, fn: (T, nat) -> Option<S>)
    requires d.Valid()
    ensures forall k :: k in Mapped(d, fn).slots <==> k in d.slots && d.slots[k].Some?
  {
    MapUpToFacts(d, fn, |d.order|);
    assert d.order[..|d.order|] == d.order;
  }

  /** A defined value at enumeration position `i` is mapped to `fn(v, i)`,
      stored as it is (possibly `undefined`): the index counts every
      enumerated key, skipped ones included. */
  lemma MappedValues<T, S>(d: Dict<T>, fn: (T, nat) -> Option<S>)
    requires d.Valid()
    ensures Mapped(d, fn).Valid()
    ensures forall i :: 0 <= i < |d.order| && d.slots[d.order[i]].Some? ==>
              && d.order[i] in Mapped(d, fn).slots
              && Mapped(d, fn).slots[d.order[i]] == fn(d.slots[d.order[i]].value, i)
  {
    MapUpToFacts(d, fn, |d.order|);
  }

  /** The output enumerates its keys in the input's order, undefined ones dropped. */
  lemma MappedOrder<T, S>(d: Dict<T>, fn: (T, nat) -> Option<S>)
    requires d.Valid()
    ensures Mapped(d, fn).order == DefinedKeys(d.order, d.slots)
  {
    MapUpToFacts(d, fn, |d.order|);
    assert d.order[..|d.order|] == d.order;
  }

  /** The output has at most as many entries as the input has keys. */
  lemma MappedSize<T, S>(d: Dict<T>, fn: (T, nat) -> Option<S>)
    requires d.Valid()
    ensures |Mapped(d, fn).slots| <= |d.slots|
    ensures |Mapped(d, fn).order| <= |d.order|
  {
    MappedKeys(d, fn);
    DefinedKeysLength(d.order, d.slots);
    assert Mapped(d, fn).slots.Keys <= d.slots.Keys;
    SubsetCard(Mapped(d, fn).slots.Keys, d.slots.Keys);
    MappedOrder(d, fn);
  }

  /** Filtering a key sequence never makes it longer. */
  lemma {:induction false} DefinedKeysLength<T>(keys: seq<string>, slots: map<string, Option<T>>)
    requires forall k :: k in keys ==> k in slots
    ensures |DefinedKeys(keys, slots)| <= |keys|
  {
    if keys != [] {
      DefinedKeysLength(keys[..|keys| - 1], slots);
    }
  }

  /** A subset is no larger than its superset. */
  lemma {:induction false} SubsetCard(a: set<string>, b: set<string>)
    requires a <= b
    ensures |a| <= |b|
  {
    if a != {} {
      var x :| x in a;
      SubsetCard(a - {x}, b - {x});
    }
  }

  /** An empty input yields an empty output, whatever `fn` is. */
  lemma MappedEmpty<T, S>(fn: (T, nat) -> Option<S>)
    ensures Mapped(Empty<T>(), fn) == Empty()
  {
  }

  /** With `fn = (v, _) => v` the output is the input restricted to its
      defined entries. */
  lemma MappedIdentity<T>(d: Dict<T>)
    requires d.Valid()
    ensures Mapped(d, (v: T, idx: nat) => Some(v)).slots
         == map k | k in d.slots && d.slots[k].Some? :: d.slots[k]
  {
    var fn := (v: T, idx: nat) => Some(v);
    MappedKeys(d, fn);
    MappedValues(d, fn);
    var out := Mapped(d, fn).slots;
    forall k | k in out ensures out[k] == d.slots[k] {
      var i :| 0 <= i < |d.order| && d.order[i] == k;
    }
  }

  /** `mapDict({a: 'a', b: 'b'}, (str) => [str])` is `{a: ['a'], b: ['b']}`. */
  lemma MapDictToArrays()
    ensures
      var d := Dict(["a", "b"], map["a" := Some("a"), "b" := Some("b")]);
      d.Valid() &&
      Mapped(d, (s: string, idx: nat) => Some([s]))
        == Dict(["a", "b"], map["a" := Some(["a"]), "b" := Some(["b"])])
  {
    var d := Dict(["a", "b"], map["a" := Some("a"), "b" := Some("b")]);
    var fn := (s: string, idx: nat) => Some([s]);
    assert MapUpTo(d, fn, 1) == Dict(["a"], map["a" := Some(["a"])]);
  }

  /** An `undefined` entry is dropped but still uses up an index:
      `mapDict({a: undefined, b: 'x'}, (_, idx) => idx)` is `{b: 1}`. */
  lemma MapDictSkipsUndefined()
    ensures
      var d := Dict(["a", "b"], map["a" := None, "b" := Some("x")]);
      d.Valid() &&
      Mapped(d, (s: string, idx: nat) => Some(idx)) == Dict(["b"], map["b" := Some(1)])
  {
    var d := Dict(["a", "b"], map["a" := None, "b" := Some("x")]);
    var fn := (s: string, idx: nat) => Some(idx);
    assert MapUpTo(d, fn, 1) == Empty();
  }

  /** A callback that returns `undefined` leaves an own key holding
      `undefined`, which a second `mapDict` then skips:
      `mapDict({a: 1}, () => undefined)` is `{a: undefined}`, and mapping that
      with `() => 0` gives `{}`. */
  lemma MapDictKeepsReturnedUndefined()
    ensures
      var d := Dict(["a"], map["a" := Some(1)]);
      var once := Mapped<int, int>(d, (v: int, idx: nat) => None);
      d.Valid() &&
      once == Dict(["a"], map["a" := None]) &&
      Mapped(once, (v: int, idx: nat) => Some(0)) == Empty<int>()
  {
  }
}
