/** The generic helpers with run-time behaviour from the generics notes
    (notes/5-generics-basics.ts): `wrappedValue`, `arrayToDict` and the
    curried `startTuple`/`finishTuple`. */
module Generics {

  /** The one-field record `{ value: x }`. */
  datatype Wrapped<X> = Wrapped(value: X)

  /** `wrappedValue(x)`: the wrapper hands back exactly what was put in. */
  function WrappedValue<X>(x: X): (w: Wrapped<X>)
    ensures w.value == x
  {
    Wrapped(x)
  }

  /** An element of the array given to `arrayToDict`: a string `id` and
      whatever other properties the object carries. */
  datatype Record<P> = Record(id: string, payload: P)

  /** The `id`s occurring in `s`. */
  function Ids<P>(s: seq<Record<P>>): set<string> {
    set i | 0 <= i < |s| :: s[i].id
  }

  /** The dictionary `out` after `out[val.id] = val` has run for every element
      of `s`, in array order. */
  function Indexed<P>(s: seq<Record<P>>): map<string, Record<P>>
  {
    if s == [] then map[]
    else
      var last := s[|s| - 1];
      Indexed(s[..|s| - 1])[last.id := last]
  }

  /** `arrayToDict`: the array is only read; a fresh dictionary is written,
      one element at a time, keyed by `id`. */
  method ArrayToDict<P>(items: seq<Record<P>>) returns (out: map<string, Record<P>>)
    ensures out == Indexed(items)
    ensures out.Keys == Ids(items)
    ensures forall i :: 0 <= i < |items| && (forall j :: i < j < |items| ==> items[j].id != items[i].id) ==>
              items[i].id in out && out[items[i].id] == items[i]
    ensures forall k :: k in out ==> out[k] in items && out[k].id == k
  {
    out := map[];
    for i := 0 to |items|
      invariant out == Indexed(items[..i])
    {
      assert items[..i + 1][..i] == items[..i];
      out := out[items[i].id := items[i]];
    }
    assert items[..|items|] == items;
    IndexedKeys(items);
    IndexedFromInput(items);
    forall i | 0 <= i < |items| && (forall j :: i < j < |items| ==> items[j].id != items[i].id)
      ensures items[i].id in out && out[items[i].id] == items[i]
    {
      IndexedLastWins(items, i);
    }
  }

  /** The key set is the set of `id`s occurring in the array. */
  lemma {:induction false} IndexedKeys<P>(s: seq<Record<P>>)
    ensures Indexed(s).Keys == Ids(s)
  {
    if s != [] {
      var init := s[..|s| - 1];
      IndexedKeys(init);
      assert s == init + [s[|s| - 1]];
    }
  }

  /** Every stored value is an element of the array whose `id` is its key. */
  lemma {:induction false} IndexedFromInput<P>(s: seq<Record<P>>)
    ensures forall k :: k in Indexed(s) ==> Indexed(s)[k] in s && Indexed(s)[k].id == k
  {
    if s != [] {
      var init := s[..|s| - 1];
      IndexedFromInput(init);
      assert s == init + [s[|s| - 1]];
    }
  }

  /** Later duplicates overwrite earlier ones: the element at `i` is stored
      under its `id` when no later element has the same `id`. */
  lemma {:induction false} IndexedLastWins<P>(s: seq<Record<P>>, i: nat)
    requires i < |s|
    requires forall j :: i < j < |s| ==> s[j].id != s[i].id
    ensures s[i].id in Indexed(s) && Indexed(s)[s[i].id] == s[i]
  {
    if i < |s| - 1 {
      var init := s[..|s| - 1];
      IndexedLastWins(init, i);
    }
  }

  /** With distinct `id`s every element is stored under its own `id`, and the
      dictionary has exactly one entry per element. */
  lemma {:induction false} IndexedDistinct<P>(s: seq<Record<P>>)
    requires forall i, j :: 0 <= i < j < |s| ==> s[i].id != s[j].id
    ensures forall a :: a in s ==> a.id in Indexed(s) && Indexed(s)[a.id] == a
    ensures |Indexed(s)| == |s|
  {
    forall a | a in s ensures a.id in Indexed(s) && Indexed(s)[a.id] == a {
      var i :| 0 <= i < |s| && s[i] == a;
      IndexedLastWins(s, i);
    }
    if s != [] {
      var init := s[..|s| - 1];
      var last := s[|s| - 1];
      IndexedDistinct(init);
      IndexedKeys(init);
      assert last.id !in Indexed(init);
    }
  }

  /** An empty array gives an empty dictionary. */
  lemma IndexedEmpty<P>()
    ensures Indexed<P>([]) == map[]
  {
  }

  /** The module's own use of `arrayToDict`: two records with `id`s "a" and
      "b"; each payload holds the record's other properties by name. */
  lemma ArrayToDictExample()
    ensures
      var first := Record("a", map["value" := "first", "lisa" := "Huang"]);
      var second := Record("b", map["value" := "second"]);
      Indexed([first, second]) == map["a" := first, "b" := second]
  {
    var first := Record("a", map["value" := "first", "lisa" := "Huang"]);
    var second := Record("b", map["value" := "second"]);
    assert [first, second][..1] == [first];
    assert [first][..0] == [];
    assert Indexed([first]) == map["a" := first];
  }

  /** `finishTuple(b)` inside `startTuple(a)`: the pair `[a, b]`. */
  function FinishTuple<T, U>(a: T, b: U): (pair: (T, U))
    ensures pair.0 == a && pair.1 == b
  {
    (a, b)
  }

  /** `startTuple(a)` returns `finishTuple` with `a` captured. */
  function StartTuple<T, U(!new)>(a: T): (finish: U -> (T, U))
    ensures forall b :: finish(b).0 == a && finish(b).1 == b
  {
    b => FinishTuple(a, b)
  }

  /** `startTuple(["first"])(42)` is `[["first"], 42]`. */
  lemma StartTupleExample()
    ensures StartTuple<seq<string>, int>(["first"])(42) == (["first"], 42)
  {
  }
}
