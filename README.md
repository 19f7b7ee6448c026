# mapDict, arrayToDict and the generic helpers, in Dafny

This project models the runtime behaviour found in a set of TypeScript
type-system notes. It covers two dictionary-building operations and two small
generic helpers, and proves what they promise.

- `mapDict(dict, fn)` (challenges/dict/src/index.ts) is `Array.prototype.map`
  for a `Dict<T>`, a string-keyed object whose values may be `undefined`. It
  walks `Object.keys(dict)` with `forEach`, so each key gets a zero-based
  position `idx`. It skips keys holding `undefined` and writes
  `fn(value, idx)` under the same key into a fresh object `out`.
- `arrayToDict(array)` (notes/5-generics-basics.ts) walks an array of
  objects carrying a string `id` and assigns `out[val.id] = val`. A later
  duplicate `id` therefore overwrites an earlier one.
- `wrappedValue(x)` returns `{ value: x }`. `startTuple(a)` returns
  `finishTuple`, and `finishTuple(b)` returns the pair `[a, b]`.

How the model is built:

- `Dicts.Dict<T>` is a dictionary as a value. `order` is the key enumeration
  order that `Object.keys` yields. `slots` maps each own key to
  `Some(value)`, or to `None` when the property holds `undefined`.
  `Dict.Valid()` says that keys are unique and that `order` lists exactly the
  keys of `slots`.
- `fn` is a Dafny function `(T, nat) -> Option<S>`. A callback that returns
  `undefined` returns `None`, and that result is stored as it is: the key
  becomes an own key of `out` holding `undefined`.
- `Dicts.MapUpTo(d, fn, n)` is the value of `out` after the `forEach` callback
  has run for the first `n` keys. `Dicts.Mapped` is the whole result.
  `Dicts.MapDict` is the loop, proved equal to `Mapped`. The lemmas state what
  `Mapped` means: which keys it has, which value each key holds, in what order
  the keys come, and how many there are.
- The output's key order is insertion order, which is the input's order with
  the skipped keys dropped (`Dicts.DefinedKeys`).
- `Generics.Indexed(s)` is the dictionary `arrayToDict` builds from the
  records `s`. `Generics.ArrayToDict` is the loop, proved equal to it.
- Both inputs are Dafny values, so neither operation can modify its input.
  Each operation builds its output in a local variable. This matches the
  source, which writes only to the fresh `out` object.

## Model

| member | source | states |
|---|---|---|
| `Dicts.MapDict` | challenges/dict/src/index.ts:7-16 | the loop returns `Mapped(d, fn)`: a valid dictionary whose keys are exactly the input keys with a defined value; the key at position `i` with value `v` holds `fn(v, i)` as returned, `undefined` included; the keys keep the input order |
| `Dicts.MapUpToFacts` | challenges/dict/src/index.ts:9-14 | loop invariant: after `n` keys, `out` holds exactly the defined keys among the first `n`, in order; each holds `fn` of its value and its position among all keys, as returned |
| `Dicts.MappedKeys` | challenges/dict/src/index.ts:9-13 | `k` is an output key iff `k` is an input key whose value is not `undefined`; an `undefined` key produces no entry |
| `Dicts.MappedValues` | challenges/dict/src/index.ts:9-12 | the output is a valid dictionary; for the key at enumeration position `i` with defined value `v`, `out[k] == fn(v, i)` as returned (possibly `undefined`), where `i` also counts skipped keys |
| `Dicts.MappedOrder` | challenges/dict/src/index.ts:9-13 | the output's key order is the input's key order with the `undefined` keys removed |
| `Dicts.MappedSize` | challenges/dict/src/index.ts:9-13 | the output has at most as many entries, and enumerates at most as many keys, as the input |
| `Dicts.MappedEmpty` | challenges/dict/src/index.ts:8-15 | the empty input `{}` yields `{}` for any `fn` |
| `Dicts.MappedIdentity` | challenges/dict/src/index.ts:9-13 | with `fn = (v, _) => v` the output equals the input restricted to its defined entries |
| `Dicts.MapDictToArrays` | challenges/dict/src/index.ts:20-23 | `mapDict({a: 'a', b: 'b'}, (str) => [str])` is `{a: ['a'], b: ['b']}` |
| `Dicts.MapDictKeepsReturnedUndefined` | challenges/dict/src/index.ts:9-13 | `mapDict({a: 1}, () => undefined)` is `{a: undefined}`, an own key holding `undefined`; mapping that again with `() => 0` gives `{}` |
| `Dicts.MapDictSkipsUndefined` | challenges/dict/src/index.ts:9-13 | `mapDict({a: undefined, b: 'x'}, (_, idx) => idx)` is `{b: 1}`: the skipped key still uses up index 0 |
| `Generics.WrappedValue` | notes/5-generics-basics.ts:9-13 | `wrappedValue(x).value == x` |
| `Generics.ArrayToDict` | notes/5-generics-basics.ts:76-82 | the loop returns `Indexed(array)`; its keys are exactly the `id`s in the array (`Ids`); each stored value is an element whose `id` is its key; an element with no later duplicate `id` is the one stored |
| `Generics.IndexedKeys` | notes/5-generics-basics.ts:76-81 | the key set equals the set of `id`s occurring in the array |
| `Generics.IndexedFromInput` | notes/5-generics-basics.ts:78-80 | every value stored under `k` is an element of the array whose `id` is `k` |
| `Generics.IndexedLastWins` | notes/5-generics-basics.ts:78-79 | when several elements share an `id`, the entry holds the last of them in array order |
| `Generics.IndexedDistinct` | notes/5-generics-basics.ts:78-80 | with distinct `id`s, `out[a.id] == a` for every element `a`, and the dictionary has exactly as many entries as the array has elements |
| `Generics.IndexedEmpty` | notes/5-generics-basics.ts:77-81 | an empty array yields an empty dictionary |
| `Generics.ArrayToDictExample` | notes/5-generics-basics.ts:84-87 | the notes' two-record example yields `{a: first, b: second}` |
| `Generics.FinishTuple` | notes/5-generics-basics.ts:95-97 | `finishTuple(b)` with `a` captured is the pair whose first component is `a` and whose second is `b` |
| `Generics.StartTuple` | notes/5-generics-basics.ts:93-98 | `startTuple(a)(b)` is the pair whose first component is `a` and whose second is `b`, for every `b` |
| `Generics.StartTupleExample` | notes/5-generics-basics.ts:99 | `startTuple(["first"])(42)` is `[["first"], 42]` |

## Left out

- `reduceDict` (challenges/dict/src/index.ts:32) is an empty stub with no behaviour, so it is not modelled.
- JavaScript's `Object.keys` ordering rule, which lists integer-like keys first, is not modelled. The input's enumeration order is given as `order`, and the output's order is insertion order.
- The `"__proto__"` key is not modelled, and no `mapDict` or `arrayToDict` member is claimed for an input that has a `"__proto__"` key or `id`. Assigning `out["__proto__"] = …` on a fresh `{}` (challenges/dict/src/index.ts:12, notes/5-generics-basics.ts:79) calls the `Object.prototype` setter and creates no own key. When the assigned value is an object, it also becomes the prototype of `out`, and its setters or read-only properties can then block later writes under other keys.
- The key order of `arrayToDict`'s result is not modelled. Its result is a `map` from `id` to element.
- `Dicts.MapDict`, `Dicts.MappedKeys`, `Dicts.MappedValues`: `fn` is assumed to have no side effects. The source calls it once per defined key, in enumeration order, and reads `dict[dKey]` live (challenges/dict/src/index.ts:10-12). A callback that deletes or overwrites a later key of `dict` would change whether that key is skipped and what it holds. Neither the order of the calls nor such a callback is modelled.
- An exception thrown by `fn` is not modelled, because Dafny functions are total. In the source it propagates to the caller of `mapDict`.
- Only the `id` of an `arrayToDict` element is modelled; its other properties are an opaque payload.
- `resolveOrTimeout` (notes/5-generics-basics.ts:54-67) is not modelled: it depends on promises and timers.
- `drawShapes1` and `drawShapes2` (notes/5-generics-basics.ts:119-126) are not modelled: they only call a foreign `draw()`.
- `stringFilter` and `truthyFilter` (notes/5-generics-basics.ts:38-47) are not modelled: they rely on `typeof` and truthiness coercion.
- The type-only interfaces (`WrappedValue`, `FilterFunction`, `Shape`, `Circle`) are not modelled, because they have no runtime behaviour.
- notes/4-class-basics.ts is not modelled: it shows class syntax, and its only behaviour is `Math.random()` and `console.log`.
