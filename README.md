# mapDict: mapping over a dictionary

A Dafny model of `mapDict` from `src/dict.ts`. This is the analogue of
`Array.prototype.map` for a string-keyed dictionary `Dict<T>` whose entries may
hold `undefined`. `mapDict(dict, fn)` starts from an empty output object. It
walks `Object.keys(dict)` with `forEach` and skips every entry whose value is
`undefined`. Every other entry is stored as `fn(value)` under the same key.

The model lives in `dict.dfy`, module `Dicts`:

- `Dict<T>` is `map<string, Option<T>>`. `None` marks an entry holding `undefined`.
- `fn` is a total Dafny function value `T -> S`.
- `ObjectKeys` models `Object.keys`. It returns every key exactly once, in an
  order the model leaves open: it chooses an arbitrary remaining key at each step.
- `MapDict` is the method. Its `for` loop over the keys mirrors the `forEach`,
  and it updates a local map `out` one entry at a time. It is proved equal to
  the order-free specification `MapDictSpec`. The loop invariant says that `out`
  is `MapKeys` of the keys visited so far. `MapKeys` is the step-by-step fold of
  the loop body over a key prefix.
- The ghost out-parameter `applied` of `MapDict` records the keys that `fn` was
  applied to. The method proves that each present key appears there exactly
  once and that no `undefined` key appears at all.
- The input dictionary is a value, so `MapDict` cannot write it. The output is
  a new value built from the empty map.

## Model

| member | source | states |
|---|---|---|
| `Dicts.MapDict` | src/dict.ts:6-16 | the returned dictionary equals `MapDictSpec(dict, fn)` whatever order `Object.keys` yields; `fn` is applied exactly once to each key whose value is not `undefined` and to no other key |
| `Dicts.ObjectKeys` | src/dict.ts:9 | the key sequence has no duplicates and holds exactly the keys of the dictionary |
| `Dicts.MapKeysAt` | src/dict.ts:9-14 | after the loop has visited any key sequence, the output holds exactly the visited keys whose value is not `undefined`, each bound to `fn` of its input value |
| `Dicts.MapKeysOfEnumeration` | src/dict.ts:9-15 | visiting all keys of the dictionary, in any order, produces `MapDictSpec(dict, fn)` |
| `Dicts.OrderIndependent` | src/dict.ts:9-14 | two enumerations of the keys in different orders produce the same output |
| `Dicts.OutputKeys` | src/dict.ts:9-13 | a key is in the output if and only if it is in the input with a value other than `undefined` |
| `Dicts.OutputValues` | src/dict.ts:10-12 | each present key is in the output, bound to `fn` of its input value |
| `Dicts.UndefinedDropped` | src/dict.ts:11 | a key bound to `undefined` is absent from the output |
| `Dicts.OutputAllPresent` | src/dict.ts:12 | no output entry holds `undefined` |
| `Dicts.Local` | src/dict.ts:10-12 | the output entry at a key depends only on the input entry at that key |
| `Dicts.EmptyInput` | src/dict.ts:7-9 | the empty dictionary maps to the empty dictionary |
| `Dicts.Identity` | src/dict.ts:5-12 | mapping the identity keeps every present entry unchanged and drops exactly the `undefined` ones |
| `Dicts.IdentityNoUndefined` | src/dict.ts:5-12 | on a dictionary with no `undefined` entry, mapping the identity returns the dictionary itself |
| `Dicts.Composition` | src/dict.ts:5-12 | mapping `f` and then `g` equals mapping `x => g(f(x))` once |
| `Dicts.ExampleCall` | src/dict.ts:18-24 | `{a: "a", b: "b"}` mapped with `str => ({val: str})` gives `{a: {val: "a"}, b: {val: "b"}}` |
| `Dicts.ExampleUndefined` | src/dict.ts:10-13 | `{a: "a", b: undefined}` mapped with string length gives `{a: 1}`, so the `undefined` entry is dropped |

## Left out

- `reduceDict` (src/dict.ts:28) is an empty function with no parameters and no body. It has no behaviour to model.
- `console.log` of the example result (src/dict.ts:25) is console output.
- src/variables.ts holds type-annotation examples with no runtime behaviour. It is not part of this model.
- The enumeration order of `Object.keys` is not modelled. `ObjectKeys` may return any order, and every result is proved for all of them.
- Prototype properties, non-enumerable properties and symbol keys are not modelled. The dictionary is a plain finite map from strings.
- The unused `idx` argument of the `forEach` callback (src/dict.ts:9) is dropped.
- A transform that itself returns `undefined` is not modelled. `fn` is a total Dafny function whose result is always stored as a present value. For that reason `Composition` holds without a side condition.
- A transform that throws, or has side effects, is not modelled. Dafny function values are pure and total.
- Update in place of the JavaScript output object is modelled as reassigning a local `map` variable. The object is never shared before it is returned, so there is no aliasing to lose.
