/**
 Mapping a transform over a string-keyed dictionary whose entries may be
 `undefined`: the analogue of `Array.prototype.map` for dictionaries.

 The dictionary is a value (`map`), so the input cannot be written by the
 operation; the output is built in a local variable that starts empty and
 gains one entry per present key.
 */
module Dicts {

  /** `None` stands for an entry whose value is `undefined`. */
  datatype Option<+T> = None | Some(value: T)

  /** A string-keyed dictionary; a key may be bound to `undefined`. */
  type Dict<T> = map<string, Option<T>>

  /** The key is bound in the dictionary to a value other than `undefined`. */
  predicate Present<T>(dict: Dict<T>, k: string)
  {
    k in dict && dict[k].Some?
  }

  /** No string occurs twice in the sequence. */
  predicate Distinct(s: seq<string>)
  {
    forall i, j :: 0 <= i < j < |s| ==> s[i] != s[j]
  }

  /** The keys enumerate the dictionary: they are exactly its keys. */
  ghost predicate Enumerates<T>(keys: seq<string>, dict: Dict<T>)
  {
    forall k :: k in keys <==> k in dict
  }

  /**
   What mapping `fn` over `dict` means, independent of any visiting order:
   every present entry mapped through `fn`, every `undefined` entry dropped.
   */
  function MapDictSpec<T, S>(dict: Dict<T>, fn: T -> S): Dict<S>
  {
    map k | k in dict && dict[k].Some? :: Some(fn(dict[k].value))
  }

  /**
   The output built after visiting `keys` in order, one step per key: a
   present key is stored mapped through `fn`, any other key changes nothing.
   */
  function MapKeys<T, S>(dict: Dict<T>, keys: seq<string>, fn: T -> S): Dict<S>
  {
    if keys == [] then map[]
    else
      var out := MapKeys(dict, keys[..|keys| - 1], fn);
      var k := keys[|keys| - 1];
      if k in dict && dict[k].Some? then out[k := Some(fn(dict[k].value))] else out
  }

  /**
   After visiting any sequence of keys (duplicates allowed), the output holds
   exactly the visited keys that are present, each bound to `fn` of its value.
   */
  lemma {:induction false} MapKeysAt<T, S>(dict: Dict<T>, keys: seq<string>, fn: T -> S)
    ensures forall k :: k in MapKeys(dict, keys, fn) <==> k in keys && Present(dict, k)
    ensures forall k :: k in keys && Present(dict, k) ==>
              MapKeys(dict, keys, fn)[k] == Some(fn(dict[k].value))
  {
    if keys != [] {
      var init := keys[..|keys| - 1];
      MapKeysAt(dict, init, fn);
      assert keys == init + [keys[|keys| - 1]];
    }
  }

  /** Visiting every key of the dictionary, in any order, yields MapDictSpec. */
  lemma MapKeysOfEnumeration<T, S>(dict: Dict<T>, keys: seq<string>, fn: T -> S)
    requires Enumerates(keys, dict)
    ensures MapKeys(dict, keys, fn) == MapDictSpec(dict, fn)
  {
    MapKeysAt(dict, keys, fn);
  }

  /** The result does not depend on the order in which the keys are visited. */
  lemma OrderIndependent<T, S>(dict: Dict<T>, keys1: seq<string>, keys2: seq<string>, fn: T -> S)
    requires Enumerates(keys1, dict) && Enumerates(keys2, dict)
    ensures MapKeys(dict, keys1, fn) == MapKeys(dict, keys2, fn)
  {
    MapKeysOfEnumeration(dict, keys1, fn);
    MapKeysOfEnumeration(dict, keys2, fn);
  }

  /**
   `Object.keys(dict)`: every key of the dictionary exactly once, in an order
   the model leaves open.
   */
  method ObjectKeys<T>(dict: Dict<T>) returns (keys: seq<string>)
    ensures Distinct(keys)
    ensures Enumerates(keys, dict)
  {
    keys := [];
    var rest := dict.Keys;
    while rest != {}
      invariant rest <= dict.Keys
      invariant forall k :: k in keys <==> k in dict && k !in rest
      invariant Distinct(keys)
      decreases rest
    {
      var k :| k in rest;
      keys := keys + [k];
      rest := rest - {k};
    }
  }

  /**
   `mapDict(dict, fn)`: a fresh output, filled by a loop over the keys of
   `dict` that skips `undefined` entries and stores `fn` of every other value
   under the same key. The ghost `applied` lists the keys `fn` was applied to,
   in order.
   */
  method MapDict<T, S>(dict: Dict<T>, fn: T -> S) returns (out: Dict<S>, ghost applied: seq<string>)
    ensures out == MapDictSpec(dict, fn)
    ensures Distinct(applied)
    ensures forall k :: k in applied <==> Present(dict, k)
  {
    out := map[];
    applied := [];
    var keys := ObjectKeys(dict);
    for i := 0 to |keys|
      invariant out == MapKeys(dict, keys[..i], fn)
      invariant Distinct(applied)
      invariant forall k :: k in applied <==> k in keys[..i] && Present(dict, k)
    {
      var k := keys[i];
      var item := dict[k];
      if item.Some? {
        assert k !in applied by {
          assert forall j :: 0 <= j < i ==> keys[..i][j] == keys[j] != k;
        }
        out := out[k := Some(fn(item.value))];
        applied := applied + [k];
      }
      assert keys[..i + 1][..i] == keys[..i];
      assert keys[..i + 1] == keys[..i] + [k];
    }
    assert keys[..|keys|] == keys;
    MapKeysOfEnumeration(dict, keys, fn);
  }

  /** The output's keys are exactly the input keys whose value is not `undefined`. */
  lemma OutputKeys<T, S>(dict: Dict<T>, fn: T -> S)
    ensures forall k :: k in MapDictSpec(dict, fn) <==> Present(dict, k)
  {
  }

  /** Each output value is present and is `fn` of the input value at that key. */
  lemma OutputValues<T, S>(dict: Dict<T>, fn: T -> S, k: string)
    requires Present(dict, k)
    ensures k in MapDictSpec(dict, fn)
    ensures MapDictSpec(dict, fn)[k] == Some(fn(dict[k].value))
  {
  }

  /** A key bound to `undefined` does not appear in the output at all. */
  lemma UndefinedDropped<T, S>(dict: Dict<T>, fn: T -> S, k: string)
    requires k in dict && dict[k] == None
    ensures k !in MapDictSpec(dict, fn)
  {
  }

  /** The output never holds `undefined`. */
  lemma OutputAllPresent<T, S>(dict: Dict<T>, fn: T -> S)
    ensures forall k :: k in MapDictSpec(dict, fn) ==> MapDictSpec(dict, fn)[k].Some?
  {
  }

  /**
   The entry at a key depends only on the input entry at that key: two inputs
   that agree there give outputs that agree there.
   */
  lemma Local<T, S>(dict1: Dict<T>, dict2: Dict<T>, fn: T -> S, k: string)
    requires (k in dict1 <==> k in dict2) && (k in dict1 ==> dict1[k] == dict2[k])
    ensures k in MapDictSpec(dict1, fn) <==> k in MapDictSpec(dict2, fn)
    ensures k in MapDictSpec(dict1, fn) ==> MapDictSpec(dict1, fn)[k] == MapDictSpec(dict2, fn)[k]
  {
  }

  /** An empty input yields an empty output. */
  lemma EmptyInput<T, S>(fn: T -> S)
    ensures MapDictSpec(map[], fn) == map[]
  {
  }

  /** Mapping the identity keeps every present entry and drops only `undefined` ones. */
  lemma Identity<T>(dict: Dict<T>)
    ensures MapDictSpec(dict, (x: T) => x) == map k | k in dict && dict[k].Some? :: dict[k]
  {
  }

  /** On a dictionary without `undefined` entries, mapping the identity changes nothing. */
  lemma IdentityNoUndefined<T>(dict: Dict<T>)
    requires forall k :: k in dict ==> dict[k].Some?
    ensures MapDictSpec(dict, (x: T) => x) == dict
  {
  }

  /** Mapping `f` and then `g` is mapping their composition once. */
  lemma Composition<T, S, U>(dict: Dict<T>, f: T -> S, g: S -> U)
    ensures MapDictSpec(MapDictSpec(dict, f), g) == MapDictSpec(dict, (x: T) => g(f(x)))
  {
  }

  /** `{val: str}`, the record the example call builds from each string. */
  datatype Boxed = Boxed(val: string)

  /**
   The example call: `{a: "a", b: "b"}` mapped with `str => ({val: str})`
   gives `{a: {val: "a"}, b: {val: "b"}}`.
   */
  lemma ExampleCall()
    ensures MapDictSpec(map["a" := Some("a"), "b" := Some("b")], (s: string) => Boxed(s))
         == map["a" := Some(Boxed("a")), "b" := Some(Boxed("b"))]
  {
  }

  /** An `undefined` entry is dropped: `{a: "a", b: undefined}` under length gives `{a: 1}`. */
  lemma ExampleUndefined()
    ensures MapDictSpec(map["a" := Some("a"), "b" := None], (s: string) => |s|)
         == map["a" := Some(1)]
  {
  }
}
