/**
 * Plain JavaScript objects as ordered lists of own properties, and `Object.assign`.
 * Keys enumerate in insertion order; an assignment to an existing key keeps its place.
 */
module JsObject {
  import opened Wrappers
  import opened OrderedKeys

  /** A flattened cell value: a JSON leaf. */
  datatype Scalar = Str(s: string) | Num(n: int) | Bool(b: bool) | Null

  /** One own property. */
  datatype Field = Field(key: string, value: Scalar)

  /** An object, its properties in enumeration order. */
  type Obj = seq<Field>

  /** The empty string `''` that fills a missing cell. */
  const Blank: Scalar := Str("")

  /** `Object.keys(o)`: one key per own property, in enumeration order. */
  function Keys(o: Obj): (r: seq<string>)
    ensures |r| == |o|
  {
    if o == [] then [] else [o[0].key] + Keys(o[1..])
  }

  /** An object as JavaScript builds it: no key twice. */
  predicate DistinctKeys(o: Obj) {
    Distinct(Keys(o))
  }

  /** `o[k]`, or `None` when `k` is not an own property. */
  function Get(o: Obj, k: string): (r: Option<Scalar>)
    ensures r.Some? <==> k in Keys(o)
  {
    if o == [] then None
    else if o[0].key == k then Some(o[0].value)
    else Get(o[1..], k)
  }

  /** `o[f.key] = f.value`: overwrites the property in place, or appends a new one. */
  function Put(o: Obj, f: Field): (r: Obj)
    ensures Keys(r) == AddLast(Keys(o), f.key)
  {
    if o == [] then [f]
    else if o[0].key == f.key then [f] + o[1..]
    else
      var rest := Put(o[1..], f);
      assert ([o[0]] + rest)[1..] == rest;
      assert [o[0].key] + (Keys(o[1..]) + [f.key]) == ([o[0].key] + Keys(o[1..])) + [f.key];
      [o[0]] + rest
  }

  /** After the assignment the key maps to the new value and every other key is unchanged. */
  lemma {:induction false} PutGet(o: Obj, f: Field, k: string)
    ensures Get(Put(o, f), k) == if k == f.key then Some(f.value) else Get(o, k)
  {
    if o != [] && o[0].key != f.key {
      assert ([o[0]] + Put(o[1..], f))[1..] == Put(o[1..], f);
      PutGet(o[1..], f, k);
    }
  }

  /**
   * `Object.assign(target, source)`: copies the source's properties into the target in the
   * source's key order. The keys are the target's followed by the source's new ones.
   */
  function Assign(target: Obj, source: Obj): (r: Obj)
    ensures Keys(r) == Union(Keys(target), Keys(source))
    decreases source
  {
    if source == [] then target
    else Assign(Put(target, source[0]), source[1..])
  }

  /** A property of the source wins over one of the target; other keys keep the target's value. */
  lemma {:induction false} AssignGet(target: Obj, source: Obj, k: string)
    requires DistinctKeys(source)
    ensures Get(Assign(target, source), k) ==
      if k in Keys(source) then Get(source, k) else Get(target, k)
    decreases source
  {
    if source != [] {
      var tail := source[1..];
      assert Keys(source) == [source[0].key] + Keys(tail);
      assert Keys(source)[1..] == Keys(tail);
      DistinctTail(Keys(source));
      AssignGet(Put(target, source[0]), tail, k);
      PutGet(target, source[0], k);
    }
  }
}
