/**
 * Ordered, duplicate-free lists of keys: the key order of a JavaScript `Set`,
 * which iterates its elements in the order they were first inserted.
 */
module OrderedKeys {

  /** No key occurs twice. */
  predicate Distinct(s: seq<string>) {
    forall i, j :: 0 <= i < j < |s| ==> s[i] != s[j]
  }

  /** The first key of a duplicate-free list does not occur again, and the rest is duplicate-free. */
  lemma DistinctTail(s: seq<string>)
    requires s != [] && Distinct(s)
    ensures s[0] !in s[1..] && Distinct(s[1..])
  {
    forall i | 0 <= i < |s| - 1
      ensures s[1..][i] != s[0]
    {
      assert s[1..][i] == s[i + 1];
    }
  }

  /** The position of the first occurrence of `x` in `s`. */
  function IndexOf(s: seq<string>, x: string): (i: nat)
    requires x in s
    ensures i < |s| && s[i] == x && x !in s[..i]
  {
    if s[0] == x then 0 else 1 + IndexOf(s[1..], x)
  }

  /** One `Set.prototype.add`: a key already present keeps its place, a new key goes last. */
  function AddLast(acc: seq<string>, k: string): (r: seq<string>)
    ensures forall x :: x in r <==> x in acc || x == k
    ensures acc <= r && |r| <= |acc| + 1
    ensures Distinct(acc) ==> Distinct(r)
  {
    if k in acc then acc else acc + [k]
  }

  /**
   * Adding the keys of `xs` one by one, in order, to a set that already holds `acc`,
   * and reading the set back in iteration order.
   */
  function Union(acc: seq<string>, xs: seq<string>): (r: seq<string>)
    ensures forall x :: x in r <==> x in acc || x in xs
    ensures acc <= r
    ensures Distinct(acc) ==> Distinct(r)
    decreases xs
  {
    if xs == [] then acc else Union(AddLast(acc, xs[0]), xs[1..])
  }

  /** `Array.from(new Set(s))`: every key of `s`, each exactly once. */
  function FromSet(s: seq<string>): (r: seq<string>)
    ensures Distinct(r)
    ensures forall x :: x in r <==> x in s
  {
    Union([], s)
  }

  /** Adding `b` and then `c` is adding `b + c`. */
  lemma {:induction false} UnionAppend(a: seq<string>, b: seq<string>, c: seq<string>)
    ensures Union(Union(a, b), c) == Union(a, b + c)
    decreases b
  {
    if b != [] {
      assert (b + c)[0] == b[0] && (b + c)[1..] == b[1..] + c;
      UnionAppend(AddLast(a, b[0]), b[1..], c);
    } else {
      assert b + c == c;
    }
  }

  /** Adding a key that is already there changes nothing; adding a new one appends it. */
  lemma UnionAddLast(a: seq<string>, b: seq<string>, z: string)
    ensures Union(a, AddLast(b, z)) == AddLast(Union(a, b), z)
  {
    if z !in b {
      UnionAppend(a, b, [z]);
    }
  }

  /** Adding the keys of a set built from `c` on top of `b` is adding `c` itself. */
  lemma {:induction false} UnionNested(a: seq<string>, b: seq<string>, c: seq<string>)
    ensures Union(a, Union(b, c)) == Union(Union(a, b), c)
    decreases c
  {
    if c != [] {
      UnionNested(a, AddLast(b, c[0]), c[1..]);
      UnionAddLast(a, b, c[0]);
    }
  }

  /** Keys that are all new and pairwise distinct are appended unchanged. */
  lemma {:induction false} UnionOfDistinct(acc: seq<string>, xs: seq<string>)
    requires Distinct(acc + xs)
    ensures Union(acc, xs) == acc + xs
    decreases xs
  {
    if xs != [] {
      forall k | 0 <= k < |acc|
        ensures acc[k] != xs[0]
      {
        assert (acc + xs)[k] == acc[k] && (acc + xs)[|acc|] == xs[0];
      }
      assert (acc + [xs[0]]) + xs[1..] == acc + xs;
      UnionOfDistinct(acc + [xs[0]], xs[1..]);
    }
  }

  /** A set built from a list without duplicates lists it unchanged. */
  lemma FromSetOfDistinct(s: seq<string>)
    requires Distinct(s)
    ensures FromSet(s) == s
  {
    UnionOfDistinct([], s);
  }

  /** Adding keys that are all present already changes nothing. */
  lemma {:induction false} UnionAbsorbs(acc: seq<string>, xs: seq<string>)
    requires forall x :: x in xs ==> x in acc
    ensures Union(acc, xs) == acc
  {
    if xs != [] {
      assert xs[0] in xs;
      UnionAbsorbs(acc, xs[1..]);
    }
  }

  /** `IndexOf` is the one position holding `x` with no `x` before it. */
  lemma IndexOfUnique(s: seq<string>, x: string, i: nat)
    requires i < |s| && s[i] == x && x !in s[..i]
    ensures IndexOf(s, x) == i
  {
  }

  /** Positions in a prefix are positions in the whole list. */
  lemma IndexOfPrefix(p: seq<string>, s: seq<string>, x: string)
    requires p <= s && x in p
    ensures IndexOf(s, x) == IndexOf(p, x)
  {
    var i := IndexOf(p, x);
    assert s[..i] == p[..i];
    IndexOfUnique(s, x, i);
  }

  /**
   * A key that was already in the set, or that comes before `y` in `xs`,
   * ends up before `y`, a key added by `xs`.
   */
  lemma {:induction false} UnionOrder(acc: seq<string>, xs: seq<string>, x: string, y: string)
    requires y !in acc && y in xs
    requires x in acc || (x in xs && IndexOf(xs, x) < IndexOf(xs, y))
    ensures x in Union(acc, xs) && y in Union(acc, xs)
    ensures IndexOf(Union(acc, xs), x) < IndexOf(Union(acc, xs), y)
    decreases xs
  {
    var z := xs[0];
    var next := AddLast(acc, z);
    var u := Union(acc, xs);
    assert u == Union(next, xs[1..]);
    if z == y {
      assert x in acc;
      assert next == acc + [y];
      IndexOfPrefix(next, u, x);
      IndexOfPrefix(next, u, y);
      IndexOfPrefix(acc, next, x);
      IndexOfUnique(next, y, |acc|);
    } else {
      assert y in xs[1..];
      if x !in next {
        assert x in xs[1..];
      }
      UnionOrder(next, xs[1..], x, y);
    }
  }

  /** `Array.from(new Set(s))` lists keys in the order of their first occurrence in `s`. */
  lemma FromSetFirstSeen(s: seq<string>, x: string, y: string)
    requires x in s && y in s
    requires IndexOf(s, x) < IndexOf(s, y)
    ensures x in FromSet(s) && y in FromSet(s)
    ensures IndexOf(FromSet(s), x) < IndexOf(FromSet(s), y)
  {
    UnionOrder([], s, x, y);
  }

  /** Building a set from `front` and then from a set that starts with `last` is building it from `front + [last] + k`. */
  lemma FromSetAfterInsert(front: seq<string>, last: string, k: seq<string>)
    ensures FromSet(front + Union([last], k)) == FromSet(front + [last] + k)
  {
    UnionAppend([], front, Union([last], k));
    UnionNested(FromSet(front), [last], k);
    UnionAppend([], front, [last]);
    UnionAppend([], front + [last], k);
  }
}
