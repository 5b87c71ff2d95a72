/**
 * Row projection, the `map` in `processBody` (ndjson-to-csv.js:49-52). For each row it
 * reverses the shared headers array in place, reduces the reversed array into a "blank"
 * object that maps every header to `''` by prepending one header at a time, and then
 * assigns the row's flattened properties over the blank.
 */
module Projection {
  import opened Wrappers
  import opened OrderedKeys
  import opened JsObject

  /** `s` read back to front. */
  function Reversed(s: seq<string>): (r: seq<string>)
    ensures |r| == |s|
  {
    if s == [] then [] else [s[|s| - 1]] + Reversed(s[..|s| - 1])
  }

  /** Position `k` of the reversed list holds position `|s| - 1 - k` of the original. */
  lemma {:induction false} ReversedAt(s: seq<string>, k: nat)
    requires k < |s|
    ensures Reversed(s)[k] == s[|s| - 1 - k]
  {
    if k > 0 {
      ReversedAt(s[..|s| - 1], k - 1);
    }
  }

  /** Reversing twice restores the original order. */
  lemma ReversedTwice(s: seq<string>)
    ensures Reversed(Reversed(s)) == s
  {
    forall k | 0 <= k < |s|
      ensures Reversed(Reversed(s))[k] == s[k]
    {
      ReversedAt(Reversed(s), k);
      ReversedAt(s, |s| - 1 - k);
    }
  }

  /** Reversing keeps a list free of duplicates. */
  lemma ReversedDistinct(s: seq<string>)
    requires Distinct(s)
    ensures Distinct(Reversed(s))
  {
    forall i, j | 0 <= i < j < |s|
      ensures Reversed(s)[i] != Reversed(s)[j]
    {
      ReversedAt(s, i);
      ReversedAt(s, j);
    }
  }

  /** Reversing keeps the same keys. */
  lemma ReversedHas(s: seq<string>, x: string)
    ensures x in Reversed(s) <==> x in s
  {
    if x in s {
      var i := IndexOf(s, x);
      ReversedAt(s, |s| - 1 - i);
    }
    if x in Reversed(s) {
      var i := IndexOf(Reversed(s), x);
      ReversedAt(s, i);
    }
  }

  /**
   * One reduce step: `Object.assign({ [header]: '' }, a)`. The header comes first, followed
   * by the accumulator's other keys in order.
   */
  function Prepend(header: string, a: Obj): (r: Obj)
    ensures Keys(r) == Union([header], Keys(a))
    ensures DistinctKeys(a) ==> DistinctKeys(r)
  {
    assert Keys([Field(header, Blank)]) == [header];
    Assign([Field(header, Blank)], a)
  }

  /**
   * The reduce over the remaining headers from a given accumulator: it holds the
   * accumulator's keys and the headers, and no key twice when the accumulator has none.
   */
  function BlankFold(acc: Obj, hs: seq<string>): (r: Obj)
    ensures forall k :: k in Keys(r) <==> k in Keys(acc) || k in hs
    ensures DistinctKeys(acc) ==> DistinctKeys(r)
    decreases hs
  {
    if hs == [] then acc else BlankFold(Prepend(hs[0], acc), hs[1..])
  }

  /** Every property of `o` is `''`. */
  predicate AllBlank(o: Obj) {
    forall k :: k in Keys(o) ==> Get(o, k) == Some(Blank)
  }

  /** The keys left by prepending the headers `hs`, one after another, to an object with keys `k`. */
  function PrependAll(k: seq<string>, hs: seq<string>): seq<string>
    decreases hs
  {
    if hs == [] then k else PrependAll(Union([hs[0]], k), hs[1..])
  }

  /** The reduce that builds the blank leaves the keys that prepending them one by one predicts. */
  lemma {:induction false} BlankFoldKeys(acc: Obj, hs: seq<string>)
    requires DistinctKeys(acc)
    ensures Keys(BlankFold(acc, hs)) == PrependAll(Keys(acc), hs)
    decreases hs
  {
    if hs != [] {
      BlankFoldKeys(Prepend(hs[0], acc), hs[1..]);
    }
  }

  /** The reversed array starts with the last header, followed by the others reversed. */
  lemma ReversedLast(entry: seq<string>)
    requires entry != []
    ensures Reversed(entry)[0] == entry[|entry| - 1]
    ensures Reversed(entry)[1..] == Reversed(entry[..|entry| - 1])
  {
    var rest := Reversed(entry[..|entry| - 1]);
    assert Reversed(entry) == [entry[|entry| - 1]] + rest;
    assert ([entry[|entry| - 1]] + rest)[1..] == rest;
  }

  /**
   * Prepending the headers of the reversed array, last one first, lists the keys in the
   * array's order on entry, followed by the keys that were there before.
   */
  lemma {:induction false} PrependAllReversed(k: seq<string>, entry: seq<string>)
    requires Distinct(k)
    ensures PrependAll(k, Reversed(entry)) == FromSet(entry + k)
    decreases |entry|
  {
    if entry == [] {
      assert entry + k == k;
      FromSetOfDistinct(k);
    } else {
      var n := |entry| - 1;
      var front, last := entry[..n], entry[n];
      ReversedLast(entry);
      assert PrependAll(k, Reversed(entry)) == PrependAll(Union([last], k), Reversed(front));
      PrependAllReversed(Union([last], k), front);
      FromSetAfterInsert(front, last, k);
      assert front + [last] == entry;
    }
  }

  /** Every property of the blank is `''`, whatever the headers. */
  lemma {:induction false} BlankFoldValues(acc: Obj, hs: seq<string>)
    requires DistinctKeys(acc) && AllBlank(acc)
    ensures DistinctKeys(BlankFold(acc, hs)) && AllBlank(BlankFold(acc, hs))
    decreases hs
  {
    if hs != [] {
      var next := Prepend(hs[0], acc);
      forall k | k in Keys(next)
        ensures Get(next, k) == Some(Blank)
      {
        AssignGet([Field(hs[0], Blank)], acc, k);
      }
      BlankFoldValues(next, hs[1..]);
    }
  }

  /** The blank built from the headers array whose order on entry was `entry`. */
  function BlankRow(entry: seq<string>): Obj {
    BlankFold([], Reversed(entry))
  }

  /** The blank has exactly the headers as keys, in their order on entry, each mapped to `''`. */
  lemma BlankRowShape(entry: seq<string>)
    ensures Keys(BlankRow(entry)) == FromSet(entry)
    ensures DistinctKeys(BlankRow(entry)) && AllBlank(BlankRow(entry))
  {
    BlankFoldKeys([], Reversed(entry));
    PrependAllReversed([], entry);
    assert entry + [] == entry;
    BlankFoldValues([], Reversed(entry));
  }

  /**
   * The projected row of `row` against a headers array whose order on entry was `entry`.
   * It lists the headers (in their order on entry) and then the row's keys that are not
   * headers, in the row's order: extra keys are kept, not dropped.
   */
  function Project(entry: seq<string>, row: Obj): (r: Obj)
    ensures Keys(r) == FromSet(entry + Keys(row))
  {
    BlankRowShape(entry);
    UnionAppend([], entry, Keys(row));
    Assign(BlankRow(entry), row)
  }

  /**
   * Each of the row's keys maps to the row's value, each other header maps to `''`,
   * and nothing else is present.
   */
  lemma ProjectValues(entry: seq<string>, row: Obj, k: string)
    requires DistinctKeys(row)
    ensures Get(Project(entry, row), k) ==
      if k in Keys(row) then Get(row, k) else if k in entry then Some(Blank) else None
  {
    BlankRowShape(entry);
    AssignGet(BlankRow(entry), row, k);
  }

  /**
   * When the headers have no duplicate and hold every key of the row, as they do after a
   * discovery pass that read this row, the projected row's keys are exactly the headers.
   */
  lemma ProjectExact(entry: seq<string>, row: Obj)
    requires Distinct(entry)
    requires forall k :: k in Keys(row) ==> k in entry
    ensures Keys(Project(entry, row)) == entry
  {
    BlankRowShape(entry);
    FromSetOfDistinct(entry);
    UnionAbsorbs(entry, Keys(row));
  }

  /** `headers.reverse()`: reverses the array in place. */
  method ReverseHeaders(headers: array<string>)
    modifies headers
    ensures headers[..] == Reversed(old(headers[..]))
  {
    var n := headers.Length;
    var lo, hi := 0, n - 1;
    while lo < hi
      invariant 0 <= lo <= hi + 1 && hi == n - 1 - lo
      invariant forall i :: (0 <= i < lo || hi < i < n) ==> headers[i] == old(headers[n - 1 - i])
      invariant forall i :: lo <= i <= hi ==> headers[i] == old(headers[i])
    {
      headers[lo], headers[hi] := headers[hi], headers[lo];
      lo, hi := lo + 1, hi - 1;
    }
    ghost var was := old(headers[..]);
    forall k | 0 <= k < n
      ensures headers[..][k] == Reversed(was)[k]
    {
      ReversedAt(was, k);
    }
  }

  /**
   * The projection of one row: reverses `headers` in place and returns the projected row
   * for the order the array had on entry.
   */
  method ProjectRow(headers: array<string>, row: Obj) returns (out: Obj)
    modifies headers
    ensures headers[..] == Reversed(old(headers[..]))
    ensures out == Project(old(headers[..]), row)
  {
    ReverseHeaders(headers);
    var blank: Obj := [];
    var i := 0;
    while i < headers.Length
      invariant 0 <= i <= headers.Length
      invariant BlankFold(blank, headers[i..]) == BlankRow(old(headers[..]))
    {
      assert headers[i..][1..] == headers[i + 1..];
      blank := Prepend(headers[i], blank);
      i := i + 1;
    }
    assert headers[i..] == [];
    out := Assign(blank, row);
  }

  /** The headers order that row number `i` of the body sees: one reversal per earlier row. */
  function Alternate(entry: seq<string>, i: nat): seq<string> {
    if i == 0 then entry else Reversed(Alternate(entry, i - 1))
  }

  /** Even rows see the original order, odd rows the reverse order. */
  lemma {:induction false} AlternateParity(entry: seq<string>, i: nat)
    ensures Alternate(entry, i) == if i % 2 == 0 then entry else Reversed(entry)
  {
    if i >= 2 {
      var before := Alternate(entry, i - 2);
      var middle := Alternate(entry, i - 1);
      assert middle == Reversed(before);
      assert Alternate(entry, i) == Reversed(middle);
      ReversedTwice(before);
      AlternateParity(entry, i - 2);
      assert (i - 2) % 2 == i % 2;
    }
  }

  /**
   * The rows mapped in order by `f`, row `i` paired with the headers order left by `i`
   * reversals of the shared array: the shape of the body `map`.
   */
  function MapAlternating(entry: seq<string>, rows: seq<Obj>, f: (seq<string>, Obj) -> Obj): (out: seq<Obj>)
    ensures |out| == |rows|
  {
    if rows == [] then []
    else MapAlternating(entry, rows[..|rows| - 1], f) + [f(Alternate(entry, |rows| - 1), rows[|rows| - 1])]
  }

  /** Row `i` of the mapped body is `f` applied to row `i` and the order left by `i` reversals. */
  lemma {:induction false} MapAlternatingAt(entry: seq<string>, rows: seq<Obj>, f: (seq<string>, Obj) -> Obj, i: nat)
    requires i < |rows|
    ensures MapAlternating(entry, rows, f)[i] == f(Alternate(entry, i), rows[i])
  {
    var n := |rows| - 1;
    var prefix := rows[..n];
    assert MapAlternating(entry, rows, f) ==
      MapAlternating(entry, prefix, f) + [f(Alternate(entry, n), rows[n])];
    if i < n {
      MapAlternatingAt(entry, prefix, f, i);
      assert prefix[i] == rows[i];
    }
  }

  /** Mapping row `i` as well appends its image under `f`. */
  lemma MapAlternatingStep(entry: seq<string>, rows: seq<Obj>, f: (seq<string>, Obj) -> Obj, i: nat)
    requires i < |rows|
    ensures MapAlternating(entry, rows[..i + 1], f) ==
      MapAlternating(entry, rows[..i], f) + [f(Alternate(entry, i), rows[i])]
  {
    assert rows[..i + 1][..i] == rows[..i];
  }

  /** The body as the `map` produces it: one projected row per row of the stream. */
  function ProjectAll(entry: seq<string>, rows: seq<Obj>): (out: seq<Obj>)
    ensures |out| == |rows|
  {
    MapAlternating(entry, rows, Project)
  }

  /** Row `i` of the body is row `i` of the stream projected against the order left by `i` reversals. */
  lemma ProjectAllAt(entry: seq<string>, rows: seq<Obj>, i: nat)
    requires i < |rows|
    ensures ProjectAll(entry, rows)[i] == Project(Alternate(entry, i), rows[i])
  {
    MapAlternatingAt(entry, rows, Project, i);
  }

  /**
   * The `map` over the whole body: row `i` is projected against the headers as left by
   * `i` earlier reversals, which is the original order for even `i` and the reverse order
   * for odd `i`; the array ends up reversed once per row.
   */
  method ProjectRows(headers: array<string>, rows: seq<Obj>) returns (out: seq<Obj>)
    modifies headers
    ensures headers[..] == Alternate(old(headers[..]), |rows|)
    ensures out == ProjectAll(old(headers[..]), rows)
    ensures forall i :: 0 <= i < |rows| ==> out[i] == Project(Alternate(old(headers[..]), i), rows[i])
  {
    ghost var original := headers[..];
    out := [];
    var i := 0;
    while i < |rows|
      invariant 0 <= i <= |rows|
      invariant headers[..] == Alternate(original, i)
      invariant out == ProjectAll(original, rows[..i])
    {
      var projected := ProjectRow(headers, rows[i]);
      MapAlternatingStep(original, rows, Project, i);
      out := out + [projected];
      i := i + 1;
    }
    assert rows[..i] == rows;
    forall j | 0 <= j < |rows|
      ensures out[j] == Project(Alternate(original, j), rows[j])
    {
      ProjectAllAt(original, rows, j);
    }
  }
}
