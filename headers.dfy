/**
 * Header discovery: a reduce over the stream of rows whose accumulator is the
 * list of column names, grown by each row's flattened keys (ndjson-to-csv.js:36-44).
 * A row enters the fold as its flattened key list, `Object.keys(Flat(row))`.
 */
module Headers {
  import opened OrderedKeys

  /** One reduce step: `Array.from(new Set(a.concat(keys)))`. */
  function Step(a: seq<string>, keys: seq<string>): (r: seq<string>)
    ensures Distinct(r)
    ensures forall k :: k in r <==> k in a || k in keys
  {
    FromSet(a + keys)
  }

  /**
   * The reduce from a given accumulator over the remaining rows: it holds the
   * accumulator's keys and the rows' keys, and after one step no key twice.
   */
  function Fold(acc: seq<string>, rows: seq<seq<string>>): (r: seq<string>)
    ensures forall k :: k in r <==> k in acc || k in Concat(rows)
    ensures Distinct(acc) || rows != [] ==> Distinct(r)
    decreases rows
  {
    if rows == [] then acc else Fold(Step(acc, rows[0]), rows[1..])
  }

  /**
   * The discovered headers: the reduce seeded with `[]`. No key is listed twice, and a
   * key is a header iff some row has it.
   */
  function Discover(rows: seq<seq<string>>): (r: seq<string>)
    ensures Distinct(r)
    ensures forall k :: k in r <==> exists i :: 0 <= i < |rows| && k in rows[i]
  {
    Fold([], rows)
  }

  /** Every key of every row, in stream order. */
  function Concat(rows: seq<seq<string>>): (r: seq<string>)
    ensures forall k :: k in r <==> exists i :: 0 <= i < |rows| && k in rows[i]
    decreases rows
  {
    if rows == [] then []
    else
      var rest := Concat(rows[1..]);
      assert forall i :: 1 <= i < |rows| ==> rows[i] == rows[1..][i - 1];
      rows[0] + rest
  }

  lemma {:induction false} ConcatAppend(a: seq<seq<string>>, b: seq<seq<string>>)
    ensures Concat(a + b) == Concat(a) + Concat(b)
    decreases a
  {
    if a == [] {
      assert a + b == b;
    } else {
      assert (a + b)[1..] == a[1..] + b;
      ConcatAppend(a[1..], b);
    }
  }

  /** An empty stream yields the seed `[]`. */
  lemma DiscoverEmpty()
    ensures Discover([]) == []
  {
  }

  /**
   * A step keeps the accumulator as a prefix: headers are only ever appended, and what it
   * appends are the row's new keys in their first-seen order.
   */
  lemma StepExtends(a: seq<string>, keys: seq<string>)
    requires Distinct(a)
    ensures Step(a, keys) == Union(a, keys)
    ensures a <= Step(a, keys)
  {
    UnionAppend([], a, keys);
    FromSetOfDistinct(a);
  }

  /** The reduce over the whole stream is one set built from every key in stream order. */
  lemma {:induction false} FoldIsFromSet(acc: seq<string>, rows: seq<seq<string>>)
    requires Distinct(acc)
    ensures Fold(acc, rows) == Union(acc, Concat(rows))
    decreases rows
  {
    if rows != [] {
      StepExtends(acc, rows[0]);
      FoldIsFromSet(Step(acc, rows[0]), rows[1..]);
      UnionAppend(acc, rows[0], Concat(rows[1..]));
    }
  }

  lemma DiscoverIsFromSet(rows: seq<seq<string>>)
    ensures Discover(rows) == FromSet(Concat(rows))
  {
    FoldIsFromSet([], rows);
  }

  /** Reading more rows only appends headers: the headers of a prefix of the stream are a prefix. */
  lemma DiscoverPrefix(rows: seq<seq<string>>, n: nat)
    requires n <= |rows|
    ensures Discover(rows[..n]) <= Discover(rows)
  {
    assert rows == rows[..n] + rows[n..];
    ConcatAppend(rows[..n], rows[n..]);
    DiscoverIsFromSet(rows[..n]);
    DiscoverIsFromSet(rows);
    UnionAppend([], Concat(rows[..n]), Concat(rows[n..]));
  }

  /** Headers appear in the order their keys are first seen in the stream. */
  lemma DiscoverFirstSeen(rows: seq<seq<string>>, x: string, y: string)
    requires x in Concat(rows) && y in Concat(rows)
    requires IndexOf(Concat(rows), x) < IndexOf(Concat(rows), y)
    ensures x in Discover(rows) && y in Discover(rows)
    ensures IndexOf(Discover(rows), x) < IndexOf(Discover(rows), y)
  {
    DiscoverIsFromSet(rows);
    FromSetFirstSeen(Concat(rows), x, y);
  }
}
