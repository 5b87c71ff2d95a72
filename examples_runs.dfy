/** Worked runs of the model on small streams. */
module ExampleRuns {
  import opened Wrappers
  import opened OrderedKeys
  import opened JsObject
  import opened Headers
  import opened Projection

  /** The key lists of the rows `{"a":1}`, `{"b":2}`, `{"a":3,"b":4}`, one after another. */
  lemma ExampleStreamKeys()
    ensures Concat([["a"], ["b"], ["a", "b"]]) == ["a", "b"] + ["a", "b"]
  {
    var rows := [["a"], ["b"], ["a", "b"]];
    ConcatAppend([["a"], ["b"]], [["a", "b"]]);
    ConcatAppend([["a"]], [["b"]]);
    assert [["a"], ["b"]] + [["a", "b"]] == rows;
    assert [["a"]] + [["b"]] == [["a"], ["b"]];
    assert ["a"] + ["b"] + ["a", "b"] == ["a", "b"] + ["a", "b"];
  }

  /** A set built from `a`, `b`, `a`, `b` lists `a`, `b`. */
  lemma ExampleStreamSet()
    ensures FromSet(["a", "b"] + ["a", "b"]) == ["a", "b"]
  {
    UnionAppend([], ["a", "b"], ["a", "b"]);
    UnionOfDistinct([], ["a", "b"]);
    UnionAbsorbs(["a", "b"], ["a", "b"]);
  }

  /** Rows `{"a":1}`, `{"b":2}`, `{"a":3,"b":4}` give the headers `a`, `b`. */
  lemma UnionExample()
    ensures Discover([["a"], ["b"], ["a", "b"]]) == ["a", "b"]
  {
    DiscoverIsFromSet([["a"], ["b"], ["a", "b"]]);
    ExampleStreamKeys();
    ExampleStreamSet();
  }

  /**
   * The second row of that stream is projected after one reversal of the headers array:
   * its blank lists `b` before `a`, and the row's `b` overrides the blank.
   */
  lemma SecondRowExample()
    ensures Keys(Project(Reversed(["a", "b"]), [Field("b", Num(2))])) == ["b", "a"]
    ensures Get(Project(Reversed(["a", "b"]), [Field("b", Num(2))]), "a") == Some(Blank)
    ensures Get(Project(Reversed(["a", "b"]), [Field("b", Num(2))]), "b") == Some(Num(2))
  {
    var row := [Field("b", Num(2))];
    ReversedAt(["a", "b"], 0);
    ReversedAt(["a", "b"], 1);
    assert Reversed(["a", "b"]) == ["b", "a"];
    assert Keys(row) == ["b"];
    ProjectExact(["b", "a"], row);
    ProjectValues(["b", "a"], row, "a");
    ProjectValues(["b", "a"], row, "b");
  }

  /** A row key missing from the headers is kept after them, not dropped. */
  lemma ExtraKeyKeptExample()
    ensures Keys(Project(["a"], [Field("d", Num(3))])) == ["a", "d"]
  {
    var row := [Field("d", Num(3))];
    assert Keys(row) == ["d"];
    UnionOfDistinct([], ["a", "d"]);
    assert ["a"] + ["d"] == ["a", "d"];
  }
}
