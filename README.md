# ndjson-to-csv: header discovery and row projection

`ndjson-to-csv` turns a stream of JSON records into CSV. It reads the input twice.
The first pass folds the stream into the list of column headers. Each step adds the
record's flattened keys through a JavaScript `Set`, so the list keeps first-seen order and
has no duplicates. The second pass maps every record to an object that has every header,
set to `''` unless the record has a value for it. That object goes to a CSV writer.

This project models that core of `ndjson-to-csv.js` in Dafny:

- `OrderedKeys`: key lists with no duplicates. `Union(acc, xs)` adds the keys of `xs` one
  at a time to a set holding `acc`. `FromSet(s)` is `Array.from(new Set(s))`.
- `JsObject`: a plain object as an ordered list of own properties. `Keys` is
  `Object.keys`, `Put` is one property assignment, `Assign` is `Object.assign`.
- `Headers`: the reduce in `processHeaders` (`Step`, `Fold`, `Discover`). A row enters the
  fold as its flattened key list.
- `Projection`: the `map` in `processBody`. `ProjectRow` reverses the shared headers
  array in place, with the loop of `headers.reverse()`. It then reduces the reversed array
  into the blank object by prepending one header at a time, and assigns the row over the
  blank. `ProjectRows` runs it over the whole body against the same array.
- `Runner`: `run`. It resolves the input name, refuses a terminal on standard input, and
  chains the two passes.
- `ExampleRuns`: the model worked out on a three-row stream.

Two things the code does that a reader might not expect are stated and proved here:

- Row keys that are not headers are kept, not dropped. `Object.assign(blank, Flat(row))`
  appends them after the headers (`Project`, `ExtraKeyKeptExample`). When the headers come
  from the discovery pass over the same rows, no row has such a key (`Run`, `ProjectExact`).
- `headers.reverse()` reverses the one headers array shared by every row. Each blank lists
  the keys in the array's order at that moment. Even-numbered rows therefore get the
  discovered order and odd-numbered rows get the reverse order (`ProjectRows`,
  `AlternateParity`, `SecondRowExample`). The values are the same either way.

## Model

| member | source | states |
|---|---|---|
| OrderedKeys.AddLast | ndjson-to-csv.js:41 | adding one key to a `Set`: the result holds the old keys and the new one, keeps the old list as a prefix, grows by at most one, and stays duplicate-free |
| OrderedKeys.Union | ndjson-to-csv.js:41 | adding a list of keys to a set: a key is in the result iff it was in the set or in the list, the old contents stay a prefix, and no key appears twice |
| OrderedKeys.UnionAppend | ndjson-to-csv.js:41 | adding `b` and then `c` to a set gives the same list as adding `b + c` |
| OrderedKeys.FromSet | ndjson-to-csv.js:41 | `Array.from(new Set(s))` holds every key of `s` and no other, each exactly once; its order is given by `FromSetFirstSeen` and `FromSetOfDistinct` |
| OrderedKeys.FromSetOfDistinct | ndjson-to-csv.js:41 | `Array.from(new Set(s))` returns `s` unchanged when `s` has no duplicate |
| OrderedKeys.UnionAbsorbs | ndjson-to-csv.js:41 | adding keys that are all already present leaves the list unchanged |
| OrderedKeys.FromSetFirstSeen | ndjson-to-csv.js:41 | `Array.from(new Set(s))` lists keys in the order of their first occurrence in `s` |
| JsObject.Keys | ndjson-to-csv.js:40 | `Object.keys` lists one key per own property; which keys and in what order follow from `Put` and `Assign` |
| JsObject.Get | ndjson-to-csv.js:51 | a property lookup finds a value iff the key is one of the object's keys |
| JsObject.Put | ndjson-to-csv.js:51 | assigning a property: the key keeps its place if present, otherwise it goes last |
| JsObject.PutGet | ndjson-to-csv.js:51 | after assigning a property the key maps to the new value and every other key keeps its value |
| JsObject.Assign | ndjson-to-csv.js:50-51 | `Object.assign(target, source)`: the keys are the target's keys followed by the source's new keys in the source's order |
| JsObject.AssignGet | ndjson-to-csv.js:50-51 | after `Object.assign(target, source)` each source key maps to the source's value and every other key keeps the target's value |
| Headers.Step | ndjson-to-csv.js:40-41 | one reduce step returns a duplicate-free list holding exactly the accumulator's keys and the row's keys |
| Headers.Fold | ndjson-to-csv.js:39-42 | the reduce from an accumulator holds exactly the accumulator's keys and the rows' keys, and lists none twice once a row has been read or if the accumulator had none; `FoldIsFromSet` gives its order |
| Headers.Discover | ndjson-to-csv.js:36-44 | the discovered headers list no key twice, and a key is a header iff it is a flattened key of some row; `DiscoverIsFromSet`, `DiscoverFirstSeen` and `DiscoverPrefix` give their order |
| Headers.StepExtends | ndjson-to-csv.js:41 | each step keeps the previous accumulator as a prefix, so headers are only ever appended |
| Headers.DiscoverEmpty | ndjson-to-csv.js:39 | an empty stream yields the seed `[]` |
| Headers.FoldIsFromSet | ndjson-to-csv.js:39-42 | the reduce from any duplicate-free accumulator equals adding every key of every row, in stream order, to that accumulator |
| Headers.DiscoverIsFromSet | ndjson-to-csv.js:36-44 | the discovered headers are `Array.from(new Set(...))` of all rows' keys concatenated in stream order |
| Headers.DiscoverPrefix | ndjson-to-csv.js:39-42 | the headers discovered from any prefix of the stream are a prefix of the final headers |
| Headers.DiscoverFirstSeen | ndjson-to-csv.js:39-42 | a key first seen before another in the stream comes before it in the headers |
| Headers.ConcatAppend | ndjson-to-csv.js:39-42 | the keys of two stretches of the stream, taken together, are the keys of the first followed by those of the second |
| Projection.Reversed | ndjson-to-csv.js:50 | reversal keeps the length |
| Projection.ReversedAt | ndjson-to-csv.js:50 | position `k` of the reversed headers holds position `n - 1 - k` of the original |
| Projection.ReversedTwice | ndjson-to-csv.js:50 | reversing twice restores the original order |
| Projection.ReversedDistinct | ndjson-to-csv.js:50 | reversing a duplicate-free headers list keeps it duplicate-free |
| Projection.ReversedHas | ndjson-to-csv.js:50 | reversing keeps exactly the same keys |
| Projection.ReverseHeaders | ndjson-to-csv.js:50 | `headers.reverse()` leaves the array holding the reverse of its old contents |
| Projection.Prepend | ndjson-to-csv.js:50 | one step of the blank's reduce, `Object.assign({ [header]: '' }, a)`, puts the header first, followed by `a`'s other keys in order, and adds no duplicate |
| Projection.BlankFold | ndjson-to-csv.js:50 | the blank's reduce from an accumulator holds exactly the accumulator's keys and the headers, with no duplicate if the accumulator had none; `BlankFoldKeys` gives its order and `BlankFoldValues` its values |
| Projection.BlankRow | ndjson-to-csv.js:50 | the blank built for one row, from the array as reversed by that row; `BlankRowShape` states its keys and values |
| Projection.BlankFoldKeys | ndjson-to-csv.js:50 | the reduce that builds the blank leaves the keys obtained by moving each header in turn to the front |
| Projection.ReversedLast | ndjson-to-csv.js:50 | the reversed array starts with the last header, followed by the other headers reversed |
| Projection.PrependAllReversed | ndjson-to-csv.js:50 | moving the headers of the reversed array to the front one by one lists them in the array's order on entry, duplicates removed, followed by the keys that were there before |
| Projection.BlankFoldValues | ndjson-to-csv.js:50 | every property of the blank is `''` and no key repeats |
| Projection.BlankRowShape | ndjson-to-csv.js:50 | the blank's keys are the headers, duplicates removed, in the array's order on entry, each mapped to `''` |
| Projection.Project | ndjson-to-csv.js:50-51 | a projected row's keys are the headers, in entry order, followed by the row's keys that are not headers, which are kept and not dropped; `ProjectValues` states its values |
| Projection.ProjectValues | ndjson-to-csv.js:50-51 | in a projected row each of the row's keys maps to the row's value, each other header maps to `''`, and no other key is present |
| Projection.ProjectExact | ndjson-to-csv.js:50-51 | when the headers are duplicate-free and include every key of the row, the projected row's keys are exactly the headers, in entry order |
| Projection.ProjectRow | ndjson-to-csv.js:49-52 | one `map` call reverses the shared array in place and returns the row projected for the array's order on entry |
| Projection.AlternateParity | ndjson-to-csv.js:50 | the order seen by row `i` is the original for even `i` and the reverse for odd `i` |
| Projection.MapAlternating | ndjson-to-csv.js:49-52 | mapping the rows in order against the shared array gives one output row per input row |
| Projection.MapAlternatingAt | ndjson-to-csv.js:49-52 | row `i` of the mapped body is the mapping applied to row `i` and the array as left by `i` earlier reversals |
| Projection.MapAlternatingStep | ndjson-to-csv.js:49-52 | mapping one more row of the stream appends exactly its image, taken against the array as left by the earlier rows |
| Projection.ProjectAll | ndjson-to-csv.js:49-52 | the body the `map` produces has one projected row per input row; `ProjectAllAt` states each of them |
| Projection.ProjectAllAt | ndjson-to-csv.js:49-52 | row `i` of the body is row `i` of the stream projected against the headers as left by `i` earlier reversals |
| Projection.ProjectRows | ndjson-to-csv.js:49-52 | the `map` over the body returns one projected row per input row, row `i` projected against the headers as left by `i` earlier reversals, and leaves the array reversed once per row |
| Runner.ResolveInput | ndjson-to-csv.js:20 | the file read is `/dev/stdin` iff the input name is missing, `-` or `/dev/stdin`; otherwise it is the input name unchanged |
| Runner.NoInput | ndjson-to-csv.js:22 | the no-input test of line 22 on the resolved file name; `NoInputExactly` states when it holds in terms of the input name |
| Runner.NoInputExactly | ndjson-to-csv.js:20-22 | the no-input error happens exactly when standard input is a terminal and the input name is missing, `-` or `/dev/stdin` |
| Runner.RowCovered | ndjson-to-csv.js:24-26 | the array handed to the body pass has no duplicate, in either order, and holds every key of every row |
| Runner.Run | ndjson-to-csv.js:19-34 | a run fails exactly when there is no input or the header pass rejects. The no-input check comes first and fails with `Error: no input`; otherwise a header-pass error ends the run with that error's own message. On success the headers are the discovered ones and there is one output row per input row. Each output row has exactly the headers as keys, in discovered or reversed order by row parity, and each cell holds the row's value or `''` |
| ExampleRuns.ExampleStreamKeys | ndjson-to-csv.js:40 | the example stream's rows contribute the keys `a`, `b`, `a`, `b` in order |
| ExampleRuns.ExampleStreamSet | ndjson-to-csv.js:41 | a set built from the keys `a`, `b`, `a`, `b` lists `a`, `b` |
| ExampleRuns.UnionExample | ndjson-to-csv.js:39-42 | the rows `{"a":1}`, `{"b":2}`, `{"a":3,"b":4}` give the headers `a`, `b` |
| ExampleRuns.SecondRowExample | ndjson-to-csv.js:49-52 | the second row of that stream is projected with keys `b`, `a`, with `a` blank and `b` set to 2 |
| ExampleRuns.ExtraKeyKeptExample | ndjson-to-csv.js:51 | a row `{"d":3}` projected against headers `a` keeps `d` after `a` |

## Left out

- `cli.js` is not part of this model. It covers option parsing, the progress bar, console output and the process exit code.
- `setup` (ndjson-to-csv.js:9-17) is not modelled. It parses the command line with Yargs; the model takes its result as the `input` parameter of `Run`.
- Opening and reading files, NDJSON parsing, the CSV writer and the pipe to standard output are not modelled (ndjson-to-csv.js:26-28, 37-38, 47-48). They are library calls and I/O. `Run` takes the parsed rows as a sequence and returns the headers and the projected body.
- Run: assumes the second read of the input yields the same rows as the first. That holds for a regular file. With `-` or no input name and a pipe on standard input, line 47 opens `/dev/stdin` again after the header pass has drained the pipe. The body pass then plausibly reads no rows, so `|body| == |rows|` does not describe that invocation. What the second open returns is operating-system behaviour, outside this model.
- Run: each row is taken already flattened, as a list of distinct keys with values. The `flat` library is not part of this model, so neither are its treatment of nesting and arrays.
- Run: the `console.error` progress messages (ndjson-to-csv.js:23, 25) are not modelled. The catch block's message and `Process.exit(1)` are modelled as a `Failure` holding the caught error's message.
- Run: a rejection of the header pass (ndjson-to-csv.js:24) is taken as the parameter `headerError`. A file that cannot be opened or read, a line that is not JSON, or a throw inside the reduce each reject it with a message from Node.js or a library. Those messages are not part of this model.
- The `await` on the header pass and the Promise plumbing are not modelled (ndjson-to-csv.js:24, 43). Stream errors in the body pass, which the `try` does not catch, are not modelled either.
- Runner.ResolveInput: the input name is modelled as a missing value or a string. A non-string argument from the option parser is not modelled.
- Runner.NoInput: `Process.stdin.isTTY === true` is modelled as a boolean parameter.
- JsObject.Keys: keys enumerate in insertion order. JavaScript's rule that integer-like keys come first, and the special `__proto__` key, are not modelled.
- JsObject.Scalar: numbers are modelled as integers. Cell values are never inspected by the core, so floating point plays no part.
- Retain paths, array retention, first-row headers, header-only output and progress callbacks are not modelled. `run` in ndjson-to-csv.js takes only the input name and implements none of them.
- How the CSV writer picks its columns from the projected rows is not part of this model. The alternating key order proved above therefore has no stated effect on the CSV text.
