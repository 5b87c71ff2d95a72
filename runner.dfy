/**
 * `run` (ndjson-to-csv.js:19-34): resolves the input name, refuses an interactive
 * standard input, discovers the headers in a first pass over the rows and projects
 * every row against them in a second pass.
 */
module Runner {
  import opened Wrappers
  import opened OrderedKeys
  import opened JsObject
  import opened Headers
  import opened Projection

  /** The file read when no input name is given. */
  const StdinPath: string := "/dev/stdin"

  /** The message of the error thrown when there is nothing to read. */
  const NoInputMessage: string := "Error: no input"

  /**
   * The file to read: standard input when the input name is missing or `-`, the
   * name itself otherwise.
   */
  function ResolveInput(input: Option<string>): (filename: string)
    ensures filename == StdinPath <==> input == None || input.value == "-" || input.value == StdinPath
    ensures filename != StdinPath ==> input == Some(filename)
  {
    if input == None || input.value == "-" then StdinPath else input.value
  }

  /** The no-input error: standard input is a terminal and it is the file to read. */
  predicate NoInput(stdinIsTTY: bool, filename: string) {
    stdinIsTTY && filename == StdinPath
  }

  /**
   * The run fails for want of input exactly when standard input is a terminal and the
   * input name is missing, `-`, or `/dev/stdin` spelled out.
   */
  lemma NoInputExactly(input: Option<string>, stdinIsTTY: bool)
    ensures NoInput(stdinIsTTY, ResolveInput(input)) <==>
      stdinIsTTY && (input == None || input.value == "-" || input.value == StdinPath)
  {
  }

  /** `Object.keys(Flat(row))` of each row of the stream. */
  function RowKeys(rows: seq<Obj>): (keys: seq<seq<string>>)
    ensures |keys| == |rows|
    ensures forall i :: 0 <= i < |rows| ==> keys[i] == Keys(rows[i])
  {
    seq(|rows|, i requires 0 <= i < |rows| => Keys(rows[i]))
  }

  /** What a successful run hands to the CSV writer: the headers and the projected body. */
  datatype Table = Table(headers: seq<string>, body: seq<Obj>)

  /**
   * One run over a source whose flattened rows are `rows`, read once for the headers and
   * once for the body. `headerError` is the message of the error the header pass rejects
   * with, if it does (the file cannot be opened or read, a line is not JSON). The
   * no-input check comes first; either error ends the run with its message. Otherwise
   * every projected row has exactly the discovered headers as keys, in their discovered
   * order on even rows and in reverse order on odd rows; each cell holds the row's value,
   * or `''` where the row lacks that header.
   */
  method Run(input: Option<string>, stdinIsTTY: bool, headerError: Option<string>, rows: seq<Obj>)
    returns (r: Result<Table, string>)
    requires forall i :: 0 <= i < |rows| ==> DistinctKeys(rows[i])
    ensures r.Failure? <==>
      (stdinIsTTY && (input == None || input.value == "-" || input.value == StdinPath)) || headerError.Some?
    ensures r.Failure? ==> (r.error ==
      if stdinIsTTY && (input == None || input.value == "-" || input.value == StdinPath)
      then NoInputMessage else headerError.value)
    ensures r.Success? ==> r.value.headers == Discover(RowKeys(rows)) && |r.value.body| == |rows|
    ensures r.Success? ==>
      forall i :: 0 <= i < |rows| ==> Keys(r.value.body[i]) == Alternate(r.value.headers, i)
    ensures r.Success? ==>
      forall i, k :: 0 <= i < |rows| && k in r.value.headers ==>
        Get(r.value.body[i], k) == if k in Keys(rows[i]) then Get(rows[i], k) else Some(Blank)
  {
    var filename := ResolveInput(input);
    if NoInput(stdinIsTTY, filename) {
      return Failure(NoInputMessage);
    }
    if headerError.Some? {
      return Failure(headerError.value);
    }
    var headers := Discover(RowKeys(rows));
    var shared := new string[|headers|](i requires 0 <= i < |headers| => headers[i]);
    assert shared[..] == headers;
    var body := ProjectRows(shared, rows);
    forall i | 0 <= i < |rows|
      ensures Keys(body[i]) == Alternate(headers, i)
      ensures forall k :: k in headers ==>
        Get(body[i], k) == if k in Keys(rows[i]) then Get(rows[i], k) else Some(Blank)
    {
      RowCovered(rows, i, headers, Alternate(headers, i));
      ProjectExact(Alternate(headers, i), rows[i]);
      forall k | k in headers
        ensures Get(body[i], k) == if k in Keys(rows[i]) then Get(rows[i], k) else Some(Blank)
      {
        ProjectValues(Alternate(headers, i), rows[i], k);
      }
    }
    r := Success(Table(headers, body));
  }

  /**
   * The headers array as any body row sees it holds no duplicate, the same keys as the
   * discovered headers, and every key of every row.
   */
  lemma RowCovered(rows: seq<Obj>, i: nat, headers: seq<string>, entry: seq<string>)
    requires i < |rows|
    requires headers == Discover(RowKeys(rows)) && entry == Alternate(headers, i)
    ensures Distinct(entry)
    ensures forall k :: k in entry <==> k in headers
    ensures forall k :: k in Keys(rows[i]) ==> k in entry
  {
    AlternateParity(headers, i);
    ReversedDistinct(headers);
    forall k
      ensures k in entry <==> k in headers
      ensures k in Keys(rows[i]) ==> k in entry
    {
      ReversedHas(headers, k);
    }
  }
}
