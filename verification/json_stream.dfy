/** `create_merged_input_stream` of `json_stream.rs`: the input stream's items and errors become
    the items of one stream that never fails, each tagged with where it came from. */
module JsonStream {
  import opened Results
  import opened Streams

  datatype Connection<T, E> = InputError(error: E) | InputCommand(command: T)

  datatype ConnectionError = ConnectionError

  /** What one poll of the merged stream yields for one poll of the input: `map` tags an item as a
      command, `or_else` turns an error into an item. */
  function MergeItem<T, E>(item: Result<T, E>): (r: Result<Connection<T, E>, ConnectionError>)
    ensures r.Ok?
    ensures r.value.InputCommand? <==> item.Ok?
    ensures item.Ok? ==> r.value.command == item.value
    ensures item.Err? ==> r.value.error == item.error
  {
    match item
    case Ok(v) => Ok(InputCommand(v))
    case Err(e) => Ok(InputError(e))
  }

  /** The merged stream: one item for every item or error of the input, in the same order. */
  function MergedInput<T, E>(input: seq<Result<T, E>>): (r: seq<Result<Connection<T, E>, ConnectionError>>)
    ensures |r| == |input|
    ensures forall i | 0 <= i < |input| :: r[i] == MergeItem(input[i])
  {
    seq(|input|, i requires 0 <= i < |input| => MergeItem(input[i]))
  }

  /** What a tagged item says the input yielded. */
  function Unmerge<T, E>(c: Connection<T, E>): Result<T, E>
  {
    match c
    case InputCommand(v) => Ok(v)
    case InputError(e) => Err(e)
  }

  /** Collecting the merged stream never fails, loses nothing, and every collected item tells
      exactly what the input yielded at that position. */
  lemma CollectMerged<T, E>(input: seq<Result<T, E>>)
    ensures Collect(MergedInput(input)).Ok?
    ensures var xs := Collect(MergedInput(input)).value;
      && |xs| == |input|
      && forall i | 0 <= i < |input| :: Unmerge(xs[i]) == input[i]
  {
    var r := MergedInput(input);
    assert forall i | 0 <= i < |r| :: r[i].Ok?;
    var xs := Collect(r).value;
    forall i | 0 <= i < |input| ensures Unmerge(xs[i]) == input[i] {
      assert xs[i] == r[i].value;
    }
  }

  /** An empty input merges into an empty collection. */
  lemma EmptyInput<T, E>(input: seq<Result<T, E>>)
    requires input == []
    ensures Collect(MergedInput(input)) == Ok([])
  {
    CollectMerged(input);
  }

  /** Two commands are collected as two input commands. */
  lemma CommandsOnly<T, E>(c1: T, c2: T)
    ensures Collect(MergedInput<T, E>([Ok(c1), Ok(c2)])) == Ok([InputCommand(c1), InputCommand(c2)])
  {
    var input: seq<Result<T, E>> := [Ok(c1), Ok(c2)];
    CollectMerged(input);
    var xs := Collect(MergedInput(input)).value;
    assert xs[0] == MergeItem(input[0]).value && xs[1] == MergeItem(input[1]).value;
    assert xs == [InputCommand(c1), InputCommand(c2)];
  }

  /** Errors interleaved with commands keep their places in the collected stream. */
  lemma CommandsAndErrors<T, E>(c1: T, c2: T, c3: T, e: E)
    ensures Collect(MergedInput([Ok(c1), Err(e), Err(e), Ok(c2), Err(e), Ok(c3)]))
         == Ok([InputCommand(c1), InputError(e), InputError(e), InputCommand(c2), InputError(e), InputCommand(c3)])
  {
    var input: seq<Result<T, E>> := [Ok(c1), Err(e), Err(e), Ok(c2), Err(e), Ok(c3)];
    CollectMerged(input);
    var xs := Collect(MergedInput(input)).value;
    forall i | 0 <= i < 6 ensures xs[i] == MergeItem(input[i]).value {
    }
    assert xs == [InputCommand(c1), InputError(e), InputError(e), InputCommand(c2), InputError(e), InputCommand(c3)];
  }
}
