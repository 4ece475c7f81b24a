/** `merge_input_and_output_stream` of `connection.rs`: the input stream's items and errors and
    the output stream's items are merged by futures' `Select` into one stream of `Connection`s.
    Input errors are answers to send back, so they are tagged `Output`; an error of the output
    stream ends the merged stream with `ConnectionError`. */
module Connection {
  import opened Results
  import opened Streams

  datatype Connection<T> = Input(value: T) | Output(value: T)

  datatype ConnectionError = ConnectionError

  type Merged<T> = Result<Connection<T>, ConnectionError>

  /** The input side: `map(Connection::Input)` then `or_else` tagging errors as `Output`. */
  function InputItem<T>(item: Result<T, T>): (r: Merged<T>)
    ensures r.Ok?
    ensures r.value.Input? <==> item.Ok?
    ensures r.value.value == if item.Ok? then item.value else item.error
  {
    match item
    case Ok(v) => Ok(Input(v))
    case Err(v) => Ok(Output(v))
  }

  /** The output side: `map(Connection::Output)` then `map_err(ConnectionError)`. */
  function OutputItem<T>(item: Result<T, ()>): (r: Merged<T>)
    ensures r.Ok? <==> item.Ok?
    ensures r.Ok? ==> r.value == Output(item.value)
  {
    match item
    case Ok(v) => Ok(Output(v))
    case Err(_) => Err(ConnectionError)
  }

  function InputSide<T>(input: seq<Result<T, T>>): (r: seq<Merged<T>>)
    ensures |r| == |input| && forall i | 0 <= i < |input| :: r[i] == InputItem(input[i])
  {
    seq(|input|, i requires 0 <= i < |input| => InputItem(input[i]))
  }

  function OutputSide<T>(output: seq<Result<T, ()>>): (r: seq<Merged<T>>)
    ensures |r| == |output| && forall i | 0 <= i < |output| :: r[i] == OutputItem(output[i])
  {
    seq(|output|, i requires 0 <= i < |output| => OutputItem(output[i]))
  }

  // ---------------------------------------------------------------------------------------------
  // futures 0.1 `Select`
  // ---------------------------------------------------------------------------------------------

  /** `Select`: both fused streams and the flag that says which one is polled first. */
  datatype Select<X, Er> = Select(flag: bool, stream1: seq<Result<X, Er>>, stream2: seq<Result<X, Er>>)

  /** The outcome of one `poll`: an item, an error, or the end of both streams. */
  datatype Polled<X, Er> = Ready(item: X) | Failed(error: Er) | Finished

  function Size<X, Er>(s: Select<X, Er>): nat
  {
    |s.stream1| + |s.stream2|
  }

  /** One `Select::poll`. The flag picks which stream goes first and is flipped on every poll;
      the first stream's item or error is returned at once; only when it has ended is the other
      polled, and when both have ended the merged stream ends. The re-flip for a first stream that
      is not ready cannot happen: these streams are always ready. */
  function Poll<X, Er>(s: Select<X, Er>): (r: (Polled<X, Er>, Select<X, Er>))
    ensures r.0.Finished? <==> Size(s) == 0
    ensures r.0.Finished? ==> r.1 == s.(flag := !s.flag)
    ensures !r.0.Finished? ==> Size(r.1) == Size(s) - 1
  {
    var (a, b) := if s.flag then (s.stream2, s.stream1) else (s.stream1, s.stream2);
    var flipped := !s.flag;
    if |a| > 0 then
      var rest := if s.flag then Select(flipped, s.stream1, a[1..]) else Select(flipped, a[1..], s.stream2);
      match a[0]
      case Ok(x) => (Ready(x), rest)
      case Err(e) => (Failed(e), rest)
    else if |b| > 0 then
      var rest := if s.flag then Select(flipped, b[1..], s.stream2) else Select(flipped, s.stream1, b[1..]);
      match b[0]
      case Ok(x) => (Ready(x), rest)
      case Err(e) => (Failed(e), rest)
    else
      (Finished, Select(flipped, s.stream1, s.stream2))
  }

  /** `collect` on a `Select`: poll until the end or the first error. */
  function CollectSelect<X, Er>(s: Select<X, Er>): Result<seq<X>, Er>
    decreases Size(s)
  {
    var (p, next) := Poll(s);
    match p
    case Finished => Ok([])
    case Failed(e) => Err(e)
    case Ready(x) =>
      match CollectSelect(next)
      case Ok(xs) => Ok([x] + xs)
      case Err(e) => Err(e)
  }

  /** The order `Select` takes items in, stated directly: one from `first`, one from `second`,
      and so on, and whatever is left of the longer one at the end. */
  function Interleave<A>(first: seq<A>, second: seq<A>): (r: seq<A>)
    ensures |r| == |first| + |second|
    decreases |first| + |second|
  {
    if |first| == 0 then second else [first[0]] + Interleave(second, first[1..])
  }

  lemma {:induction false} InterleaveEmpty<A>(first: seq<A>)
    ensures Interleave(first, []) == first
  {
    if |first| > 0 {
      assert Interleave([], first[1..]) == first[1..];
    }
  }

  /** Collecting `[x] + rest` is collecting `rest` behind `x`. */
  lemma CollectCons<X, Er>(x: Result<X, Er>, rest: seq<Result<X, Er>>)
    ensures Collect([x] + rest) == match x
      case Err(e) => Err(e)
      case Ok(v) => (match Collect(rest) case Ok(vs) => Ok([v] + vs) case Err(e) => Err(e))
  {
    assert ([x] + rest)[1..] == rest;
  }

  /** The stream a `Select` is about to yield, with the stream its flag favours first. */
  function Pending<X, Er>(s: Select<X, Er>): seq<Result<X, Er>>
  {
    if s.flag then Interleave(s.stream2, s.stream1) else Interleave(s.stream1, s.stream2)
  }

  /** The poll machine yields exactly the interleaving, including where an error cuts it short. */
  lemma {:induction false} SelectInterleaves<X, Er>(s: Select<X, Er>)
    ensures CollectSelect(s) == Collect(Pending(s))
    decreases Size(s)
  {
    var (p, next) := Poll(s);
    var (a, b) := if s.flag then (s.stream2, s.stream1) else (s.stream1, s.stream2);
    if |a| > 0 {
      assert Pending(s) == [a[0]] + Pending(next);
      CollectCons(a[0], Pending(next));
      SelectInterleaves(next);
    } else if |b| > 0 {
      InterleaveEmpty(b[1..]);
      assert Pending(next) == b[1..];
      assert Pending(s) == [b[0]] + Pending(next);
      CollectCons(b[0], Pending(next));
      SelectInterleaves(next);
    } else {
      assert Pending(s) == [];
    }
  }

  /** `merge_input_and_output_stream(input, output).collect()`: the merged stream takes the
      input and the output in turn, starting with the input; it fails exactly when the output
      stream has an error, and then with `ConnectionError`; otherwise it holds one item for
      every item or error of both streams. */
  function Merge<T>(input: seq<Result<T, T>>, output: seq<Result<T, ()>>): (r: Result<seq<Connection<T>>, ConnectionError>)
    ensures r == Collect(Interleave(InputSide(input), OutputSide(output)))
    ensures r.Err? <==> exists j | 0 <= j < |output| :: output[j].Err?
    ensures r.Err? ==> r.error == ConnectionError
    ensures r.Ok? ==> |r.value| == |input| + |output|
  {
    SelectInterleaves(Select(false, InputSide(input), OutputSide(output)));
    CollectFailsOnOutputError(input, output);
    CollectSelect(Select(false, InputSide(input), OutputSide(output)))
  }

  // ---------------------------------------------------------------------------------------------
  // Properties of the merged stream
  // ---------------------------------------------------------------------------------------------

  /** The interleaving holds every element of both sides, each as often as the sides do. */
  lemma {:induction false} InterleaveElements<A>(first: seq<A>, second: seq<A>)
    ensures multiset(Interleave(first, second)) == multiset(first) + multiset(second)
    decreases |first| + |second|
  {
    if |first| > 0 {
      InterleaveElements(second, first[1..]);
      assert first == [first[0]] + first[1..];
    }
  }

  /** Collecting the interleaved streams fails exactly when the output stream has an error. */
  lemma CollectFailsOnOutputError<T>(input: seq<Result<T, T>>, output: seq<Result<T, ()>>)
    ensures Collect(Interleave(InputSide(input), OutputSide(output))).Err? <==> exists j | 0 <= j < |output| :: output[j].Err?
    ensures Collect(Interleave(InputSide(input), OutputSide(output))).Err? ==> Collect(Interleave(InputSide(input), OutputSide(output))).error == ConnectionError
    ensures Collect(Interleave(InputSide(input), OutputSide(output))).Ok? ==> |Collect(Interleave(InputSide(input), OutputSide(output))).value| == |input| + |output|
  {
    var xs, ys := InputSide(input), OutputSide(output);
    if exists j | 0 <= j < |output| :: output[j].Err? {
      var j :| 0 <= j < |output| && output[j].Err?;
      InterleaveHasError(xs, ys, j);
    } else {
      InterleaveAllOk(xs, ys);
    }
  }

  /** An error on the second side is somewhere in the interleaving. */
  lemma InterleaveHasError<X, Er>(xs: seq<Result<X, Er>>, ys: seq<Result<X, Er>>, j: nat)
    requires j < |ys| && ys[j].Err?
    ensures exists k | 0 <= k < |Interleave(xs, ys)| :: Interleave(xs, ys)[k].Err?
  {
    var all := Interleave(xs, ys);
    InterleaveElements(xs, ys);
    assert ys[j] in multiset(all);
    var k :| 0 <= k < |all| && all[k] == ys[j];
  }

  /** Interleaving two sides without errors gives no error. */
  lemma InterleaveAllOk<X, Er>(xs: seq<Result<X, Er>>, ys: seq<Result<X, Er>>)
    requires forall i | 0 <= i < |xs| :: xs[i].Ok?
    requires forall j | 0 <= j < |ys| :: ys[j].Ok?
    ensures forall k | 0 <= k < |Interleave(xs, ys)| :: Interleave(xs, ys)[k].Ok?
  {
    var all := Interleave(xs, ys);
    InterleaveElements(xs, ys);
    forall k | 0 <= k < |all| ensures all[k].Ok? {
      assert all[k] in multiset(xs) + multiset(ys);
      if all[k] in multiset(ys) {
        var j :| 0 <= j < |ys| && ys[j] == all[k];
      } else {
        var j :| 0 <= j < |xs| && xs[j] == all[k];
      }
    }
  }

  /** The values tagged `Input`, in order. */
  function Inputs<T>(cs: seq<Connection<T>>): seq<T>
  {
    if |cs| == 0 then [] else (if cs[0].Input? then [cs[0].value] else []) + Inputs(cs[1..])
  }

  /** The items of an input stream, in order. */
  function InputValues<T>(input: seq<Result<T, T>>): seq<T>
  {
    if |input| == 0 then [] else (if input[0].Ok? then [input[0].value] else []) + InputValues(input[1..])
  }

  /** The values `Inputs` keeps from the items an interleaving of two sides yields. */
  function InputsOf<T>(items: seq<Merged<T>>): seq<T>
  {
    if |items| == 0 then []
    else (if items[0].Ok? && items[0].value.Input? then [items[0].value.value] else []) + InputsOf(items[1..])
  }

  lemma {:induction false} InputsOfAppend<T>(a: seq<Merged<T>>, b: seq<Merged<T>>)
    ensures InputsOf(a + b) == InputsOf(a) + InputsOf(b)
  {
    if |a| > 0 {
      assert (a + b)[0] == a[0];
      assert (a + b)[1..] == a[1..] + b;
      InputsOfAppend(a[1..], b);
    } else {
      assert a + b == b;
    }
  }

  /** Interleaving with a side that has no inputs keeps the other side's inputs in order. */
  lemma {:induction false} InterleaveInputs<T>(first: seq<Merged<T>>, second: seq<Merged<T>>)
    requires InputsOf(second) == [] || InputsOf(first) == []
    ensures InputsOf(Interleave(first, second)) == InputsOf(first) + InputsOf(second)
    decreases |first| + |second|
  {
    if |first| > 0 {
      var head: seq<Merged<T>> := [first[0]];
      assert first == head + first[1..];
      InputsOfAppend(head, first[1..]);
      InputsOfAppend(head, Interleave(second, first[1..]));
      if InputsOf(first) == [] {
        assert InputsOf(first[1..]) == [] && InputsOf(head) == [];
      }
      InterleaveInputs(second, first[1..]);
    }
  }

  lemma {:induction false} InputSideInputs<T>(input: seq<Result<T, T>>)
    ensures InputsOf(InputSide(input)) == InputValues(input)
  {
    if |input| > 0 {
      assert InputSide(input)[1..] == InputSide(input[1..]);
      InputSideInputs(input[1..]);
    }
  }

  lemma {:induction false} OutputSideInputs<T>(output: seq<Result<T, ()>>)
    ensures InputsOf(OutputSide(output)) == []
  {
    if |output| > 0 {
      assert OutputSide(output)[1..] == OutputSide(output[1..]);
      OutputSideInputs(output[1..]);
    }
  }

  /** What `collect` keeps of the items' inputs. */
  lemma {:induction false} CollectInputs<T>(items: seq<Merged<T>>)
    requires Collect(items).Ok?
    ensures Inputs(Collect(items).value) == InputsOf(items)
  {
    if |items| > 0 {
      CollectCons(items[0], items[1..]);
      assert items == [items[0]] + items[1..];
      CollectInputs(items[1..]);
      assert Collect(items).value[1..] == Collect(items[1..]).value;
    }
  }

  /** The commands of the input stream reach the merged stream, all of them and in their order. */
  lemma MergeKeepsInputs<T>(input: seq<Result<T, T>>, output: seq<Result<T, ()>>)
    requires Merge(input, output).Ok?
    ensures Inputs(Merge(input, output).value) == InputValues(input)
  {
    OutputSideInputs(output);
    InputSideInputs(input);
    InterleaveInputs(InputSide(input), OutputSide(output));
    CollectInputs(Interleave(InputSide(input), OutputSide(output)));
  }

  // ---------------------------------------------------------------------------------------------
  // The documented merges
  // ---------------------------------------------------------------------------------------------

  /** Two empty streams merge into nothing. */
  lemma EmptyStreams<T>(input: seq<Result<T, T>>, output: seq<Result<T, ()>>)
    requires input == [] && output == []
    ensures Merge(input, output) == Ok([])
  {
  }

  /** Two steps of the interleaving: one from each side. */
  lemma InterleavePair<A>(first: seq<A>, second: seq<A>)
    requires |first| > 0 && |second| > 0
    ensures Interleave(first, second) == [first[0], second[0]] + Interleave(first[1..], second[1..])
  {
  }

  /** Collecting items that are all `Ok` gives their values. */
  lemma CollectAllOk<T>(items: seq<Merged<T>>, cs: seq<Connection<T>>)
    requires |items| == |cs| && forall i | 0 <= i < |items| :: items[i] == Ok(cs[i])
    ensures Collect(items) == Ok(cs)
  {
    assert Collect(items).Ok?;
    assert Collect(items).value == cs;
  }

  /** Input items, input errors and output items alternate, input first; an input error takes
      its place as an output and the longer stream's rest comes last. */
  lemma RoundRobin<T>(i1: T, i2: T, bad: T, i3: T, e1: T, e2: T, e3: T)
    ensures Merge([Ok(i1), Ok(i2), Err(bad), Ok(i3)], [Ok(e1), Ok(e2), Ok(e3)])
         == Ok([Input(i1), Output(e1), Input(i2), Output(e2), Output(bad), Output(e3), Input(i3)])
  {
    var input: seq<Result<T, T>> := [Ok(i1), Ok(i2), Err(bad), Ok(i3)];
    var output: seq<Result<T, ()>> := [Ok(e1), Ok(e2), Ok(e3)];
    var xs, ys := InputSide(input), OutputSide(output);
    FourThree(xs, ys);
    var all := Interleave(xs, ys);
    var cs := [Input(i1), Output(e1), Input(i2), Output(e2), Output(bad), Output(e3), Input(i3)];
    assert xs[0] == Ok(Input(i1)) && xs[1] == Ok(Input(i2)) && xs[2] == Ok(Output(bad)) && xs[3] == Ok(Input(i3));
    assert ys[0] == Ok(Output(e1)) && ys[1] == Ok(Output(e2)) && ys[2] == Ok(Output(e3));
    CollectAllOk(all, cs);
  }

  /** A side of four items and a side of three, interleaved. */
  lemma FourThree<A>(first: seq<A>, second: seq<A>)
    requires |first| == 4 && |second| == 3
    ensures Interleave(first, second)
         == [first[0], second[0], first[1], second[1], first[2], second[2], first[3]]
  {
    InterleavePair(first, second);
    InterleavePair(first[1..], second[1..]);
    InterleavePair(first[2..], second[2..]);
    assert first[1..][1..] == first[2..] && second[1..][1..] == second[2..];
    assert first[2..][1..] == first[3..] && second[2..][1..] == [];
    InterleaveEmpty(first[3..]);
    assert first[3..] == [first[3]];
  }

  /** Input items alone all arrive as inputs, in order. */
  lemma InputsOnly<T>(c1: T, c2: T)
    ensures Merge<T>([Ok(c1), Ok(c2)], []) == Ok([Input(c1), Input(c2)])
  {
    var input: seq<Result<T, T>> := [Ok(c1), Ok(c2)];
    InterleaveEmpty(InputSide(input));
    CollectAllOk(InputSide(input), [Input(c1), Input(c2)]);
  }

  /** Input errors alone are all sent back, in order. */
  lemma InputErrorsOnly<T>(b1: T, b2: T, b3: T)
    ensures Merge<T>([Err(b1), Err(b2), Err(b3)], []) == Ok([Output(b1), Output(b2), Output(b3)])
  {
    var input: seq<Result<T, T>> := [Err(b1), Err(b2), Err(b3)];
    InterleaveEmpty(InputSide(input));
    assert OutputSide<T>([]) == [];
    CollectAllOk(InputSide(input), [Output(b1), Output(b2), Output(b3)]);
  }

  /** Output items alone pass through, in order. */
  lemma OutputOnly<T>(e1: T, e2: T, e3: T)
    ensures Merge<T>([], [Ok(e1), Ok(e2), Ok(e3)]) == Ok([Output(e1), Output(e2), Output(e3)])
  {
    var output: seq<Result<T, ()>> := [Ok(e1), Ok(e2), Ok(e3)];
    assert InputSide<T>([]) == [];
    CollectAllOk(OutputSide(output), [Output(e1), Output(e2), Output(e3)]);
  }
}
