/** Finite, always-ready streams of futures 0.1, as the protocol's stream tests build them with
    `stream::iter_ok`, `stream::iter_result` and `stream::empty`: the sequence of what successive
    polls yield, each an item or an error. */
module Streams {
  import opened Results

  /** `Stream::collect`: every item in order, or the first error; later items are not polled. */
  function Collect<X, Er>(items: seq<Result<X, Er>>): (r: Result<seq<X>, Er>)
    ensures r.Ok? <==> forall i | 0 <= i < |items| :: items[i].Ok?
    ensures r.Ok? ==> |r.value| == |items| && forall i | 0 <= i < |items| :: r.value[i] == items[i].value
    ensures r.Err? ==>
      exists i | 0 <= i < |items| :: items[i] == Err(r.error) && forall j | 0 <= j < i :: items[j].Ok?
  {
    if |items| == 0 then Ok([])
    else
      match items[0]
      case Err(e) => Err(e)
      case Ok(x) =>
        match Collect(items[1..])
        case Ok(xs) => Ok([x] + xs)
        case Err(e) =>
          ghost var i :| 0 <= i < |items[1..]| && items[1..][i] == Err(e) && forall j | 0 <= j < i :: items[1..][j].Ok?;
          assert items[i + 1] == Err(e);
          Err(e)
  }
}
