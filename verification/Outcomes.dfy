/** What requests over a list of paths answer: each path is done or failed. */
module Outcomes {
  import opened Wrappers

  datatype Failure<P, R> = Failure(path: P, reason: R)

  /** The answer of requests that take one path at a time. */
  datatype Report<P, R> = Report(done: seq<P>, failed: seq<Failure<P, R>>)

  function Reported<P, R>(r: Report<P, R>, p: P, failure: Option<R>): Report<P, R> {
    match failure
    case Some(reason) => r.(failed := r.failed + [Failure(p, reason)])
    case None => r.(done := r.done + [p])
  }

  function FailedPaths<P, R>(failed: seq<Failure<P, R>>): (paths: seq<P>)
    ensures |paths| == |failed|
  {
    if failed == [] then [] else FailedPaths(failed[..|failed| - 1]) + [failed[|failed| - 1].path]
  }

  /** Each path is done or failed, once for each time it was asked for. */
  ghost predicate OneOutcomeEach<P>(asked: seq<P>, done: seq<P>, failed: seq<P>) {
    && |done| + |failed| == |asked|
    && multiset(done) + multiset(failed) == multiset(asked)
  }

  lemma FailedOneMore<P, R>(failed: seq<Failure<P, R>>, f: Failure<P, R>)
    ensures FailedPaths(failed + [f]) == FailedPaths(failed) + [f.path]
  {
    assert (failed + [f])[..|failed|] == failed;
  }

  lemma RecordedOnce<P, R>(asked: seq<P>, r: Report<P, R>, p: P, failure: Option<R>)
    requires OneOutcomeEach(asked, r.done, FailedPaths(r.failed))
    ensures OneOutcomeEach(asked + [p], Reported(r, p, failure).done, FailedPaths(Reported(r, p, failure).failed))
  {
    if failure.Some? {
      FailedOneMore(r.failed, Failure(p, failure.value));
    }
  }

  // Reading an answer: the outcomes one after the other.

  /** The paths without a failure, in order. */
  function DoneAmong<P, R>(asked: seq<P>, failures: seq<Option<R>>): seq<P>
    requires |asked| == |failures|
  {
    if asked == [] then []
    else
      var n := |asked| - 1;
      DoneAmong(asked[..n], failures[..n]) + if failures[n].None? then [asked[n]] else []
  }

  /** The others with their failures, in order. */
  function FailedAmong<P, R>(asked: seq<P>, failures: seq<Option<R>>): seq<Failure<P, R>>
    requires |asked| == |failures|
  {
    if asked == [] then []
    else
      var n := |asked| - 1;
      FailedAmong(asked[..n], failures[..n]) + if failures[n].None? then [] else [Failure(asked[n], failures[n].value)]
  }

  /** The answer lists exactly these outcomes. */
  ghost predicate Lists<P, R>(r: Report<P, R>, asked: seq<P>, failures: seq<Option<R>>) {
    |asked| == |failures| && r.done == DoneAmong(asked, failures) && r.failed == FailedAmong(asked, failures)
  }

  lemma ListsOneMore<P, R>(r: Report<P, R>, asked: seq<P>, failures: seq<Option<R>>, p: P, failure: Option<R>)
    requires Lists(r, asked, failures)
    ensures Lists(Reported(r, p, failure), asked + [p], failures + [failure])
  {
    assert (asked + [p])[..|asked|] == asked && (failures + [failure])[..|asked|] == failures;
  }
}
