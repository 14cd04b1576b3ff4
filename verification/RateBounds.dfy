/** How many requests a limiter lets through, from the times alone. */
module RateBounds {
  import opened RateLimit

  function RpmOf(conf: Limits, kind: Kind): (rpm: nat)
    ensures rpm > 0
  {
    if kind == Auth then conf.authRPM else conf.generalRPM
  }

  /** When the requests of one client and kind that were allowed took their tokens. */
  function AllowedTimes(run: seq<Request>, answers: seq<bool>, ip: string, kind: Kind): seq<nat>
    requires |run| == |answers|
  {
    if run == [] then []
    else
      var n := |run| - 1;
      AllowedTimes(run[..n], answers[..n], ip, kind)
      + if answers[n] && run[n].ip == ip && run[n].kind == kind then [run[n].taken] else []
  }

  /** With one more request at time t, no time up to then has more than rpm requests and one for each interval. */
  ghost predicate Fits(times: seq<nat>, rpm: nat, t: nat)
    requires rpm > 0
  {
    forall i :: 0 <= i < |times| ==> TokensFit(|times| - i + 1, rpm, times[i], t)
  }

  /** So many tokens can be taken between these times: rpm at once, and one more in each interval. */
  predicate TokensFit(count: nat, rpm: nat, from: nat, to: nat)
    requires rpm > 0
  {
    count * (MINUTE / rpm) + from <= rpm * (MINUTE / rpm) + to
  }

  predicate Increasing(times: seq<nat>) {
    forall i, j :: 0 <= i <= j < |times| ==> times[i] <= times[j]
  }

  // ---------------------------------------------------------------------------------------------
  // The bucket as a function of these times
  // ---------------------------------------------------------------------------------------------

  function LevelAfter(times: seq<nat>, rpm: nat, t: nat): int
    requires rpm > 0
  {
    if times == [] then Full(rpm)
    else
      var n := |times| - 1;
      var level := LevelAfter(times[..n], rpm, times[n]) - Interval(rpm) + t - times[n];
      if level > Full(rpm) then Full(rpm) else level
  }

  /** The level leaves room for x exactly when every stretch of time up to t does. */
  lemma {:induction false} LevelLeaves(times: seq<nat>, rpm: nat, t: nat, x: int)
    requires rpm > 0
    ensures x <= LevelAfter(times, rpm, t) <==>
            && x <= Full(rpm)
            && forall i :: 0 <= i < |times| ==> x <= Full(rpm) - (|times| - i) * Interval(rpm) + t - times[i]
  {
    if times != [] {
      var n := |times| - 1;
      var y := x + Interval(rpm) - t + times[n];
      LevelLeaves(times[..n], rpm, times[n], y);
      forall i | 0 <= i < n
        ensures x <= Full(rpm) - (|times| - i) * Interval(rpm) + t - times[i] <==>
                y <= Full(rpm) - (n - i) * Interval(rpm) + times[n] - times[..n][i]
      {
        assert (|times| - i) * Interval(rpm) == (n - i) * Interval(rpm) + Interval(rpm);
      }
    }
  }

  lemma LevelFits(times: seq<nat>, rpm: nat, t: nat)
    requires rpm > 0
    ensures Interval(rpm) <= LevelAfter(times, rpm, t) <==> Fits(times, rpm, t)
  {
    LevelLeaves(times, rpm, t, Interval(rpm));
    FullIsBounded(rpm);
    forall i | 0 <= i < |times|
      ensures Interval(rpm) <= Full(rpm) - (|times| - i) * Interval(rpm) + t - times[i] <==>
              TokensFit(|times| - i + 1, rpm, times[i], t)
    {
      assert (|times| - i + 1) * Interval(rpm) == (|times| - i) * Interval(rpm) + Interval(rpm);
    }
  }

  /** The bucket after tokens were taken at these times. */
  function BucketAfter(times: seq<nat>, rpm: nat): Bucket
    requires rpm > 0
  {
    if times == [] then NewBucket(rpm)
    else
      var n := |times| - 1;
      Bucket(LevelAfter(times[..n], rpm, times[n]) - Interval(rpm), times[n])
  }

  lemma LevelOfBucket(times: seq<nat>, rpm: nat, t: nat)
    requires rpm > 0 && (times != [] ==> times[|times| - 1] <= t)
    ensures Level(BucketAfter(times, rpm), rpm, t) == LevelAfter(times, rpm, t)
  {
  }

  lemma AllowedNext(times: seq<nat>, rpm: nat, t: nat)
    requires rpm > 0 && Interval(rpm) > 0 && (times != [] ==> times[|times| - 1] <= t)
    ensures var (b, ok) := AllowOf(BucketAfter(times, rpm), rpm, t);
            && (ok <==> Fits(times, rpm, t))
            && b == BucketAfter(if ok then times + [t] else times, rpm)
  {
    LevelOfBucket(times, rpm, t);
    LevelFits(times, rpm, t);
    assert (times + [t])[..|times|] == times;
  }

  // ---------------------------------------------------------------------------------------------
  // Runs
  // ---------------------------------------------------------------------------------------------

  function ClientBucket(conf: Limits, m: Clients, ip: string, kind: Kind): Bucket {
    if ip !in m then NewBucket(RpmOf(conf, kind)) else if kind == Auth then m[ip].auth else m[ip].general
  }

  /** A request touches one bucket only, and by its own token. */
  lemma HandledBucket(conf: Limits, m: Clients, r: Request, ip: string, kind: Kind)
    requires kind != Thumbnail
    ensures var (m', ok) := HandleOf(conf, false, m, r);
            if r.ip == ip && r.kind == kind
            then
              (ClientBucket(conf, m', ip, kind), ok)
              == AllowOf(ClientBucket(conf, m, ip, kind), RpmOf(conf, kind), r.taken)
            else ClientBucket(conf, m', ip, kind) == ClientBucket(conf, m, ip, kind)
  {
  }

  lemma {:induction false} SequentialFront(run: seq<Request>, now: nat)
    requires Sequential(run, now) && run != []
    ensures var n := |run| - 1;
            && Sequential(run[..n], now) && now <= run[n].taken
            && forall r :: r in run ==> r.taken <= run[n].taken
    decreases |run|
  {
    var n := |run| - 1;
    if n > 0 {
      SequentialFront(run[1..], run[0].taken);
      assert run[1..][..n - 1] == run[..n][1..];
    }
  }

  lemma AnswersOneMore(conf: Limits, run: seq<Request>)
    requires run != []
    ensures var n := |run| - 1;
            var (m, ok) := HandleOf(conf, false, After(conf, false, map[], run[..n]), run[n]);
            && Answers(conf, false, map[], run)[..n] == Answers(conf, false, map[], run[..n])
            && Answers(conf, false, map[], run)[n] == ok && After(conf, false, map[], run) == m
  {
    var n := |run| - 1;
    assert run == run[..n] + [run[n]];
    AnswersConcat(conf, false, map[], run[..n], [run[n]]);
    AfterOneMore(conf, false, run[..n], run[n]);
    assert [run[n]][1..] == [];
  }

  /** Any stretch of these times keeps to the limit. */
  ghost predicate KeepsLimit(times: seq<nat>, rpm: nat)
    requires rpm > 0
  {
    forall i: nat, j: nat :: i <= j < |times| ==> TokensFit(1 + j - i, rpm, times[i], times[j])
  }

  lemma LimitKept(times: seq<nat>, rpm: nat, t: nat)
    requires rpm > 0 && KeepsLimit(times, rpm) && Fits(times, rpm, t)
    ensures KeepsLimit(times + [t], rpm)
  {
    var more := times + [t];
    forall i: nat, j: nat | i <= j < |more| ensures TokensFit(1 + j - i, rpm, more[i], more[j]) {
      if j < |times| {
        assert TokensFit(1 + j - i, rpm, times[i], times[j]);
      } else if i < j {
        assert TokensFit(|times| - i + 1, rpm, times[i], t);
      } else {
        FullIsBounded(rpm);
      }
    }
  }

  /** The bucket is as these times leave it, and they keep to the limit. */
  ghost predicate Tracks(b: Bucket, times: seq<nat>, rpm: nat, now: nat)
    requires rpm > 0
  {
    b == BucketAfter(times, rpm) && KeepsLimit(times, rpm) && forall t :: t in times ==> t <= now
  }

  lemma TakenTracks(b: Bucket, times: seq<nat>, rpm: nat, now: nat, t: nat)
    requires rpm > 0 && Interval(rpm) > 0 && Tracks(b, times, rpm, now) && now <= t
    ensures var (b', ok) := AllowOf(b, rpm, t);
            (ok <==> Fits(times, rpm, t)) && Tracks(b', times + if ok then [t] else [], rpm, t)
  {
    assert times != [] ==> times[|times| - 1] in times;
    AllowedNext(times, rpm, t);
    if Fits(times, rpm, t) {
      LimitKept(times, rpm, t);
    } else {
      assert times + [] == times;
    }
  }

  function TimesOf(conf: Limits, run: seq<Request>, ip: string, kind: Kind): seq<nat> {
    AllowedTimes(run, Answers(conf, false, map[], run), ip, kind)
  }

  lemma TimesOneMore(conf: Limits, run: seq<Request>, ip: string, kind: Kind)
    requires run != []
    ensures var n := |run| - 1;
            var ok := HandleOf(conf, false, After(conf, false, map[], run[..n]), run[n]).1;
            TimesOf(conf, run, ip, kind) ==
              TimesOf(conf, run[..n], ip, kind)
              + if ok && run[n].ip == ip && run[n].kind == kind then [run[n].taken] else []
  {
    AnswersOneMore(conf, run);
  }

  lemma {:induction false} RunTracks(conf: Limits, run: seq<Request>, ip: string, kind: Kind, now: nat)
    requires Sequential(run, 0) && kind != Thumbnail && Interval(RpmOf(conf, kind)) > 0
    requires forall r :: r in run ==> r.taken <= now
    ensures Tracks(ClientBucket(conf, After(conf, false, map[], run), ip, kind), TimesOf(conf, run, ip, kind),
                   RpmOf(conf, kind), now)
  {
    if run != [] {
      var n := |run| - 1;
      SequentialFront(run, 0);
      AnswersOneMore(conf, run);
      TimesOneMore(conf, run, ip, kind);
      RunTracks(conf, run[..n], ip, kind, run[n].taken);
      var times, m := TimesOf(conf, run[..n], ip, kind), After(conf, false, map[], run[..n]);
      HandledBucket(conf, m, run[n], ip, kind);
      if run[n].ip == ip && run[n].kind == kind {
        TakenTracks(ClientBucket(conf, m, ip, kind), times, RpmOf(conf, kind), run[n].taken, run[n].taken);
      } else {
        assert times + [] == times;
      }
      assert run[n] in run;
    }
  }

  lemma SequentialPrefix(run: seq<Request>, k: nat)
    requires Sequential(run, 0) && k <= |run|
    ensures Sequential(run[..k], 0)
    decreases |run| - k
  {
    if k == |run| {
      assert run[..k] == run;
    } else {
      SequentialPrefix(run, k + 1);
      SequentialFront(run[..k + 1], 0);
      assert run[..k + 1][..k] == run[..k];
    }
  }

  lemma AnswersOfPrefix(conf: Limits, run: seq<Request>, k: nat)
    requires k <= |run|
    ensures Answers(conf, false, map[], run)[..k] == Answers(conf, false, map[], run[..k])
  {
    assert run == run[..k] + run[k..];
    AnswersConcat(conf, false, map[], run[..k], run[k..]);
  }

  /**
   Each answer is decided by the times at which requests of the same client and kind were allowed before:
   a request is allowed exactly when no stretch of time that ends with it gets more tokens than rpm and
   one for each interval.  Thumbnails are always allowed.  With evictions too, if no request takes more than
   nine minutes.
   */
  lemma AnswersAreExact(conf: Limits, evicting: bool, run: seq<Request>, k: nat)
    requires Sequential(run, 0) && k < |run| && (evicting ==> Prompt(run, 9 * MINUTE))
    ensures var answers, rpm := Answers(conf, evicting, map[], run), RpmOf(conf, run[k].kind);
            answers[k] <==>
              || run[k].kind == Thumbnail || MINUTE / rpm == 0
              || Fits(AllowedTimes(run[..k], answers[..k], run[k].ip, run[k].kind), rpm, run[k].taken)
  {
    NineMinutesAreSafe(conf, run);
    SequentialPrefix(run, k);
    SequentialPrefix(run, k + 1);
    SequentialFront(run[..k + 1], 0);
    AnswersOfPrefix(conf, run, k);
    AnswersOfPrefix(conf, run, k + 1);
    AnswersOneMore(conf, run[..k + 1]);
    assert run[..k + 1][..k] == run[..k] && run[..k + 1][k] == run[k];
    assert Answers(conf, false, map[], run)[k] == Answers(conf, false, map[], run)[..k + 1][k];
    ExactNext(conf, run[..k], run[k]);
  }

  lemma ExactNext(conf: Limits, run: seq<Request>, r: Request)
    requires Sequential(run, 0) && forall x :: x in run ==> x.taken <= r.taken
    ensures var rpm := RpmOf(conf, r.kind);
            var times := AllowedTimes(run, Answers(conf, false, map[], run), r.ip, r.kind);
            HandleOf(conf, false, After(conf, false, map[], run), r).1 <==>
              r.kind == Thumbnail || MINUTE / rpm == 0 || Fits(times, rpm, r.taken)
  {
    if r.kind != Thumbnail {
      var m := After(conf, false, map[], run);
      HandledBucket(conf, m, r, r.ip, r.kind);
      if Interval(RpmOf(conf, r.kind)) > 0 {
        RunTracks(conf, run, r.ip, r.kind, r.taken);
        TakenTracks(ClientBucket(conf, m, r.ip, r.kind), TimesOf(conf, run, r.ip, r.kind), RpmOf(conf, r.kind),
                    r.taken, r.taken);
      }
    }
  }

  /** From one allowed request to a later one of the same client and kind: at most rpm and one for each interval. */
  lemma AllowedWithinAnyTime(conf: Limits, evicting: bool, run: seq<Request>, ip: string, kind: Kind, i: nat, j: nat)
    requires Sequential(run, 0) && (evicting ==> Prompt(run, 9 * MINUTE))
    requires kind != Thumbnail && MINUTE / RpmOf(conf, kind) > 0
    requires i <= j < |AllowedTimes(run, Answers(conf, evicting, map[], run), ip, kind)|
    ensures var times, rpm := AllowedTimes(run, Answers(conf, evicting, map[], run), ip, kind), RpmOf(conf, kind);
            times[i] <= times[j] && 1 + j - i <= rpm + (times[j] - times[i]) / (MINUTE / rpm)
  {
    NineMinutesAreSafe(conf, run);
    var times := TimesOf(conf, run, ip, kind);
    KeptWithoutEvictions(conf, run, ip, kind);
    assert times[i] <= times[j];
    StretchFits(times, RpmOf(conf, kind), i, j);
  }

  lemma KeptWithoutEvictions(conf: Limits, run: seq<Request>, ip: string, kind: Kind)
    requires Sequential(run, 0) && kind != Thumbnail && MINUTE / RpmOf(conf, kind) > 0
    ensures KeepsLimit(TimesOf(conf, run, ip, kind), RpmOf(conf, kind)) && Increasing(TimesOf(conf, run, ip, kind))
  {
    var now := LastTaken(run);
    RunTracks(conf, run, ip, kind, now);
    TimesIncrease(run, Answers(conf, false, map[], run), ip, kind, 0);
  }

  lemma LastTaken(run: seq<Request>) returns (now: nat)
    requires Sequential(run, 0)
    ensures forall r :: r in run ==> r.taken <= now
  {
    if run == [] {
      now := 0;
    } else {
      SequentialFront(run, 0);
      now := run[|run| - 1].taken;
    }
  }

  lemma StretchFits(times: seq<nat>, rpm: nat, i: nat, j: nat)
    requires rpm > 0 && MINUTE / rpm > 0 && KeepsLimit(times, rpm) && i <= j < |times| && times[i] <= times[j]
    ensures 1 + j - i <= rpm + (times[j] - times[i]) / (MINUTE / rpm)
  {
    assert TokensFit(1 + j - i, rpm, times[i], times[j]);
    CountFits(1 + j - i, rpm, times[j] - times[i], MINUTE / rpm);
  }

  lemma CountFits(count: nat, rpm: nat, time: nat, interval: nat)
    requires interval > 0 && count * interval <= rpm * interval + time
    ensures count <= rpm + time / interval
  {
    var k := time / interval;
    assert time < k * interval + interval;
    assert (rpm + k + 1) * interval == rpm * interval + k * interval + interval;
    ProductGrows(rpm + k + 1, count, interval);
  }

  lemma ProductGrows(a: nat, b: nat, c: nat)
    ensures a <= b ==> a * c <= b * c
  {
    assert b * c == a * c + (b - a) * c;
  }

  lemma {:induction false} TimesIncrease(run: seq<Request>, answers: seq<bool>, ip: string, kind: Kind, now: nat)
    requires Sequential(run, now) && |run| == |answers|
    ensures Increasing(AllowedTimes(run, answers, ip, kind))
    ensures forall t :: t in AllowedTimes(run, answers, ip, kind) ==> run != [] && t <= run[|run| - 1].taken
  {
    if run != [] {
      var n := |run| - 1;
      SequentialFront(run, now);
      TimesIncrease(run[..n], answers[..n], ip, kind, now);
      var times := AllowedTimes(run[..n], answers[..n], ip, kind);
      assert n > 0 ==> run[n - 1] in run;
      forall i | 0 <= i < |times| ensures times[i] <= run[n].taken {
        assert times[i] in times;
      }
    }
  }

  // ---------------------------------------------------------------------------------------------
  // A burst
  // ---------------------------------------------------------------------------------------------

  /** n requests of one kind at one moment. */
  function AtOnce(ip: string, kind: Kind, t: nat, n: nat): (run: seq<Request>)
    ensures |run| == n
  {
    if n == 0 then [] else [Request(ip, kind, t, t, t)] + AtOnce(ip, kind, t, n - 1)
  }

  /** The bucket of this kind has exactly so many tokens. */
  predicate Left(conf: Limits, m: Clients, ip: string, kind: Kind, t: nat, left: nat) {
    Level(ClientBucket(conf, m, ip, kind), RpmOf(conf, kind), t) == left * Interval(RpmOf(conf, kind))
  }

  lemma TakeOne(b: Bucket, rpm: nat, t: nat, left: nat)
    requires rpm > 0 && Interval(rpm) > 0 && Level(b, rpm, t) == left * Interval(rpm)
    ensures AllowOf(b, rpm, t).1 <==> left > 0
    ensures Level(AllowOf(b, rpm, t).0, rpm, t) == (if left > 0 then left - 1 else 0) * Interval(rpm)
  {
    if left > 0 {
      assert left * Interval(rpm) == (left - 1) * Interval(rpm) + Interval(rpm);
    }
  }

  /** Requests that take no time: the client is not collected meanwhile. */
  lemma OneOfMany(conf: Limits, evicting: bool, m: Clients, r: Request, left: nat)
    requires r.kind != Thumbnail && Interval(RpmOf(conf, r.kind)) > 0 && r.seen == r.collected == r.taken
    requires Left(conf, m, r.ip, r.kind, r.taken, left)
    ensures var (m', ok) := HandleOf(conf, evicting, m, r);
            && (ok <==> left > 0)
            && Left(conf, m', r.ip, r.kind, r.taken, if left > 0 then left - 1 else 0)
  {
    TakeOne(ClientBucket(conf, m, r.ip, r.kind), RpmOf(conf, r.kind), r.taken, left);
    OwnBucket(conf, evicting, m, r);
  }

  lemma OwnBucket(conf: Limits, evicting: bool, m: Clients, r: Request)
    requires r.kind != Thumbnail && r.seen == r.collected
    ensures var (m', ok) := HandleOf(conf, evicting, m, r);
            (ClientBucket(conf, m', r.ip, r.kind), ok)
            == AllowOf(ClientBucket(conf, m, r.ip, r.kind), RpmOf(conf, r.kind), r.taken)
  {
  }

  lemma AnswersFrom(conf: Limits, evicting: bool, m: Clients, r: Request, rest: seq<Request>)
    ensures var (m', ok) := HandleOf(conf, evicting, m, r);
            Answers(conf, evicting, m, [r] + rest) == [ok] + Answers(conf, evicting, m', rest)
  {
    assert ([r] + rest)[1..] == rest;
  }

  /** With so many tokens left, so many of the requests are allowed. */
  lemma {:induction false} BurstFrom(conf: Limits, evicting: bool, m: Clients, ip: string, kind: Kind, t: nat, n: nat,
                                     left: nat, k: nat)
    requires kind != Thumbnail && Interval(RpmOf(conf, kind)) > 0 && Left(conf, m, ip, kind, t, left) && k < n
    ensures Answers(conf, evicting, m, AtOnce(ip, kind, t, n))[k] <==> k < left
    decreases n
  {
    var r := Request(ip, kind, t, t, t);
    OneOfMany(conf, evicting, m, r, left);
    AnswersFrom(conf, evicting, m, r, AtOnce(ip, kind, t, n - 1));
    if k > 0 {
      BurstFrom(conf, evicting, HandleOf(conf, evicting, m, r).0, ip, kind, t, n - 1,
                if left > 0 then left - 1 else 0, k - 1);
    }
  }

  /** A client that is not in the map and sends n requests of one kind at one moment: the first rpm are allowed. */
  lemma FirstBurst(conf: Limits, evicting: bool, m: Clients, ip: string, kind: Kind, t: nat, n: nat, k: nat)
    requires ip !in m && kind != Thumbnail && MINUTE / RpmOf(conf, kind) > 0 && k < n
    ensures Answers(conf, evicting, m, AtOnce(ip, kind, t, n))[k] <==> k < RpmOf(conf, kind)
  {
    BurstFrom(conf, evicting, m, ip, kind, t, n, RpmOf(conf, kind), k);
  }
}
