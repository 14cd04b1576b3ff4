/**
 What requests for one upload session answer, by what their calls returned: over every interleaving, from
 a record of the calls that is kept beside the machine.
 */
module UploadAnswers {
  import opened Wrappers
  import opened FileTree
  import opened Assembly
  import opened ChunkedUpload
  import opened UploadRaces

  /**
   What the calls of one request returned, as far as they were made.  moved is whether the file got to its
   target, by a rename or a copy; published counts the files that appeared in steps of the request, and
   touched says that one of its steps changed the session, its path or what is published.
   */
  datatype Calls = Calls(found: Option<bool>, inRange: Option<bool>, complete: Option<bool>, reached: Option<bool>,
                         accepted: Option<bool>, resolved: Option<Resolved>, moved: Option<bool>,
                         stat: Option<bool>, published: nat, touched: bool)

  const NO_CALLS := Calls(None, None, None, None, None, None, None, None, 0, false)

  /** The call that a request makes where it is, and its result. */
  function Returned(c: Calls, s: State, th: Thread, luck: Luck): Calls
    requires Proper(s)
  {
    match th.pc
    case Lookup =>
      c.(found := Some(s.registered),
         inRange := if th.op.WriteOp? then Some(0 <= th.op.index < s.upload.totalChunks) else None)
    case Locked =>
      if th.op.WriteOp? then c.(reached := Some(s.linked))
      else c.(complete := Some(forall i :: 0 <= i < |s.upload.received| ==> s.upload.received[i]))
    case Sniff => c.(reached := Some(s.linked), accepted := if s.linked then Some(luck.accepted) else None)
    case Resolve => c.(resolved := Some(luck.resolved))
    case Publish =>
      if s.linked && luck.renames then c.(moved := Some(true))
      else if !s.linked then c.(moved := Some(false))
      else c
    case Copying => c.(moved := Some(luck.copies))
    case StatFinal => c.(stat := Some(luck.stats))
    case _ => c
  }

  /** The record of request t after one more action: its own calls, and what they did to the rest. */
  ghost function Recorded(c: Calls, s: State, a: Action, t: Tid): Calls
    requires Proper(s)
  {
    if a.Advance? && a.tid == t && t in s.threads then
      var s' := Step(s, a);
      var c' := Returned(c, s, s.threads[t], a.luck);
      c'.(published := c.published + if |s'.published| > |s.published| then |s'.published| - |s.published| else 0,
          touched := c.touched || s'.upload != s.upload || s'.published != s.published
                     || s'.linked != s.linked || s'.registered != s.registered)
    else c
  }

  /** The record of request t over a run from s. */
  ghost function Record(c: Calls, s: State, run: seq<Action>, t: Tid): Calls
    requires Proper(s)
    decreases |run|
  {
    if run == [] then c else Record(Recorded(c, s, run[0], t), Step(s, run[0]), run[1..], t)
  }

  // ---------------------------------------------------------------------------------------------
  // The answers
  // ---------------------------------------------------------------------------------------------

  /** A completion is answered with success exactly when every one of its calls worked, in this order. */
  ghost predicate CompletionAnswers(s: State, c: Calls, ok: bool) {
    && (ok <==> c.found == Some(true) && c.complete == Some(true) && c.accepted == Some(true)
                && c.resolved == Some(Goes) && c.moved == Some(true) && c.published == 1 && c.stat == Some(true))
    && c.published == (if c.moved == Some(true) then 1 else 0)
    && (c.moved.Some? ==> c.resolved == Some(Goes))
    && (c.resolved.Some? ==> c.accepted == Some(true))
    && (c.accepted.Some? ==> c.complete == Some(true))
    && (c.accepted == Some(false) || c.resolved == Some(Skips) ==> c.published == 0 && !s.linked && !s.registered)
    && (c.complete != Some(true) || c.reached == Some(false) || c.resolved == Some(Fails) || c.moved == Some(false) ==>
          !c.touched)
    && (ok ==> !s.linked && !s.registered)
  }

  /** A write is answered with success exactly when its chunk exists, its file opened and its body ended well. */
  ghost predicate WriteAnswers(s: State, c: Calls, index: int, body: Body, ok: bool) {
    && (ok <==> c.found == Some(true) && c.inRange == Some(true) && c.reached == Some(true) && body.ok)
    && c.published == 0
    && (c.reached != Some(true) ==> !c.touched)
    && (ok ==> 0 <= index < |s.upload.received| && s.upload.received[index])
  }

  /** An abort is answered with success exactly when the session was there, and then it is gone. */
  ghost predicate AbortAnswers(s: State, c: Calls, ok: bool) {
    && (ok <==> c.found == Some(true))
    && c.published == 0 && (!ok ==> !c.touched) && (ok ==> !s.linked && !s.registered)
  }

  ghost predicate Answered(s: State, c: Calls, op: Op, ok: bool) {
    match op
    case CompleteOp => CompletionAnswers(s, c, ok)
    case WriteOp(index, body) => WriteAnswers(s, c, index, body, ok)
    case AbortOp => AbortAnswers(s, c, ok)
  }

  // ---------------------------------------------------------------------------------------------
  // What holds on the way
  // ---------------------------------------------------------------------------------------------

  const FOUND := NO_CALLS.(found := Some(true))
  const FULL := FOUND.(complete := Some(true))
  const READ := FULL.(reached := Some(true))
  const TAKEN := READ.(accepted := Some(true))
  const PLACED := TAKEN.(resolved := Some(Goes))
  const ARRIVED := PLACED.(moved := Some(true), published := 1, touched := true)

  ghost predicate CompletionOnTheWay(s: State, c: Calls, pc: Pc) {
    match pc
    case Lookup => c == NO_CALLS
    case Wait => c == FOUND
    case Locked => c == FOUND
    case Sniff => c == FULL
    case Reject => c == READ.(accepted := Some(false))
    case Resolve => c == TAKEN
    case Publish => c == PLACED
    case Copying => c == PLACED
    case RemoveTemp => c == ARRIVED
    case StatFinal => c == ARRIVED && !s.linked
    case Unregister(ok) =>
      !s.linked &&
      if ok then c == ARRIVED.(stat := Some(true))
      else
        || c == READ.(accepted := Some(false), touched := c.touched)
        || c == TAKEN.(resolved := Some(Skips), touched := c.touched)
    case Release(ok) => CompletionAnswers(s, c, ok)
    case Finished(ok) => CompletionAnswers(s, c, ok)
    case _ => false
  }

  const IN_RANGE := FOUND.(inRange := Some(true))

  ghost predicate WriteOnTheWay(s: State, c: Calls, pc: Pc, index: int, body: Body) {
    match pc
    case Lookup => c == NO_CALLS
    case Wait => c == IN_RANGE && 0 <= index < s.upload.totalChunks
    case Locked => c == IN_RANGE && 0 <= index < s.upload.totalChunks
    case Opened => c == IN_RANGE.(reached := Some(true)) && 0 <= index < s.upload.totalChunks
    case Marking =>
      c == IN_RANGE.(reached := Some(true), touched := c.touched) && body.ok && 0 <= index < s.upload.totalChunks
    case Release(ok) => WriteAnswers(s, c, index, body, ok)
    case Finished(ok) => WriteAnswers(s, c, index, body, ok)
    case _ => false
  }

  ghost predicate AbortOnTheWay(s: State, c: Calls, pc: Pc) {
    match pc
    case Lookup => c == NO_CALLS
    case Wait => c == FOUND
    case AbortRemove => c == FOUND
    case AbortUnregister => c == FOUND.(touched := c.touched) && !s.linked
    case Finished(ok) => AbortAnswers(s, c, ok)
    case _ => false
  }

  ghost predicate OnTheWay(s: State, c: Calls, t: Tid)
    requires t in s.threads
  {
    var th := s.threads[t];
    match th.op
    case CompleteOp => CompletionOnTheWay(s, c, th.pc)
    case WriteOp(index, body) => WriteOnTheWay(s, c, th.pc, index, body)
    case AbortOp => AbortOnTheWay(s, c, th.pc)
  }

  /** What an action of anyone leaves of the facts that answers rest on. */
  ghost predicate GoesOn(s: State, s': State) {
    && Proper(s) && Proper(s') && s'.upload.totalChunks == s.upload.totalChunks
    && (!s.linked ==> !s'.linked) && (!s.registered ==> !s'.registered)
    && (forall i :: 0 <= i < |s.upload.received| && s.upload.received[i] ==> s'.upload.received[i])
  }

  lemma StepGoesOn(s: State, a: Action)
    requires Proper(s)
    ensures GoesOn(s, Step(s, a))
  {
  }

  lemma StaysOnTheWay(s: State, s': State, c: Calls, t: Tid)
    requires t in s.threads && t in s'.threads && s'.threads[t] == s.threads[t]
    requires GoesOn(s, s') && OnTheWay(s, c, t)
    ensures OnTheWay(s', c, t)
  {
  }

  /** The next step of request t keeps it on its way. */
  ghost predicate StepsOn(s: State, c: Calls, t: Tid, luck: Luck)
    requires Proper(s)
  {
    var s' := Step(s, Advance(t, luck));
    t in s'.threads && OnTheWay(s', Recorded(c, s, Advance(t, luck), t), t)
  }

  lemma CompletionEnters(s: State, c: Calls, t: Tid, luck: Luck)
    requires Proper(s) && t in s.threads && s.threads[t].op.CompleteOp? && OnTheWay(s, c, t)
    requires var pc := s.threads[t].pc; pc.Lookup? || pc.Wait?
    ensures StepsOn(s, c, t, luck)
  {
  }

  lemma CompletionCounts(s: State, c: Calls, t: Tid, luck: Luck)
    requires Proper(s) && Counted(s.upload) && t in s.threads && s.threads[t].op.CompleteOp? && OnTheWay(s, c, t)
    requires var pc := s.threads[t].pc; pc.Locked?
    ensures StepsOn(s, c, t, luck)
  {
    CountTrueAll(s.upload.received);
  }

  lemma CompletionReads(s: State, c: Calls, t: Tid, luck: Luck)
    requires Proper(s) && t in s.threads && s.threads[t].op.CompleteOp? && OnTheWay(s, c, t)
    requires var pc := s.threads[t].pc; pc.Sniff? || pc.Reject?
    ensures StepsOn(s, c, t, luck)
  {
  }

  lemma CompletionPlaces(s: State, c: Calls, t: Tid, luck: Luck)
    requires Proper(s) && t in s.threads && s.threads[t].op.CompleteOp? && OnTheWay(s, c, t)
    requires var pc := s.threads[t].pc; pc.Resolve?
    ensures StepsOn(s, c, t, luck)
  {
  }

  lemma CompletionPublishes(s: State, c: Calls, t: Tid, luck: Luck)
    requires Proper(s) && t in s.threads && s.threads[t].op.CompleteOp? && OnTheWay(s, c, t)
    requires var pc := s.threads[t].pc; pc.Publish? || pc.Copying?
    ensures StepsOn(s, c, t, luck)
  {
  }

  lemma CompletionCleans(s: State, c: Calls, t: Tid, luck: Luck)
    requires Proper(s) && t in s.threads && s.threads[t].op.CompleteOp? && OnTheWay(s, c, t)
    requires var pc := s.threads[t].pc; pc.RemoveTemp? || pc.StatFinal?
    ensures StepsOn(s, c, t, luck)
  {
  }

  lemma CompletionLeaves(s: State, c: Calls, t: Tid, luck: Luck)
    requires Proper(s) && t in s.threads && s.threads[t].op.CompleteOp? && OnTheWay(s, c, t)
    requires var pc := s.threads[t].pc; pc.Unregister? || pc.Release? || pc.Finished?
    ensures StepsOn(s, c, t, luck)
  {
  }

  lemma CompletionStep(s: State, c: Calls, t: Tid, luck: Luck)
    requires Proper(s) && Counted(s.upload) && t in s.threads && s.threads[t].op.CompleteOp? && OnTheWay(s, c, t)
    ensures StepsOn(s, c, t, luck)
  {
    match s.threads[t].pc
    case Lookup => CompletionEnters(s, c, t, luck);
    case Wait => CompletionEnters(s, c, t, luck);
    case Locked => CompletionCounts(s, c, t, luck);
    case Sniff => CompletionReads(s, c, t, luck);
    case Reject => CompletionReads(s, c, t, luck);
    case Resolve => CompletionPlaces(s, c, t, luck);
    case Publish => CompletionPublishes(s, c, t, luck);
    case Copying => CompletionPublishes(s, c, t, luck);
    case RemoveTemp => CompletionCleans(s, c, t, luck);
    case StatFinal => CompletionCleans(s, c, t, luck);
    case _ => CompletionLeaves(s, c, t, luck);
  }

  lemma WriteEnters(s: State, c: Calls, t: Tid, luck: Luck)
    requires Proper(s) && t in s.threads && s.threads[t].op.WriteOp? && OnTheWay(s, c, t)
    requires var pc := s.threads[t].pc; pc.Lookup? || pc.Wait? || pc.Locked?
    ensures StepsOn(s, c, t, luck)
  {
  }

  lemma WriteMarks(s: State, c: Calls, t: Tid, luck: Luck)
    requires Proper(s) && t in s.threads && s.threads[t].op.WriteOp? && OnTheWay(s, c, t)
    requires var pc := s.threads[t].pc; pc.Opened? || pc.Marking?
    ensures StepsOn(s, c, t, luck)
  {
  }

  lemma WriteLeaves(s: State, c: Calls, t: Tid, luck: Luck)
    requires Proper(s) && t in s.threads && s.threads[t].op.WriteOp? && OnTheWay(s, c, t)
    requires var pc := s.threads[t].pc; pc.Release? || pc.Finished?
    ensures StepsOn(s, c, t, luck)
  {
  }

  lemma WriteStep(s: State, c: Calls, t: Tid, luck: Luck)
    requires Proper(s) && t in s.threads && s.threads[t].op.WriteOp? && OnTheWay(s, c, t)
    ensures StepsOn(s, c, t, luck)
  {
    match s.threads[t].pc
    case Opened => WriteMarks(s, c, t, luck);
    case Marking => WriteMarks(s, c, t, luck);
    case Release(_) => WriteLeaves(s, c, t, luck);
    case Finished(_) => WriteLeaves(s, c, t, luck);
    case _ => WriteEnters(s, c, t, luck);
  }

  lemma AbortStep(s: State, c: Calls, t: Tid, luck: Luck)
    requires Proper(s) && t in s.threads && s.threads[t].op.AbortOp? && OnTheWay(s, c, t)
    ensures StepsOn(s, c, t, luck)
  {
  }

  lemma CountsOn(s: State, a: Action)
    requires Proper(s) && Counted(s.upload)
    ensures Counted(Step(s, a).upload)
  {
    if a.Advance? && a.tid in s.threads && s.threads[a.tid].pc.Marking? && s.threads[a.tid].op.WriteOp? {
      var index := s.threads[a.tid].op.index;
      if 0 <= index < s.upload.totalChunks && !s.upload.received[index] {
        CountTrueUpdate(s.upload.received, index);
      }
    }
  }

  /** A request that is not there yet has made no calls. */
  ghost predicate Kept(s: State, c: Calls, t: Tid) {
    Proper(s) && Counted(s.upload) && if t in s.threads then OnTheWay(s, c, t) else c == NO_CALLS
  }

  lemma StepKept(s: State, c: Calls, a: Action, t: Tid)
    requires Kept(s, c, t)
    ensures Kept(Step(s, a), Recorded(c, s, a, t), t)
  {
    CountsOn(s, a);
    StepGoesOn(s, a);
    if t in s.threads {
      if a.Advance? && a.tid == t {
        match s.threads[t].op
        case CompleteOp => CompletionStep(s, c, t, a.luck);
        case WriteOp(_, _) => WriteStep(s, c, t, a.luck);
        case AbortOp => AbortStep(s, c, t, a.luck);
      } else {
        StaysOnTheWay(s, Step(s, a), c, t);
      }
    }
  }

  lemma {:induction false} RunKept(s: State, c: Calls, run: seq<Action>, t: Tid)
    requires Kept(s, c, t)
    ensures Kept(Run(s, run), Record(c, s, run, t), t)
    decreases |run|
  {
    if run != [] {
      StepKept(s, c, run[0], t);
      RunKept(Step(s, run[0]), Recorded(c, s, run[0], t), run[1..], t);
    }
  }

  /**
   Over every interleaving of any requests, each request that is over was answered as its own calls say:
   success exactly when all of them worked, and a refused one leaves what Answered says.
   */
  lemma AnswersFollowCalls(totalChunks: nat, chunkSize: int, fileSize: int, run: seq<Action>, t: Tid)
    requires chunkSize > 0
    ensures var start := Start(totalChunks, chunkSize, fileSize);
            var s := Run(start, run);
            t in s.threads && s.threads[t].pc.Finished? ==>
              Answered(s, Record(NO_CALLS, start, run, t), s.threads[t].op, s.threads[t].pc.ok)
  {
    CountTrueFalse(totalChunks);
    RunKept(Start(totalChunks, chunkSize, fileSize), NO_CALLS, run, t);
  }

  // ---------------------------------------------------------------------------------------------
  // Every request comes to its end
  // ---------------------------------------------------------------------------------------------

  /** How many steps of its own a request still takes at most, beside waiting for the lock. */
  function StepsLeft(pc: Pc): nat {
    match pc
    case Lookup => 11
    case Wait => 10
    case Locked => 9
    case Sniff => 8
    case Resolve => 7
    case Publish => 6
    case Copying => 5
    case RemoveTemp => 4
    case Opened => 3
    case StatFinal => 3
    case Reject => 3
    case Marking => 2
    case Unregister(_) => 2
    case AbortRemove => 2
    case Release(_) => 1
    case AbortUnregister => 1
    case Finished(_) => 0
  }

  /** The lock is held by another request, which does not wait itself. */
  ghost predicate WaitsForAnother(s: State, t: Tid)
    requires t in s.threads
  {
    && s.threads[t].pc.Wait? && s.lock.Some? && s.lock.value != t && s.lock.value in s.threads
    && !s.threads[s.lock.value].pc.Wait? && !s.threads[s.lock.value].pc.Finished?
  }

  /** In every interleaving a request that is not over gets on with its next step, or waits for one that does. */
  lemma RequestsGetOn(totalChunks: nat, chunkSize: int, fileSize: int, run: seq<Action>, t: Tid, luck: Luck)
    requires chunkSize > 0
    ensures var s := Run(Start(totalChunks, chunkSize, fileSize), run);
            t in s.threads && !s.threads[t].pc.Finished? ==>
              || WaitsForAnother(s, t)
              || StepsLeft(Step(s, Advance(t, luck)).threads[t].pc) < StepsLeft(s.threads[t].pc)
  {
    var start := Start(totalChunks, chunkSize, fileSize);
    StartInv(None, totalChunks, chunkSize, fileSize);
    RunInv(None, start, run);
    var s := Run(start, run);
    if t in s.threads && !s.threads[t].pc.Finished? && !WaitsForAnother(s, t) {
      GetsOn(s, t, luck);
    }
  }

  lemma GetsOn(s: State, t: Tid, luck: Luck)
    requires Inv(None, s) && t in s.threads && !s.threads[t].pc.Finished? && !WaitsForAnother(s, t)
    ensures StepsLeft(Step(s, Advance(t, luck)).threads[t].pc) < StepsLeft(s.threads[t].pc)
  {
    assert ThreadInv(None, s, t);
    var (s', pc) := Effect(s, t, luck);
    assert Step(s, Advance(t, luck)).threads[t].pc == pc;
  }
}
