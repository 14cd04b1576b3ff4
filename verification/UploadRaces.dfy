/**
 Concurrent requests for one upload session: writes, completions and aborts, each a thread that looks
 the session up, waits for its lock and goes on in small steps, and the cleanup of old sessions.
 */
module UploadRaces {
  import opened Wrappers
  import opened FileTree
  import opened ChunkedUpload
  import opened Assembly

  type Tid = nat

  datatype Op = WriteOp(index: int, body: Body) | CompleteOp | AbortOp

  /**
   Where a thread is.  From Locked to Release it holds the lock of the session.  Opened holds a handle
   on the temporary file for writing, Copying one for reading.
   */
  datatype Pc =
    | Lookup | Wait
    | Locked | Opened | Marking
    | Sniff | Reject | Resolve | Publish | Copying | RemoveTemp | StatFinal
    | Unregister(ok: bool) | Release(ok: bool)
    | AbortRemove | AbortUnregister
    | Finished(ok: bool)

  datatype Thread = Thread(op: Op, pc: Pc)

  /** A file came to its destination by renaming the temporary file, or by copying its bytes. */
  datatype Publication = Renamed | CopiedAs(bytes: Bytes)

  /**
   upload.temp is what the temporary file holds, and goes on holding for those who opened it after its
   path was removed; linked says whether the path still exists.
   */
  datatype State = State(registered: bool, lock: Option<Tid>, linked: bool, upload: Upload,
                         published: seq<Publication>, threads: map<Tid, Thread>)

  /** The outcome of the calls whose result the session does not decide. */
  datatype Luck = Luck(accepted: bool, resolved: Resolved, renames: bool, copies: bool, stats: bool)

  datatype Resolved = Goes | Skips | Fails

  datatype Action = Spawn(tid: Tid, op: Op) | Advance(tid: Tid, luck: Luck) | Expire | Sweep

  predicate Holding(pc: Pc) {
    pc.Locked? || pc.Opened? || pc.Marking? || pc.Sniff? || pc.Reject? || pc.Resolve? || pc.Publish? || pc.Copying?
    || pc.RemoveTemp? || pc.StatFinal? || pc.Unregister? || pc.Release?
  }

  predicate Proper(s: State) {
    |s.upload.received| == s.upload.totalChunks && s.upload.chunkSize > 0 && s.upload.temp.Some?
  }

  /** What thread t does to everything but its own position, and where it gets. */
  function Effect(s: State, t: Tid, luck: Luck): (r: (State, Pc))
    requires t in s.threads && Proper(s)
    ensures Proper(r.0) && r.0.threads == s.threads
    ensures r.0.upload.totalChunks == s.upload.totalChunks && r.0.upload.chunkSize == s.upload.chunkSize
  {
    var th := s.threads[t];
    match th.pc
    case Lookup =>
      if !s.registered then (s, Finished(false))
      else if th.op.WriteOp? && !(0 <= th.op.index < s.upload.totalChunks) then (s, Finished(false))
      else (s, Wait)
    case Wait =>
      if s.lock.Some? then (s, Wait)
      else if th.op.AbortOp? then (s, AbortRemove)
      else (s.(lock := Some(t)), Locked)
    case Locked =>
      if th.op.WriteOp? then (s, if s.linked then Opened else Release(false))
      else (s, if s.upload.receivedChunks == s.upload.totalChunks then Sniff else Release(false))
    case Opened =>
      if !th.op.WriteOp? || !(0 <= th.op.index < s.upload.totalChunks) then (s, Opened)
      else
        var temp := WriteAt(s.upload.temp.value, th.op.index * s.upload.chunkSize, th.op.body.bytes);
        (s.(upload := s.upload.(temp := Some(temp))), if th.op.body.ok then Marking else Release(false))
    case Marking =>
      if !th.op.WriteOp? || !(0 <= th.op.index < s.upload.totalChunks) then (s, Marking)
      else if s.upload.received[th.op.index] then (s, Release(true))
      else
        var u := s.upload.(received := s.upload.received[th.op.index := true],
                           receivedChunks := s.upload.receivedChunks + 1);
        (s.(upload := u), Release(true))
    case Sniff => (s, if !s.linked then Release(false) else if luck.accepted then Resolve else Reject)
    case Reject => (s.(linked := false), Unregister(false))
    case Resolve =>
      (match luck.resolved
       case Goes => (s, Publish)
       case Skips => (s.(linked := false), Unregister(false))
       case Fails => (s, Release(false)))
    case Publish =>
      if s.linked && luck.renames then (s.(linked := false, published := s.published + [Renamed]), StatFinal)
      else (s, if s.linked then Copying else Release(false))
    case Copying =>
      if luck.copies then (s.(published := s.published + [CopiedAs(s.upload.temp.value)]), RemoveTemp)
      else (s, Release(false))
    case RemoveTemp => (s.(linked := false), StatFinal)
    case StatFinal => (s, if luck.stats then Unregister(true) else Release(false))
    case Unregister(ok) => (s.(registered := false), Release(ok))
    case Release(ok) => (s.(lock := None), Finished(ok))
    case AbortRemove => (s.(linked := false), AbortUnregister)
    case AbortUnregister => (s.(registered := false), Finished(true))
    case Finished(ok) => (s, Finished(ok))
  }

  /** One step of thread t; a thread that has to wait stays where it is. */
  function ThreadStep(s: State, t: Tid, luck: Luck): State
    requires t in s.threads && Proper(s)
  {
    var (s', pc) := Effect(s, t, luck);
    s'.(threads := s.threads[t := s.threads[t].(pc := pc)])
  }

  /** Expire is the cleanup of a session that is too old, Sweep that of a file without a session. */
  function Step(s: State, a: Action): State
    requires Proper(s)
  {
    match a
    case Spawn(t, op) => if t in s.threads then s else s.(threads := s.threads[t := Thread(op, Lookup)])
    case Advance(t, luck) => if t in s.threads then ThreadStep(s, t, luck) else s
    case Expire => s.(registered := false, linked := if s.registered then false else s.linked)
    case Sweep => s.(linked := if s.registered then s.linked else false)
  }

  function Start(totalChunks: nat, chunkSize: int, fileSize: int): State {
    State(true, None, true, NewUpload(totalChunks, chunkSize, fileSize), [], map[])
  }

  /** The files that were published; a renamed file is the former temporary file. */
  function Files(s: State): seq<Bytes>
    requires s.upload.temp.Some?
  {
    seq(|s.published|, i requires 0 <= i < |s.published| =>
      if s.published[i].Renamed? then s.upload.temp.value else s.published[i].bytes)
  }

  // ---------------------------------------------------------------------------------------------
  // The invariant
  // ---------------------------------------------------------------------------------------------

  /** The bytes of the chunk a thread is about to mark as received are in place. */
  ghost predicate ChunkInPlace(d: Bytes, u: Upload, index: int)
    requires u.chunkSize > 0 && u.temp.Some?
  {
    forall k :: 0 <= k < |d| && k / u.chunkSize == index ==> Placed(d, u.temp.value, k)
  }

  /** The file of which the clients send the chunks, if they all do; without one nothing is known of bodies. */
  type Origin = Option<Bytes>

  /** The body of a write can do the file no harm. */
  ghost predicate HonestOp(d: Origin, u: Upload, op: Op)
    requires u.chunkSize > 0
  {
    d.Some? && op.WriteOp? ==> Honest(d.value, u.totalChunks, u.chunkSize, op.index, op.body)
  }

  /** What holds of a thread by where it is. */
  ghost predicate ThreadInv(d: Origin, s: State, t: Tid)
    requires t in s.threads && Proper(s)
  {
    var th := s.threads[t];
    && HonestOp(d, s.upload, th.op)
    && (Holding(th.pc) ==> s.lock == Some(t))
    && (th.pc.Opened? || th.pc.Marking? ==> th.op.WriteOp? && 0 <= th.op.index < s.upload.totalChunks)
    && ((th.pc.Locked? || th.pc.Wait?) && th.op.WriteOp? ==> 0 <= th.op.index < s.upload.totalChunks)
    && (th.pc.Opened? || th.pc.Marking? ==> s.published == [])
    && (d.Some? && th.pc.Marking? ==> th.op.body.ok && ChunkInPlace(d.value, s.upload, th.op.index))
    && (th.pc.Sniff? ==> s.upload.receivedChunks == s.upload.totalChunks)
    && (th.pc.Reject? ==> s.published == [])
    && (th.pc.Resolve? || th.pc.Publish? || th.pc.Copying? ==>
          s.published == [] && s.upload.receivedChunks == s.upload.totalChunks)
  }

  /** At most one publication, and none while a thread may still write or publish. */
  ghost predicate Inv(d: Origin, s: State) {
    && Proper(s) && (d.Some? ==> Agrees(d.value, s.upload))
    && (forall t :: t in s.threads ==> ThreadInv(d, s, t))
    && (s.lock.Some? ==> s.lock.value in s.threads && Holding(s.threads[s.lock.value].pc))
    && |s.published| <= 1
    && (d.Some? && s.published != [] ==> s.upload.temp == d)
    && (d.Some? && s.published != [] && s.published[0].CopiedAs? ==> s.published[0].bytes == d.value)
    && (s.published != [] && s.linked ==>
          s.lock.Some? && s.lock.value in s.threads && s.threads[s.lock.value].pc.RemoveTemp?)
  }

  lemma StartInv(d: Origin, totalChunks: nat, chunkSize: int, fileSize: int)
    requires chunkSize > 0 && (d.Some? ==> fileSize == |d.value| && Covers(totalChunks, chunkSize, fileSize))
    ensures Inv(d, Start(totalChunks, chunkSize, fileSize))
  {
    if d.Some? {
      NewUploadAgrees(d.value, totalChunks, chunkSize);
    }
  }

  /** A thread without the lock depends on the sizes only. */
  lemma IdleThread(d: Origin, s: State, s': State, t: Tid)
    requires t in s.threads && Proper(s) && ThreadInv(d, s, t) && !Holding(s.threads[t].pc)
    requires Proper(s') && t in s'.threads && s'.threads[t] == s.threads[t]
    requires s'.upload.totalChunks == s.upload.totalChunks && s'.upload.chunkSize == s.upload.chunkSize
    ensures ThreadInv(d, s', t)
  {
  }

  /** A thread with the lock does not depend on the path of the temporary file or on registration. */
  lemma SameThread(d: Origin, s: State, s': State, t: Tid)
    requires t in s.threads && Proper(s) && ThreadInv(d, s, t)
    requires t in s'.threads && s'.threads[t] == s.threads[t]
    requires s'.upload == s.upload && s'.published == s.published && s'.lock == s.lock
    ensures ThreadInv(d, s', t)
  {
  }

  lemma WriteStep(d: Bytes, u: Upload, index: int, body: Body)
    requires Agrees(d, u) && u.temp.Some? && 0 <= index < u.totalChunks
    requires Honest(d, u.totalChunks, u.chunkSize, index, body)
    ensures var u' := u.(temp := Some(WriteAt(u.temp.value, index * u.chunkSize, body.bytes)));
            Agrees(d, u') && (body.ok ==> ChunkInPlace(d, u', index))
  {
    var temp := WriteAt(u.temp.value, index * u.chunkSize, body.bytes);
    WriteInPlace(d, u.chunkSize, u.received, u.temp.value, index, body.bytes);
    if body.ok {
      assert u.received[index := true][index];
      assert InPlace(d, u.chunkSize, u.received[index := true], temp);
    }
  }

  lemma MarkStep(d: Bytes, u: Upload, index: int)
    requires Agrees(d, u) && u.temp.Some? && 0 <= index < u.totalChunks
    requires ChunkInPlace(d, u, index) && !u.received[index]
    ensures Agrees(d, u.(received := u.received[index := true], receivedChunks := u.receivedChunks + 1))
  {
    CountTrueUpdate(u.received, index);
  }

  /** What a step of t can change as far as other threads are concerned. */
  ghost predicate Frame(s: State, s': State, t: Tid)
    requires t in s.threads
  {
    && Proper(s')
    && s'.upload.totalChunks == s.upload.totalChunks && s'.upload.chunkSize == s.upload.chunkSize
    && (forall t' :: t' in s'.threads <==> t' in s.threads)
    && (forall t' :: t' in s.threads && t' != t ==> s'.threads[t'] == s.threads[t'])
    && (!Holding(s.threads[t].pc) ==>
          s'.upload == s.upload && s'.published == s.published && (s.lock.Some? ==> s'.lock == s.lock))
  }

  lemma StepFrame(s: State, t: Tid, luck: Luck)
    requires t in s.threads && Proper(s)
    ensures Frame(s, ThreadStep(s, t, luck), t)
  {
  }

  lemma OtherThread(d: Origin, s: State, s': State, t: Tid, t': Tid)
    requires Proper(s) && t in s.threads && t' in s.threads && t' != t
    requires ThreadInv(d, s, t) && ThreadInv(d, s, t') && Frame(s, s', t)
    ensures ThreadInv(d, s', t')
  {
    if Holding(s.threads[t'].pc) {
      SameThread(d, s, s', t');
    } else {
      IdleThread(d, s, s', t');
    }
  }

  lemma OtherThreads(d: Origin, s: State, t: Tid, luck: Luck)
    requires Inv(d, s) && t in s.threads
    ensures Proper(ThreadStep(s, t, luck))
    ensures forall t' :: t' in ThreadStep(s, t, luck).threads <==> t' in s.threads
    ensures forall t' :: t' in s.threads && t' != t ==> ThreadInv(d, ThreadStep(s, t, luck), t')
  {
    StepFrame(s, t, luck);
    forall t' | t' in s.threads && t' != t ensures ThreadInv(d, ThreadStep(s, t, luck), t') {
      OtherThread(d, s, ThreadStep(s, t, luck), t, t');
    }
  }

  lemma WritingThread(d: Origin, s: State, t: Tid, luck: Luck)
    requires Inv(d, s) && t in s.threads && (s.threads[t].pc.Opened? || s.threads[t].pc.Marking?)
    ensures var s' := ThreadStep(s, t, luck);
            && Proper(s') && (d.Some? ==> Agrees(d.value, s'.upload)) && ThreadInv(d, s', t)
            && s'.published == [] && s'.lock == s.lock
            && Holding(s'.threads[t].pc)
  {
    var th := s.threads[t];
    assert ThreadInv(d, s, t);
    if d.Some? {
      if th.pc.Opened? {
        WriteStep(d.value, s.upload, th.op.index, th.op.body);
      } else if !s.upload.received[th.op.index] {
        MarkStep(d.value, s.upload, th.op.index);
      }
    }
  }

  lemma PublishingThread(d: Origin, s: State, t: Tid, luck: Luck)
    requires Inv(d, s) && t in s.threads && (s.threads[t].pc.Publish? || s.threads[t].pc.Copying?)
    ensures Inv(d, ThreadStep(s, t, luck))
  {
    assert ThreadInv(d, s, t);
    if d.Some? {
      CompleteIsWhole(d.value, s.upload);
    }
    OtherThreads(d, s, t, luck);
  }

  lemma LookupThread(d: Origin, s: State, t: Tid, luck: Luck)
    requires Inv(d, s) && t in s.threads && s.threads[t].pc.Lookup?
    ensures Inv(d, ThreadStep(s, t, luck))
  {
    assert ThreadInv(d, s, t);
    OtherThreads(d, s, t, luck);
  }

  lemma WaitingThread(d: Origin, s: State, t: Tid, luck: Luck)
    requires Inv(d, s) && t in s.threads && s.threads[t].pc.Wait?
    ensures Inv(d, ThreadStep(s, t, luck))
  {
    assert ThreadInv(d, s, t);
    if s.lock.None? {
      OtherThreads(d, s, t, luck);
    }
  }

  lemma LockedThread(d: Origin, s: State, t: Tid, luck: Luck)
    requires Inv(d, s) && t in s.threads && s.threads[t].pc.Locked?
    ensures Inv(d, ThreadStep(s, t, luck))
  {
    assert ThreadInv(d, s, t);
    OtherThreads(d, s, t, luck);
  }

  lemma SniffingThread(d: Origin, s: State, t: Tid, luck: Luck)
    requires Inv(d, s) && t in s.threads && (s.threads[t].pc.Sniff? || s.threads[t].pc.Reject?)
    ensures Inv(d, ThreadStep(s, t, luck))
  {
    assert ThreadInv(d, s, t);
    OtherThreads(d, s, t, luck);
  }

  lemma ResolvingThread(d: Origin, s: State, t: Tid, luck: Luck)
    requires Inv(d, s) && t in s.threads && s.threads[t].pc.Resolve?
    ensures Inv(d, ThreadStep(s, t, luck))
  {
    assert ThreadInv(d, s, t);
    OtherThreads(d, s, t, luck);
  }

  lemma UnlinkingThread(d: Origin, s: State, t: Tid, luck: Luck)
    requires Inv(d, s) && t in s.threads
    requires s.threads[t].pc.RemoveTemp? || s.threads[t].pc.AbortRemove? || s.threads[t].pc.StatFinal?
    ensures Inv(d, ThreadStep(s, t, luck))
  {
    assert ThreadInv(d, s, t);
    OtherThreads(d, s, t, luck);
  }

  lemma LeavingThread(d: Origin, s: State, t: Tid, luck: Luck)
    requires Inv(d, s) && t in s.threads
    requires s.threads[t].pc.Unregister? || s.threads[t].pc.Release? || s.threads[t].pc.AbortUnregister?
    ensures Inv(d, ThreadStep(s, t, luck))
  {
    assert ThreadInv(d, s, t);
    OtherThreads(d, s, t, luck);
  }

  lemma ThreadStepInv(d: Origin, s: State, t: Tid, luck: Luck)
    requires Inv(d, s) && t in s.threads
    ensures Inv(d, ThreadStep(s, t, luck))
  {
    var pc := s.threads[t].pc;
    if pc.Opened? || pc.Marking? {
      WritingThread(d, s, t, luck);
      OtherThreads(d, s, t, luck);
    } else if pc.Publish? || pc.Copying? {
      PublishingThread(d, s, t, luck);
    } else if pc.Lookup? {
      LookupThread(d, s, t, luck);
    } else if pc.Wait? {
      WaitingThread(d, s, t, luck);
    } else if pc.Locked? {
      LockedThread(d, s, t, luck);
    } else if pc.Sniff? || pc.Reject? {
      SniffingThread(d, s, t, luck);
    } else if pc.Resolve? {
      ResolvingThread(d, s, t, luck);
    } else if pc.RemoveTemp? || pc.AbortRemove? || pc.StatFinal? {
      UnlinkingThread(d, s, t, luck);
    } else if pc.Unregister? || pc.Release? || pc.AbortUnregister? {
      LeavingThread(d, s, t, luck);
    }
  }

  /** Where there is a file to agree with, new writes carry its chunks. */
  ghost predicate HonestAction(d: Origin, s: State, a: Action)
    requires Proper(s)
  {
    a.Spawn? ==> HonestOp(d, s.upload, a.op)
  }

  lemma StepInv(d: Origin, s: State, a: Action)
    requires Inv(d, s) && HonestAction(d, s, a)
    ensures Inv(d, Step(s, a))
  {
    var s' := Step(s, a);
    match a
    case Advance(t, luck) =>
      if t in s.threads {
        ThreadStepInv(d, s, t, luck);
      }
    case _ =>
      forall t | t in s.threads ensures ThreadInv(d, s', t) {
        SameThread(d, s, s', t);
      }
  }

  /** After the publication no step writes to the former temporary file or publishes again. */
  lemma PublishedStays(s: State, a: Action)
    requires Inv(None, s) && s.published != []
    ensures Step(s, a).published == s.published && Step(s, a).upload.temp == s.upload.temp
  {
    if a.Advance? && a.tid in s.threads {
      assert ThreadInv(None, s, a.tid);
    }
  }

  // ---------------------------------------------------------------------------------------------
  // Runs
  // ---------------------------------------------------------------------------------------------

  ghost function Run(s: State, run: seq<Action>): (r: State)
    requires Proper(s)
    ensures Proper(r) && r.upload.totalChunks == s.upload.totalChunks && r.upload.chunkSize == s.upload.chunkSize
    decreases |run|
  {
    if run == [] then s
    else
      var s' := Step(s, run[0]);
      assert Proper(s') && s'.upload.totalChunks == s.upload.totalChunks && s'.upload.chunkSize == s.upload.chunkSize;
      Run(s', run[1..])
  }

  lemma {:induction false} RunInv(d: Origin, s: State, run: seq<Action>)
    requires Inv(d, s)
    requires forall a :: a in run ==> HonestAction(d, s, a)
    ensures Inv(d, Run(s, run))
    decreases |run|
  {
    if run != [] {
      var s' := Step(s, run[0]);
      assert run[0] in run;
      StepInv(d, s, run[0]);
      forall a | a in run[1..] ensures HonestAction(d, s', a) {
        assert a in run && HonestAction(d, s, a);
      }
      RunInv(d, s', run[1..]);
    }
  }

  lemma {:induction false} RunKeepsPublished(s: State, run: seq<Action>)
    requires Inv(None, s) && s.published != []
    ensures Run(s, run).published == s.published && Run(s, run).upload.temp == s.upload.temp
    decreases |run|
  {
    if run != [] {
      StepInv(None, s, run[0]);
      PublishedStays(s, run[0]);
      RunKeepsPublished(Step(s, run[0]), run[1..]);
    }
  }

  lemma {:induction false} RunsConcatenate(s: State, run: seq<Action>, more: seq<Action>)
    requires Proper(s)
    ensures Run(s, run + more) == Run(Run(s, run), more)
    decreases |run|
  {
    if run == [] {
      assert run + more == more;
    } else {
      assert (run + more)[1..] == run[1..] + more;
      RunsConcatenate(Step(s, run[0]), run[1..], more);
    }
  }

  /**
   Whatever the clients send and however writes, completions, aborts and cleanups of one upload
   interleave, a file is published at most once.
   */
  lemma PublishedAtMostOnce(totalChunks: nat, chunkSize: int, fileSize: int, run: seq<Action>)
    requires chunkSize > 0
    ensures |Files(Run(Start(totalChunks, chunkSize, fileSize), run))| <= 1
  {
    StartInv(None, totalChunks, chunkSize, fileSize);
    RunInv(None, Start(totalChunks, chunkSize, fileSize), run);
  }

  /** Once published, no later step takes the file back or changes a byte of it, whatever it sends. */
  lemma NoLateChange(totalChunks: nat, chunkSize: int, fileSize: int, run: seq<Action>, more: seq<Action>)
    requires chunkSize > 0
    ensures var start := Start(totalChunks, chunkSize, fileSize);
            Files(Run(start, run)) != [] ==> Files(Run(start, run + more)) == Files(Run(start, run))
  {
    var start := Start(totalChunks, chunkSize, fileSize);
    StartInv(None, totalChunks, chunkSize, fileSize);
    RunInv(None, start, run);
    RunsConcatenate(start, run, more);
    if Files(Run(start, run)) != [] {
      RunKeepsPublished(Run(start, run), more);
    }
  }

  /** When no body can do the file harm, as Honest says exactly, what is published is that file. */
  lemma PublishedIsWhole(d: Bytes, chunkSize: int, run: seq<Action>)
    requires 0 < |d| && 0 < chunkSize && |d| + chunkSize - 1 <= MAX_INT64
    requires var s := Start(TotalChunks(|d|, chunkSize), chunkSize, |d|);
             forall a :: a in run ==> HonestAction(Some(d), s, a)
    ensures var s := Run(Start(TotalChunks(|d|, chunkSize), chunkSize, |d|), run);
            Files(s) == [] || Files(s) == [d]
  {
    TotalChunksIsCeiling(|d|, chunkSize);
    var s := Start(TotalChunks(|d|, chunkSize), chunkSize, |d|);
    StartInv(Some(d), s.upload.totalChunks, chunkSize, |d|);
    RunInv(Some(d), s, run);
  }

  /** Thread t advances n times and meets no obstacle. */
  function Advances(t: Tid, n: nat): seq<Action> {
    if n == 0 then [] else [Advance(t, Luck(true, Goes, true, true, true))] + Advances(t, n - 1)
  }

  lemma RunFirst(s: State, a: Action, rest: seq<Action>)
    requires Proper(s)
    ensures Run(s, [a] + rest) == Run(Step(s, a), rest)
  {
    assert ([a] + rest)[1..] == rest;
  }

  /** As many steps take a write to its end, and a completion from its lookup to the publication. */
  const STEPS: nat := 6

  /** The positions a completion goes through from s on, up to the publication. */
  lemma CompletionGoes(s: State, t: Tid, n: nat)
    requires Proper(s) && t in s.threads && s.threads[t].op.CompleteOp? && s.linked && s.registered && s.lock.None?
    requires s.upload.receivedChunks == s.upload.totalChunks && s.threads[t].pc.Lookup?
    requires n == STEPS
    ensures Run(s, Advances(t, n)).published == s.published + [Renamed]
    ensures Run(s, Advances(t, n)).upload == s.upload
  {
    var step := Advance(t, Luck(true, Goes, true, true, true));
    var s1 := Step(s, step);
    var s2 := Step(s1, step);
    var s3 := Step(s2, step);
    var s4 := Step(s3, step);
    var s5 := Step(s4, step);
    assert s5.threads[t].pc.Publish?;
    var s6 := Step(s5, step);
    RunFirst(s, step, Advances(t, 5));
    RunFirst(s1, step, Advances(t, 4));
    RunFirst(s2, step, Advances(t, 3));
    RunFirst(s3, step, Advances(t, 2));
    RunFirst(s4, step, Advances(t, 1));
    RunFirst(s5, step, Advances(t, 0));
    assert Run(s6, []) == s6;
  }

  /** A session without chunks, as an overflow can give, is complete at once and publishes an empty file. */
  lemma NoChunksPublishNothing(chunkSize: int, fileSize: int, t: Tid, n: nat)
    requires chunkSize > 0 && n == STEPS
    ensures Files(Run(Start(0, chunkSize, fileSize), [Spawn(t, CompleteOp)] + Advances(t, n))) == [[]]
  {
    var s := Step(Start(0, chunkSize, fileSize), Spawn(t, CompleteOp));
    RunFirst(Start(0, chunkSize, fileSize), Spawn(t, CompleteOp), Advances(t, n));
    CompletionGoes(s, t, n);
  }

  // ---------------------------------------------------------------------------------------------
  // Exactly which bodies do no harm
  // ---------------------------------------------------------------------------------------------

  /** Nothing is published, nobody holds the lock, and the threads have numbers below k. */
  ghost predicate Quiet(s: State, u: Upload, k: nat) {
    && Proper(s) && s.upload == u && s.registered && s.linked && s.lock.None? && s.published == []
    && forall t :: t in s.threads ==> t < k
  }

  /** Thread t is at pc with a write, alone. */
  ghost predicate Writing(s: State, u: Upload, t: Tid, w: Write, pc: Pc) {
    && Proper(s) && s.upload == u && s.registered && s.linked && s.published == []
    && s.lock == (if Holding(pc) then Some(t) else None)
    && t in s.threads && s.threads[t] == Thread(WriteOp(w.index, w.body), pc)
    && forall x :: x in s.threads ==> x <= t
  }

  /** Where a write gets with one step that meets no obstacle, and what the session is then. */
  function NextPc(u: Upload, w: Write, pc: Pc): Pc {
    match pc
    case Lookup => if 0 <= w.index < u.totalChunks then Wait else Finished(false)
    case Wait => Locked
    case Locked => Opened
    case Opened => if w.body.ok then Marking else Release(false)
    case Marking => Release(true)
    case Release(ok) => Finished(ok)
    case _ => pc
  }

  function NextUpload(u: Upload, w: Write, pc: Pc): Upload
    requires |u.received| == u.totalChunks && u.chunkSize > 0 && u.temp.Some?
    requires OnTheWay(u, w, pc)
  {
    match pc
    case Opened => u.(temp := Some(WriteAt(u.temp.value, w.index * u.chunkSize, w.body.bytes)))
    case Marking =>
      if u.received[w.index] then u
      else u.(received := u.received[w.index := true], receivedChunks := u.receivedChunks + 1)
    case _ => u
  }

  /** Past the lookup a write has an index that exists. */
  predicate OnTheWay(u: Upload, w: Write, pc: Pc) {
    pc.Lookup? || pc.Release? || pc.Finished?
    || ((pc.Wait? || pc.Locked? || pc.Opened? || pc.Marking?) && 0 <= w.index < u.totalChunks)
  }

  function StepsLeft(pc: Pc): nat {
    match pc
    case Lookup => 6
    case Wait => 5
    case Locked => 4
    case Opened => 3
    case Marking => 2
    case Release(_) => 1
    case _ => 0
  }

  /** The session when the write is over. */
  function Final(u: Upload, w: Write, pc: Pc): Upload
    requires |u.received| == u.totalChunks && u.chunkSize > 0 && u.temp.Some? && OnTheWay(u, w, pc)
  {
    if pc.Release? || pc.Finished? then u
    else if pc.Marking? then NextUpload(u, w, pc)
    else WriteOf(u, w.index, w.body).0
  }

  lemma LuckyStep(s: State, u: Upload, t: Tid, w: Write, pc: Pc)
    requires Writing(s, u, t, w, pc) && OnTheWay(u, w, pc)
    ensures var s' := Step(s, Advance(t, Luck(true, Goes, true, true, true)));
            Writing(s', NextUpload(u, w, pc), t, w, NextPc(u, w, pc))
  {
  }

  lemma FinalStays(u: Upload, w: Write, pc: Pc)
    requires |u.received| == u.totalChunks && u.chunkSize > 0 && u.temp.Some? && OnTheWay(u, w, pc)
    ensures var u' := NextUpload(u, w, pc);
            && |u'.received| == u'.totalChunks && u'.chunkSize > 0 && u'.temp.Some? && OnTheWay(u', w, NextPc(u, w, pc))
            && Final(u', w, NextPc(u, w, pc)) == Final(u, w, pc)
            && (pc.Finished? || StepsLeft(NextPc(u, w, pc)) < StepsLeft(pc))
  {
  }

  /** A write on its own does to the session what the method does. */
  lemma {:induction false} WriteRuns(s: State, u: Upload, t: Tid, w: Write, pc: Pc, n: nat) returns (end: Pc)
    requires Writing(s, u, t, w, pc) && OnTheWay(u, w, pc) && n >= StepsLeft(pc)
    ensures end.Finished? && Writing(Run(s, Advances(t, n)), Final(u, w, pc), t, w, end)
    decreases n
  {
    if n == 0 {
      assert Run(s, []) == s;
      end := pc;
    } else {
      var step := Advance(t, Luck(true, Goes, true, true, true));
      LuckyStep(s, u, t, w, pc);
      FinalStays(u, w, pc);
      RunFirst(s, step, Advances(t, n - 1));
      end := WriteRuns(Step(s, step), NextUpload(u, w, pc), t, w, NextPc(u, w, pc), n - 1);
    }
  }

  /** The writes one after the other, each by a thread of its own that takes n steps. */
  function OneByOne(writes: seq<Write>, n: nat): seq<Action> {
    if writes == [] then []
    else
      var i := |writes| - 1;
      OneByOne(writes[..i], n) + ([Spawn(i, WriteOp(writes[i].index, writes[i].body))] + Advances(i, n))
  }

  lemma {:induction false} WritesRun(s: State, u: Upload, writes: seq<Write>, n: nat)
    requires Quiet(s, u, 0) && n == STEPS
    ensures Quiet(Run(s, OneByOne(writes, n)), WriteAll(u, writes), |writes|)
  {
    if writes == [] {
      assert Run(s, []) == s;
    } else {
      var i := |writes| - 1;
      WritesRun(s, u, writes[..i], n);
      RunsConcatenate(s, OneByOne(writes[..i], n),
                      [Spawn(i, WriteOp(writes[i].index, writes[i].body))] + Advances(i, n));
      NextWriteRuns(Run(s, OneByOne(writes[..i], n)), WriteAll(u, writes[..i]), i, writes[i], n);
    }
  }

  lemma NextWriteRuns(s: State, u: Upload, t: Tid, w: Write, n: nat)
    requires Quiet(s, u, t) && n == STEPS
    ensures Quiet(Run(s, [Spawn(t, WriteOp(w.index, w.body))] + Advances(t, n)), WriteOf(u, w.index, w.body).0, t + 1)
  {
    var spawn := Spawn(t, WriteOp(w.index, w.body));
    RunFirst(s, spawn, Advances(t, n));
    assert Writing(Step(s, spawn), u, t, w, Lookup);
    var end := WriteRuns(Step(s, spawn), u, t, w, Lookup, n);
  }

  /** Whatever complete session writes leave, a completion publishes its file. */
  lemma WritesArePublished(total: nat, c: int, size: int, writes: seq<Write>, n: nat)
    requires c > 0 && n == STEPS
    requires var u := WriteAll(NewUpload(total, c, size), writes); u.receivedChunks == u.totalChunks && u.temp.Some?
    ensures var run := OneByOne(writes, n) + ([Spawn(|writes|, CompleteOp)] + Advances(|writes|, n));
            Files(Run(Start(total, c, size), run)) == [WriteAll(NewUpload(total, c, size), writes).temp.value]
  {
    var start, t := Start(total, c, size), |writes|;
    WritesRun(start, start.upload, writes, n);
    var s := Run(start, OneByOne(writes, n));
    RunsConcatenate(start, OneByOne(writes, n), [Spawn(t, CompleteOp)] + Advances(t, n));
    RunFirst(s, Spawn(t, CompleteOp), Advances(t, n));
    CompletionGoes(Step(s, Spawn(t, CompleteOp)), t, n);
  }

  /** A run whose writes are chunks of d, or among those sent. */
  ghost predicate DrawnRun(d: Bytes, total: nat, c: int, sent: seq<Write>, run: seq<Action>)
    requires c > 0
  {
    forall a :: a in run && a.Spawn? && a.op.WriteOp? ==>
      Write(a.op.index, a.op.body) in sent || IsChunk(d, total, c, Write(a.op.index, a.op.body))
  }

  lemma {:induction false} OneByOneIsDrawn(d: Bytes, total: nat, c: int, sent: seq<Write>, writes: seq<Write>, n: nat)
    requires c > 0 && Drawn(d, total, c, sent, writes)
    ensures DrawnRun(d, total, c, sent, OneByOne(writes, n))
  {
    if writes != [] {
      var i := |writes| - 1;
      assert writes[i] in writes && writes[i] == Write(writes[i].index, writes[i].body);
      OneByOneIsDrawn(d, total, c, sent, writes[..i], n);
      AdvancesSpawnNothing(i, n);
    }
  }

  lemma {:induction false} AdvancesSpawnNothing(t: Tid, n: nat)
    ensures forall a :: a in Advances(t, n) ==> a.Advance?
  {
    if n > 0 {
      AdvancesSpawnNothing(t, n - 1);
    }
  }

  /**
   Over every interleaving of any requests: whatever clients write besides the chunks of d, what is
   published is d, if and only if each of the other bodies can do no harm.
   */
  lemma PublishedIsWholeIff(d: Bytes, c: int, sent: seq<Write>)
    requires 0 < |d| && 0 < c && |d| + c - 1 <= MAX_INT64
    ensures var total := TotalChunks(|d|, c);
            && total > 0
            && ((forall run :: DrawnRun(d, total, c, sent, run) ==>
                   Files(Run(Start(total, c, |d|), run)) == [] || Files(Run(Start(total, c, |d|), run)) == [d])
                <==> forall w :: w in sent ==> Honest(d, total, c, w.index, w.body))
  {
    TotalChunksIsCeiling(|d|, c);
    var total := TotalChunks(|d|, c);
    var s := Start(total, c, |d|);
    if forall w :: w in sent ==> Honest(d, total, c, w.index, w.body) {
      forall run | DrawnRun(d, total, c, sent, run) ensures Files(Run(s, run)) == [] || Files(Run(s, run)) == [d] {
        HonestRunPublishes(d, c, sent, run);
      }
    } else {
      var w :| w in sent && !Honest(d, total, c, w.index, w.body);
      var run := HarmfulRun(d, total, c, sent, w);
    }
  }

  lemma HonestRunPublishes(d: Bytes, c: int, sent: seq<Write>, run: seq<Action>)
    requires 0 < |d| && 0 < c && |d| + c - 1 <= MAX_INT64 && TotalChunks(|d|, c) > 0
    requires forall w :: w in sent ==> Honest(d, TotalChunks(|d|, c), c, w.index, w.body)
    requires DrawnRun(d, TotalChunks(|d|, c), c, sent, run)
    ensures var s := Run(Start(TotalChunks(|d|, c), c, |d|), run); Files(s) == [] || Files(s) == [d]
  {
    var total := TotalChunks(|d|, c);
    forall a | a in run ensures HonestAction(Some(d), Start(total, c, |d|), a) {
      if a.Spawn? && a.op.WriteOp? {
        var w := Write(a.op.index, a.op.body);
        if w !in sent {
          ChunkIsHonest(d, total, c, w);
        }
      }
    }
    PublishedIsWhole(d, c, run);
  }

  lemma HarmfulRun(d: Bytes, total: nat, c: int, sent: seq<Write>, w: Write) returns (run: seq<Action>)
    requires 0 < c && Covers(total, c, |d|) && w in sent && !Honest(d, total, c, w.index, w.body)
    ensures DrawnRun(d, total, c, sent, run)
    ensures var files := Files(Run(Start(total, c, |d|), run)); files != [] && files != [d]
  {
    DishonestSpoils(d, total, c, sent, w);
    var writes :| Drawn(d, total, c, sent, writes) && !Assembles(d, total, c, writes);
    var n := STEPS;
    TempStays(NewUpload(total, c, |d|), writes);
    WritesArePublished(total, c, |d|, writes, n);
    OneByOneIsDrawn(d, total, c, sent, writes, n);
    AdvancesSpawnNothing(|writes|, n);
    run := OneByOne(writes, n) + ([Spawn(|writes|, CompleteOp)] + Advances(|writes|, n));
  }
}
