/**
 * What the capsule scanner guarantees over whole runs when the FMP and the media are
 * honest: exactly when a deleted capsule is one that flash holds, that a staged capsule
 * is never written twice, and that a deletable one is gone after two boots.
 */
module CapsuleRuns {
  import opened Bytes
  import opened CapsuleParse
  import opened Firmware
  import opened CapsuleScan
  import opened BootRuns

  /**
   * An attempt answered honestly: the media returns the file, the snapshot shows the
   * stored record and the version this boot runs, the FMP installs the version the
   * capsule declares and records all or nothing, and a read-back shows the record or
   * nothing.
   */
  ghost predicate HonestAttempt(w: World, running: U32, id: FileId, a: Answers) {
    id in w.files ==>
      && (a.data.Some? ==> a.data.value == w.files[id])
      && a.Before() == Some(FmpInfo(w.record, running))
      && AllOrNothing(a.update)
      && ReadsBack(a.After(), RecordAfter(w, a.update))
      && (PayloadVersion(w.files[id]).Some? ==> Some(a.update.incoming) == PayloadVersion(w.files[id]))
  }

  ghost predicate HonestJobs(w: World, running: U32, jobs: seq<Job>) {
    forall i :: 0 <= i < |jobs| ==>
      HonestAttempt(Replay(w, TraceAll(w, jobs[..i])), running, jobs[i].id, jobs[i].answers)
  }

  lemma HonestJobsFront(w: World, running: U32, jobs: seq<Job>)
    requires jobs != [] && HonestJobs(w, running, jobs)
    ensures HonestJobs(w, running, jobs[..|jobs| - 1])
  {
    hide HonestAttempt, TraceAll;
    var front := jobs[..|jobs| - 1];
    forall i | 0 <= i < |front|
      ensures HonestAttempt(Replay(w, TraceAll(w, front[..i])), running, front[i].id, front[i].answers)
    {
      assert front[..i] == jobs[..i];
    }
  }

  ghost predicate HonestEvent(s: State, ev: Event) {
    ev.ReadyToBoot? && ev.volumes.Some? ==> HonestJobs(s.w, s.running, Jobs(ev.volumes.value))
  }

  ghost predicate HonestRun(s: State, evs: seq<Event>) {
    forall i :: 0 <= i < |evs| ==> HonestEvent(Run(s, evs[..i]), evs[i])
  }

  lemma HonestFront(s: State, evs: seq<Event>)
    requires evs != [] && HonestRun(s, evs)
    ensures HonestRun(s, evs[..|evs| - 1])
    ensures HonestEvent(Run(s, evs[..|evs| - 1]), evs[|evs| - 1])
  {
    var front := evs[..|evs| - 1];
    forall i | 0 <= i < |front|
      ensures HonestEvent(Run(s, front[..i]), front[i])
    {
      assert front[..i] == evs[..i] && front[i] == evs[i];
    }
  }

  // ----- the running version

  /** Until a boot has scanned, it runs what flash holds: nothing else writes flash. */
  predicate Coherent(s: State) {
    !s.scanDone ==> s.running == s.w.flash
  }

  lemma {:induction false} FlashKept(w: World, t: seq<Effect>)
    requires forall e <- t :: !e.WriteFlash?
    ensures Replay(w, t).flash == w.flash
    decreases |t|
  {
    if t != [] {
      assert t[0] in t;
      FlashKept(Perform(w, t[0]), t[1..]);
    }
  }

  lemma CoherentStep(s: State, ev: Event)
    requires Coherent(s)
    ensures Coherent(Step(s, ev))
  {
    hide ScanTrace, Replay, Perform;
    if !ev.ReadyToBoot? {
      FlashKept(s.w, Happened(s, ev));
    }
  }

  lemma {:induction false} CoherentRun(s: State, evs: seq<Event>)
    requires Coherent(s)
    ensures Coherent(Run(s, evs))
    decreases |evs|
  {
    hide Step;
    if evs != [] {
      CoherentRun(s, evs[..|evs| - 1]);
      CoherentStep(Run(s, evs[..|evs| - 1]), evs[|evs| - 1]);
    }
  }

  // ----- when a deleted capsule is one that flash holds

  /** The last write of flash was from this very file: it has not been staged anew since. */
  predicate FromFile(past: seq<Effect>, id: FileId) {
    past != [] &&
    var e := past[|past| - 1];
    if e.WriteFlash? then e.id == id
    else !(e.StageFile? && e.id == id) && FromFile(past[..|past| - 1], id)
  }

  /** The file may go: flash holds the version it declares or, if it declares none, was written from it. */
  ghost predicate Settled(w: World, past: seq<Effect>, id: FileId) {
    && id in w.files
    && match PayloadVersion(w.files[id])
       case Some(v) => v == w.flash
       case None => FromFile(past, id)
  }

  /** Every delete in t, performed from w on after the effects in past, is of a settled file. */
  ghost predicate SettledAfter(w: World, past: seq<Effect>, t: seq<Effect>) {
    forall i :: 0 <= i < |t| && t[i].Delete? ==> Settled(Replay(w, t[..i]), past + t[..i], t[i].id)
  }

  ghost predicate AllSettled(w: World, t: seq<Effect>) {
    SettledAfter(w, [], t)
  }

  lemma SettledSplit(w: World, past: seq<Effect>, t: seq<Effect>, u: seq<Effect>)
    ensures SettledAfter(w, past, t + u) <==> SettledAfter(w, past, t) && SettledAfter(Replay(w, t), past + t, u)
  {
    if SettledAfter(w, past, t + u) {
      SettledHalves(w, past, t, u);
    } else if SettledAfter(w, past, t) && SettledAfter(Replay(w, t), past + t, u) {
      SettledJoin(w, past, t, u);
    }
  }

  lemma SettledHalves(w: World, past: seq<Effect>, t: seq<Effect>, u: seq<Effect>)
    requires SettledAfter(w, past, t + u)
    ensures SettledAfter(w, past, t) && SettledAfter(Replay(w, t), past + t, u)
  {
    hide Settled, Replay;
    forall i | 0 <= i < |t| && t[i].Delete? ensures Settled(Replay(w, t[..i]), past + t[..i], t[i].id) {
      assert (t + u)[..i] == t[..i] && (t + u)[i] == t[i];
    }
    forall k | 0 <= k < |u| && u[k].Delete?
      ensures Settled(Replay(Replay(w, t), u[..k]), past + t + u[..k], u[k].id)
    {
      assert (t + u)[..|t| + k] == t + u[..k] && (t + u)[|t| + k] == u[k];
      ReplayAppend(w, t, u[..k]);
      assert past + (t + u[..k]) == past + t + u[..k];
    }
  }

  lemma SettledJoin(w: World, past: seq<Effect>, t: seq<Effect>, u: seq<Effect>)
    requires SettledAfter(w, past, t) && SettledAfter(Replay(w, t), past + t, u)
    ensures SettledAfter(w, past, t + u)
  {
    hide SettledAfter, Settled, Replay;
    var all := t + u;
    forall i | 0 <= i < |all| && all[i].Delete?
      ensures Settled(Replay(w, all[..i]), past + all[..i], all[i].id)
    {
      if i < |t| {
        SettledEarly(w, past, t, u, i);
      } else {
        SettledLate(w, past, t, u, i - |t|);
      }
    }
    SettledEverywhere(w, past, all);
  }

  lemma SettledEverywhere(w: World, past: seq<Effect>, t: seq<Effect>)
    requires forall i :: 0 <= i < |t| && t[i].Delete? ==> Settled(Replay(w, t[..i]), past + t[..i], t[i].id)
    ensures SettledAfter(w, past, t)
  {
  }

  lemma SettledEarly(w: World, past: seq<Effect>, t: seq<Effect>, u: seq<Effect>, i: nat)
    requires SettledAfter(w, past, t) && i < |t| && t[i].Delete?
    ensures var all := t + u;
            all[i] == t[i] && Settled(Replay(w, all[..i]), past + all[..i], all[i].id)
  {
    hide Settled, Replay;
    assert (t + u)[..i] == t[..i];
  }

  lemma SettledLate(w: World, past: seq<Effect>, t: seq<Effect>, u: seq<Effect>, k: nat)
    requires SettledAfter(Replay(w, t), past + t, u) && k < |u| && u[k].Delete?
    ensures var all, i := t + u, |t| + k;
            all[i] == u[k] && Settled(Replay(w, all[..i]), past + all[..i], all[i].id)
  {
    hide Settled, Replay;
    var front := u[..k];
    assert (t + u)[..|t| + k] == t + front;
    ReplayAppend(w, t, front);
    assert past + (t + front) == past + t + front;
  }

  lemma NoDeletesSettled(w: World, past: seq<Effect>, t: seq<Effect>)
    requires forall e <- t :: !e.Delete?
    ensures SettledAfter(w, past, t)
  {
  }

  function Take(t: seq<Effect>, n: nat): seq<Effect> {
    if n < |t| then t[..n] else t
  }

  /** The version gate finds the file to be the running version and gets it deleted. */
  ghost predicate GateDeletes(w: World, id: FileId, a: Answers) {
    EarlyExit(w, id, a) == Some(AlreadyRunning) && DeleteEffects(id, a) != []
  }

  /**
   * The exact condition, for one attempt cut after n effects: a delete at the version
   * gate is of a settled file if and only if flash still holds the running version, and
   * every other delete is of a settled file.
   */
  lemma AttemptSettled(w: World, running: U32, past: seq<Effect>, id: FileId, a: Answers, n: nat)
    requires HonestAttempt(w, running, id, a)
    ensures SettledAfter(w, past, Take(Trace(w, id, a), n)) <==>
            (n > 0 && GateDeletes(w, id, a) ==> w.flash == running)
  {
    var t := Trace(w, id, a);
    if EarlyExit(w, id, a) == Some(AlreadyRunning) {
      GateSettled(w, running, past, id, a, n);
    } else if EarlyExit(w, id, a).Some? {
      assert t == [];
    } else {
      AppliedSettled(w, running, past, id, a, n);
    }
  }

  lemma GateSettled(w: World, running: U32, past: seq<Effect>, id: FileId, a: Answers, n: nat)
    requires HonestAttempt(w, running, id, a) && EarlyExit(w, id, a) == Some(AlreadyRunning)
    ensures SettledAfter(w, past, Take(Trace(w, id, a), n)) <==>
            (n > 0 && GateDeletes(w, id, a) ==> w.flash == running)
  {
    hide HeaderOf;
    var t := Take(Trace(w, id, a), n);
    if t == [] {
      NoDeletesSettled(w, past, t);
    } else {
      assert t == [Delete(id)] && t[..0] == [] && past + [] == past;
      assert SettledAfter(w, past, t) <==> Settled(w, past, id);
    }
  }

  lemma AppliedSettled(w: World, running: U32, past: seq<Effect>, id: FileId, a: Answers, n: nat)
    requires HonestAttempt(w, running, id, a) && EarlyExit(w, id, a).None?
    ensures SettledAfter(w, past, Take(Trace(w, id, a), n))
  {
    hide HeaderOf;
    var u := UpdateEffects(id, a.update);
    var t := Take(Trace(w, id, a), n);
    forall i | 0 <= i < |t| && t[i].Delete?
      ensures Settled(Replay(w, t[..i]), past + t[..i], t[i].id)
    {
      assert Trace(w, id, a) == u + [Delete(id)];
      assert t[i] == Delete(id) && t[..i] == u;
      assert DeletesAsApplied(w, id, a);
      TruthfulApply(w, id, a);
      assert SnapshotSuffices(w, id, a);
      assert Later(a, a.update, a.fmpAfter, a.delete) == a;
      assert !LiesUnder(w, id, a, a.update, a.fmpAfter, a.delete);
      UpdateResult(w, id, a.update);
      JustWritten(past, id, a.update);
    }
  }

  lemma JustWritten(past: seq<Effect>, id: FileId, u: FmpReply)
    requires u.wrote
    ensures FromFile(past + UpdateEffects(id, u), id)
  {
    var e := UpdateEffects(id, u);
    var p := past + e;
    if u.recording.Whole? {
      assert p[|p| - 1] == RecordStatus(u.status) && p[|p| - 2] == WriteFlash(id, u.incoming);
    } else {
      assert p[|p| - 1] == WriteFlash(id, u.incoming);
    }
  }

  /** Among the first n effects of the attempts, no gate delete happens with flash away from the running version. */
  ghost predicate CleanJobs(w: World, running: U32, jobs: seq<Job>, n: nat) {
    jobs == [] ||
    var front, j := jobs[..|jobs| - 1], jobs[|jobs| - 1];
    var done := TraceAll(w, front);
    && CleanJobs(w, running, front, n)
    && (|done| < n && GateDeletes(Replay(w, done), j.id, j.answers) ==> Replay(w, done).flash == running)
  }

  lemma {:induction false} JobsSettled(w: World, running: U32, past: seq<Effect>, jobs: seq<Job>, n: nat)
    requires HonestJobs(w, running, jobs)
    ensures SettledAfter(w, past, Take(TraceAll(w, jobs), n)) <==> CleanJobs(w, running, jobs, n)
    decreases |jobs|
  {
    hide Trace, SettledAfter, HonestAttempt, GateDeletes;
    if jobs == [] {
      NoDeletesSettled(w, past, []);
    } else {
      var k := |jobs| - 1;
      var front, j := jobs[..k], jobs[k];
      HonestJobsFront(w, running, jobs);
      JobsSettled(w, running, past, front, n);
      var t := TraceAll(w, front);
      var w' := Replay(w, t);
      var u := Trace(w', j.id, j.answers);
      assert TraceAll(w, jobs) == t + u;
      if n <= |t| {
        assert Take(t + u, n) == Take(t, n);
      } else {
        assert Take(t + u, n) == t + Take(u, n - |t|) && Take(t, n) == t;
        SettledSplit(w, past, t, Take(u, n - |t|));
        AttemptSettled(w', running, past + t, j.id, j.answers, n - |t|);
      }
    }
  }

  ghost predicate CleanEvent(s: State, ev: Event) {
    ev.ReadyToBoot? && !s.scanDone && ev.volumes.Some? && AnyStaged(ev.volumes.value) ==>
      CleanJobs(s.w, s.running, Jobs(ev.volumes.value), |Happened(s, ev)|)
  }

  lemma EventSettled(s: State, ev: Event, past: seq<Effect>)
    requires HonestEvent(s, ev)
    ensures SettledAfter(s.w, past, Happened(s, ev)) <==> CleanEvent(s, ev)
  {
    hide SettledAfter, TraceAll, Jobs, HonestJobs, CleanJobs, Applied, AnyStaged;
    var t, h := Intended(s, ev), Happened(s, ev);
    if ev.ReadyToBoot? && !s.scanDone && ev.volumes.Some? && AnyStaged(ev.volumes.value) {
      var jobs := Jobs(ev.volumes.value);
      var u := TraceAll(s.w, jobs);
      JobsSettled(s.w, s.running, past, jobs, |h|);
      if |h| <= |u| {
        assert h == Take(u, |h|) by { assert h == t[..|h|]; }
      } else {
        assert h == u + [ColdReset] && Take(u, |h|) == u;
        SettledSplit(s.w, past, u, [ColdReset]);
        NoDeletesSettled(Replay(s.w, u), past + u, [ColdReset]);
      }
    } else {
      NoDeletesSettled(s.w, past, h);
    }
  }

  ghost predicate CleanRun(s: State, evs: seq<Event>) {
    evs == [] ||
    var front, ev := evs[..|evs| - 1], evs[|evs| - 1];
    CleanRun(s, front) && CleanEvent(Run(s, front), ev)
  }

  /**
   * Over every honest run -- with power failing anywhere, variable services silently
   * recording nothing, deletes that fail or half-fail -- every capsule file the scanner
   * removes is settled (flash holds the version it declares or, when it declares none,
   * was last written from it) if and only if no file is removed at the version gate
   * while flash no longer holds the running version.
   */
  lemma {:induction false} NoCapsuleLost(s: State, evs: seq<Event>)
    requires HonestRun(s, evs)
    ensures AllSettled(s.w, Log(s, evs)) <==> CleanRun(s, evs)
    decreases |evs|
  {
    hide SettledAfter, HonestEvent, Happened, CleanEvent;
    if evs == [] {
      NoDeletesSettled(s.w, [], []);
    } else {
      var front, ev := evs[..|evs| - 1], evs[|evs| - 1];
      HonestFront(s, evs);
      NoCapsuleLost(s, front);
      LogReplays(s, front);
      var t := Log(s, front);
      assert [] + t == t;
      EventSettled(Run(s, front), ev, t);
      SettledSplit(s.w, [], t, Happened(Run(s, front), ev));
    }
  }

  // ----- which directory listings are safe

  /** A capsule that an attempt takes as far as the version gate. */
  predicate Deliverable(data: seq<Byte>) {
    0 < |data| <= MAX_CAPSULE_BYTES && HeaderOf(data).Accepted?
  }

  function IdsOf(jobs: seq<Job>): (r: seq<FileId>)
    ensures |r| == |jobs|
  {
    seq(|jobs|, i requires 0 <= i < |jobs| => jobs[i].id)
  }

  /** A deliverable file of another version is listed ahead of one of the running version. */
  ghost predicate RiskyAt(w: World, running: U32, ids: seq<FileId>, i: nat, k: nat) {
    && i < k < |ids| && ids[i] in w.files && ids[k] in w.files
    && Deliverable(w.files[ids[i]]) && Deliverable(w.files[ids[k]])
    && PayloadVersion(w.files[ids[i]]) != Some(running) && PayloadVersion(w.files[ids[k]]) == Some(running)
  }

  ghost predicate Risky(w: World, running: U32, ids: seq<FileId>) {
    exists i: nat, k: nat :: RiskyAt(w, running, ids, i, k)
  }

  /** The files of w' are files of w. */
  predicate Within(w': World, w: World) {
    forall f <- w'.files :: f in w.files && w.files[f] == w'.files[f]
  }

  lemma {:induction false} FilesShrink(w: World, t: seq<Effect>)
    requires forall e <- t :: !e.StageFile?
    ensures Within(Replay(w, t), w)
    decreases |t|
  {
    if t != [] {
      assert t[0] in t;
      FilesShrink(Perform(w, t[0]), t[1..]);
    }
  }

  lemma AttemptNoStage(w: World, id: FileId, a: Answers)
    ensures forall e <- Trace(w, id, a) :: !e.StageFile?
  {
  }

  lemma {:induction false} JobsNoStage(w: World, jobs: seq<Job>)
    ensures forall e <- TraceAll(w, jobs) :: !e.StageFile?
    decreases |jobs|
  {
    hide Trace;
    if jobs != [] {
      var front, j := jobs[..|jobs| - 1], jobs[|jobs| - 1];
      JobsNoStage(w, front);
      AttemptNoStage(Replay(w, TraceAll(w, front)), j.id, j.answers);
    }
  }

  /** Attempts on nothing but the running version leave flash alone. */
  lemma {:induction false} RunningVersionOnly(w: World, running: U32, jobs: seq<Job>)
    requires HonestJobs(w, running, jobs)
    requires forall j <- jobs :: j.id in w.files && Deliverable(w.files[j.id]) ==>
               PayloadVersion(w.files[j.id]) == Some(running)
    ensures forall e <- TraceAll(w, jobs) :: !e.WriteFlash?
    decreases |jobs|
  {
    hide PayloadVersion, HeaderOf;
    if jobs != [] {
      var front, j := jobs[..|jobs| - 1], jobs[|jobs| - 1];
      assert j in jobs;
      HonestJobsFront(w, running, jobs);
      RunningVersionOnly(w, running, front);
      JobsNoStage(w, front);
      FilesShrink(w, TraceAll(w, front));
      var w' := Replay(w, TraceAll(w, front));
      assert HonestAttempt(w', running, j.id, j.answers) by { assert jobs[..|jobs| - 1] == front; }
      assert EarlyExit(w', j.id, j.answers).Some?;
    }
  }

  lemma {:induction false} SafeListing(w: World, running: U32, jobs: seq<Job>, n: nat)
    requires w.flash == running && HonestJobs(w, running, jobs) && !Risky(w, running, IdsOf(jobs))
    ensures CleanJobs(w, running, jobs, n)
    decreases |jobs|
  {
    hide HonestJobs, Risky, GateDeletes, TraceAll, Replay;
    if jobs != [] {
      var front, j := jobs[..|jobs| - 1], jobs[|jobs| - 1];
      HonestJobsFront(w, running, jobs);
      SafeFront(w, running, jobs);
      SafeListing(w, running, front, n);
      if GateDeletes(Replay(w, TraceAll(w, front)), j.id, j.answers) {
        SafeGate(w, running, jobs);
      }
    }
  }

  lemma SafeGate(w: World, running: U32, jobs: seq<Job>)
    requires w.flash == running && HonestJobs(w, running, jobs) && !Risky(w, running, IdsOf(jobs)) && jobs != []
    requires var j := jobs[|jobs| - 1];
             GateDeletes(Replay(w, TraceAll(w, jobs[..|jobs| - 1])), j.id, j.answers)
    ensures Replay(w, TraceAll(w, jobs[..|jobs| - 1])).flash == running
  {
    hide PayloadVersion, HeaderOf, TraceAll, Replay, HonestJobs;
    var last := |jobs| - 1;
    var front, j := jobs[..last], jobs[last];
    var done := TraceAll(w, front);
    JobsNoStage(w, front);
    FilesShrink(w, done);
    var w' := Replay(w, done);
    LastHonest(w, running, jobs);
    assert PayloadVersion(w.files[j.id]) == Some(running) && Deliverable(w.files[j.id]);
    var ids := IdsOf(jobs);
    forall i | 0 <= i < last && jobs[i].id in w.files && Deliverable(w.files[jobs[i].id])
      ensures PayloadVersion(w.files[jobs[i].id]) == Some(running)
    {
      assert ids[i] == jobs[i].id && ids[last] == j.id;
      assert !RiskyAt(w, running, ids, i, last);
    }
    HonestJobsFront(w, running, jobs);
    RunningVersionOnly(w, running, front);
    FlashKept(w, done);
  }

  lemma LastHonest(w: World, running: U32, jobs: seq<Job>)
    requires jobs != [] && HonestJobs(w, running, jobs)
    ensures var j := jobs[|jobs| - 1];
            HonestAttempt(Replay(w, TraceAll(w, jobs[..|jobs| - 1])), running, j.id, j.answers)
  {
  }

  lemma SafeFront(w: World, running: U32, jobs: seq<Job>)
    requires jobs != [] && !Risky(w, running, IdsOf(jobs))
    ensures !Risky(w, running, IdsOf(jobs[..|jobs| - 1]))
  {
    hide PayloadVersion, Deliverable;
    var ids, front := IdsOf(jobs), IdsOf(jobs[..|jobs| - 1]);
    assert front == ids[..|jobs| - 1];
    forall i: nat, k: nat ensures !RiskyAt(w, running, front, i, k) {
      assert !RiskyAt(w, running, ids, i, k);
    }
  }

  // the honest answers that lose a file of a risky listing

  /** The version the FMP takes a capsule for: what it declares, else one that is not running. */
  ghost function Incoming(running: U32, data: seq<Byte>): U32 {
    match PayloadVersion(data)
    case Some(v) => v
    case None => if running == 0 then 1 else 0
  }

  /** Position i is written without a record, position k is offered to the gate, the others do not open. */
  ghost function LosingAnswers(w: World, running: U32, id: FileId, opens: bool): Answers {
    var data := if id in w.files then w.files[id] else [];
    Answers(opens, false, Some(|data|), true, if opens then Some(data) else None,
            [Some(Descriptor(true, 3, w.record, running))],
            FmpReply(true, true, Incoming(running, data), Silent, 0), [], DeleteReply(true, true))
  }

  ghost function LosingJobs(w: World, running: U32, ids: seq<FileId>, i: nat, k: nat): (jobs: seq<Job>)
    ensures |jobs| == |ids| && IdsOf(jobs) == ids
  {
    var jobs := seq(|ids|, j requires 0 <= j < |ids| =>
      Job(ids[j], LosingAnswers(w, running, ids[j], j == i || j == k)));
    assert IdsOf(jobs) == ids;
    jobs
  }

  ghost function LosingTrace(w: World, running: U32, ids: seq<FileId>, i: nat, k: nat, m: nat): seq<Effect>
    requires RiskyAt(w, running, ids, i, k)
  {
    if m <= i then []
    else if m <= k then [WriteFlash(ids[i], Incoming(running, w.files[ids[i]]))]
    else [WriteFlash(ids[i], Incoming(running, w.files[ids[i]])), Delete(ids[k])]
  }

  lemma LosingTurn(w: World, running: U32, ids: seq<FileId>, i: nat, k: nat, m: nat)
    requires RiskyAt(w, running, ids, i, k) && m < |ids|
    ensures
      var w' := Replay(w, LosingTrace(w, running, ids, i, k, m));
      var a := LosingAnswers(w, running, ids[m], m == i || m == k);
      && HonestAttempt(w', running, ids[m], a)
      && LosingTrace(w, running, ids, i, k, m) + Trace(w', ids[m], a) == LosingTrace(w, running, ids, i, k, m + 1)
  {
    hide PayloadVersion, HeaderOf;
    var t := LosingTrace(w, running, ids, i, k, m);
    var w' := Replay(w, t);
    var a := LosingAnswers(w, running, ids[m], m == i || m == k);
    LosingWorld(w, running, ids, i, k, m);
    assert FmpRecord(a.fmpBefore) == Some(FmpInfo(w.record, running));
    assert FmpRecord([]) == None;
    if m == i {
      assert UpdateEffects(ids[i], a.update) == [WriteFlash(ids[i], Incoming(running, w.files[ids[i]]))];
      assert LateExit(a) == NoReadBack;
      assert Trace(w', ids[m], a) == UpdateEffects(ids[i], a.update) + [];
    } else if m == k {
      assert EarlyExit(w', ids[m], a) == Some(AlreadyRunning);
    } else {
      assert Trace(w', ids[m], a) == [];
    }
  }

  lemma LosingWorld(w: World, running: U32, ids: seq<FileId>, i: nat, k: nat, m: nat)
    requires RiskyAt(w, running, ids, i, k)
    ensures
      var w' := Replay(w, LosingTrace(w, running, ids, i, k, m));
      && w'.record == w.record
      && w'.files == (if m <= k then w.files else w.files - {ids[k]})
      && w'.flash == if m <= i then w.flash else Incoming(running, w.files[ids[i]])
  {
    hide PayloadVersion, HeaderOf;
    var t := LosingTrace(w, running, ids, i, k, m);
    if |t| == 1 {
      ReplayOne(w, t[0]);
    } else if |t| == 2 {
      assert t == [t[0]] + [t[1]];
      ReplayAppend(w, [t[0]], [t[1]]);
      ReplayOne(w, t[0]);
      ReplayOne(Perform(w, t[0]), t[1]);
    }
  }

  lemma {:induction false} LosingRun(w: World, running: U32, ids: seq<FileId>, i: nat, k: nat, m: nat)
    requires RiskyAt(w, running, ids, i, k) && m <= |ids|
    ensures TraceAll(w, LosingJobs(w, running, ids, i, k)[..m]) == LosingTrace(w, running, ids, i, k, m)
    ensures HonestJobs(w, running, LosingJobs(w, running, ids, i, k)[..m])
    decreases m
  {
    hide HonestAttempt, HonestJobs, Trace, TraceAll, Applied, LosingAnswers, LosingTrace, PayloadVersion, RiskyAt, Replay;
    var jobs := LosingJobs(w, running, ids, i, k);
    if m == 0 {
      NoneYet(w, running, ids, i, k);
    } else {
      LosingRun(w, running, ids, i, k, m - 1);
      LosingTurn(w, running, ids, i, k, m - 1);
      OneMore(w, jobs, m - 1);
      HonestSnoc(w, running, jobs, m - 1);
    }
  }

  lemma HonestSnoc(w: World, running: U32, jobs: seq<Job>, m: nat)
    requires m < |jobs| && HonestJobs(w, running, jobs[..m])
    requires HonestAttempt(Replay(w, TraceAll(w, jobs[..m])), running, jobs[m].id, jobs[m].answers)
    ensures HonestJobs(w, running, jobs[..m + 1])
  {
    hide HonestAttempt, TraceAll, Replay;
    forall j | 0 <= j <= m
      ensures HonestAttempt(Replay(w, TraceAll(w, jobs[..m + 1][..j])), running, jobs[j].id, jobs[j].answers)
    {
      assert jobs[..m + 1][..j] == jobs[..j];
      if j < m {
        assert jobs[..m][..j] == jobs[..j] && jobs[..m][j] == jobs[j];
      }
    }
  }

  lemma NoneYet(w: World, running: U32, ids: seq<FileId>, i: nat, k: nat)
    requires RiskyAt(w, running, ids, i, k)
    ensures LosingTrace(w, running, ids, i, k, 0) == TraceAll(w, []) && HonestJobs(w, running, [])
  {
  }

  lemma LosingUnsettled(w: World, running: U32, ids: seq<FileId>, i: nat, k: nat)
    requires RiskyAt(w, running, ids, i, k)
    ensures !AllSettled(w, LosingTrace(w, running, ids, i, k, |ids|))
    ensures Delete(ids[k]) in LosingTrace(w, running, ids, i, k, |ids|)
  {
    hide PayloadVersion, HeaderOf;
    var t := LosingTrace(w, running, ids, i, k, |ids|);
    assert t[1] == Delete(ids[k]) && t[..1] == LosingTrace(w, running, ids, i, k, k);
    LosingWorld(w, running, ids, i, k, k);
    assert !Settled(Replay(w, t[..1]), [] + t[..1], ids[k]);
  }

  /**
   * What a caller can check before a scan: with flash as booted, no honest answers can
   * make a scan of these files delete one that flash does not hold if and only if no
   * deliverable file of another version is listed ahead of one of the running version.
   */
  lemma ScanLosesNothing(w: World, running: U32, ids: seq<FileId>)
    requires w.flash == running
    ensures (forall jobs :: IdsOf(jobs) == ids && HonestJobs(w, running, jobs) ==> AllSettled(w, TraceAll(w, jobs)))
       <==> !Risky(w, running, ids)
  {
    hide HonestJobs, SettledAfter, TraceAll, RiskyAt, LosingTrace;
    if Risky(w, running, ids) {
      var i: nat, k: nat :| RiskyAt(w, running, ids, i, k);
      var jobs := LosingJobs(w, running, ids, i, k);
      assert jobs[..|ids|] == jobs;
      LosingRun(w, running, ids, i, k, |ids|);
      LosingUnsettled(w, running, ids, i, k);
    } else {
      forall jobs | IdsOf(jobs) == ids && HonestJobs(w, running, jobs) ensures AllSettled(w, TraceAll(w, jobs)) {
        var n := |TraceAll(w, jobs)|;
        SafeListing(w, running, jobs, n);
        JobsSettled(w, running, [], jobs, n);
      }
    }
  }

  /** Every scan of the run meets a listing that is safe for the version it runs. */
  ghost predicate SafeEvent(s: State, ev: Event) {
    ev.ReadyToBoot? && !s.scanDone && ev.volumes.Some? ==> !Risky(s.w, s.running, IdsOf(Jobs(ev.volumes.value)))
  }

  ghost predicate SafeRun(s: State, evs: seq<Event>) {
    evs == [] ||
    var front, ev := evs[..|evs| - 1], evs[|evs| - 1];
    SafeRun(s, front) && SafeEvent(Run(s, front), ev)
  }

  /** Over every honest run whose listings are safe, no capsule is lost. */
  lemma {:induction false} SafeRunsLoseNothing(s: State, evs: seq<Event>)
    requires Coherent(s) && HonestRun(s, evs) && SafeRun(s, evs)
    ensures CleanRun(s, evs) && AllSettled(s.w, Log(s, evs))
    decreases |evs|
  {
    hide HonestJobs, Risky, CleanJobs, HonestRun, AllSettled, Step, AnyStaged;
    NoCapsuleLost(s, evs);
    if evs != [] {
      var front, ev := evs[..|evs| - 1], evs[|evs| - 1];
      HonestFront(s, evs);
      SafeRunsLoseNothing(s, front);
      CoherentRun(s, front);
      var s1 := Run(s, front);
      if ev.ReadyToBoot? && !s1.scanDone && ev.volumes.Some? {
        SafeListing(s1.w, s1.running, Jobs(ev.volumes.value), |Happened(s1, ev)|);
      }
    }
  }

  /** The smallest loss: version 2 staged ahead of the running version 1. The second file goes unwritten. */
  lemma TwoCapsulesLoseOne(w: World, x: FileId, y: FileId)
    requires x != y && w.files == map[x := Capsule(2), y := Capsule(1)] && w.flash == 1
    ensures exists jobs :: && IdsOf(jobs) == [x, y] && HonestJobs(w, 1, jobs)
                           && Delete(y) in TraceAll(w, jobs) && !AllSettled(w, TraceAll(w, jobs))
  {
    hide HonestJobs, SettledAfter, TraceAll, LosingTrace, PayloadVersion, HeaderOf, Capsule;
    CapsuleIsSound(2);
    CapsuleIsSound(1);
    assert RiskyAt(w, 1, [x, y], 0, 1);
    var jobs := LosingJobs(w, 1, [x, y], 0, 1);
    assert jobs[..2] == jobs;
    LosingRun(w, 1, [x, y], 0, 1, 2);
    LosingUnsettled(w, 1, [x, y], 0, 1);
  }

  // ----- a single staged capsule

  function Writes(t: seq<Effect>): nat {
    if t == [] then 0 else (if t[0].WriteFlash? then 1 else 0) + Writes(t[1..])
  }

  lemma {:induction false} WritesAppend(t: seq<Effect>, u: seq<Effect>)
    ensures Writes(t + u) == Writes(t) + Writes(u)
  {
    if t == [] {
      assert t + u == u;
    } else {
      assert (t + u)[1..] == t[1..] + u;
      WritesAppend(t[1..], u);
    }
  }

  predicate OnlyWrites(t: seq<Effect>, v: U32) {
    forall e <- t :: e.WriteFlash? ==> e.version == v
  }

  lemma {:induction false} FlashAfter(w: World, t: seq<Effect>, v: U32)
    requires OnlyWrites(t, v)
    ensures Replay(w, t).flash == if Writes(t) == 0 then w.flash else v
    decreases t
  {
    if t != [] {
      assert OnlyWrites(t[1..], v);
      FlashAfter(Perform(w, t[0]), t[1..], v);
    }
  }

  /** The only file that can be there is id, with this content. */
  predicate Single(w: World, id: FileId, data: seq<Byte>) {
    forall f <- w.files :: f == id && w.files[f] == data
  }

  lemma {:induction false} SingleKept(w: World, t: seq<Effect>, id: FileId, data: seq<Byte>)
    requires Single(w, id, data)
    requires forall e <- t :: !e.StageFile?
    ensures Single(Replay(w, t), id, data)
    ensures id !in w.files ==> id !in Replay(w, t).files
    decreases t
  {
    if t != [] {
      SingleKept(Perform(w, t[0]), t[1..], id, data);
    }
  }

  /** A run in which nothing is staged and no scan lists a file twice. */
  ghost predicate Quiet(evs: seq<Event>) {
    forall ev <- evs ::
      && (ev.External? ==> !ev.effect.StageFile?)
      && (ev.ReadyToBoot? && ev.volumes.Some? ==> DistinctJobs(Jobs(ev.volumes.value)))
  }

  lemma {:induction false} IdleJobs(w: World, jobs: seq<Job>)
    requires forall j <- jobs :: j.id !in w.files
    ensures TraceAll(w, jobs) == []
  {
    hide PayloadVersion, HeaderOf;
    if jobs != [] {
      var n := |jobs| - 1;
      IdleJobs(w, jobs[..n]);
      assert jobs[..n + 1] == jobs;
      assert jobs[n] in jobs;
      assert Turn(w, [], jobs[n]) == [];
    }
  }

  lemma FilesGone(w: World, t: seq<Effect>, f: FileId)
    requires f !in w.files && forall e <- t :: !e.StageFile?
    ensures f !in Replay(w, t).files
    decreases t
  {
  }

  /** With one file on the media, a scan comes down to the one attempt on it. */
  lemma OneAttempt(w: World, running: U32, jobs: seq<Job>, id: FileId, data: seq<Byte>, k: nat)
    requires Single(w, id, data) && DistinctJobs(jobs)
    requires k < |jobs| && jobs[k].id == id
    ensures TraceAll(w, jobs) == Trace(w, id, jobs[k].answers)
    ensures HonestJobs(w, running, jobs) ==> HonestAttempt(w, running, id, jobs[k].answers)
  {
    hide Trace, Turn, HonestAttempt;
    var pre, post := jobs[..k], jobs[k + 1..];
    forall j | j in pre || j in post
      ensures j.id != id
    {
    }
    IdleJobs(w, pre);
    assert jobs == jobs[..k + 1] + post;
    OneMore(w, jobs, k);
    var t := Trace(w, id, jobs[k].answers);
    assert [] + t == t;
    AttemptNoStage(w, id, jobs[k].answers);
    forall j | j in post
      ensures j.id !in Replay(w, t).files
    {
      FilesGone(w, t, j.id);
    }
    IdleJobs(Replay(w, t), post);
    TraceAllAppend(w, jobs[..k + 1], post);
    assert t + [] == t;
  }

  lemma AttemptWrites(w: World, id: FileId, a: Answers, v: U32)
    requires HonestAttempt(w, w.flash, id, a)
    requires id in w.files && PayloadVersion(w.files[id]) == Some(v)
    ensures OnlyWrites(Trace(w, id, a), v)
    ensures Writes(Trace(w, id, a)) <= if w.flash == v then 0 else 1
  {
    var t := Trace(w, id, a);
    if EarlyExit(w, id, a).None? {
      assert w.flash != v;
      var u := UpdateEffects(id, a.update);
      var d := t[|u|..];
      assert t == u + d;
      WritesAppend(u, d);
      UpdateWritesOnce(id, a.update);
      assert d == [] || d == [Delete(id)];
    }
  }

  lemma UpdateWritesOnce(id: FileId, u: FmpReply)
    ensures Writes(UpdateEffects(id, u)) <= 1
  {
    var a := if u.recording.Silent? then [] else [RecordVersion(u.incoming)];
    var b := if u.wrote then [WriteFlash(id, u.incoming)] else [];
    var c := if u.recording.Whole? then [RecordStatus(u.status)] else [];
    WritesAppend(a + b, c);
    WritesAppend(a, b);
  }

  lemma ScanWrites(s: State, vs: Option<seq<Volume>>, id: FileId, data: seq<Byte>, v: U32)
    requires PayloadVersion(data) == Some(v) && Single(s.w, id, data)
    requires s.running == s.w.flash
    requires vs.Some? ==> HonestJobs(s.w, s.running, Jobs(vs.value)) && DistinctJobs(Jobs(vs.value))
    ensures OnlyWrites(ScanTrace(s.w, vs), v)
    ensures Writes(ScanTrace(s.w, vs)) <= if s.w.flash == v then 0 else 1
    ensures forall e <- ScanTrace(s.w, vs) :: !e.StageFile?
  {
    hide TraceAll, HonestAttempt, PayloadVersion, Trace, Jobs;
    if vs.Some? && AnyStaged(vs.value) {
      var jobs := Jobs(vs.value);
      var t := TraceAll(s.w, jobs);
      if id in s.w.files && exists k :: 0 <= k < |jobs| && jobs[k].id == id {
        var k :| 0 <= k < |jobs| && jobs[k].id == id;
        OneAttempt(s.w, s.running, jobs, id, data, k);
        AttemptWrites(s.w, id, jobs[k].answers, v);
        AttemptNoStage(s.w, id, jobs[k].answers);
      } else {
        IdleJobs(s.w, jobs);
      }
      WritesAppend(t, [ColdReset]);
      assert t + [] == t;
    }
  }

  lemma {:induction false} WritesPrefix(t: seq<Effect>, k: nat)
    requires k <= |t|
    ensures Writes(t[..k]) <= Writes(t)
  {
    WritesAppend(t[..k], t[k..]);
    assert t == t[..k] + t[k..];
  }

  lemma EventWrites(s: State, ev: Event, id: FileId, data: seq<Byte>, v: U32)
    requires PayloadVersion(data) == Some(v) && Single(s.w, id, data)
    requires Coherent(s) && HonestEvent(s, ev) && Quiet([ev])
    ensures OnlyWrites(Happened(s, ev), v)
    ensures Writes(Happened(s, ev)) <= if s.w.flash == v then 0 else 1
    ensures forall e <- Happened(s, ev) :: !e.StageFile?
  {
    hide PayloadVersion, ScanTrace, HonestJobs, Jobs;
    assert ev in [ev];
    var t := Intended(s, ev);
    match ev {
      case PowerOn =>
      case External(e) => assert t == [e] && [e][1..] == [];
      case Init(a, _) => OverrideNeverWrites(s.w, s.syncDone, a);
      case ReadyToBoot(vs, _) =>
        if !s.scanDone {
          ScanWrites(s, vs, id, data, v);
        }
    }
    if Happened(s, ev) != t {
      WritesPrefix(t, ev.cut.value);
    }
  }

  lemma OverrideNeverWrites(w: World, syncDone: bool, a: BootOverride.SyncAnswers)
    ensures var t := BootOverride.SyncTrace(w, syncDone, a);
            Writes(t) == 0 && forall e <- t :: !e.StageFile? && !e.WriteFlash?
  {
    NeverWrites(BootOverride.SyncTrace(w, syncDone, a));
  }

  lemma {:induction false} NeverWrites(t: seq<Effect>)
    requires forall e <- t :: !e.WriteFlash?
    ensures Writes(t) == 0
  {
    if t != [] {
      NeverWrites(t[1..]);
    }
  }

  lemma QuietFront(evs: seq<Event>)
    requires evs != [] && Quiet(evs)
    ensures Quiet(evs[..|evs| - 1]) && Quiet([evs[|evs| - 1]])
  {
    assert forall ev <- evs[..|evs| - 1] :: ev in evs;
    assert evs[|evs| - 1] in evs;
  }

  /**
   * A staged capsule whose version can be read is written to flash at most once over
   * every honest run, deletable or not, and once written it stays what flash holds: the
   * latch keeps the boot of the write from trying again, later boots run what was written.
   */
  lemma {:induction false} WrittenAtMostOnce(s: State, evs: seq<Event>, id: FileId, data: seq<Byte>, v: U32)
    requires PayloadVersion(data) == Some(v) && Single(s.w, id, data)
    requires Coherent(s) && HonestRun(s, evs) && Quiet(evs)
    ensures Writes(Log(s, evs)) <= if s.w.flash == v then 0 else 1
    ensures Run(s, evs).w.flash == if Writes(Log(s, evs)) == 0 then s.w.flash else v
    ensures Single(Run(s, evs).w, id, data)
    ensures id !in s.w.files ==> id !in Run(s, evs).w.files
  {
    hide PayloadVersion, HonestEvent, Happened, Quiet;
    if evs != [] {
      var front, ev := evs[..|evs| - 1], evs[|evs| - 1];
      HonestFront(s, evs);
      QuietFront(evs);
      WrittenAtMostOnce(s, front, id, data, v);
      var s1 := Run(s, front);
      CoherentRun(s, front);
      var h := Happened(s1, ev);
      EventWrites(s1, ev, id, data, v);
      WritesAppend(Log(s, front), h);
      FlashAfter(s1.w, h, v);
      SingleKept(s1.w, h, id, data);
    }
  }

  // ----- and is gone after two boots

  /** An attempt on a well-formed, accepted capsule on writable media. */
  ghost predicate Serves(a: Answers, data: seq<Byte>) {
    && 0 < |data| <= MAX_CAPSULE_BYTES && HeaderOf(data).Accepted?
    && a.openRw && a.size == Some(|data|) && a.pool && a.data == Some(data)
    && a.update.ok && a.update.wrote && a.delete.success
  }

  /** The first, uninterrupted ReadyToBoot of a boot, with the capsule found and served. */
  ghost predicate CompletedScan(s: State, ev: Event, id: FileId, data: seq<Byte>) {
    && ev.ReadyToBoot? && ev.cut.None? && !s.scanDone
    && ev.volumes.Some? && AnyStaged(ev.volumes.value)
    && exists j <- Jobs(ev.volumes.value) :: j.id == id && Serves(j.answers, data)
  }

  /** One attempt either gets the file deleted or leaves its version in flash; never neither. */
  lemma AttemptProgress(w: World, id: FileId, a: Answers, data: seq<Byte>, v: U32)
    requires PayloadVersion(data) == Some(v) && id in w.files && w.files[id] == data
    requires HonestAttempt(w, w.flash, id, a) && Serves(a, data)
    ensures var w' := Replay(w, Trace(w, id, a));
            && (id !in w'.files || w'.flash == v)
            && (w.flash == v || id !in w.files ==> id !in w'.files)
  {
    hide PayloadVersion, HeaderOf;
    if w.flash == v {
      assert Trace(w, id, a) == [Delete(id)];
      ReplayOne(w, Delete(id));
    } else {
      UpdateResult(w, id, a.update);
      var u := UpdateEffects(id, a.update);
      assert Trace(w, id, a) == u || Trace(w, id, a) == u + [Delete(id)] by { assert u + [] == u; }
      ReplayAppend(w, u, [Delete(id)]);
      ReplayOne(Replay(w, u), Delete(id));
    }
  }

  /**
   * One scan is not always enough. A new version goes in one scan exactly when it is
   * non-zero, the FMP recorded it as a success and the read-back shows that, and the
   * record did not already say so before the attempt.
   */
  lemma GoneAfterOneScan(w: World, running: U32, id: FileId, a: Answers, data: seq<Byte>, v: U32)
    requires PayloadVersion(data) == Some(v) && id in w.files && w.files[id] == data
    requires HonestAttempt(w, running, id, a) && Serves(a, data) && running != v
    ensures id !in Replay(w, Trace(w, id, a)).files <==>
            && v != 0 && w.record != Attempt(v, STATUS_SUCCESS)
            && a.update.recording.Whole? && a.After() == Some(Attempt(v, STATUS_SUCCESS))
  {
    hide PayloadVersion, HeaderOf;
    UpdateResult(w, id, a.update);
    var u := UpdateEffects(id, a.update);
    assert Trace(w, id, a) == if LateExit(a) == Consumed then u + [Delete(id)] else u by { assert u + [] == u; }
    ReplayAppend(w, u, [Delete(id)]);
    ReplayOne(Replay(w, u), Delete(id));
  }

  lemma ScanProgress(s: State, ev: Event, id: FileId, data: seq<Byte>, v: U32)
    requires PayloadVersion(data) == Some(v) && Single(s.w, id, data)
    requires Coherent(s) && HonestEvent(s, ev) && Quiet([ev]) && CompletedScan(s, ev, id, data)
    ensures var w' := Step(s, ev).w;
            && (id !in w'.files || w'.flash == v)
            && (s.w.flash == v || id !in s.w.files ==> id !in w'.files)
  {
    hide PayloadVersion, HeaderOf, Trace, Jobs, TraceAll, Applied, HonestAttempt;
    assert ev in [ev];
    var jobs := Jobs(ev.volumes.value);
    var j :| j in jobs && j.id == id && Serves(j.answers, data);
    var k :| 0 <= k < |jobs| && jobs[k] == j;
    var t := TraceAll(s.w, jobs);
    OneAttempt(s.w, s.running, jobs, id, data, k);
    ReplayAppend(s.w, t, [ColdReset]);
    ReplayOne(Replay(s.w, t), ColdReset);
    assert t + [] == t;
    if id in s.w.files {
      AttemptProgress(s.w, id, j.answers, data, v);
    } else {
      AttemptNoStage(s.w, id, j.answers);
      SingleKept(s.w, t, id, data);
    }
  }

  lemma RunSplit(s: State, evs: seq<Event>, k: nat)
    requires k <= |evs|
    ensures Run(s, evs) == Run(Run(s, evs[..k]), evs[k..])
    decreases |evs| - k
  {
    hide Step;
    if k < |evs| {
      var front := evs[..|evs| - 1];
      RunSplit(s, front, k);
      assert front[..k] == evs[..k];
      assert evs[k..][..|evs| - 1 - k] == front[k..];
    } else {
      assert evs[..k] == evs && evs[k..] == [];
    }
  }

  lemma HonestSplit(s: State, evs: seq<Event>, k: nat)
    requires k <= |evs| && HonestRun(s, evs) && Quiet(evs)
    ensures HonestRun(s, evs[..k]) && HonestRun(Run(s, evs[..k]), evs[k..])
    ensures Quiet(evs[..k]) && Quiet(evs[k..])
  {
    hide Run, HonestEvent;
    forall i | 0 <= i < k
      ensures HonestEvent(Run(s, evs[..k][..i]), evs[..k][i])
    {
      assert evs[..k][..i] == evs[..i];
    }
    forall i | 0 <= i < |evs| - k
      ensures HonestEvent(Run(Run(s, evs[..k]), evs[k..][..i]), evs[k..][i])
    {
      var e := evs[..k + i];
      RunSplit(s, e, k);
      assert e[..k] == evs[..k] && e[k..] == evs[k..][..i];
      assert evs[k..][i] == evs[k + i];
    }
    assert forall ev :: ev in evs[..k] || ev in evs[k..] ==> ev in evs;
  }

  /** The event is a completed scan, if the file is still there to be scanned. */
  ghost predicate ScannedIfThere(s: State, ev: Event, id: FileId, data: seq<Byte>) {
    id in s.w.files ==> CompletedScan(s, ev, id, data)
  }

  /**
   * Two completed scans suffice: over every honest run in which the capsule is served
   * twice, or as often as it is still there, however much happens before, between and
   * after, the file is gone -- whatever its version (zero included), whatever the record
   * held before, and whether or not the FMP managed to record the attempt.
   */
  lemma GoneAfterTwoScans(s: State, evs: seq<Event>, i: nat, j: nat, id: FileId, data: seq<Byte>, v: U32)
    requires PayloadVersion(data) == Some(v) && Single(s.w, id, data)
    requires Coherent(s) && HonestRun(s, evs) && Quiet(evs) && i < j < |evs|
    requires ScannedIfThere(Run(s, evs[..i]), evs[i], id, data)
    requires ScannedIfThere(Run(s, evs[..j]), evs[j], id, data)
    ensures id !in Run(s, evs).w.files
  {
    hide PayloadVersion, ScannedIfThere, HonestRun, Quiet, Log, Run, Single, Coherent;
    HonestSplit(s, evs, i + 1);
    HonestSplit(s, evs, j);
    HonestSplit(s, evs, j + 1);
    assert evs[..i + 1][..i] == evs[..i] && evs[..j + 1][..j] == evs[..j];
    AfterScan(s, evs[..i + 1], id, data, v);
    SettledBetween(s, evs[..j], i + 1, id, data, v) by {
      assert evs[..j][..i + 1] == evs[..i + 1];
    }
    AfterScan(s, evs[..j + 1], id, data, v);
    RunSplit(s, evs, j + 1);
    CoherentRun(s, evs[..j + 1]);
    WrittenAtMostOnce(Run(s, evs[..j + 1]), evs[j + 1..], id, data, v);
  }

  lemma SettledBetween(s: State, evs: seq<Event>, k: nat, id: FileId, data: seq<Byte>, v: U32)
    requires PayloadVersion(data) == Some(v) && k <= |evs|
    requires Coherent(s) && HonestRun(s, evs) && Quiet(evs)
    requires var w := Run(s, evs[..k]).w;
             Single(w, id, data) && (id !in w.files || w.flash == v)
    ensures var w := Run(s, evs).w;
            Single(w, id, data) && (id !in w.files || w.flash == v)
  {
    hide PayloadVersion, HonestRun, Quiet, Log, Run, Single, Coherent;
    HonestSplit(s, evs, k);
    RunSplit(s, evs, k);
    CoherentRun(s, evs[..k]);
    WrittenAtMostOnce(Run(s, evs[..k]), evs[k..], id, data, v);
  }

  /** What the last event of a run, a scan if the file is there, leaves behind. */
  lemma AfterScan(s: State, evs: seq<Event>, id: FileId, data: seq<Byte>, v: U32)
    requires PayloadVersion(data) == Some(v) && Single(s.w, id, data)
    requires Coherent(s) && HonestRun(s, evs) && Quiet(evs) && evs != []
    requires ScannedIfThere(Run(s, evs[..|evs| - 1]), evs[|evs| - 1], id, data)
    ensures var w, w' := Run(s, evs[..|evs| - 1]).w, Run(s, evs).w;
            && Single(w, id, data) && Single(w', id, data)
            && (id !in w'.files || w'.flash == v)
            && (w.flash == v || id !in w.files ==> id !in w'.files)
  {
    hide PayloadVersion, Step, CompletedScan, HonestEvent, Happened, Log;
    var front, ev := evs[..|evs| - 1], evs[|evs| - 1];
    HonestFront(s, evs);
    QuietFront(evs);
    WrittenAtMostOnce(s, front, id, data, v);
    WrittenAtMostOnce(s, evs, id, data, v);
    var s1 := Run(s, front);
    CoherentRun(s, front);
    if id in s1.w.files {
      ScanProgress(s1, ev, id, data, v);
    } else {
      EventWrites(s1, ev, id, data, v);
      SingleKept(s1.w, Happened(s1, ev), id, data);
      StepReplays(s1, ev);
    }
  }

  lemma StepReplays(s: State, ev: Event)
    ensures Step(s, ev).w == Replay(s.w, Happened(s, ev))
  {
  }

  // ----- when the gate can be trusted within a scan

  predicate WritesNo(t: seq<Effect>, v: U32) {
    forall e <- t :: e.WriteFlash? ==> e.version != v
  }

  lemma {:induction false} FlashMoved(w: World, t: seq<Effect>, v: U32)
    requires WritesNo(t, v) && w.flash != v
    ensures Replay(w, t).flash != v
    decreases |t|
  {
    if t != [] {
      assert t[0] in t;
      FlashMoved(Perform(w, t[0]), t[1..], v);
    }
  }

  lemma {:induction false} FlashMovesWithWrites(w: World, t: seq<Effect>)
    requires WritesNo(t, w.flash)
    ensures Replay(w, t).flash == w.flash <==> Writes(t) == 0
    decreases |t|
  {
    if t != [] {
      assert t[0] in t;
      if t[0].WriteFlash? {
        FlashMoved(Perform(w, t[0]), t[1..], w.flash);
      } else {
        FlashMovesWithWrites(Perform(w, t[0]), t[1..]);
      }
    }
  }

  lemma AttemptSparesRunning(w: World, running: U32, id: FileId, a: Answers)
    requires HonestAttempt(w, running, id, a)
    requires id in w.files ==> PayloadVersion(w.files[id]).Some?
    ensures WritesNo(Trace(w, id, a), running)
  {
    hide PayloadVersion, HeaderOf;
  }

  lemma {:induction false} RunningNeverWritten(w: World, running: U32, jobs: seq<Job>)
    requires HonestJobs(w, running, jobs)
    requires forall f <- w.files :: PayloadVersion(w.files[f]).Some?
    ensures WritesNo(TraceAll(w, jobs), running)
    decreases |jobs|
  {
    hide PayloadVersion, HonestAttempt, HonestJobs, Trace, Replay;
    if jobs != [] {
      var front, j := jobs[..|jobs| - 1], jobs[|jobs| - 1];
      HonestJobsFront(w, running, jobs);
      RunningNeverWritten(w, running, front);
      JobsNoStage(w, front);
      FilesShrink(w, TraceAll(w, front));
      LastHonest(w, running, jobs);
      AttemptSparesRunning(Replay(w, TraceAll(w, front)), running, j.id, j.answers);
    }
  }

  /**
   * With readable versions, the gate still speaks of what flash holds if and only if no
   * earlier attempt of this boot wrote.
   */
  lemma GateHoldsUntilWrite(w: World, running: U32, jobs: seq<Job>)
    requires w.flash == running && HonestJobs(w, running, jobs)
    requires forall f <- w.files :: PayloadVersion(w.files[f]).Some?
    ensures Replay(w, TraceAll(w, jobs)).flash == running <==> Writes(TraceAll(w, jobs)) == 0
  {
    RunningNeverWritten(w, running, jobs);
    FlashMovesWithWrites(w, TraceAll(w, jobs));
  }
}
