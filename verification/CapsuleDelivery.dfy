/**
 * What the capsule scanner is for: a staged capsule gets into flash, from writable or
 * write-protected media, and the machine restarts into it. Everything here is said of
 * the platform's answers and of the effects, not of the exits the scanner takes.
 */
module CapsuleDelivery {
  import opened Bytes
  import opened CapsuleParse
  import opened Firmware
  import opened CapsuleScan
  import opened BootRuns
  import opened CapsuleRuns

  // ----- one attempt

  /** The file opens, read-write or else read-only, and all of it is read. */
  ghost predicate IsRead(w: World, id: FileId, a: Answers) {
    && id in w.files && (a.openRw || a.openRo)
    && a.size.Some? && 0 < a.size.value <= 0x800_0000 && a.pool
    && a.data.Some? && |a.data.value| == a.size.value
  }

  /** What was read is a capsule of the version this boot runs. */
  ghost predicate IsRunning(a: Answers) {
    && a.data.Some? && HeaderOf(a.data.value).Accepted?
    && a.Before().Some? && PayloadVersion(a.data.value) == Some(a.Before().value.running)
  }

  /** What was read is a capsule, and not known to be of the version this boot runs. */
  ghost predicate IsNews(a: Answers) {
    a.data.Some? && HeaderOf(a.data.value).Accepted? && !IsRunning(a)
  }

  /** The update returned, and the record read back is a success, of some version, that was not there before. */
  predicate IsProven(a: Answers) {
    && a.update.ok && a.After().Some?
    && a.After().value.status == 0 && a.After().value.version != 0
    && (a.Before().Some? ==> a.After().value != a.Before().value.last)
  }

  /** Flash is written exactly when news is read and the FMP writes it, however the file was opened. */
  lemma WritesExactly(w: World, id: FileId, a: Answers, e: Effect)
    requires e.WriteFlash?
    ensures e in Trace(w, id, a) <==>
            IsRead(w, id, a) && IsNews(a) && a.update.wrote && e == WriteFlash(id, a.update.incoming)
  {
    hide HeaderOf, PayloadVersion;
  }

  /** A file is deleted exactly when it was opened read-write and is either running already or proven applied. */
  lemma DeletesExactly(w: World, id: FileId, a: Answers, e: Effect)
    requires e.Delete?
    ensures e in Trace(w, id, a) <==>
            && IsRead(w, id, a) && a.openRw && a.delete.gone && e == Delete(id)
            && (IsRunning(a) || (IsNews(a) && IsProven(a)))
  {
    hide HeaderOf, PayloadVersion;
  }

  /** Nothing but these happens besides the FMP's own recording, and the write comes before the delete. */
  lemma EffectsInOrder(w: World, id: FileId, a: Answers, i: nat, j: nat)
    requires i < |Trace(w, id, a)| && j < |Trace(w, id, a)|
    ensures var e := Trace(w, id, a)[i];
            e.WriteFlash? || e.Delete? || e.RecordVersion? || e.RecordStatus?
    ensures Trace(w, id, a)[i].Delete? && !Trace(w, id, a)[j].Delete? ==> j < i
  {
    hide HeaderOf, PayloadVersion;
  }

  /** An attempt counts as applied exactly when the capsule was news, is proven, and its delete succeeded. */
  ghost predicate IsApplied(w: World, id: FileId, a: Answers) {
    IsRead(w, id, a) && IsNews(a) && IsProven(a) && a.openRw && a.delete.success
  }

  lemma AppliedExactly(w: World, id: FileId, a: Answers)
    ensures ExitOf(w, id, a) == Consumed <==> IsApplied(w, id, a)
  {
    hide HeaderOf, PayloadVersion;
  }

  /**
   * An honest attempt on a deliverable file of another version that opens in either mode
   * writes its version exactly when the FMP wrote, and deletes it only if it opened
   * read-write.
   */
  lemma HonestDelivery(w: World, running: U32, id: FileId, a: Answers, v: U32)
    requires id in w.files && Deliverable(w.files[id]) && PayloadVersion(w.files[id]) == Some(v) && v != running
    requires HonestAttempt(w, running, id, a) && (a.openRw || a.openRo)
    requires a.size == Some(|w.files[id]|) && a.pool && a.data == Some(w.files[id])
    ensures WriteFlash(id, v) in Trace(w, id, a) <==> a.update.wrote
    ensures Replay(w, Trace(w, id, a)).flash == if a.update.wrote then v else w.flash
    ensures Delete(id) in Trace(w, id, a) ==> a.openRw
  {
    hide HeaderOf, PayloadVersion, Trace;
    WritesExactly(w, id, a, WriteFlash(id, v));
    DeletesExactly(w, id, a, Delete(id));
    var t := Trace(w, id, a);
    forall e | e in t && e.WriteFlash?
      ensures e.version == v
    {
      WritesExactly(w, id, a, e);
    }
    if a.update.wrote {
      LastWrite(w, t, v);
    } else {
      forall e | e in t
        ensures !e.WriteFlash?
      {
        if e.WriteFlash? {
          WritesExactly(w, id, a, e);
        }
      }
      FlashKept(w, t);
    }
  }

  /** Flash holds the only version written. */
  lemma {:induction false} LastWrite(w: World, t: seq<Effect>, v: U32)
    requires forall e <- t :: e.WriteFlash? ==> e.version == v
    ensures Replay(w, t).flash == if exists e <- t :: e.WriteFlash? then v else w.flash
    decreases |t|
  {
    if t != [] {
      assert t[0] in t;
      LastWrite(Perform(w, t[0]), t[1..], v);
      assert t == [t[0]] + t[1..];
    }
  }

  // ----- a scan

  /** Some attempt of the scan applied its capsule. */
  ghost predicate AnyApplied(w: World, jobs: seq<Job>) {
    exists i :: 0 <= i < |jobs| && IsApplied(Replay(w, TraceAll(w, jobs[..i])), jobs[i].id, jobs[i].answers)
  }

  lemma {:induction false} AppliedCounts(w: World, jobs: seq<Job>)
    ensures Applied(w, jobs) > 0 <==> AnyApplied(w, jobs)
    decreases |jobs|
  {
    hide IsApplied, ExitOf, TraceAll;
    if jobs != [] {
      var n := |jobs| - 1;
      var front := jobs[..n];
      AppliedCounts(w, front);
      AppliedExactly(Replay(w, TraceAll(w, front)), jobs[n].id, jobs[n].answers);
      assert forall i :: 0 <= i < n ==> front[..i] == jobs[..i] && front[i] == jobs[i];
      if AnyApplied(w, front) {
        var i :| 0 <= i < n && IsApplied(Replay(w, TraceAll(w, front[..i])), front[i].id, front[i].answers);
        assert IsApplied(Replay(w, TraceAll(w, jobs[..i])), jobs[i].id, jobs[i].answers);
      }
    }
  }

  /** The first ReadyToBoot signal of a boot, not cut short, finds something to scan. */
  ghost predicate Scans(s: State, ev: Event) {
    && ev.ReadyToBoot? && ev.cut.None? && !s.scanDone
    && ev.volumes.Some? && exists v <- ev.volumes.value :: HasCandidate(v.quick)
  }

  /**
   * The machine restarts after a scan if and only if some capsule was applied; it then
   * runs what flash holds, with both latches clear. Otherwise this boot goes on as it was.
   */
  lemma RestartsExactly(s: State, ev: Event)
    requires Scans(s, ev)
    ensures var s' := Step(s, ev);
            if AnyApplied(s.w, Jobs(ev.volumes.value))
            then s'.running == s'.w.flash && !s'.scanDone && !s'.syncDone
            else s'.running == s.running && s'.scanDone && s'.syncDone == s.syncDone
    ensures EndsInReset(Happened(s, ev)) <==> AnyApplied(s.w, Jobs(ev.volumes.value))
  {
    hide TraceAll, Jobs, Applied, AnyApplied;
    var jobs := Jobs(ev.volumes.value);
    AppliedCounts(s.w, jobs);
    ScanConsumes(s.w, jobs);
    var t := TraceAll(s.w, jobs);
    assert t + [] == t;
    assert t != [] ==> t[|t| - 1] in t;
  }

  /** Any uncut ReadyToBoot signal that does not restart the machine is the last one of this boot to be heeded. */
  lemma SignalsLatch(s: State, volumes: Option<seq<Volume>>)
    requires !EndsInReset(Happened(s, ReadyToBoot(volumes, None)))
    ensures var s' := Step(s, ReadyToBoot(volumes, None));
            s'.scanDone && s'.syncDone == s.syncDone && s'.running == s.running
  {
    hide Happened;
  }

  /**
   * One honest scan of a new version that the FMP writes and records, with the read-back
   * showing it: the file is gone, flash holds its version, and the machine has restarted
   * into it.
   */
  lemma AppliedIsBooted(s: State, ev: Event, id: FileId, data: seq<Byte>, v: U32)
    requires PayloadVersion(data) == Some(v) && Single(s.w, id, data) && id in s.w.files
    requires Coherent(s) && HonestEvent(s, ev) && Quiet([ev])
    requires v != s.w.flash && v != 0 && s.w.record != Attempt(v, STATUS_SUCCESS)
    requires Scans(s, ev)
    requires exists j <- Jobs(ev.volumes.value) ::
               && j.id == id && Serves(j.answers, data)
               && j.answers.update.recording.Whole? && j.answers.After() == Some(Attempt(v, STATUS_SUCCESS))
    ensures var s' := Step(s, ev);
            s'.running == v && s'.w.flash == v && id !in s'.w.files && !s'.scanDone && !s'.syncDone
  {
    hide PayloadVersion, HeaderOf, Trace, Jobs, TraceAll, HonestAttempt;
    assert ev in [ev];
    var jobs := Jobs(ev.volumes.value);
    var j :| j in jobs && j.id == id && Serves(j.answers, data)
             && j.answers.update.recording.Whole? && j.answers.After() == Some(Attempt(v, STATUS_SUCCESS));
    var k :| 0 <= k < |jobs| && jobs[k] == j;
    OneAttempt(s.w, s.running, jobs, id, data, k);
    GoneAfterOneScan(s.w, s.running, id, j.answers, data, v);
    DeliveredByOne(s.w, s.running, jobs, id, data, k, v);
    RestartsExactly(s, ev);
    StepsToScan(s, ev, jobs);
  }

  lemma StepsToScan(s: State, ev: Event, jobs: seq<Job>)
    requires Scans(s, ev) && jobs == Jobs(ev.volumes.value)
    ensures Step(s, ev).w == Replay(s.w, TraceAll(s.w, jobs))
  {
    hide TraceAll, Jobs, Applied, Replay, HasCandidate;
    var t := TraceAll(s.w, jobs);
    ReplayAppend(s.w, t, [ColdReset]);
    ReplayOne(Replay(s.w, t), ColdReset);
    assert t + [] == t;
  }

  lemma DeliveredByOne(w: World, running: U32, jobs: seq<Job>, id: FileId, data: seq<Byte>, k: nat, v: U32)
    requires PayloadVersion(data) == Some(v) && v != running && Single(w, id, data) && id in w.files
    requires DistinctJobs(jobs) && HonestJobs(w, running, jobs)
    requires k < |jobs| && jobs[k].id == id && Serves(jobs[k].answers, data)
    requires id !in Replay(w, Trace(w, id, jobs[k].answers)).files
    ensures AnyApplied(w, jobs) && Replay(w, TraceAll(w, jobs)).flash == v
  {
    hide PayloadVersion, HeaderOf, Trace, TraceAll;
    var a := jobs[k].answers;
    OneAttempt(w, running, jobs, id, data, k);
    HonestDelivery(w, running, id, a, v);
    IdleBefore(w, jobs, k);
    if Delete(id) !in Trace(w, id, a) {
      StaysThere(w, id, a);
    }
    DeletesExactly(w, id, a, Delete(id));
    assert IsApplied(w, id, a);
    NoEffects(w);
    assert IsApplied(Replay(w, TraceAll(w, jobs[..k])), jobs[k].id, jobs[k].answers);
  }

  /** Jobs on files that are not there come to nothing. */
  lemma IdleBefore(w: World, jobs: seq<Job>, k: nat)
    requires k < |jobs| && DistinctJobs(jobs) && forall f <- w.files :: f == jobs[k].id
    ensures TraceAll(w, jobs[..k]) == []
  {
    IdleJobs(w, jobs[..k]);
  }

  /** An attempt that does not delete its file leaves it there. */
  lemma StaysThere(w: World, id: FileId, a: Answers)
    requires id in w.files && Delete(id) !in Trace(w, id, a)
    ensures var w' := Replay(w, Trace(w, id, a));
            id in w'.files && w'.files[id] == w.files[id]
  {
    hide Trace;
    forall e | e in Trace(w, id, a)
      ensures Spares(e, id)
    {
      var i :| 0 <= i < |Trace(w, id, a)| && Trace(w, id, a)[i] == e;
      EffectsInOrder(w, id, a, i, i);
      if e.Delete? {
        DeletesExactly(w, id, a, e);
      }
    }
    SparedKept(w, Trace(w, id, a), id);
  }

  predicate Spares(e: Effect, id: FileId) {
    !e.StageFile? && e != DropFile(id) && e != Delete(id)
  }

  lemma {:induction false} SparedKept(w: World, t: seq<Effect>, id: FileId)
    requires id in w.files && forall e <- t :: Spares(e, id)
    ensures id in Replay(w, t).files && Replay(w, t).files[id] == w.files[id]
    decreases |t|
  {
    if t != [] {
      assert t[0] in t;
      SparedKept(Perform(w, t[0]), t[1..], id);
    }
  }

  // ----- write-protected media, over whole runs

  /** The file is never removed from outside, and only ever opens read-only. */
  ghost predicate WriteProtected(evs: seq<Event>, id: FileId) {
    forall ev <- evs :: ProtectedEvent(ev, id)
  }

  ghost predicate ProtectedEvent(ev: Event, id: FileId) {
    && (ev.External? ==> ev.effect != DropFile(id))
    && (ev.ReadyToBoot? && ev.volumes.Some? ==>
          forall j <- Jobs(ev.volumes.value) :: j.id == id ==> !j.answers.openRw)
  }

  /** A scan that reads the file in whatever mode it opens, and whose update writes it. */
  ghost predicate Delivers(s: State, ev: Event, id: FileId, data: seq<Byte>) {
    && Scans(s, ev)
    && exists j <- Jobs(ev.volumes.value) :: j.id == id && Reads(j.answers, data) && j.answers.update.wrote
  }

  predicate Reads(a: Answers, data: seq<Byte>) {
    (a.openRw || a.openRo) && a.size == Some(|data|) && a.pool && a.data == Some(data)
  }

  lemma AttemptSpares(w: World, id: FileId, f: FileId, a: Answers)
    requires f == id ==> !a.openRw
    ensures forall e <- Trace(w, f, a) :: Spares(e, id)
  {
    hide Trace;
    forall e | e in Trace(w, f, a)
      ensures Spares(e, id)
    {
      var i :| 0 <= i < |Trace(w, f, a)| && Trace(w, f, a)[i] == e;
      EffectsInOrder(w, f, a, i, i);
      if e.Delete? {
        DeletesExactly(w, f, a, e);
      }
    }
  }

  lemma {:induction false} JobsSpare(w: World, jobs: seq<Job>, id: FileId)
    requires forall j <- jobs :: j.id == id ==> !j.answers.openRw
    ensures forall e <- TraceAll(w, jobs) :: Spares(e, id)
    decreases |jobs|
  {
    hide Trace, Spares;
    if jobs != [] {
      var n := |jobs| - 1;
      JobsSpare(w, jobs[..n], id);
      assert jobs[..n + 1] == jobs && jobs[n] in jobs;
      OneMore(w, jobs, n);
      AttemptSpares(Replay(w, TraceAll(w, jobs[..n])), id, jobs[n].id, jobs[n].answers);
    }
  }

  lemma EventSpares(s: State, ev: Event, id: FileId)
    requires Quiet([ev]) && ProtectedEvent(ev, id)
    ensures forall e <- Happened(s, ev) :: Spares(e, id)
  {
    hide TraceAll, Jobs, AnyStaged, Applied;
    assert ev in [ev];
    if ev.ReadyToBoot? && ev.volumes.Some? {
      JobsSpare(s.w, Jobs(ev.volumes.value), id);
    }
    assert forall e <- Intended(s, ev) :: Spares(e, id);
    assert forall e <- Happened(s, ev) :: e in Intended(s, ev);
  }

  /** A file that only ever opens read-only stays where it is, over every run. */
  lemma {:induction false} ProtectedStays(s: State, evs: seq<Event>, id: FileId)
    requires id in s.w.files && Quiet(evs) && WriteProtected(evs, id)
    ensures id in Run(s, evs).w.files && Run(s, evs).w.files[id] == s.w.files[id]
    decreases |evs|
  {
    hide Happened, Quiet, ProtectedEvent;
    if evs != [] {
      var front, ev := evs[..|evs| - 1], evs[|evs| - 1];
      QuietFront(evs);
      assert ev in evs && forall e <- front :: e in evs;
      ProtectedStays(s, front, id);
      var s1 := Run(s, front);
      EventSpares(s1, ev, id);
      SparedKept(s1.w, Happened(s1, ev), id);
    }
  }

  /** One scan that delivers leaves the version in flash. */
  lemma ScanDelivers(s: State, ev: Event, id: FileId, data: seq<Byte>, v: U32)
    requires PayloadVersion(data) == Some(v) && Deliverable(data) && Single(s.w, id, data) && id in s.w.files
    requires Coherent(s) && HonestEvent(s, ev) && Quiet([ev]) && Delivers(s, ev, id, data)
    ensures Step(s, ev).w.flash == v
  {
    hide PayloadVersion, HeaderOf, Trace, Jobs, TraceAll, HonestAttempt;
    assert ev in [ev];
    var jobs := Jobs(ev.volumes.value);
    var j :| j in jobs && j.id == id && Reads(j.answers, data) && j.answers.update.wrote;
    var k :| 0 <= k < |jobs| && jobs[k] == j;
    OneAttempt(s.w, s.running, jobs, id, data, k);
    StepsToScan(s, ev, jobs);
    if v != s.running {
      HonestDelivery(s.w, s.running, id, j.answers, v);
    } else {
      KnownIsNotWritten(s.w, id, j.answers, v);
    }
  }

  lemma KnownIsNotWritten(w: World, id: FileId, a: Answers, v: U32)
    requires id in w.files && HonestAttempt(w, w.flash, id, a) && a.data == Some(w.files[id])
    requires PayloadVersion(w.files[id]) == Some(v) && v == w.flash
    ensures Replay(w, Trace(w, id, a)).flash == v
  {
    hide HeaderOf, PayloadVersion, Trace;
    forall e | e in Trace(w, id, a)
      ensures !e.WriteFlash?
    {
      if e.WriteFlash? {
        WritesExactly(w, id, a, e);
      }
    }
    FlashKept(w, Trace(w, id, a));
  }

  /**
   * A capsule on media that is only ever opened read-only: over every honest run with one
   * scan that delivers it, whatever happens before and after, flash holds its version at
   * the end, was written from it exactly once (not at all if it held that version before),
   * and the file is still there.
   */
  lemma DeliveredReadOnly(s: State, evs: seq<Event>, i: nat, id: FileId, data: seq<Byte>, v: U32)
    requires PayloadVersion(data) == Some(v) && Deliverable(data) && Single(s.w, id, data) && id in s.w.files
    requires Coherent(s) && HonestRun(s, evs) && Quiet(evs) && WriteProtected(evs, id)
    requires i < |evs| && Delivers(Run(s, evs[..i]), evs[i], id, data)
    ensures Run(s, evs).w.flash == v && id in Run(s, evs).w.files
    ensures Writes(Log(s, evs)) == if s.w.flash == v then 0 else 1
  {
    hide PayloadVersion, HeaderOf, HonestRun, HonestEvent, Quiet, Log, Run, Single, Coherent, Delivers, ProtectedEvent, Writes;
    ProtectedStays(s, evs, id);
    var before := evs[..i];
    HonestSplit(s, evs, i);
    HonestSplit(s, evs, i + 1);
    assert forall e <- before :: e in evs;
    ProtectedStays(s, before, id);
    WrittenAtMostOnce(s, before, id, data, v);
    CoherentRun(s, before);
    EventOfRun(s, evs, i);
    var s1 := Run(s, before);
    ScanDelivers(s1, evs[i], id, data, v);
    WrittenAtMostOnce(s, evs[..i + 1], id, data, v);
    CoherentRun(s, evs[..i + 1]);
    WrittenAtMostOnce(Run(s, evs[..i + 1]), evs[i + 1..], id, data, v);
    RunSplit(s, evs, i + 1);
    WrittenAtMostOnce(s, evs, id, data, v);
  }

  lemma EventOfRun(s: State, evs: seq<Event>, i: nat)
    requires i < |evs| && HonestRun(s, evs) && Quiet(evs)
    ensures HonestEvent(Run(s, evs[..i]), evs[i]) && Quiet([evs[i]])
    ensures Run(s, evs[..i + 1]) == Step(Run(s, evs[..i]), evs[i])
  {
    hide Step, HonestEvent;
    assert evs[..i + 1][..i] == evs[..i];
    assert evs[i] in evs;
  }
}
