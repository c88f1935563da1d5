/**
 * The capsule-on-disk scanner (NucCapsuleOnDiskLib.c). Every answer the platform
 * gives is a parameter; three assumptions are built into the answer types:
 * a delete that reports EFI_SUCCESS removed the file, a file can only be opened while
 * it is there, and a read that succeeds returns as many bytes as it claims.
 */
module CapsuleScan {
  import opened Bytes
  import opened CapsuleParse
  import opened Firmware

  const MAX_CAPSULE_BYTES := 128 * 1024 * 1024
  const MAX_CAPSULES := 8

  // ----- reading the FMP

  /** One handle's answer to GetImageInfo(), once the protocol was found on it. */
  datatype Descriptor = Descriptor(ours: bool, version: U32, last: Attempt, running: U32)
  datatype FmpInfo = FmpInfo(last: Attempt, running: U32)

  predicate Usable(d: Option<Descriptor>) {
    d.Some? && d.value.ours && d.value.version >= 3
  }

  /** What a list of handles answers: the record of the first usable descriptor. */
  function FmpRecord(handles: seq<Option<Descriptor>>): Option<FmpInfo> {
    if handles == [] then None
    else if Usable(handles[0]) then Some(FmpInfo(handles[0].value.last, handles[0].value.running))
    else FmpRecord(handles[1..])
  }

  /** The first handle that is this platform's image and recent enough to carry a record. */
  method GetFmpLastAttemptStatus(handles: seq<Option<Descriptor>>) returns (r: Option<FmpInfo>)
    ensures r == FmpRecord(handles)
    ensures r.None? <==> forall d <- handles :: d.Some? && d.value.ours ==> d.value.version < 3
    ensures r.Some? ==>
      exists i :: && 0 <= i < |handles| && Usable(handles[i])
                  && (forall j :: 0 <= j < i ==> !Usable(handles[j]))
                  && r.value == FmpInfo(handles[i].value.last, handles[i].value.running)
  {
    r := None;
    var index := 0;
    assert handles[0..] == handles;
    while index < |handles| && r.None?
      invariant index <= |handles|
      invariant r.None? ==> forall j :: 0 <= j < index ==> !Usable(handles[j])
      invariant r.None? ==> FmpRecord(handles) == FmpRecord(handles[index..])
      invariant r.Some? ==> index > 0 && Usable(handles[index - 1]) && FmpRecord(handles) == r
      invariant r.Some? ==> forall j :: 0 <= j < index - 1 ==> !Usable(handles[j])
      invariant r.Some? ==>
        r.value == FmpInfo(handles[index - 1].value.last, handles[index - 1].value.running)
    {
      var d := handles[index];
      assert handles[index..][0] == d && handles[index..][1..] == handles[index + 1..];
      if d.Some? && d.value.ours && d.value.version >= 3 {
        r := Some(FmpInfo(d.value.last, d.value.running));
      }
      index := index + 1;
    }
  }

  // ----- what the environment answers during one attempt

  datatype DeleteReply = DeleteReply(success: bool, gone: bool)
  type DeleteAnswer = d: DeleteReply | d.success ==> d.gone witness DeleteReply(true, true)

  /** How much of an attempt the FMP manages to record: version first, status last. */
  datatype Recording = Silent | VersionOnly | Whole

  datatype FmpReply = FmpReply(ok: bool, wrote: bool, incoming: U32, recording: Recording, status: U32)

  datatype Answers = Answers(
    openRw: bool,
    openRo: bool,
    size: Option<nat>,
    pool: bool,
    data: Option<seq<Byte>>,
    fmpBefore: seq<Option<Descriptor>>,
    update: FmpReply,
    fmpAfter: seq<Option<Descriptor>>,
    delete: DeleteAnswer
  ) {
    /** The record and running version as read before the update, and the record after it. */
    function Before(): Option<FmpInfo> {
      FmpRecord(fmpBefore)
    }

    function After(): Option<Attempt> {
      LastOf(FmpRecord(fmpAfter))
    }
  }

  function LastOf(r: Option<FmpInfo>): Option<Attempt> {
    if r.None? then None else Some(r.value.last)
  }

  function UpdateEffects(id: FileId, u: FmpReply): seq<Effect> {
    (if u.recording.Silent? then [] else [RecordVersion(u.incoming)]) +
    (if u.wrote then [WriteFlash(id, u.incoming)] else []) +
    (if u.recording.Whole? then [RecordStatus(u.status)] else [])
  }

  // ----- one capsule

  datatype Exit =
    | CannotOpen | BadSize | NoMemory | ReadError | BadHeader
    | AlreadyRunning
    | UpdateFailed | NoReadBack | NotSuccess | NothingRecorded | Unchanged | ReadOnly
    | DeleteFailed
    | Consumed

  /** Why an attempt ends before anything is written, if it does. */
  ghost function EarlyExit(w: World, id: FileId, a: Answers): Option<Exit> {
    if id !in w.files || !(a.openRw || a.openRo) then Some(CannotOpen)
    else if a.size.None? || a.size.value == 0 || a.size.value > MAX_CAPSULE_BYTES then Some(BadSize)
    else if !a.pool then Some(NoMemory)
    else if a.data.None? || |a.data.value| != a.size.value then Some(ReadError)
    else if !HeaderOf(a.data.value).Accepted? then Some(BadHeader)
    else if a.Before().Some? && PayloadVersion(a.data.value) == Some(a.Before().value.running)
    then Some(AlreadyRunning)
    else None
  }

  /** How an attempt that reached UpdateCapsule() ends. */
  function LateExit(a: Answers): Exit {
    if !a.update.ok then UpdateFailed
    else if a.After().None? then NoReadBack
    else if a.After().value.status != STATUS_SUCCESS then NotSuccess
    else if a.After().value.version == 0 then NothingRecorded
    else if a.Before().Some? && a.After().value == a.Before().value.last then Unchanged
    else if !a.openRw then ReadOnly
    else if !a.delete.success then DeleteFailed
    else Consumed
  }

  ghost function ExitOf(w: World, id: FileId, a: Answers): Exit {
    var early := EarlyExit(w, id, a);
    if early.Some? then early.value else LateExit(a)
  }

  function DeleteEffects(id: FileId, a: Answers): seq<Effect> {
    if a.openRw && a.delete.gone then [Delete(id)] else []
  }

  /** The effects once the version gate has let a capsule through. */
  function LateTrace(id: FileId, a: Answers): seq<Effect> {
    UpdateEffects(id, a.update) +
    (if LateExit(a) in {DeleteFailed, Consumed} then DeleteEffects(id, a) else [])
  }

  /** The effects of one attempt, in order. */
  ghost function Trace(w: World, id: FileId, a: Answers): seq<Effect> {
    var early := EarlyExit(w, id, a);
    if early == Some(AlreadyRunning) then DeleteEffects(id, a)
    else if early.Some? then []
    else LateTrace(id, a)
  }

  /** From UpdateCapsule() on: the write, the proof from the FMP's record, the delete. */
  method UpdateAndProve(m: Platform, id: FileId, a: Answers, before: Option<FmpInfo>, canDelete: bool)
    returns (applied: bool)
    requires canDelete == a.openRw && before == a.Before()
    modifies m`world, m`log
    ensures m.world == Replay(old(m.world), LateTrace(id, a)) && m.log == old(m.log) + LateTrace(id, a)
    ensures applied <==> LateExit(a) == Consumed
    ensures applied ==> id !in m.world.files
  {
    m.Do(UpdateEffects(id, a.update));
    assert UpdateEffects(id, a.update) + [] == UpdateEffects(id, a.update);
    if !a.update.ok {
      return false;
    }
    var after := GetFmpLastAttemptStatus(a.fmpAfter);
    if after.None? {
      return false;
    }
    var last := after.value.last;
    if last.status != STATUS_SUCCESS {
      return false;
    }
    if last.version == 0 {
      return false;
    }
    if before.Some? && last.version == before.value.last.version && last.status == before.value.last.status {
      return false;
    }
    if !canDelete {
      return false;
    }
    ReplayAppend(old(m.world), UpdateEffects(id, a.update), [Delete(id)]);
    if a.delete.gone {
      ReplayOne(m.world, Delete(id));
      m.Do([Delete(id)]);
    }
    if !a.delete.success {
      return false;
    }
    return true;
  }

  method ApplyOneCapsule(m: Platform, id: FileId, a: Answers) returns (applied: bool)
    modifies m`world, m`log
    ensures var t := Trace(old(m.world), id, a);
            m.world == Replay(old(m.world), t) && m.log == old(m.log) + t
    ensures applied <==> ExitOf(old(m.world), id, a) == Consumed
    ensures applied ==> id !in m.world.files
  {
    var canDelete := true;
    var open := a.openRw && id in m.world.files;
    if !open {
      canDelete := false;
      open := a.openRo && id in m.world.files;
    }
    if !open {
      return false;
    }
    if a.size.None? || a.size.value == 0 || a.size.value > MAX_CAPSULE_BYTES {
      return false;
    }
    if !a.pool {
      return false;
    }
    if a.data.None? || |a.data.value| != a.size.value {
      return false;
    }
    var capsule := a.data.value;
    var header := ValidateHeader(capsule);
    if !header.Accepted? {
      return false;
    }
    var capsuleVersion := GetPayloadVersion(capsule);
    var before := GetFmpLastAttemptStatus(a.fmpBefore);
    if capsuleVersion.Some? && before.Some? {
      if capsuleVersion.value == before.value.running {
        if canDelete && a.delete.gone {
          m.Do([Delete(id)]);
        }
        return false;
      }
    }
    applied := UpdateAndProve(m, id, a, before, canDelete);
  }

  // ----- when a delete after the update can be trusted

  /** The attempt wrote nothing or everything of the record, and success means written. */
  predicate AllOrNothing(u: FmpReply) {
    && !u.recording.VersionOnly?
    && (u.recording.Whole? && u.status == STATUS_SUCCESS ==> u.wrote)
  }

  /** A read-back shows the stored record, or its default when the variable is unreadable. */
  predicate ReadsBack(last: Option<Attempt>, stored: Attempt) {
    last.None? || last.value == stored || last.value == NOTHING_RECORDED
  }

  function RecordAfter(w: World, u: FmpReply): Attempt {
    Attempt(if u.recording.Silent? then w.record.version else u.incoming,
            if u.recording.Whole? then u.status else w.record.status)
  }

  lemma UpdateResult(w: World, id: FileId, u: FmpReply)
    ensures var w' := Replay(w, UpdateEffects(id, u));
            && w'.record == RecordAfter(w, u)
            && w'.flash == (if u.wrote then u.incoming else w.flash)
            && w'.files == w.files && w'.boot == w.boot
  {
    var v := if u.recording.Silent? then [] else [RecordVersion(u.incoming)];
    var f := if u.wrote then [WriteFlash(id, u.incoming)] else [];
    var s := if u.recording.Whole? then [RecordStatus(u.status)] else [];
    ReplayAppend(w, v + f, s);
    ReplayAppend(w, v, f);
    if u.wrote {
      ReplayOne(Replay(w, v), WriteFlash(id, u.incoming));
    }
    if !u.recording.Silent? {
      ReplayOne(w, RecordVersion(u.incoming));
    }
    if u.recording.Whole? {
      ReplayOne(Replay(w, v + f), RecordStatus(u.status));
    }
  }

  ghost predicate DeletesAsApplied(w: World, id: FileId, a: Answers) {
    EarlyExit(w, id, a).None? && Delete(id) in LateTrace(id, a)
  }

  /** Everything the attempt learns from UpdateCapsule() on, replaced. */
  function Later(a: Answers, u: FmpReply, fmp: seq<Option<Descriptor>>, d: DeleteAnswer): Answers {
    a.(update := u, fmpAfter := fmp, delete := d)
  }

  ghost predicate LiesUnder(
      w: World, id: FileId, a: Answers, u: FmpReply, fmp: seq<Option<Descriptor>>, d: DeleteAnswer) {
    && AllOrNothing(u) && ReadsBack(LastOf(FmpRecord(fmp)), RecordAfter(w, u))
    && DeletesAsApplied(w, id, Later(a, u, fmp, d)) && !u.wrote
  }

  /** What the scanner holds before UpdateCapsule() that makes its proof sound. */
  ghost predicate SnapshotSuffices(w: World, id: FileId, a: Answers) {
    || EarlyExit(w, id, a).Some?
    || !a.openRw
    || w.record.status != STATUS_SUCCESS
    || w.record.version == 0
    || (a.Before().Some? && a.Before().value.last == w.record)
  }

  /**
   * With all-or-nothing recording, no later answer can make the scanner delete a capsule
   * it did not write, exactly when the attempt never gets that far, or the record in the
   * variable could not pass for a success, or the snapshot shows that very record.
   */
  lemma TruthfulApply(w: World, id: FileId, a: Answers)
    ensures SnapshotSuffices(w, id, a) <==>
            forall u, fmp, d: DeleteAnswer :: !LiesUnder(w, id, a, u, fmp, d)
  {
    if !SnapshotSuffices(w, id, a) {
      var u := FmpReply(true, false, 0, Silent, 0);
      var d: DeleteAnswer := DeleteReply(true, true);
      var fmp := [Some(Descriptor(true, 3, w.record, 0))];
      assert FmpRecord(fmp) == Some(FmpInfo(w.record, 0));
      var b := Later(a, u, fmp, d);
      assert LateExit(b) == Consumed;
      assert DeleteEffects(id, b) == [Delete(id)];
      assert LateTrace(id, b)[|LateTrace(id, b)| - 1] == Delete(id);
      assert LiesUnder(w, id, a, u, fmp, d);
    }
  }

  /**
   * Without all-or-nothing recording the guards are not enough: a version recorded on
   * top of an old success, with the status update and the write itself both lost, is
   * taken for an applied capsule -- exactly when it is non-zero and new.
   */
  lemma VersionOnlyRecordLies(w: World, id: FileId, a: Answers)
    requires EarlyExit(w, id, a).None? && a.openRw && a.delete.gone
    requires a.Before().Some? && a.Before().value.last == w.record
    requires a.update.ok && a.update.recording.VersionOnly? && !a.update.wrote
    requires a.After() == Some(RecordAfter(w, a.update))
    ensures DeletesAsApplied(w, id, a) <==>
            && w.record.status == STATUS_SUCCESS
            && a.update.incoming != 0 && a.update.incoming != w.record.version
  {
    var t := LateTrace(id, a);
    if LateExit(a) in {DeleteFailed, Consumed} {
      assert t[|t| - 1] == Delete(id);
    }
  }

  // ----- drop boxes

  /** A directory entry, with the answers to an attempt on it should one be made. */
  datatype Entry = Entry(directory: bool, size: nat, name: string, copied: bool, attempt: Answers)

  predicate IsCandidate(e: Entry) {
    !e.directory && e.size > 0 && EndsInCap(e.name)
  }

  /** One volume: its drop box as the quick pass and as the full pass see it, if they can. */
  datatype Volume = Volume(number: nat, quick: Option<seq<Entry>>, full: Option<seq<Entry>>)

  datatype Job = Job(id: FileId, answers: Answers)

  ghost predicate HasCandidate(listing: Option<seq<Entry>>) {
    listing.Some? && exists e <- listing.value :: IsCandidate(e)
  }

  method DropBoxHasCapsules(listing: Option<seq<Entry>>) returns (found: bool)
    ensures found <==> HasCandidate(listing)
  {
    if listing.None? {
      return false;
    }
    var entries := listing.value;
    found := false;
    var i := 0;
    while i < |entries| && !found
      invariant i <= |entries|
      invariant found ==> exists e <- entries :: IsCandidate(e)
      invariant !found ==> forall k :: 0 <= k < i ==> !IsCandidate(entries[k])
    {
      if !entries[i].directory && entries[i].size > 0 {
        var isCap := IsCandidateFile(entries[i].name);
        if isCap {
          assert entries[i] in entries;
          found := true;
        }
      }
      i := i + 1;
    }
  }

  /** The entries whose names the full pass can hold on to, in directory order. */
  function Kept(entries: seq<Entry>): seq<Entry> {
    if entries == [] then []
    else (if IsCandidate(entries[0]) && entries[0].copied then [entries[0]] else []) + Kept(entries[1..])
  }

  lemma {:induction false} KeptSnoc(entries: seq<Entry>, e: Entry)
    ensures Kept(entries + [e]) == Kept(entries) + (if IsCandidate(e) && e.copied then [e] else [])
    decreases |entries|
  {
    hide IsCandidate;
    if entries == [] {
      assert entries + [e] == [e] && [e][1..] == [];
    } else {
      var rest := entries[1..];
      assert (entries + [e])[1..] == rest + [e] && (entries + [e])[0] == entries[0];
      KeptSnoc(rest, e);
      var first := if IsCandidate(entries[0]) && entries[0].copied then [entries[0]] else [];
      var last := if IsCandidate(e) && e.copied then [e] else [];
      assert Kept(entries) == first + Kept(rest);
      assert Kept(entries + [e]) == first + (Kept(rest) + last);
    }
  }

  /** The names are kept in directory order: as many stand before one as were kept before it. */
  lemma {:induction false} KeptAt(entries: seq<Entry>, i: nat)
    requires i < |entries| && IsCandidate(entries[i]) && entries[i].copied
    ensures var k := |Kept(entries[..i])|;
            k < |Kept(entries)| && Kept(entries)[k] == entries[i]
    decreases |entries|
  {
    hide IsCandidate;
    if i > 0 {
      var rest := entries[1..];
      KeptAt(rest, i - 1);
      assert entries[..i][1..] == rest[..i - 1] && entries[..i][0] == entries[0];
    } else {
      assert entries[..0] == [];
    }
  }

  lemma {:induction false} KeptMembers(entries: seq<Entry>, e: Entry)
    ensures e in Kept(entries) <==> e in entries && IsCandidate(e) && e.copied
  {
    if entries != [] {
      KeptMembers(entries[1..], e);
      assert entries == [entries[0]] + entries[1..];
    }
  }

  function Collected(entries: seq<Entry>): (r: seq<Entry>)
    ensures |r| <= MAX_CAPSULES
  {
    var k := Kept(entries);
    if |k| <= MAX_CAPSULES then k else k[..MAX_CAPSULES]
  }

  method CollectNames(entries: seq<Entry>) returns (names: seq<Entry>)
    ensures names == Collected(entries)
  {
    names := [];
    for i := 0 to |entries|
      invariant names == Collected(entries[..i])
    {
      assert entries[..i + 1] == entries[..i] + [entries[i]];
      KeptSnoc(entries[..i], entries[i]);
      if !entries[i].directory && entries[i].size > 0 {
        var isCap := IsCandidateFile(entries[i].name);
        if isCap {
          if |names| < MAX_CAPSULES {
            if entries[i].copied {
              names := names + [entries[i]];
            }
          }
        }
      }
    }
    assert entries[..|entries|] == entries;
  }

  function JobsOf(number: nat, names: seq<Entry>): (r: seq<Job>)
    ensures |r| == |names|
  {
    seq(|names|, i requires 0 <= i < |names| => Job(FileId(number, names[i].name), names[i].attempt))
  }

  /** What the full pass will attempt on one volume, and on all of them. */
  function VolumeJobs(v: Volume): (r: seq<Job>)
    ensures |r| <= MAX_CAPSULES
  {
    if v.full.None? then [] else JobsOf(v.number, Collected(v.full.value))
  }

  function Jobs(vs: seq<Volume>): seq<Job> {
    if vs == [] then [] else Jobs(vs[..|vs| - 1]) + VolumeJobs(vs[|vs| - 1])
  }

  // ----- a whole scan

  ghost function TraceAll(w: World, jobs: seq<Job>): seq<Effect> {
    if jobs == [] then []
    else
      var before := TraceAll(w, jobs[..|jobs| - 1]);
      var j := jobs[|jobs| - 1];
      before + Turn(w, before, j)
  }

  /** How many of the attempts end with the capsule proven applied and gone. */
  ghost function Applied(w: World, jobs: seq<Job>): nat {
    if jobs == [] then 0
    else
      var front := jobs[..|jobs| - 1];
      var j := jobs[|jobs| - 1];
      Applied(w, front) +
      (if ExitOf(Replay(w, TraceAll(w, front)), j.id, j.answers) == Consumed then 1 else 0)
  }

  ghost function Turn(w: World, done: seq<Effect>, j: Job): seq<Effect> {
    Trace(Replay(w, done), j.id, j.answers)
  }

  lemma {:induction false} TraceAllAppend(w: World, a: seq<Job>, b: seq<Job>)
    ensures TraceAll(w, a + b) == TraceAll(w, a) + TraceAll(Replay(w, TraceAll(w, a)), b)
    decreases b
  {
    hide Trace, ExitOf;
    if b == [] {
      assert a + b == a;
    } else {
      var w' := Replay(w, TraceAll(w, a));
      var front, j := b[..|b| - 1], b[|b| - 1];
      TraceAllAppend(w, a, front);
      assert (a + b)[..|a + b| - 1] == a + front && (a + b)[|a + b| - 1] == j;
      ReplayAppend(w, TraceAll(w, a), TraceAll(w', front));
      calc {
        TraceAll(w, a + b);
        TraceAll(w, a + front) + Turn(w, TraceAll(w, a + front), j);
        (TraceAll(w, a) + TraceAll(w', front)) + Turn(w', TraceAll(w', front), j);
        TraceAll(w, a) + (TraceAll(w', front) + Turn(w', TraceAll(w', front), j));
        TraceAll(w, a) + TraceAll(w', b);
      }
    }
  }

  lemma {:induction false} AppliedAppend(w: World, a: seq<Job>, b: seq<Job>)
    ensures Applied(w, a + b) == Applied(w, a) + Applied(Replay(w, TraceAll(w, a)), b)
    decreases b
  {
    hide Trace, ExitOf, Turn;
    if b == [] {
      assert a + b == a;
    } else {
      var front := b[..|b| - 1];
      AppliedAppend(w, a, front);
      TraceAllAppend(w, a, front);
      assert (a + b)[..|a + b| - 1] == a + front;
      ReplayAppend(w, TraceAll(w, a), TraceAll(Replay(w, TraceAll(w, a)), front));
    }
  }

  ghost predicate AnyStaged(vs: seq<Volume>) {
    exists v <- vs :: HasCandidate(v.quick)
  }

  ghost function ScanTrace(w: World, volumes: Option<seq<Volume>>): seq<Effect> {
    if volumes.None? || !AnyStaged(volumes.value) then []
    else
      var jobs := Jobs(volumes.value);
      TraceAll(w, jobs) + (if Applied(w, jobs) > 0 then [ColdReset] else [])
  }

  /** One more attempt, after the jobs already done. */
  lemma OneMore(w: World, jobs: seq<Job>, i: nat)
    requires i < |jobs|
    ensures var t := TraceAll(w, jobs[..i]);
            var u := Trace(Replay(w, t), jobs[i].id, jobs[i].answers);
            && TraceAll(w, jobs[..i + 1]) == t + u
            && Replay(w, t + u) == Replay(Replay(w, t), u)
            && Applied(w, jobs[..i + 1]) == Applied(w, jobs[..i]) +
               (if ExitOf(Replay(w, t), jobs[i].id, jobs[i].answers) == Consumed then 1 else 0)
  {
    assert jobs[..i + 1][..i] == jobs[..i];
    var t := TraceAll(w, jobs[..i]);
    ReplayAppend(w, t, Turn(w, t, jobs[i]));
  }

  method ProcessDropBox(m: Platform, v: Volume, applied: nat, failed: nat)
    returns (applied': nat, failed': nat)
    modifies m`world, m`log
    ensures var t := TraceAll(old(m.world), VolumeJobs(v));
            m.world == Replay(old(m.world), t) && m.log == old(m.log) + t
    ensures applied' == applied + Applied(old(m.world), VolumeJobs(v))
    ensures applied' + failed' == applied + failed + |VolumeJobs(v)|
  {
    hide Trace, ExitOf, Turn, Kept, Collected, Perform;
    applied', failed' := applied, failed;
    if v.full.None? {
      return;
    }
    var names := CollectNames(v.full.value);
    ghost var w, jobs := m.world, VolumeJobs(v);
    ghost var t := [];
    for i := 0 to |names|
      invariant t == TraceAll(w, jobs[..i])
      invariant m.world == Replay(w, t) && m.log == old(m.log) + t
      invariant applied' == applied + Applied(w, jobs[..i])
      invariant applied' + failed' == applied + failed + i
    {
      OneMore(w, jobs, i);
      ghost var u := Trace(m.world, jobs[i].id, jobs[i].answers);
      var ok := ApplyOneCapsule(m, FileId(v.number, names[i].name), names[i].attempt);
      t := t + u;
      if ok {
        applied' := applied' + 1;
      } else {
        failed' := failed' + 1;
      }
    }
    assert jobs[..|names|] == jobs;
  }

  method QuickPass(vs: seq<Volume>) returns (anyStaged: bool)
    ensures anyStaged <==> AnyStaged(vs)
  {
    anyStaged := false;
    var index := 0;
    while index < |vs| && !anyStaged
      invariant index <= |vs|
      invariant anyStaged ==> AnyStaged(vs)
      invariant !anyStaged ==> forall k :: 0 <= k < index ==> !HasCandidate(vs[k].quick)
    {
      anyStaged := DropBoxHasCapsules(vs[index].quick);
      assert vs[index] in vs;
      index := index + 1;
    }
  }

  lemma OneMoreVolume(w: World, vs: seq<Volume>, i: nat)
    requires i < |vs|
    ensures var t := TraceAll(w, Jobs(vs[..i]));
            var u := TraceAll(Replay(w, t), VolumeJobs(vs[i]));
            && TraceAll(w, Jobs(vs[..i + 1])) == t + u
            && Replay(w, t + u) == Replay(Replay(w, t), u)
            && Applied(w, Jobs(vs[..i + 1])) ==
               Applied(w, Jobs(vs[..i])) + Applied(Replay(w, t), VolumeJobs(vs[i]))
            && |Jobs(vs[..i + 1])| == |Jobs(vs[..i])| + |VolumeJobs(vs[i])|
  {
    assert vs[..i + 1][..i] == vs[..i];
    var t := TraceAll(w, Jobs(vs[..i]));
    TraceAllAppend(w, Jobs(vs[..i]), VolumeJobs(vs[i]));
    AppliedAppend(w, Jobs(vs[..i]), VolumeJobs(vs[i]));
    ReplayAppend(w, t, TraceAll(Replay(w, t), VolumeJobs(vs[i])));
  }

  lemma NoJobs(w: World)
    ensures Jobs([]) == [] && TraceAll(w, []) == [] && Applied(w, []) == 0 && Replay(w, []) == w
  {
  }

  method FullPass(m: Platform, vs: seq<Volume>) returns (applied: nat, failed: nat)
    modifies m`world, m`log
    ensures var t := TraceAll(old(m.world), Jobs(vs));
            m.world == Replay(old(m.world), t) && m.log == old(m.log) + t
    ensures applied == Applied(old(m.world), Jobs(vs))
    ensures applied + failed == |Jobs(vs)|
  {
    hide Applied, TraceAll, Jobs, VolumeJobs, Replay;
    NoJobs(m.world);
    applied, failed := 0, 0;
    ghost var w, t, done := m.world, [], [];
    assert m.log + [] == m.log && vs[..0] == [];
    for i := 0 to |vs|
      invariant done == Jobs(vs[..i]) && t == TraceAll(w, done)
      invariant m.world == Replay(w, t) && m.log == old(m.log) + t
      invariant applied == Applied(w, done) && applied + failed == |done|
    {
      OneMoreVolume(w, vs, i);
      ghost var u := TraceAll(m.world, VolumeJobs(vs[i]));
      done := Jobs(vs[..i + 1]);
      ghost var before := m.log;
      applied, failed := ProcessDropBox(m, vs[i], applied, failed);
      assert m.log == before + u && (old(m.log) + t) + u == old(m.log) + (t + u);
      t := t + u;
    }
    assert vs[..|vs|] == vs;
  }

  method OnReadyToBoot(m: Platform, volumes: Option<seq<Volume>>) returns (applied: nat, failed: nat)
    modifies m`world, m`log, m`scanDone
    ensures m.scanDone
    ensures var t := if old(m.scanDone) then [] else ScanTrace(old(m.world), volumes);
            m.world == Replay(old(m.world), t) && m.log == old(m.log) + t
    ensures !old(m.scanDone) && volumes.Some? && AnyStaged(volumes.value) ==>
              && applied == Applied(old(m.world), Jobs(volumes.value))
              && applied + failed == |Jobs(volumes.value)|
    ensures applied > 0 <==> |m.log| > |old(m.log)| && m.log[|m.log| - 1] == ColdReset
  {
    hide Applied, TraceAll, Jobs, AnyStaged, Perform;
    applied, failed := 0, 0;
    if m.scanDone {
      return;
    }
    m.scanDone := true;
    if volumes.None? {
      return;
    }
    var anyStaged := QuickPass(volumes.value);
    if !anyStaged {
      return;
    }
    ghost var t := TraceAll(m.world, Jobs(volumes.value));
    applied, failed := FullPass(m, volumes.value);
    NoResetWithin(old(m.world), Jobs(volumes.value));
    assert t != [] ==> t[|t| - 1] in t;
    if applied > 0 {
      ReplayAppend(old(m.world), t, [ColdReset]);
      m.Do([ColdReset]);
    }
    assert t + [] == t;
  }

  /** No attempt resets the machine. */
  lemma {:induction false} NoResetWithin(w: World, jobs: seq<Job>)
    ensures ColdReset !in TraceAll(w, jobs)
    decreases |jobs|
  {
    hide HeaderOf, PayloadVersion;
    if jobs != [] {
      NoResetWithin(w, jobs[..|jobs| - 1]);
    }
  }

  /**
   * The silent quick pass and the full pass agree: on the same directory contents the
   * quick pass answers yes exactly when some entry is a candidate, and the full pass
   * then has work exactly when it could copy the name of at least one of them.
   */
  lemma QuickPassExact(vs: seq<Volume>)
    requires forall v <- vs :: v.quick == v.full
    ensures AnyStaged(vs) <==>
            exists v <- vs :: v.full.Some? && exists e <- v.full.value :: IsCandidate(e)
    ensures Jobs(vs) != [] <==>
            exists v <- vs :: v.full.Some? && exists e <- v.full.value :: IsCandidate(e) && e.copied
    ensures |Jobs(vs)| <= MAX_CAPSULES * |vs|
  {
    JobsNonEmpty(vs);
  }

  lemma VolumeHasWork(v: Volume)
    ensures VolumeJobs(v) != [] <==> v.full.Some? && exists e <- v.full.value :: IsCandidate(e) && e.copied
  {
    if v.full.Some? {
      var k := Kept(v.full.value);
      if k != [] {
        KeptMembers(v.full.value, k[0]);
        assert k[0] in k;
      }
      forall e | e in v.full.value && IsCandidate(e) && e.copied
        ensures k != []
      {
        KeptMembers(v.full.value, e);
      }
    }
  }

  lemma {:induction false} JobsNonEmpty(vs: seq<Volume>)
    ensures Jobs(vs) != [] <==>
            exists v <- vs :: v.full.Some? && exists e <- v.full.value :: IsCandidate(e) && e.copied
    ensures |Jobs(vs)| <= MAX_CAPSULES * |vs|
  {
    if vs != [] {
      var front, v := vs[..|vs| - 1], vs[|vs| - 1];
      JobsNonEmpty(front);
      VolumeHasWork(v);
      assert vs == front + [v];
    }
  }

  /**
   * Every candidate the full pass lists, up to eight a volume, is attempted: under its
   * volume and name, and with its own answers.
   */
  lemma {:induction false} EveryCandidateAttempted(vs: seq<Volume>, v: Volume, i: nat)
    requires v in vs && v.full.Some? && i < |v.full.value|
    requires IsCandidate(v.full.value[i]) && v.full.value[i].copied && |Kept(v.full.value[..i])| < 8
    ensures Job(FileId(v.number, v.full.value[i].name), v.full.value[i].attempt) in Jobs(vs)
    decreases |vs|
  {
    hide IsCandidate, Kept;
    var front, last := vs[..|vs| - 1], vs[|vs| - 1];
    assert vs == front + [last];
    if v in front {
      EveryCandidateAttempted(front, v, i);
    } else {
      var e, k := v.full.value[i], |Kept(v.full.value[..i])|;
      KeptAt(v.full.value, i);
      assert Collected(v.full.value)[k] == e;
      assert VolumeJobs(v)[k] == Job(FileId(v.number, e.name), e.attempt);
      assert VolumeJobs(v)[k] in VolumeJobs(v);
    }
  }

  /** No file is listed twice in one scan. */
  predicate DistinctJobs(jobs: seq<Job>) {
    forall i, j :: 0 <= i < j < |jobs| ==> jobs[i].id != jobs[j].id
  }

  predicate DistinctNames(entries: seq<Entry>) {
    forall i, j :: 0 <= i < j < |entries| ==> entries[i].name != entries[j].name
  }

  lemma {:induction false} KeptDistinct(entries: seq<Entry>)
    requires DistinctNames(entries)
    ensures DistinctNames(Kept(entries))
    decreases |entries|
  {
    if entries != [] {
      var k := Kept(entries[1..]);
      KeptDistinct(entries[1..]);
      forall i | 0 <= i < |k| ensures k[i].name != entries[0].name {
        KeptMembers(entries[1..], k[i]);
        var j :| 0 <= j < |entries[1..]| && entries[1..][j] == k[i];
        assert entries[j + 1] == k[i];
      }
    }
  }

  lemma {:induction false} JobVolumes(vs: seq<Volume>, j: Job)
    requires j in Jobs(vs)
    ensures exists v <- vs :: j.id.volume == v.number
    decreases |vs|
  {
    var front, v := vs[..|vs| - 1], vs[|vs| - 1];
    assert v in vs;
    if j in Jobs(front) {
      JobVolumes(front, j);
      var u :| u in front && j.id.volume == u.number;
      assert u in vs;
    } else {
      assert j in VolumeJobs(v);
    }
  }

  /** On volumes with different numbers and listings without repeated names, every file is attempted once. */
  lemma {:induction false} EachAttemptedOnce(vs: seq<Volume>)
    requires forall i, j :: 0 <= i < j < |vs| ==> vs[i].number != vs[j].number
    requires forall v <- vs :: v.full.Some? ==> DistinctNames(v.full.value)
    ensures DistinctJobs(Jobs(vs))
    decreases |vs|
  {
    if vs != [] {
      var front, v := vs[..|vs| - 1], vs[|vs| - 1];
      assert v in vs;
      EachAttemptedOnce(front);
      if v.full.Some? {
        KeptDistinct(v.full.value);
      }
      var a, b := Jobs(front), VolumeJobs(v);
      forall i, j | 0 <= i < |a| && 0 <= j < |b| ensures a[i].id != b[j].id {
        JobVolumes(front, a[i]);
      }
      assert DistinctJobs(b);
    }
  }
}
