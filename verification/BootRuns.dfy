/**
 * Whole runs of the machine: any sequence of power cycles, operator actions, calls of
 * the override handler and ReadyToBoot signals, with power failing anywhere inside a
 * handler and every platform answer arbitrary.
 */
module BootRuns {
  import opened Bytes
  import opened Firmware
  import opened CapsuleScan
  import opened BootOverride

  /** Changes made from outside: files appear and disappear, the BMC changes its request. */
  type Outside = e: Effect | e.StageFile? || e.DropFile? || e.SetBoot? witness DropFile(FileId(0, ""))

  /** cut is the number of effects after which power fails inside the handler, if it does. */
  datatype Event =
    | PowerOn
    | External(effect: Outside)
    | Init(sync: SyncAnswers, cut: Option<nat>)
    | ReadyToBoot(volumes: Option<seq<Volume>>, cut: Option<nat>)

  /** running is the version this boot runs: what flash held when it started. */
  datatype State = State(w: World, running: U32, scanDone: bool, syncDone: bool)

  ghost function Intended(s: State, ev: Event): seq<Effect> {
    match ev
    case PowerOn => []
    case External(e) => [e]
    case Init(a, _) => SyncTrace(s.w, s.syncDone, a)
    case ReadyToBoot(vs, _) => if s.scanDone then [] else ScanTrace(s.w, vs)
  }

  predicate LosesPower(ev: Event) {
    ev.PowerOn? || ((ev.Init? || ev.ReadyToBoot?) && ev.cut.Some?)
  }

  /** What an event really did: its intended effects, or the first few of them. */
  ghost function Happened(s: State, ev: Event): seq<Effect> {
    var t := Intended(s, ev);
    if (ev.Init? || ev.ReadyToBoot?) && ev.cut.Some? && ev.cut.value < |t| then t[..ev.cut.value] else t
  }

  predicate EndsInReset(t: seq<Effect>) {
    t != [] && t[|t| - 1].ColdReset?
  }

  ghost function Step(s: State, ev: Event): State {
    var h := Happened(s, ev);
    var w := Replay(s.w, h);
    if LosesPower(ev) || EndsInReset(h) then State(w, w.flash, false, false)
    else State(w, s.running, s.scanDone || ev.ReadyToBoot?, s.syncDone || (ev.Init? && Latches(ev.sync)))
  }

  ghost function Run(s: State, evs: seq<Event>): State {
    if evs == [] then s else Step(Run(s, evs[..|evs| - 1]), evs[|evs| - 1])
  }

  ghost function Log(s: State, evs: seq<Event>): seq<Effect> {
    if evs == [] then []
    else
      var front := evs[..|evs| - 1];
      Log(s, front) + Happened(Run(s, front), evs[|evs| - 1])
  }

  lemma {:induction false} LogReplays(s: State, evs: seq<Event>)
    ensures Run(s, evs).w == Replay(s.w, Log(s, evs))
  {
    if evs != [] {
      var front, ev := evs[..|evs| - 1], evs[|evs| - 1];
      LogReplays(s, front);
      ReplayAppend(s.w, Log(s, front), Happened(Run(s, front), ev));
    }
  }

  // ----- the machine itself

  ghost function StateOf(m: Platform): State
    reads m
  {
    State(m.world, m.running, m.scanDone, m.syncDone)
  }

  /** An event that runs to its end, on the machine: the handlers take exactly the step. */
  method Execute(m: Platform, ev: Event)
    requires (ev.Init? || ev.ReadyToBoot?) ==> ev.cut.None?
    modifies m
    ensures StateOf(m) == Step(old(StateOf(m)), ev)
    ensures m.log == old(m.log) + Happened(old(StateOf(m)), ev)
  {
    hide ScanTrace, SyncTrace, Replay, Perform;
    NoEffects(m.world);
    assert m.log + [] == m.log;
    var before := |m.log|;
    match ev {
      case PowerOn => m.Restart();
      case External(e) => m.Do([e]);
      case Init(a, _) => ConfigHandlerInit(m, a);
      case ReadyToBoot(vs, _) => var _, _ := OnReadyToBoot(m, vs);
    }
    ghost var h := Happened(old(StateOf(m)), ev);
    assert |m.log| > before ==> m.log[|m.log| - 1] == h[|h| - 1];
    if |m.log| > before && m.log[|m.log| - 1].ColdReset? {
      m.Restart();
    }
  }

  lemma NoEffects(w: World)
    ensures Replay(w, []) == w
  {
  }

  /** A run without power failures, on the machine. */
  method ExecuteAll(m: Platform, evs: seq<Event>)
    requires forall ev <- evs :: (ev.Init? || ev.ReadyToBoot?) ==> ev.cut.None?
    modifies m
    ensures StateOf(m) == Run(old(StateOf(m)), evs)
    ensures m.log == old(m.log) + Log(old(StateOf(m)), evs)
  {
    hide Step, Happened;
    ghost var s := StateOf(m);
    assert m.log + [] == m.log && evs[..0] == [];
    for i := 0 to |evs|
      invariant StateOf(m) == Run(s, evs[..i])
      invariant m.log == old(m.log) + Log(s, evs[..i])
    {
      assert evs[..i + 1][..i] == evs[..i];
      Execute(m, evs[i]);
      assert (old(m.log) + Log(s, evs[..i])) + Happened(Run(s, evs[..i]), evs[i]) == old(m.log) + Log(s, evs[..i + 1]);
    }
    assert evs[..|evs|] == evs;
  }

  // ----- one scan per boot

  /** The machine stays up throughout: no power loss, no reset. */
  ghost predicate StaysUp(s: State, evs: seq<Event>) {
    forall i :: 0 <= i < |evs| ==> !LosesPower(evs[i]) && !EndsInReset(Happened(Run(s, evs[..i]), evs[i]))
  }

  /** Once a boot has scanned, further ReadyToBoot signals in that boot do nothing. */
  lemma {:induction false} OneScanPerBoot(s: State, evs: seq<Event>, k: nat)
    requires s.scanDone && StaysUp(s, evs) && k <= |evs|
    ensures Run(s, evs[..k]).scanDone
    ensures k < |evs| && evs[k].ReadyToBoot? ==> Happened(Run(s, evs[..k]), evs[k]) == []
    decreases k
  {
    hide ScanTrace, SyncTrace;
    if k > 0 {
      OneScanPerBoot(s, evs, k - 1);
      assert evs[..k][..k - 1] == evs[..k - 1];
    }
  }

  // ----- the reset budget

  predicate IsStaging(e: Effect) {
    e.StageFile? || (e.SetBoot? && e.boot.IsOnce())
  }

  function Stagings(t: seq<Effect>): nat {
    if t == [] then 0 else (if IsStaging(t[0]) then 1 else 0) + Stagings(t[1..])
  }

  function Resets(t: seq<Effect>): nat {
    if t == [] then 0 else (if t[0].ColdReset? then 1 else 0) + Resets(t[1..])
  }

  lemma {:induction false} CountsAppend(t: seq<Effect>, u: seq<Effect>)
    ensures Stagings(t + u) == Stagings(t) + Stagings(u)
    ensures Resets(t + u) == Resets(t) + Resets(u)
  {
    if t == [] {
      assert t + u == u;
    } else {
      assert (t + u)[1..] == t[1..] + u;
      CountsAppend(t[1..], u);
    }
  }

  lemma CountOne(e: Effect)
    ensures Stagings([e]) == (if IsStaging(e) then 1 else 0) && Resets([e]) == if e.ColdReset? then 1 else 0
  {
    assert [e][1..] == [];
  }

  /** What is still staged: capsule files, and a one-shot override. */
  function Pending(w: World): nat {
    |w.files| + (if w.boot.IsOnce() then 1 else 0)
  }

  lemma RemoveKey(m: map<FileId, seq<Byte>>, id: FileId)
    ensures |m - {id}| == if id in m then |m| - 1 else |m|
  {
    assert (m - {id}).Keys == m.Keys - {id};
    assert |(m - {id}).Keys| == |m - {id}| && |m.Keys| == |m|;
  }

  lemma AddKey(m: map<FileId, seq<Byte>>, id: FileId, data: seq<Byte>)
    ensures |m[id := data]| <= |m| + 1
  {
    assert m[id := data].Keys == m.Keys + {id};
    assert |m[id := data].Keys| == |m[id := data]| && |m.Keys| == |m|;
  }

  /** Adding or removing a file changes what is pending by one at most. */
  lemma PendingFiles(w: World, id: FileId, data: seq<Byte>)
    ensures Pending(w.(files := w.files[id := data])) <= Pending(w) + 1
    ensures Pending(w.(files := w.files - {id})) <= Pending(w)
  {
    hide BootSource.IsOnce;
    AddKey(w.files, id, data);
    RemoveKey(w.files, id);
  }

  lemma PendingBoot(w: World, boot: BootSource)
    ensures Pending(w.(boot := boot)) <= Pending(w) + (if boot.IsOnce() then 1 else 0)
  {
    hide BootSource.IsOnce;
  }

  lemma PendingStep(w: World, e: Effect)
    ensures Pending(Perform(w, e)) <= Pending(w) + (if IsStaging(e) then 1 else 0)
  {
    match e
    case StageFile(id, data) => hide Pending; PendingFiles(w, id, data);
    case DropFile(id) => hide Pending; PendingFiles(w, id, []);
    case Delete(id) => hide Pending; PendingFiles(w, id, []);
    case SetBoot(boot) => hide Pending, BootSource.IsOnce; PendingBoot(w, boot);
    case ClearOverride => hide Pending; PendingBoot(w, w.boot.(enabled := Some("Disabled")));
    case _ =>
  }

  lemma {:induction false} PendingGrowth(w: World, t: seq<Effect>)
    ensures Pending(Replay(w, t)) <= Pending(w) + Stagings(t)
    decreases t
  {
    if t != [] {
      PendingStep(w, t[0]);
      PendingGrowth(Perform(w, t[0]), t[1..]);
    }
  }

  lemma {:induction false} NoneIsFree(t: seq<Effect>)
    requires forall e <- t :: !e.ColdReset? && !IsStaging(e)
    ensures Stagings(t) == 0 && Resets(t) == 0
  {
    if t != [] {
      NoneIsFree(t[1..]);
    }
  }

  lemma AttemptCounts(w: World, id: FileId, a: Answers)
    ensures forall e <- Trace(w, id, a) :: !e.ColdReset? && !IsStaging(e)
  {
  }

  /** An attempt that ends in success leaves one pending file fewer. */
  lemma AttemptConsumes(w: World, id: FileId, a: Answers)
    ensures Pending(Replay(w, Trace(w, id, a))) + (if ExitOf(w, id, a) == Consumed then 1 else 0) <= Pending(w)
  {
    AttemptCounts(w, id, a);
    NoneIsFree(Trace(w, id, a));
    PendingGrowth(w, Trace(w, id, a));
    if ExitOf(w, id, a) == Consumed {
      assert EarlyExit(w, id, a).None? && LateExit(a) == Consumed;
      var u := UpdateEffects(id, a.update);
      assert Trace(w, id, a) == u + [Delete(id)];
      UpdateResult(w, id, a.update);
      ReplayAppend(w, u, [Delete(id)]);
      ReplayOne(Replay(w, u), Delete(id));
      RemoveKey(w.files, id);
    }
  }

  lemma {:induction false} ScanConsumes(w: World, jobs: seq<Job>)
    ensures Pending(Replay(w, TraceAll(w, jobs))) + Applied(w, jobs) <= Pending(w)
    ensures forall e <- TraceAll(w, jobs) :: !e.ColdReset? && !IsStaging(e)
  {
    hide Trace, ExitOf, Pending;
    if jobs != [] {
      var n := |jobs| - 1;
      var front := jobs[..n];
      ScanConsumes(w, front);
      assert jobs[..n + 1] == jobs;
      OneMore(w, jobs, n);
      var w' := Replay(w, TraceAll(w, front));
      AttemptConsumes(w', jobs[n].id, jobs[n].answers);
      AttemptCounts(w', jobs[n].id, jobs[n].answers);
    }
  }

  /** A complete handler call pays for its reset with something that was staged. */
  lemma ScanPays(w: World, vs: Option<seq<Volume>>)
    ensures var t := ScanTrace(w, vs);
            && Resets(t) + Pending(Replay(w, t)) <= Pending(w) + Stagings(t)
            && (forall i :: 0 <= i < |t| - 1 ==> !t[i].ColdReset?)
  {
    hide TraceAll, Pending, Jobs, Applied;
    if vs.Some? && AnyStaged(vs.value) {
      var jobs := Jobs(vs.value);
      var u := TraceAll(w, jobs);
      ScanConsumes(w, jobs);
      NoneIsFree(u);
      CountsAppend(u, [ColdReset]);
      ReplayAppend(w, u, [ColdReset]);
      ReplayOne(Replay(w, u), ColdReset);
      assert u + [] == u;
      assert Stagings([ColdReset]) == 0 && Resets([ColdReset]) == 1;
    }
  }

  lemma OverridePays(w: World, syncDone: bool, a: SyncAnswers)
    ensures var t := SyncTrace(w, syncDone, a);
            && Resets(t) + Pending(Replay(w, t)) <= Pending(w) + Stagings(t)
            && (forall i :: 0 <= i < |t| - 1 ==> !t[i].ColdReset?)
  {
    var t := SyncTrace(w, syncDone, a);
    if t != [] {
      var n := Chosen(w.boot.target, a.options);
      var r := if a.raced.Some? then [SetBoot(a.raced.value)] else [];
      var c := if a.patch.cleared then [ClearOverride] else [];
      var b := if a.patch.ok && a.variableOk then [SetBootNext(n.value), ColdReset] else [];
      assert t == r + c + b;
      OverrideSteps(w, r, c, b);
    }
  }

  lemma OverrideSteps(w: World, r: seq<Effect>, c: seq<Effect>, b: seq<Effect>)
    requires w.boot.IsOnce()
    requires r == [] || (|r| == 1 && r[0].SetBoot?)
    requires c == [] || c == [ClearOverride]
    requires b == [] || (c != [] && |b| == 2 && b[0].SetBootNext? && b[1].ColdReset?)
    ensures Resets(r + c + b) + Pending(Replay(w, r + c + b)) <= Pending(w) + Stagings(r + c + b)
  {
    hide Pending, Replay, Stagings, Resets, BootSource.IsOnce;
    CountsAppend(r + c, b);
    CountsAppend(r, c);
    ReplayAppend(w, r + c, b);
    ReplayAppend(w, r, c);
    RacePays(w, r);
    ClearPays(Replay(w, r), c);
    StagePays(Replay(w, r + c), b);
  }

  lemma RacePays(w: World, r: seq<Effect>)
    requires w.boot.IsOnce() && (r == [] || (|r| == 1 && r[0].SetBoot?))
    ensures Resets(r) == 0 && Pending(Replay(w, r)) <= Pending(w) + Stagings(r)
    ensures !Replay(w, r).boot.IsOnce() ==> Pending(Replay(w, r)) + 1 <= Pending(w) + Stagings(r)
  {
    PendingGrowth(w, r);
    if r != [] {
      assert r == [r[0]] && r[1..] == [];
      ReplayOne(w, r[0]);
    }
  }

  /** Clearing a pending request leaves one pending item fewer. */
  lemma ClearPays(w: World, c: seq<Effect>)
    requires c == [] || c == [ClearOverride]
    ensures Resets(c) == 0 && Stagings(c) == 0
    ensures Pending(Replay(w, c)) + (if c != [] && w.boot.IsOnce() then 1 else 0) == Pending(w)
  {
    if c != [] {
      assert c[1..] == [];
      ReplayOne(w, ClearOverride);
    }
  }

  lemma StagePays(w: World, b: seq<Effect>)
    requires b == [] || (|b| == 2 && b[0].SetBootNext? && b[1].ColdReset?)
    ensures Resets(b) == (if b != [] then 1 else 0) && Stagings(b) == 0
    ensures Pending(Replay(w, b)) == Pending(w)
  {
    if b != [] {
      hide Replay, Resets, Stagings;
      assert b == [b[0]] + [b[1]];
      CountOne(b[0]);
      CountOne(b[1]);
      CountsAppend([b[0]], [b[1]]);
      ReplayAppend(w, [b[0]], [b[1]]);
      ReplayOne(w, b[0]);
      ReplayOne(Replay(w, [b[0]]), b[1]);
    }
  }

  lemma EventPays(s: State, ev: Event)
    ensures var h := Happened(s, ev);
            Resets(h) + Pending(Replay(s.w, h)) <= Pending(s.w) + Stagings(h)
  {
    hide SyncTrace, ScanTrace, Pending;
    var t, h := Intended(s, ev), Happened(s, ev);
    match ev {
      case PowerOn => PendingGrowth(s.w, h);
      case External(e) => PendingGrowth(s.w, h); assert [e][1..] == [];
      case Init(a, cut) => OverridePays(s.w, s.syncDone, a);
      case ReadyToBoot(vs, cut) => ScanPays(s.w, vs);
    }
    if h != t {
      PendingGrowth(s.w, h);
      NoResetIn(h);
    }
  }

  lemma {:induction false} NoResetIn(t: seq<Effect>)
    requires forall e <- t :: !e.ColdReset?
    ensures Resets(t) == 0
  {
    if t != [] {
      NoResetIn(t[1..]);
    }
  }

  /**
   * No boot loop: over every run, the resets issued by the scanner and the override
   * handler together, plus whatever is still pending, never exceed what was pending at
   * the start plus every capsule file and every one-shot override staged since.
   */
  lemma {:induction false} ResetBudget(s: State, evs: seq<Event>)
    ensures Resets(Log(s, evs)) + Pending(Run(s, evs).w) <= Pending(s.w) + Stagings(Log(s, evs))
  {
    hide Happened, Pending;
    if evs != [] {
      var front, ev := evs[..|evs| - 1], evs[|evs| - 1];
      ResetBudget(s, front);
      EventPays(Run(s, front), ev);
      CountsAppend(Log(s, front), Happened(Run(s, front), ev));
    }
  }
}
