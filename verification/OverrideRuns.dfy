/**
 * What becomes of one-shot boot requests over whole runs: the request is cleared at the
 * BMC before BootNext is set, so a failing variable write or a power cut between the two
 * loses it.
 */
module OverrideRuns {
  import opened Bytes
  import opened Firmware
  import opened CapsuleScan
  import opened BootOverride
  import opened BootRuns

  /** Every clear is directly followed by the BootNext it was made for. */
  predicate Followed(t: seq<Effect>) {
    forall i :: 0 <= i < |t| && t[i].ClearOverride? ==> i + 1 < |t| && t[i + 1].SetBootNext?
  }

  lemma FollowedAppend(t: seq<Effect>, u: seq<Effect>)
    requires u == [] || !u[0].SetBootNext?
    ensures Followed(t + u) <==> Followed(t) && Followed(u)
  {
    var all := t + u;
    assert forall i :: 0 <= i < |t| ==> all[i] == t[i];
    assert forall i :: 0 <= i < |u| ==> all[|t| + i] == u[i];
    if Followed(all) {
      forall i | 0 <= i < |t| && t[i].ClearOverride?
        ensures i + 1 < |t| && t[i + 1].SetBootNext?
      {
        assert all[i].ClearOverride?;
      }
      forall i | 0 <= i < |u| && u[i].ClearOverride?
        ensures i + 1 < |u| && u[i + 1].SetBootNext?
      {
        assert all[|t| + i].ClearOverride?;
        assert all[|t| + (i + 1)].SetBootNext?;
      }
    }
    if Followed(t) && Followed(u) {
      forall i | 0 <= i < |all| && all[i].ClearOverride?
        ensures i + 1 < |all| && all[i + 1].SetBootNext?
      {
        if i < |t| {
          assert t[i].ClearOverride?;
        } else {
          assert u[i - |t|].ClearOverride?;
          assert u[i - |t| + 1].SetBootNext?;
        }
      }
    }
  }

  // ----- one call of the handler

  /** The handler finds a one-shot request that this machine can serve. */
  ghost predicate Takes(s: State, a: SyncAnswers) {
    && !s.syncDone && Latches(a) && ReachesOverride(a)
    && s.w.boot.IsOnce() && Chosen(s.w.boot.target, a.options).Some?
  }

  function Races(a: SyncAnswers): nat {
    if a.raced.Some? then 1 else 0
  }

  predicate Gets(cut: Option<nat>, n: nat) {
    cut.None? || cut.value >= n
  }

  /** The call clears the request at the BMC, and power holds that long. */
  ghost predicate Clears(s: State, a: SyncAnswers, cut: Option<nat>) {
    Takes(s, a) && a.patch.cleared && Gets(cut, Races(a) + 1)
  }

  /** The BMC reported the clear, the variable was written, and power held until then. */
  predicate Stages(a: SyncAnswers, cut: Option<nat>) {
    a.patch.ok && a.variableOk && Gets(cut, Races(a) + 2)
  }


  /** The effects of a call, spelled out. */
  lemma CallEffects(s: State, a: SyncAnswers, cut: Option<nat>)
    ensures var t := Happened(s, Init(a, cut));
            && (!Takes(s, a) ==> t == [])
            && (t != [] ==> !t[0].SetBootNext?)
            && (forall i :: 0 <= i < |t| && t[i].ClearOverride? ==> i == Races(a))
            && (Clears(s, a, cut) <==> |t| > Races(a) && t[Races(a)].ClearOverride?)
            && (Clears(s, a, cut) ==>
                  (Stages(a, cut) <==> |t| > Races(a) + 1) &&
                  (Stages(a, cut) ==> t[Races(a) + 1] == SetBootNext(Chosen(s.w.boot.target, a.options).value)))
  {
    hide Chosen;
    if Takes(s, a) {
      var n := Chosen(s.w.boot.target, a.options);
      var r := if a.raced.Some? then [SetBoot(a.raced.value)] else [];
      var c := if a.patch.cleared then [ClearOverride] else [];
      var b := if a.patch.ok && a.variableOk then [SetBootNext(n.value), ColdReset] else [];
      assert SyncTrace(s.w, s.syncDone, a) == r + c + b;
    }
  }

  /** A call keeps clear and BootNext together exactly when it does not stop between the two. */
  lemma CallFollowed(s: State, a: SyncAnswers, cut: Option<nat>)
    ensures Followed(Happened(s, Init(a, cut))) <==> (Clears(s, a, cut) ==> Stages(a, cut))
  {
    hide Happened, Clears, Stages;
    CallEffects(s, a, cut);
  }

  /** The request standing at the BMC when it is cleared is one-shot, and BootNext becomes the option it asked for. */
  ghost predicate Honoured(s: State, a: SyncAnswers, t: seq<Effect>) {
    forall i :: 0 <= i < |t| && t[i].ClearOverride? ==> HonouredAt(s, a, t, i)
  }

  ghost predicate HonouredAt(s: State, a: SyncAnswers, t: seq<Effect>, i: nat)
    requires i < |t|
  {
    var b := Replay(s.w, t[..i]).boot;
    b.IsOnce() ==>
      && i + 1 < |t| && Chosen(b.target, a.options).Some?
      && t[i + 1] == SetBootNext(Chosen(b.target, a.options).value)
  }

  /** The request that is cleared: the one read, unless the BMC changed it in between. */
  function Standing(s: State, a: SyncAnswers): BootSource {
    if a.raced.Some? then a.raced.value else s.w.boot
  }

  /**
   * The request that a call clears is the one it serves, if and only if the call reaches
   * BootNext and a request that came in between asks for the same option.
   */
  lemma RequestHonoured(s: State, a: SyncAnswers, cut: Option<nat>)
    ensures Honoured(s, a, Happened(s, Init(a, cut))) <==>
            (Clears(s, a, cut) && Standing(s, a).IsOnce() ==>
               && Stages(a, cut)
               && Chosen(Standing(s, a).target, a.options) == Chosen(s.w.boot.target, a.options))
  {
    hide Chosen, Stages, Replay, Happened, Gets, Races;
    var t := Happened(s, Init(a, cut));
    CallEffects(s, a, cut);
    if Clears(s, a, cut) {
      StandingAtClear(s, a, cut);
      assert t[Races(a)].ClearOverride?;
      assert Takes(s, a);
      assert Honoured(s, a, t) <==> HonouredAt(s, a, t, Races(a));
    }
  }

  lemma StandingAtClear(s: State, a: SyncAnswers, cut: Option<nat>)
    requires Clears(s, a, cut)
    ensures var t := Happened(s, Init(a, cut));
            |t| > Races(a) && Replay(s.w, t[..Races(a)]).boot == Standing(s, a)
  {
    hide Chosen;
    var t := Happened(s, Init(a, cut));
    if a.raced.Some? {
      assert t[..1] == [SetBoot(a.raced.value)];
      ReplayOne(s.w, SetBoot(a.raced.value));
    } else {
      assert t[..0] == [];
    }
  }

  /** The handler is reached, and the BMC hands over a one-shot request. */
  predicate Asked(s: State, a: SyncAnswers) {
    && !s.syncDone && a.service && a.restEx && a.created && a.rootOk && a.get.Delivered?
    && s.w.boot.enabled == Some("Once") && s.w.boot.target.Some?
  }

  /**
   * An uncut call that is asked for a class this machine has an option of, with the clear
   * reported and the variable written, sets BootNext to the first option of that class and
   * resets at once: the next boot starts afresh, with the request gone from the BMC.
   */
  lemma RequestBooted(s: State, a: SyncAnswers, k: nat)
    requires Asked(s, a) && FirstInClass(s.w.boot.target.value, a.options, k)
    requires a.patch.ok && a.variableOk
    ensures var h := Happened(s, Init(a, None));
            |h| >= 2 && h[|h| - 2..] == [SetBootNext(a.options[k].number), ColdReset]
    ensures var s' := Step(s, Init(a, None));
            && s'.w.bootNext == Some(a.options[k].number) && !s'.w.boot.IsOnce()
            && s'.running == s'.w.flash && !s'.scanDone && !s'.syncDone
  {
    hide Chosen, InClass;
    var n := a.options[k].number;
    ChosenIs(s.w.boot.target, a.options, k);
    var r := if a.raced.Some? then [SetBoot(a.raced.value)] else [];
    var h := Happened(s, Init(a, None));
    assert h == r + [ClearOverride] + [SetBootNext(n), ColdReset];
    Staged(s.w, r, n);
  }

  lemma Staged(w: World, r: seq<Effect>, n: U16)
    ensures var w' := Replay(w, r + [ClearOverride] + [SetBootNext(n), ColdReset]);
            w'.bootNext == Some(n) && !w'.boot.IsOnce()
  {
    ReplayAppend(w, r + [ClearOverride], [SetBootNext(n), ColdReset]);
    ReplayAppend(w, r, [ClearOverride]);
    ReplayOne(Replay(w, r), ClearOverride);
    var w1 := Replay(w, r + [ClearOverride]);
    assert [SetBootNext(n), ColdReset] == [SetBootNext(n)] + [ColdReset];
    ReplayAppend(w1, [SetBootNext(n)], [ColdReset]);
    ReplayOne(w1, SetBootNext(n));
    ReplayOne(Replay(w1, [SetBootNext(n)]), ColdReset);
  }

  /**
   * And only then: an uncut call resets the machine if and only if all of that holds.
   * Otherwise the boot goes on, and has had its one exchange exactly when a service with
   * a REST EX handle was there.
   */
  lemma ResetsExactly(s: State, a: SyncAnswers)
    ensures EndsInReset(Happened(s, Init(a, None))) <==>
            && Asked(s, a) && (exists o <- a.options :: InClass(s.w.boot.target.value, o))
            && a.patch.ok && a.variableOk
    ensures !EndsInReset(Happened(s, Init(a, None))) ==>
              var s' := Step(s, Init(a, None));
              s'.syncDone == (s.syncDone || (a.service && a.restEx)) && s'.scanDone == s.scanDone
  {
    hide InClass, Chosen;
    if s.w.boot.target.Some? {
      ServedWhenPossible(s.w.boot.target.value, a.options);
    } else {
      NoTarget(a.options);
    }
    if Takes(s, a) {
      var n := Chosen(s.w.boot.target, a.options);
      var r := if a.raced.Some? then [SetBoot(a.raced.value)] else [];
      var c := if a.patch.cleared then [ClearOverride] else [];
      var b := if a.patch.ok && a.variableOk then [SetBootNext(n.value), ColdReset] else [];
      assert Happened(s, Init(a, None)) == r + c + b;
    }
  }

  lemma NoTarget(options: seq<BootOption>)
    ensures Chosen(None, options).None?
  {
  }

  // ----- whole runs

  predicate Quiet(e: Effect) {
    !e.ClearOverride? && !e.SetBootNext?
  }

  lemma AttemptIsQuiet(w: World, id: FileId, a: Answers)
    ensures forall e <- Trace(w, id, a) :: Quiet(e)
  {
  }

  lemma {:induction false} ScanIsQuiet(w: World, jobs: seq<Job>)
    ensures forall e <- TraceAll(w, jobs) :: Quiet(e)
  {
    hide Trace;
    if jobs != [] {
      var n := |jobs| - 1;
      ScanIsQuiet(w, jobs[..n]);
      assert jobs[..n + 1] == jobs;
      OneMore(w, jobs, n);
      AttemptIsQuiet(Replay(w, TraceAll(w, jobs[..n])), jobs[n].id, jobs[n].answers);
    }
  }

  lemma EventFollowed(s: State, ev: Event)
    ensures var t := Happened(s, ev);
            && (t == [] || !t[0].SetBootNext?)
            && (Followed(t) <==> (ev.Init? && Clears(s, ev.sync, ev.cut) ==> Stages(ev.sync, ev.cut)))
  {
    hide SyncTrace, TraceAll, Clears, Stages, Jobs;
    match ev {
      case Init(a, cut) =>
        CallEffects(s, a, cut);
        CallFollowed(s, a, cut);
      case ReadyToBoot(vs, _) =>
        if vs.Some? {
          ScanIsQuiet(s.w, Jobs(vs.value));
        }
        assert forall e <- ScanTrace(s.w, vs) :: Quiet(e);
        var t := Happened(s, ev);
        forall i | 0 <= i < |t|
          ensures Quiet(t[i])
        {
          assert t[i] in ScanTrace(s.w, vs);
        }
      case _ =>
    }
  }

  /** In every call of the run, a clear that happened was followed through to BootNext. */
  ghost predicate CallsComplete(s: State, evs: seq<Event>) {
    forall k :: 0 <= k < |evs| && evs[k].Init? && Clears(Run(s, evs[..k]), evs[k].sync, evs[k].cut) ==>
      Stages(evs[k].sync, evs[k].cut)
  }

  /**
   * Over every run, with power failing anywhere and every answer arbitrary: every request
   * cleared at the BMC has its BootNext set next, if and only if no call that cleared one
   * lost its reply, failed to write the variable, or lost power right after the clear.
   */
  lemma {:induction false} EveryClearIsStaged(s: State, evs: seq<Event>)
    ensures Followed(Log(s, evs)) <==> CallsComplete(s, evs)
    decreases |evs|
  {
    hide Happened, Clears, Stages, Followed, CallsComplete, Run;
    if evs == [] {
      NothingCleared(s);
    } else {
      var front, ev := evs[..|evs| - 1], evs[|evs| - 1];
      EveryClearIsStaged(s, front);
      EventFollowed(Run(s, front), ev);
      FollowedAppend(Log(s, front), Happened(Run(s, front), ev));
      assert evs == front + [ev];
      CompleteSnoc(s, front, ev);
    }
  }

  lemma CompleteSnoc(s: State, front: seq<Event>, ev: Event)
    ensures CallsComplete(s, front + [ev]) <==>
            && CallsComplete(s, front)
            && (ev.Init? && Clears(Run(s, front), ev.sync, ev.cut) ==> Stages(ev.sync, ev.cut))
  {
    hide Clears, Stages, Run;
    var evs, n := front + [ev], |front|;
    assert evs[..n] == front && evs[n] == ev;
    assert forall k :: 0 <= k < n ==> evs[..k] == front[..k] && evs[k] == front[k];
  }

  lemma NothingCleared(s: State)
    ensures Followed([]) && CallsComplete(s, [])
  {
  }

  /** A one-shot request for a class this machine has, and power lost right after the clear. */
  lemma CutLosesRequest(s: State, a: SyncAnswers)
    requires Takes(s, a) && a.raced.None? && a.patch.cleared
    ensures var evs := [Init(a, Some(1))];
            && !Followed(Log(s, evs))
            && !Run(s, evs).w.boot.IsOnce() && Run(s, evs).w.bootNext == s.w.bootNext
  {
    hide Chosen;
    var ev := Init(a, Some(1));
    var evs := [ev];
    assert evs[..0] == [] && Run(s, []) == s;
    EveryClearIsStaged(s, evs);
    assert evs[0] == ev && Clears(s, a, Some(1));
    CallEffects(s, a, Some(1));
    assert Happened(s, ev) == [ClearOverride];
    ReplayOne(s.w, ClearOverride);
  }
}
