/**
 * The machine the boot-time drivers act on: what survives a power failure, and the
 * effects that change it one at a time. A handler is described by the effects it
 * causes in order, so losing power part-way is keeping a prefix of them.
 */
module Firmware {
  import opened Bytes

  datatype FileId = FileId(volume: nat, name: string)

  /** The FMP's last-attempt record. Both fields default to zero. */
  datatype Attempt = Attempt(version: U32, status: U32)

  const STATUS_SUCCESS: U32 := 0
  const NOTHING_RECORDED := Attempt(0, STATUS_SUCCESS)

  /** The Boot object of the BMC's ComputerSystem, as far as the host reads it. */
  datatype BootSource = BootSource(enabled: Option<string>, target: Option<string>) {
    predicate IsOnce() {
      enabled == Some("Once")
    }
  }

  datatype World = World(
    files: map<FileId, seq<Byte>>,
    flash: U32,
    record: Attempt,
    boot: BootSource,
    bootNext: Option<U16>
  )

  datatype Effect =
    // the BMC, an operator or an operating system
    | StageFile(id: FileId, data: seq<Byte>)
    | DropFile(id: FileId)
    | SetBoot(boot: BootSource)
    // the FMP, while UpdateCapsule() runs
    | RecordVersion(version: U32)
    | WriteFlash(id: FileId, version: U32)
    | RecordStatus(status: U32)
    // the capsule scanner
    | Delete(id: FileId)
    // the override handler
    | ClearOverride
    | SetBootNext(option: U16)
    // either of the two
    | ColdReset

  function Perform(w: World, e: Effect): World {
    match e
    case StageFile(id, data) => w.(files := w.files[id := data])
    case DropFile(id) => w.(files := w.files - {id})
    case SetBoot(b) => w.(boot := b)
    case RecordVersion(v) => w.(record := w.record.(version := v))
    case WriteFlash(_, v) => w.(flash := v)
    case RecordStatus(s) => w.(record := w.record.(status := s))
    case Delete(id) => w.(files := w.files - {id})
    case ClearOverride => w.(boot := w.boot.(enabled := Some("Disabled")))
    case SetBootNext(n) => w.(bootNext := Some(n))
    case ColdReset => w
  }

  function Replay(w: World, es: seq<Effect>): World
    decreases es
  {
    if es == [] then w else Replay(Perform(w, es[0]), es[1..])
  }

  lemma {:induction false} ReplayAppend(w: World, es: seq<Effect>, fs: seq<Effect>)
    ensures Replay(w, es + fs) == Replay(Replay(w, es), fs)
    decreases es
  {
    if es == [] {
      assert es + fs == fs;
    } else {
      assert (es + fs)[1..] == es[1..] + fs;
      ReplayAppend(Perform(w, es[0]), es[1..], fs);
    }
  }

  lemma ReplayOne(w: World, e: Effect)
    ensures Replay(w, [e]) == Perform(w, e)
  {
    assert [e][1..] == [];
  }

  /**
   * The running platform: persistent world, effects so far, the version that was booted,
   * and the per-boot latches.
   */
  class Platform {
    var world: World
    var log: seq<Effect>
    var running: U32
    var scanDone: bool
    var syncDone: bool

    /** Power-on or cold reset: flash is booted, the latches are memory. */
    method Restart()
      modifies this`running, this`scanDone, this`syncDone
      ensures running == world.flash && !scanDone && !syncDone
    {
      running, scanDone, syncDone := world.flash, false, false;
    }

    method Do(es: seq<Effect>)
      modifies this`world, this`log
      ensures world == Replay(old(world), es)
      ensures log == old(log) + es
    {
      for i := 0 to |es|
        invariant log == old(log) + es[..i]
        invariant world == Replay(old(world), es[..i])
      {
        assert es[..i + 1] == es[..i] + [es[i]];
        ReplayAppend(old(world), es[..i], [es[i]]);
        ReplayOne(world, es[i]);
        world := Perform(world, es[i]);
        log := log + [es[i]];
      }
      assert es[..|es|] == es;
    }
  }
}
