/**
 * The one-shot boot override (NucRedfishSyncDxe.c): read the BMC's request, clear it at
 * the BMC, stage BootNext, reset. Two assumptions are built into the answers: a payload
 * the host gets is the BMC's state at that moment, and a clear that reports success
 * left the override disabled.
 */
module BootOverride {
  import opened Bytes
  import opened DevicePath
  import opened Firmware

  datatype BootOption = BootOption(number: U16, attributes: U32, path: Option<seq<Node>>)

  /** The option is tagged as an application, as BDS tags the setup UI. */
  predicate IsAppCategory(attributes: U32) {
    attributes / 0x100 % 0x20 == 1
  }

  /** The boot option belongs to the class a Redfish target names. */
  predicate InClass(target: string, o: BootOption) {
    || (target == "BiosSetup" && IsAppCategory(o.attributes))
    || (target == "Pxe" && o.path.Some? && IsNonUsbNic(o.path.value))
    || (target == "Hdd" && o.path.Some? && IsDisk(o.path.value))
  }

  /** Device path nodes by number (section 10.3 of UEFI 2.10): a MAC address node and no USB node. */
  lemma NicByNode(path: seq<Node>)
    ensures IsNonUsbNic(path) <==>
            (exists n <- path :: n.kind == 3 && n.sub == 11) && !exists n <- path :: n.kind == 3 && n.sub == 5
  {
  }

  /** A hard drive node, or one of ATAPI, SCSI, SATA, NVMe, UFS, SD and eMMC. */
  lemma DiskByNode(path: seq<Node>)
    ensures IsDisk(path) <==>
            exists n <- path :: (n.kind == 4 && n.sub == 1) || (n.kind == 3 && n.sub in {1, 2, 18, 23, 25, 26, 29})
  {
  }

  /** The category stands in bits 8 to 12 of the attributes, and 1 is the application category. */
  lemma CategoryByBits(low: nat, category: nat, high: nat)
    requires low < 0x100 && category < 0x20 && high < 0x8_0000
    ensures IsAppCategory(low + 0x100 * category + 0x2000 * high) <==> category == 1
  {
    var attributes := low + 0x100 * category + 0x2000 * high;
    assert attributes == 0x100 * (category + 0x20 * high) + low;
    assert attributes / 0x100 == category + 0x20 * high;
  }

  /** Each target names its own class, and any other target names none. */
  lemma TargetsByName(o: BootOption)
    ensures InClass("Pxe", o) <==> o.path.Some? && IsNonUsbNic(o.path.value)
    ensures InClass("Hdd", o) <==> o.path.Some? && IsDisk(o.path.value)
    ensures InClass("BiosSetup", o) <==> IsAppCategory(o.attributes)
    ensures forall t: string :: t != "Pxe" && t != "Hdd" && t != "BiosSetup" ==> !InClass(t, o)
  {
    hide IsNonUsbNic, IsDisk, IsAppCategory;
  }

  predicate FirstInClass(target: string, options: seq<BootOption>, i: nat) {
    && i < |options| && InClass(target, options[i])
    && forall j :: 0 <= j < i ==> !InClass(target, options[j])
  }

  method FindBootOverrideOption(target: Option<string>, options: seq<BootOption>) returns (r: Option<nat>)
    ensures r.Some? ==> target.Some? && FirstInClass(target.value, options, r.value)
    ensures r.None? && target.Some? ==> forall o <- options :: !InClass(target.value, o)
  {
    if target.None? || target.value == "None" {
      return None;
    }
    if options == [] {
      return None;
    }
    var t := target.value;
    for index := 0 to |options|
      invariant forall j :: 0 <= j < index ==> !InClass(t, options[j])
    {
      var o := options[index];
      var found := false;
      if t == "BiosSetup" {
        found := o.attributes / 0x100 % 0x20 == 1;
      } else if t == "Pxe" {
        if o.path.Some? {
          found := OptionIsNetworkBoot(o.path.value);
        }
      } else if t == "Hdd" {
        if o.path.Some? {
          found := OptionIsDiskBoot(o.path.value);
        }
      }
      if found {
        return Some(index);
      }
    }
    return None;
  }

  ghost function Chosen(target: Option<string>, options: seq<BootOption>): Option<U16> {
    if target.Some? && exists i: nat :: FirstInClass(target.value, options, i) then
      var i: nat :| FirstInClass(target.value, options, i);
      Some(options[i].number)
    else None
  }

  /** A request is served exactly when some boot option is of the class it names. */
  lemma ServedWhenPossible(target: string, options: seq<BootOption>)
    ensures Chosen(Some(target), options).Some? <==> exists o <- options :: InClass(target, o)
  {
    if o :| o in options && InClass(target, o) {
      var i :| 0 <= i < |options| && options[i] == o;
      var k := 0;
      while !InClass(target, options[k])
        invariant k <= i && forall j :: 0 <= j < k ==> !InClass(target, options[j])
        decreases i - k
      {
        k := k + 1;
      }
      assert FirstInClass(target, options, k);
    }
    if i: nat :| FirstInClass(target, options, i) {
      assert options[i] in options;
    }
  }

  // ----- the exchange with the BMC

  datatype GetAnswer = Failed | Malformed | Delivered

  datatype PatchReply = PatchReply(ok: bool, cleared: bool)
  type PatchAnswer = p: PatchReply | p.ok ==> p.cleared witness PatchReply(true, true)

  /**
   * What the environment answers to one call of the config handler. The BMC may change
   * its request between the GET and the clear: raced is what it then holds.
   */
  datatype SyncAnswers = SyncAnswers(
    service: bool,
    restEx: bool,
    created: bool,
    rootOk: bool,
    get: GetAnswer,
    options: seq<BootOption>,
    raced: Option<BootSource>,
    patch: PatchAnswer,
    variableOk: bool
  )

  /** The effects of the exchange, once it is reached. */
  ghost function OverrideTrace(w: World, a: SyncAnswers): seq<Effect> {
    if !w.boot.IsOnce() then []
    else
      var n := Chosen(w.boot.target, a.options);
      if n.None? then []
      else
        (if a.raced.Some? then [SetBoot(a.raced.value)] else []) +
        (if a.patch.cleared then [ClearOverride] else []) +
        (if a.patch.ok && a.variableOk then [SetBootNext(n.value), ColdReset] else [])
  }

  predicate ReachesOverride(a: SyncAnswers) {
    a.created && a.rootOk && a.get.Delivered?
  }

  /** The handler's call is one that latches: a service with a REST EX handle. */
  predicate Latches(a: SyncAnswers) {
    a.service && a.restEx
  }

  ghost function SyncTrace(w: World, syncDone: bool, a: SyncAnswers): seq<Effect> {
    if syncDone || !Latches(a) || !ReachesOverride(a) then [] else OverrideTrace(w, a)
  }

  method ApplyMatchedOption(m: Platform, o: BootOption, variableOk: bool)
    modifies m`world, m`log
    ensures var t := if variableOk then [SetBootNext(o.number), ColdReset] else [];
            m.world == Replay(old(m.world), t) && m.log == old(m.log) + t
  {
    if !variableOk {
      return;
    }
    m.Do([SetBootNext(o.number), ColdReset]);
  }

  method HandleBootOverride(m: Platform, a: SyncAnswers)
    modifies m`world, m`log
    ensures var t := OverrideTrace(old(m.world), a);
            m.world == Replay(old(m.world), t) && m.log == old(m.log) + t
  {
    var target, enabled := m.world.boot.target, m.world.boot.enabled;
    if enabled.None? || enabled.value != "Once" {
      return;
    }
    var match_ := FindBootOverrideOption(target, a.options);
    if match_.None? {
      if target.Some? {
        ServedWhenPossible(target.value, a.options);
      }
      return;
    }
    ghost var n := Chosen(target, a.options);
    ChosenIs(target, a.options, match_.value);
    ghost var r := if a.raced.Some? then [SetBoot(a.raced.value)] else [];
    ghost var c := if a.patch.cleared then [ClearOverride] else [];
    if a.raced.Some? {
      m.Do([SetBoot(a.raced.value)]);
    }
    ReplayAppend(old(m.world), r, c);
    if a.patch.cleared {
      m.Do([ClearOverride]);
    }
    if !a.patch.ok {
      assert r + c + [] == r + c;
      return;
    }
    ReplayAppend(old(m.world), r + c, if a.variableOk then [SetBootNext(n.value), ColdReset] else []);
    ApplyMatchedOption(m, a.options[match_.value], a.variableOk);
  }

  lemma ChosenIs(target: Option<string>, options: seq<BootOption>, k: nat)
    requires target.Some? && FirstInClass(target.value, options, k)
    ensures Chosen(target, options) == Some(options[k].number)
  {
    forall i: nat | FirstInClass(target.value, options, i)
      ensures i == k
    {
    }
  }

  method ConfigHandlerInit(m: Platform, a: SyncAnswers)
    modifies m`world, m`log, m`syncDone
    ensures m.syncDone == (old(m.syncDone) || Latches(a))
    ensures var t := SyncTrace(old(m.world), old(m.syncDone), a);
            m.world == Replay(old(m.world), t) && m.log == old(m.log) + t
  {
    if !a.service {
      return;
    }
    if !a.restEx {
      return;
    }
    if m.syncDone {
      return;
    }
    m.syncDone := true;
    if !a.created {
      return;
    }
    if !a.rootOk {
      return;
    }
    if a.get.Delivered? {
      HandleBootOverride(m, a);
    }
  }

  /**
   * Acknowledge before acting: whatever the answers, BootNext is staged and the machine
   * reset only when the request was a "Once" for an option class this machine has, and
   * only after the BMC accepted the clear; the option staged is the first of its class.
   */
  lemma ClearedBeforeStaged(w: World, syncDone: bool, a: SyncAnswers, i: nat)
    requires i < |SyncTrace(w, syncDone, a)|
    requires SyncTrace(w, syncDone, a)[i].SetBootNext? || SyncTrace(w, syncDone, a)[i].ColdReset?
    ensures !syncDone && w.boot.IsOnce() && a.patch.ok
    ensures ClearOverride in SyncTrace(w, syncDone, a)[..i]
    ensures !Replay(w, SyncTrace(w, syncDone, a)[..i]).boot.IsOnce()
    ensures SyncTrace(w, syncDone, a)[i].SetBootNext? ==>
      exists k: nat :: && FirstInClass(w.boot.target.value, a.options, k)
                       && SyncTrace(w, syncDone, a)[i].option == a.options[k].number
  {
    var t := SyncTrace(w, syncDone, a);
    var r := if a.raced.Some? then [SetBoot(a.raced.value)] else [];
    var n := Chosen(w.boot.target, a.options);
    assert t == r + [ClearOverride] + [SetBootNext(n.value), ColdReset];
    assert t[..i][|r|] == ClearOverride;
    ClearedStays(w, r, n.value, t[..i]);
  }

  lemma ClearedStays(w: World, r: seq<Effect>, n: U16, t: seq<Effect>)
    requires t == r + [ClearOverride] || t == r + [ClearOverride] + [SetBootNext(n)]
    ensures !Replay(w, t).boot.IsOnce()
  {
    var c := r + [ClearOverride];
    ReplayAppend(w, r, [ClearOverride]);
    ReplayOne(Replay(w, r), ClearOverride);
    ReplayAppend(w, c, [SetBootNext(n)]);
    ReplayOne(Replay(w, c), SetBootNext(n));
  }
}
