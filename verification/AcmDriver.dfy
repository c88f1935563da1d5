/**
 * Binding of the USB serial driver: what Start acquires, what its unwinding and Stop
 * give back, for every pattern of failing services.
 */
module AcmDriver {

  import opened Bytes
  import opened DevicePath

  type Handle = nat

  datatype PoolUse = DevPool | ScratchPool | PathPool | HandlesPool

  /** Something that is held until it is given back. */
  datatype Resource =
    | Pool(use: PoolUse, controller: Handle)
    | Opened(on: Handle, opener: Handle)
    | PollEvent(controller: Handle)
    | Interfaces(child: Handle)

  ghost function Plus(h: multiset<Resource>, r: Resource): multiset<Resource> {
    h + multiset{r}
  }

  ghost function Minus(h: multiset<Resource>, r: Resource): multiset<Resource> {
    h - multiset{r}
  }

  ghost function One(b: bool, r: Resource): multiset<Resource> {
    if b then multiset{r} else multiset{}
  }

  /** The boot services, as far as they count what is held. */
  class Services {
    var held: multiset<Resource>

    method Acquire(r: Resource)
      modifies this
      ensures held == Plus(old(held), r)
    {
      held := held + multiset{r};
    }

    /** Giving back what is not held has no effect. */
    method Release(r: Resource)
      modifies this
      ensures held == Minus(old(held), r)
    {
      held := held - multiset{r};
    }
  }

  /** Giving back what was just taken. */
  lemma Undo(h: multiset<Resource>, r: Resource)
    ensures Minus(Plus(h, r), r) == h
  {
  }

  // ----- the data interface

  /** A USB handle, with the answers of the services that are asked about it. */
  datatype Candidate = Candidate(handle: Handle, path: Option<Path>, opens: bool, dataClass: bool)

  /** The interface of another function of the same USB device. */
  predicate Sibling(ctrl: Path, cand: Path) {
    ctrl != [] && cand != [] && Parent(ctrl) == Parent(cand) && cand[|cand| - 1].Is(MESSAGING, MSG_USB)
  }

  predicate Eligible(controller: Handle, ctrl: Path, c: Candidate) {
    c.handle != controller && c.path.Some? && Sibling(ctrl, c.path.value) && c.opens && c.dataClass
  }

  /** The handle of the first candidate that can serve as the data interface. */
  function FirstEligible(controller: Handle, ctrl: Path, cs: seq<Candidate>): Option<Handle> {
    if cs == [] then None
    else if Eligible(controller, ctrl, cs[0]) then Some(cs[0].handle)
    else FirstEligible(controller, ctrl, cs[1..])
  }

  /** It is an eligible one with none before it, and there is one unless none is eligible. */
  lemma {:induction false} FirstEligibleIsFirst(controller: Handle, ctrl: Path, cs: seq<Candidate>)
    returns (k: nat)
    ensures k <= |cs| && forall i :: 0 <= i < k ==> !Eligible(controller, ctrl, cs[i])
    ensures k < |cs| ==> Eligible(controller, ctrl, cs[k]) && FirstEligible(controller, ctrl, cs) == Some(cs[k].handle)
    ensures k == |cs| ==> FirstEligible(controller, ctrl, cs) == None
  {
    k := 0;
    if cs != [] && !Eligible(controller, ctrl, cs[0]) {
      var j := FirstEligibleIsFirst(controller, ctrl, cs[1..]);
      k := j + 1;
      forall i | 0 <= i < k ensures !Eligible(controller, ctrl, cs[i]) {
        assert i > 0 ==> cs[i] == cs[1..][i - 1];
      }
    }
  }

  /** What FindDataInterface finds: nothing without a path, a node in it, or handles. */
  function DataInterface(controller: Handle, ctrl: Option<Path>, handles: Option<seq<Candidate>>): Option<Handle> {
    if ctrl.None? || ctrl.value == [] || handles.None? then None
    else FirstEligible(controller, ctrl.value, handles.value)
  }

  lemma LastNode(p: Path)
    requires p != []
    ensures var o := |Body(Parent(p))|;
            && o + 1 < |Encode(p)|
            && Encode(p)[o] == p[|p| - 1].kind && Encode(p)[o + 1] == p[|p| - 1].sub
  {
    BodyStep(p, |p| - 1);
    assert EncodeNode(p[|p| - 1])[0] == p[|p| - 1].kind && EncodeNode(p[|p| - 1])[1] == p[|p| - 1].sub;
  }

  /** The tests before a candidate is opened: same prefix, and a USB node last. */
  method IsSibling(ctrl: Path, cand: Path) returns (r: bool)
    requires ctrl != []
    ensures r == Sibling(ctrl, cand)
  {
    var bytes := Encode(cand);
    var same, last := SameDevice(Encode(ctrl), bytes, ctrl, cand);
    if !same {
      return false;
    }
    LastNode(cand);
    r := bytes[last.value] == MESSAGING && bytes[last.value + 1] == MSG_USB;
  }

  /**
   * FindDataInterface: of everything it opens on the way, only the interface it found
   * stays open.
   */
  method FindDataInterface(s: Services, controller: Handle, ctrl: Option<Path>, handles: Option<seq<Candidate>>)
    returns (data: Option<Handle>)
    modifies s
    ensures data == DataInterface(controller, ctrl, handles)
    ensures data.Some? ==> s.held == Plus(old(s.held), Opened(data.value, data.value))
    ensures data.None? ==> s.held == old(s.held)
  {
    hide Plus, Minus, Sibling;
    data := None;
    if ctrl.None? || ctrl.value == [] || handles.None? {
      return;
    }
    var cs := handles.value;
    s.Acquire(Pool(HandlesPool, controller));
    Undo(old(s.held), Pool(HandlesPool, controller));
    ghost var before := s.held;
    var index := 0;
    assert cs[0..] == cs;
    while index < |cs|
      invariant 0 <= index <= |cs| && data == None && s.held == before
      invariant FirstEligible(controller, ctrl.value, cs) == FirstEligible(controller, ctrl.value, cs[index..])
    {
      var c := cs[index];
      assert cs[index..][0] == c && cs[index..][1..] == cs[index + 1..];
      index := index + 1;
      if c.handle == controller || c.path.None? {
        continue;
      }
      var sibling := IsSibling(ctrl.value, c.path.value);
      if !sibling || !c.opens {
        continue;
      }
      s.Acquire(Opened(c.handle, c.handle));
      if c.dataClass {
        Swap(old(s.held), Pool(HandlesPool, controller), Opened(c.handle, c.handle));
        data := Some(c.handle);
        break;
      }
      Undo(before, Opened(c.handle, c.handle));
      s.Release(Opened(c.handle, c.handle));
    }
    s.Release(Pool(HandlesPool, controller));
  }

  // ----- the bulk endpoints

  datatype Endpoint = Endpoint(readable: bool, bulk: bool, address: Byte, maxPacket: U16) {
    predicate Usable(isIn: bool) {
      readable && bulk && (address >= 0x80) == isIn
    }
  }

  /** The last usable endpoint of a direction. */
  function LastBulk(es: seq<Endpoint>, isIn: bool): Option<Endpoint> {
    if es == [] then None
    else if es[|es| - 1].Usable(isIn) then Some(es[|es| - 1])
    else LastBulk(es[..|es| - 1], isIn)
  }

  /** A bulk pair: an endpoint in each direction, the one out at a nonzero address. */
  predicate BulkPair(es: Option<seq<Endpoint>>) {
    es.Some? && LastBulk(es.value, true).Some? && LastBulk(es.value, false).Some? &&
    LastBulk(es.value, false).value.address != 0
  }

  function AddressOf(e: Option<Endpoint>): Byte {
    if e.Some? then e.value.address else 0
  }

  /** It is a usable endpoint with none after it, and there is one unless none is usable. */
  lemma {:induction false} LastBulkIsLast(es: seq<Endpoint>, isIn: bool) returns (k: nat)
    ensures k <= |es| && forall i :: k < i < |es| ==> !es[i].Usable(isIn)
    ensures k < |es| ==> es[k].Usable(isIn) && LastBulk(es, isIn) == Some(es[k])
    ensures k == |es| ==> LastBulk(es, isIn) == None && forall e <- es :: !e.Usable(isIn)
    decreases |es|
  {
    if es == [] {
      return 0;
    }
    var n := |es| - 1;
    if es[n].Usable(isIn) {
      return n;
    }
    k := LastBulkIsLast(es[..n], isIn);
    assert es == es[..n] + [es[n]];
    if k == n {
      k := |es|;
    }
  }

  lemma {:induction false} LastBulkUsable(es: seq<Endpoint>, isIn: bool)
    ensures LastBulk(es, isIn).Some? ==> LastBulk(es, isIn).value.Usable(isIn)
  {
    if es != [] {
      LastBulkUsable(es[..|es| - 1], isIn);
    }
  }

  // ----- a started device

  /** A published port: its handles, and whether its event and its tie to the parent exist. */
  datatype Port = Port(controller: Handle, data: Handle, child: Handle, polling: bool, tied: bool) {
    function Event(): Resource {
      PollEvent(controller)
    }

    function Tie(): Resource {
      Opened(controller, child)
    }

    ghost function Base(): multiset<Resource> {
      multiset{Pool(DevPool, controller), Pool(ScratchPool, controller), Pool(PathPool, controller),
               Opened(data, data), Interfaces(child)}
    }

    /** What is held on behalf of the port. */
    ghost function Part(): multiset<Resource> {
      Base() + One(polling, Event()) + One(tied, Tie())
    }
  }

  /** Exactly that is held besides the rest, which has no tie to the same child. */
  ghost predicate HeldBesides(h: multiset<Resource>, p: Port, rest: multiset<Resource>) {
    h == rest + p.Part() && p.Tie() !in rest && p.controller != p.child
  }

  class Dev {
    const controller: Handle
    var dataHandle: Handle
    var child: Handle
    var bulkIn: Byte
    var bulkOut: Byte
    var bulkInMaxPacket: U16
    var polling: bool
    ghost var childOpen: bool

    constructor (controller: Handle)
      ensures this.controller == controller && bulkIn == 0 && bulkOut == 0
    {
      this.controller := controller;
      dataHandle, child, bulkIn, bulkOut, bulkInMaxPacket, polling := 0, 0, 0, 0, 0, false;
      childOpen := false;
    }

    ghost function PortOf(): Port
      reads this
    {
      Port(controller, dataHandle, child, polling, childOpen)
    }

    /** ResolveBulkEndpoints: the last usable endpoint of each direction, if there is a pair. */
    method ResolveBulkEndpoints(es: Option<seq<Endpoint>>) returns (ok: bool)
      requires bulkIn == 0 && bulkOut == 0
      modifies this`bulkIn, this`bulkOut, this`bulkInMaxPacket
      ensures ok == BulkPair(es)
      ensures ok ==> bulkIn == LastBulk(es.value, true).value.address
      ensures ok ==> bulkInMaxPacket == LastBulk(es.value, true).value.maxPacket
      ensures ok ==> bulkOut == LastBulk(es.value, false).value.address
      ensures ok ==> 0x80 <= bulkIn && 0 < bulkOut < 0x80
    {
      if es.None? {
        return false;
      }
      var index := 0;
      while index < |es.value|
        invariant 0 <= index <= |es.value|
        invariant bulkIn == AddressOf(LastBulk(es.value[..index], true))
        invariant bulkOut == AddressOf(LastBulk(es.value[..index], false))
        invariant LastBulk(es.value[..index], true).Some? ==>
                    bulkInMaxPacket == LastBulk(es.value[..index], true).value.maxPacket
      {
        assert es.value[..index + 1][..index] == es.value[..index];
        var e := es.value[index];
        if e.readable && e.bulk {
          if e.address >= 0x80 {
            bulkIn, bulkInMaxPacket := e.address, e.maxPacket;
          } else {
            bulkOut := e.address;
          }
        }
        index := index + 1;
      }
      assert es.value[..|es.value|] == es.value;
      LastBulkUsable(es.value, true);
      LastBulkUsable(es.value, false);
      ok := bulkIn != 0 && bulkOut != 0;
    }
  }

  // ----- publishing the port

  /** The answers of the services InstallSerialIo asks; the last to the uninstall of its unwinding. */
  datatype InstallAnswers = InstallAnswers(
    parentPath: bool,
    appends: bool,
    installs: bool,
    opensChild: bool,
    createsEvent: bool,
    setsTimer: bool,
    uninstalls: bool)
  {
    predicate Succeeds() {
      parentPath && appends && installs && opensChild && createsEvent && setsTimer
    }

    /** A failure after the interfaces are out, whose uninstall fails too. */
    predicate LeavesInterfaces() {
      parentPath && appends && installs && !(opensChild && createsEvent && setsTimer) && !uninstalls
    }
  }

  /** What a published port adds to what is held. */
  ghost function PortPart(controller: Handle, child: Handle): multiset<Resource> {
    multiset{Pool(PathPool, controller)} + multiset{Interfaces(child)} + multiset{Opened(controller, child)}
    + multiset{PollEvent(controller)}
  }

  method InstallSerialIo(s: Services, dev: Dev, child: Handle, a: InstallAnswers) returns (ok: bool)
    modifies s, dev`child, dev`polling, dev`childOpen
    ensures ok == a.Succeeds()
    ensures ok ==> dev.child == child && dev.polling && dev.childOpen
    ensures ok ==> s.held == old(s.held) + PortPart(dev.controller, child)
    ensures !ok && a.LeavesInterfaces() ==> s.held == Plus(old(s.held), Interfaces(child))
    ensures !ok && !a.LeavesInterfaces() ==> s.held == old(s.held)
  {
    hide Plus, Minus, PortPart;
    if !a.parentPath || !a.appends {
      return false;
    }
    ghost var h0 := s.held;
    s.Acquire(Pool(PathPool, dev.controller));
    Undo(h0, Pool(PathPool, dev.controller));
    if !a.installs {
      s.Release(Pool(PathPool, dev.controller));
      return false;
    }
    dev.child := child;
    ghost var h1 := s.held;
    s.Acquire(Interfaces(child));
    Undo(h1, Interfaces(child));
    ok := PublishPort(s, dev, a);
    if ok {
      PortAdds(h0, dev.controller, child);
      return;
    }
    if a.uninstalls {
      s.Release(Interfaces(child));
    } else {
      Swap(h0, Pool(PathPool, dev.controller), Interfaces(child));
    }
    s.Release(Pool(PathPool, dev.controller));
  }

  lemma PortAdds(h: multiset<Resource>, controller: Handle, child: Handle)
    ensures Plus(Plus(Plus(Plus(h, Pool(PathPool, controller)), Interfaces(child)), Opened(controller, child)),
                 PollEvent(controller))
         == h + PortPart(controller, child)
  {
  }

  lemma Swap(h: multiset<Resource>, a: Resource, b: Resource)
    ensures Minus(Plus(Plus(h, a), b), a) == Plus(h, b)
  {
  }

  /** The tie to the parent, the event and its timer, with their part of the unwinding. */
  method PublishPort(s: Services, dev: Dev, a: InstallAnswers) returns (ok: bool)
    modifies s, dev`polling, dev`childOpen
    ensures ok == (a.opensChild && a.createsEvent && a.setsTimer)
    ensures ok ==> dev.polling && dev.childOpen
    ensures ok ==> s.held == Plus(Plus(old(s.held), Opened(dev.controller, dev.child)), PollEvent(dev.controller))
    ensures !ok ==> s.held == old(s.held)
  {
    hide Plus, Minus;
    if !a.opensChild {
      return false;
    }
    ghost var h0 := s.held;
    s.Acquire(Opened(dev.controller, dev.child));
    Undo(h0, Opened(dev.controller, dev.child));
    ghost var h1 := s.held;
    if a.createsEvent {
      s.Acquire(PollEvent(dev.controller));
      if a.setsTimer {
        dev.polling, dev.childOpen := true, true;
        return true;
      }
      Undo(h1, PollEvent(dev.controller));
      s.Release(PollEvent(dev.controller));
    }
    s.Release(Opened(dev.controller, dev.child));
    ok := false;
  }

  // ----- Start

  datatype StartAnswers = StartAnswers(
    allocates: bool,
    opensController: bool,
    hasInterface: bool,
    path: Option<Path>,
    handles: Option<seq<Candidate>>,
    endpoints: Option<seq<Endpoint>>,
    allocatesScratch: bool,
    install: InstallAnswers)
  {
    predicate ReachesInstall(controller: Handle) {
      allocates && opensController && hasInterface && DataInterface(controller, path, handles).Some?
      && BulkPair(endpoints) && allocatesScratch
    }
  }

  /**
   * What Start needs to get as far as publishing the port: the controller, a sibling
   * interface of the data class that opens, and a bulk endpoint in each direction.
   */
  lemma ReachesExactly(a: StartAnswers, controller: Handle)
    ensures a.ReachesInstall(controller) <==>
            && a.allocates && a.opensController && a.hasInterface && a.allocatesScratch
            && a.path.Some? && a.path.value != [] && a.handles.Some?
            && (exists c <- a.handles.value :: Serves(a.path.value, controller, c))
            && a.endpoints.Some?
            && (exists e <- a.endpoints.value :: e.readable && e.bulk && e.address >= 0x80)
            && (exists k :: LastOut(a.endpoints.value, k))
  {
    hide Sibling, Serves, LastOut, BulkPair;
    if a.path.Some? && a.path.value != [] && a.handles.Some? {
      var k := FirstEligibleIsFirst(controller, a.path.value, a.handles.value);
      SiblingsServe(a.path.value, controller, a.handles.value);
    }
    PairsExactly(a.endpoints);
  }

  lemma PairsExactly(es: Option<seq<Endpoint>>)
    ensures BulkPair(es) <==>
            && es.Some?
            && (exists e <- es.value :: e.readable && e.bulk && e.address >= 0x80)
            && (exists k :: LastOut(es.value, k))
  {
    if es.Some? {
      var i := LastBulkIsLast(es.value, true);
      var o := LastBulkIsLast(es.value, false);
      if o < |es.value| {
        assert es.value[o].address != 0 ==> LastOut(es.value, o);
      }
      forall k: nat | LastOut(es.value, k)
        ensures k == o
      {
        assert es.value[k].Usable(false) && es.value[k] in es.value;
      }
    }
  }

  /** Another interface of the same USB device: the same path but for its last node, a USB node. */
  predicate Serves(ctrl: Path, controller: Handle, c: Candidate)
    requires ctrl != []
  {
    && c.handle != controller && c.opens && c.dataClass && c.path.Some? && c.path.value != []
    && var p := c.path.value;
       var n := p[|p| - 1];
       p[..|p| - 1] == ctrl[..|ctrl| - 1] && n.kind == 3 && n.sub == 5
  }

  lemma SiblingsServe(ctrl: Path, controller: Handle, cs: seq<Candidate>)
    requires ctrl != []
    ensures forall c <- cs :: Eligible(controller, ctrl, c) <==> Serves(ctrl, controller, c)
  {
  }

  /** The last bulk endpoint out, at an address of its own. */
  predicate LastOut(es: seq<Endpoint>, k: nat) {
    && k < |es| && es[k].readable && es[k].bulk && 0 < es[k].address < 0x80
    && forall i :: k < i < |es| && es[i].readable && es[i].bulk ==> es[i].address >= 0x80
  }

  /**
   * Start: on success everything the port needs is held, on failure everything is as it
   * was, except for the published interfaces in the one case where taking them back fails.
   */
  method Start(s: Services, controller: Handle, child: Handle, a: StartAnswers) returns (dev: Dev?)
    requires Opened(controller, child) !in s.held && controller != child
    modifies s
    ensures dev != null <==> a.ReachesInstall(controller) && a.install.Succeeds()
    ensures dev != null ==> fresh(dev) && dev.controller == controller && dev.child == child
    ensures dev != null ==> Some(dev.dataHandle) == DataInterface(controller, a.path, a.handles)
    ensures dev != null ==> dev.polling && dev.childOpen
    ensures dev != null ==> dev.bulkIn == LastBulk(a.endpoints.value, true).value.address
    ensures dev != null ==> dev.bulkOut == LastBulk(a.endpoints.value, false).value.address
    ensures dev != null ==> 0x80 <= dev.bulkIn && 0 < dev.bulkOut < 0x80
    ensures dev != null ==> dev.bulkInMaxPacket == LastBulk(a.endpoints.value, true).value.maxPacket
    ensures dev != null ==> HeldBesides(s.held, dev.PortOf(), Plus(old(s.held), Opened(controller, controller)))
    ensures dev == null && a.ReachesInstall(controller) && a.install.LeavesInterfaces() ==>
              s.held == Plus(old(s.held), Interfaces(child))
    ensures dev == null && !(a.ReachesInstall(controller) && a.install.LeavesInterfaces()) ==>
              s.held == old(s.held)
  {
    hide Plus, Minus, DataPart, PortPart, DataInterface, BulkPair;
    if !a.allocates {
      return null;
    }
    ghost var h0 := s.held;
    var d := new Dev(controller);
    s.Acquire(Pool(DevPool, controller));
    Undo(h0, Pool(DevPool, controller));
    if !a.opensController {
      s.Release(Pool(DevPool, controller));
      return null;
    }
    ghost var h1 := s.held;
    s.Acquire(Opened(controller, controller));
    Undo(h1, Opened(controller, controller));
    var ok := a.hasInterface;
    if ok {
      ok := StartData(s, d, child, a);
    }
    if ok {
      StartAdds(h0, d);
      return d;
    }
    Swap(h1, Opened(controller, controller), Interfaces(child));
    Swap(h0, Pool(DevPool, controller), Interfaces(child));
    s.Release(Opened(controller, controller));
    s.Release(Pool(DevPool, controller));
    return null;
  }

  /** The part of Start that runs with the controller open. */
  method StartData(s: Services, d: Dev, child: Handle, a: StartAnswers) returns (ok: bool)
    requires d.bulkIn == 0 && d.bulkOut == 0
    requires a.allocates && a.opensController && a.hasInterface
    modifies s, d
    ensures ok <==> a.ReachesInstall(d.controller) && a.install.Succeeds()
    ensures ok ==> d.child == child && d.polling && d.childOpen
    ensures ok ==> Some(d.dataHandle) == DataInterface(d.controller, a.path, a.handles)
    ensures ok ==> d.bulkIn == LastBulk(a.endpoints.value, true).value.address
    ensures ok ==> d.bulkOut == LastBulk(a.endpoints.value, false).value.address
    ensures ok ==> 0x80 <= d.bulkIn && 0 < d.bulkOut < 0x80
    ensures ok ==> d.bulkInMaxPacket == LastBulk(a.endpoints.value, true).value.maxPacket
    ensures ok ==> s.held == old(s.held) + DataPart(d) + PortPart(d.controller, child)
    ensures !ok && a.ReachesInstall(d.controller) && a.install.LeavesInterfaces() ==>
              s.held == Plus(old(s.held), Interfaces(child))
    ensures !ok && !(a.ReachesInstall(d.controller) && a.install.LeavesInterfaces()) ==> s.held == old(s.held)
  {
    hide DataInterface, BulkPair, PortPart, DataPart, Plus, Minus;
    ghost var h0 := s.held;
    var data := FindDataInterface(s, d.controller, a.path, a.handles);
    ok := data.Some?;
    if !ok {
      return;
    }
    d.dataHandle := data.value;
    Undo(h0, Opened(d.dataHandle, d.dataHandle));
    ok := d.ResolveBulkEndpoints(a.endpoints);
    if !ok || !a.allocatesScratch {
      s.Release(Opened(d.dataHandle, d.dataHandle));
      return false;
    }
    ghost var h1 := s.held;
    s.Acquire(Pool(ScratchPool, d.controller));
    Undo(h1, Pool(ScratchPool, d.controller));
    ok := InstallSerialIo(s, d, child, a.install);
    if ok {
      DataAdds(h0, d);
      return;
    }
    Swap(h1, Pool(ScratchPool, d.controller), Interfaces(child));
    Swap(h0, Opened(d.dataHandle, d.dataHandle), Interfaces(child));
    s.Release(Pool(ScratchPool, d.controller));
    s.Release(Opened(d.dataHandle, d.dataHandle));
  }

  ghost function DataPart(d: Dev): multiset<Resource>
    reads d
  {
    multiset{Opened(d.dataHandle, d.dataHandle)} + multiset{Pool(ScratchPool, d.controller)}
  }

  lemma DataAdds(h: multiset<Resource>, d: Dev)
    ensures Plus(Plus(h, Opened(d.dataHandle, d.dataHandle)), Pool(ScratchPool, d.controller)) == h + DataPart(d)
  {
  }

  lemma StartAdds(h: multiset<Resource>, d: Dev)
    requires d.polling && d.childOpen
    ensures Plus(Plus(h, Pool(DevPool, d.controller)), Opened(d.controller, d.controller))
            + DataPart(d) + PortPart(d.controller, d.child)
         == Plus(h, Opened(d.controller, d.controller)) + d.PortOf().Part()
    ensures d.PortOf().Tie() !in h && d.controller != d.child ==>
              d.PortOf().Tie() !in Plus(h, Opened(d.controller, d.controller))
  {
  }

  // ----- Stop

  datatype StopAnswers = StopAnswers(getsSerialIo: bool, uninstalls: bool, reopens: bool, createsEvent: bool)

  /** UninstallSerialIo up to the uninstall: the event and the tie are given back. */
  method Quiesce(s: Services, dev: Dev, ghost rest: multiset<Resource>)
    requires HeldBesides(s.held, dev.PortOf(), rest)
    modifies s, dev`polling, dev`childOpen
    ensures !dev.polling && !dev.childOpen
    ensures s.held == rest + dev.PortOf().Base()
  {
    hide Plus, Minus, One, Port.Part, Port.Base;
    ghost var p := dev.PortOf();
    Quiet(rest, p);
    SameBase(p);
    ghost var h := s.held;
    assert h == rest + p.Part();
    if dev.polling {
      s.Release(PollEvent(dev.controller));
      dev.polling := false;
    }
    assert s.held == if p.polling then Minus(h, p.Event()) else h;
    s.Release(Opened(dev.controller, dev.child));
    dev.childOpen := false;
    assert dev.PortOf() == p.(polling := false, tied := false);
  }

  lemma Quiet(rest: multiset<Resource>, p: Port)
    requires p.Tie() !in rest && p.controller != p.child
    ensures
      var h := rest + p.Part();
      Minus(if p.polling then Minus(h, p.Event()) else h, p.Tie()) == rest + p.Base()
  {
  }

  /** The rest of a successful Stop. */
  method Drain(s: Services, dev: Dev, ghost rest: multiset<Resource>)
    requires s.held == rest + dev.PortOf().Base()
    modifies s
    ensures s.held == rest
  {
    hide Plus, Minus, Port.Base;
    Drained(rest, dev.PortOf());
    s.Release(Interfaces(dev.child));
    s.Release(Opened(dev.dataHandle, dev.dataHandle));
    s.Release(Pool(ScratchPool, dev.controller));
    s.Release(Pool(PathPool, dev.controller));
    s.Release(Pool(DevPool, dev.controller));
  }

  lemma Drained(rest: multiset<Resource>, p: Port)
    ensures Minus(Minus(Minus(Minus(Minus(rest + p.Base(),
              Interfaces(p.child)), Opened(p.data, p.data)), Pool(ScratchPool, p.controller)),
              Pool(PathPool, p.controller)), Pool(DevPool, p.controller))
         == rest
  {
  }

  /** The answer to a failed uninstall: what can be had again is taken again. */
  method Resume(s: Services, dev: Dev, a: StopAnswers, ghost rest: multiset<Resource>)
    requires s.held == rest + dev.PortOf().Base() && !dev.polling && !dev.childOpen
    modifies s, dev`polling, dev`childOpen
    ensures dev.PortOf() == old(dev.PortOf()).(polling := a.createsEvent, tied := a.reopens)
    ensures s.held == rest + dev.PortOf().Part()
  {
    hide Plus, One, Port.Base, Port.Part;
    Resumed(rest, dev.PortOf().(polling := a.createsEvent, tied := a.reopens));
    if a.reopens {
      s.Acquire(Opened(dev.controller, dev.child));
      dev.childOpen := true;
    }
    if a.createsEvent {
      s.Acquire(PollEvent(dev.controller));
      dev.polling := true;
    }
  }

  lemma Resumed(rest: multiset<Resource>, p: Port)
    ensures p.Base() == p.(polling := false, tied := false).Base()
    ensures
      var h := if p.tied then Plus(rest + p.Base(), p.Tie()) else rest + p.Base();
      (if p.polling then Plus(h, p.Event()) else h) == rest + p.Part()
  {
  }

  lemma SameBase(p: Port)
    ensures p.(polling := false, tied := false).Base() == p.Base()
  {
  }

  /** Stop with a child: the port goes with everything held for it, or stays published. */
  method StopChild(s: Services, dev: Dev, a: StopAnswers, ghost rest: multiset<Resource>) returns (ok: bool)
    requires HeldBesides(s.held, dev.PortOf(), rest)
    modifies s, dev`polling, dev`childOpen
    ensures ok == (a.getsSerialIo && a.uninstalls)
    ensures ok ==> s.held == rest
    ensures !ok ==> HeldBesides(s.held, dev.PortOf(), rest)
    ensures !ok ==> dev.PortOf() == if a.getsSerialIo then old(dev.PortOf()).(polling := a.createsEvent, tied := a.reopens)
                                    else old(dev.PortOf())
  {
    hide Port.Part, Port.Base;
    if !a.getsSerialIo {
      return false;
    }
    Quiesce(s, dev, rest);
    if !a.uninstalls {
      Resume(s, dev, a, rest);
      return false;
    }
    Drain(s, dev, rest);
    ok := true;
  }

  /** Stop without children: the controller is given back. */
  method StopController(s: Services, controller: Handle)
    modifies s
    ensures s.held == Minus(old(s.held), Opened(controller, controller))
  {
    s.Release(Opened(controller, controller));
  }

  /**
   * A whole life: a successful Start, any number of Stops that fail because the port is
   * in use, one that succeeds, and the Stop of the controller leave everything as it was.
   */
  method Lifecycle(s: Services, controller: Handle, child: Handle, a: StartAnswers, failing: seq<StopAnswers>)
    requires Opened(controller, child) !in s.held && controller != child
    requires a.ReachesInstall(controller) && a.install.Succeeds()
    requires forall f <- failing :: !(f.getsSerialIo && f.uninstalls)
    modifies s
    ensures s.held == old(s.held)
  {
    hide DataInterface, BulkPair, Port.Part, Plus, Minus;
    ghost var rest := Plus(s.held, Opened(controller, controller));
    Undo(s.held, Opened(controller, controller));
    var dev := Start(s, controller, child, a);
    for i := 0 to |failing|
      invariant HeldBesides(s.held, dev.PortOf(), rest)
    {
      assert failing[i] in failing;
      var _ := StopChild(s, dev, failing[i], rest);
    }
    var _ := StopChild(s, dev, StopAnswers(true, true, true, true), rest);
    StopController(s, controller);
  }
}
