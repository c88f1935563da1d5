/**
 * The receive side of the USB serial console: a ring of bytes filled by a timer and
 * drained by reads, against the queue it stands for.
 */
module SerialRing {

  import opened Bytes

  const FIFO_SIZE := 4096

  /** A bulk-in transfer: its status, and the bytes it took off the endpoint. */
  datatype Transfer = Transfer(error: bool, data: seq<Byte>)

  datatype Event =
    | Poll(transfer: Transfer)
    | Read(wanted: nat)
    | Reset

  // ----- the queue

  /** A poll asks the endpoint only when a whole packet can be stored. */
  predicate Polls(queue: seq<Byte>, maxPacket: nat) {
    FIFO_SIZE - 1 - |queue| >= maxPacket
  }

  function Min(a: nat, b: nat): nat {
    if a < b then a else b
  }

  /** The queue after one event. */
  function Next(queue: seq<Byte>, e: Event, maxPacket: nat): seq<Byte> {
    match e
    case Poll(t) => if Polls(queue, maxPacket) && !t.error then queue + t.data else queue
    case Read(wanted) => queue[Min(wanted, |queue|)..]
    case Reset => []
  }

  /** The bytes an event hands to the caller. */
  function Handed(queue: seq<Byte>, e: Event): seq<Byte> {
    if e.Read? then queue[..Min(e.wanted, |queue|)] else []
  }

  /** The bytes an event takes off the endpoint, whatever the transfer's status. */
  function Delivered(queue: seq<Byte>, e: Event, maxPacket: nat): seq<Byte> {
    if e.Poll? && Polls(queue, maxPacket) then e.transfer.data else []
  }

  /**
   * What one event does to a queue of at most 4095 bytes: a poll with room for a whole
   * packet stores what a good transfer brings, one without leaves the endpoint alone; a
   * read hands out the oldest bytes, as many as asked for or all there are.
   */
  lemma EventsExactly(queue: seq<Byte>, t: Transfer, wanted: nat, maxPacket: nat)
    ensures |queue| + maxPacket <= 4095 && !t.error ==> Next(queue, Poll(t), maxPacket) == queue + t.data
    ensures |queue| + maxPacket <= 4095 ==> Delivered(queue, Poll(t), maxPacket) == t.data
    ensures |queue| + maxPacket > 4095 || t.error ==> Next(queue, Poll(t), maxPacket) == queue
    ensures |queue| + maxPacket > 4095 ==> Delivered(queue, Poll(t), maxPacket) == []
    ensures wanted <= |queue| ==>
              Handed(queue, Read(wanted)) == queue[..wanted] && Next(queue, Read(wanted), maxPacket) == queue[wanted..]
    ensures wanted > |queue| ==> Handed(queue, Read(wanted)) == queue && Next(queue, Read(wanted), maxPacket) == []
  {
  }

  // ----- runs

  /** A transfer never brings more than was asked for. */
  predicate Sized(es: seq<Event>, maxPacket: nat) {
    forall e <- es :: e.Poll? ==> |e.transfer.data| <= maxPacket
  }

  predicate ResetFree(es: seq<Event>) {
    forall e <- es :: !e.Reset?
  }

  function After(queue: seq<Byte>, es: seq<Event>, maxPacket: nat): seq<Byte>
    decreases |es|
  {
    if es == [] then queue else After(Next(queue, es[0], maxPacket), es[1..], maxPacket)
  }

  function AllHanded(queue: seq<Byte>, es: seq<Event>, maxPacket: nat): seq<Byte>
    decreases |es|
  {
    if es == [] then []
    else Handed(queue, es[0]) + AllHanded(Next(queue, es[0], maxPacket), es[1..], maxPacket)
  }

  function AllDelivered(queue: seq<Byte>, es: seq<Event>, maxPacket: nat): seq<Byte>
    decreases |es|
  {
    if es == [] then []
    else Delivered(queue, es[0], maxPacket) + AllDelivered(Next(queue, es[0], maxPacket), es[1..], maxPacket)
  }

  /** No transfer of the run brought bytes together with an error. */
  predicate NoPartialErrors(queue: seq<Byte>, es: seq<Event>, maxPacket: nat)
    decreases |es|
  {
    es == [] ||
    ((es[0].Poll? && es[0].transfer.error ==> Delivered(queue, es[0], maxPacket) == []) &&
     NoPartialErrors(Next(queue, es[0], maxPacket), es[1..], maxPacket))
  }

  lemma {:induction false} NeverMoreThanDelivered(queue: seq<Byte>, es: seq<Event>, maxPacket: nat)
    requires ResetFree(es)
    ensures |AllHanded(queue, es, maxPacket)| + |After(queue, es, maxPacket)|
         <= |queue| + |AllDelivered(queue, es, maxPacket)|
    decreases |es|
  {
    if es != [] {
      assert es[0] in es;
      NeverMoreThanDelivered(Next(queue, es[0], maxPacket), es[1..], maxPacket);
    }
  }

  /**
   * Over every reset-free run, what was read followed by what is buffered is what was
   * buffered at first followed by everything the endpoint delivered, if and only if no
   * failing transfer carried bytes: those are the only bytes that are ever lost.
   */
  lemma {:induction false} RingIsAQueue(queue: seq<Byte>, es: seq<Event>, maxPacket: nat)
    requires ResetFree(es)
    ensures AllHanded(queue, es, maxPacket) + After(queue, es, maxPacket)
         == queue + AllDelivered(queue, es, maxPacket)
       <==> NoPartialErrors(queue, es, maxPacket)
    decreases |es|
  {
    if es == [] {
      assert [] + queue == queue + [];
    } else {
      assert es[0] in es;
      var next := Next(queue, es[0], maxPacket);
      RingIsAQueue(next, es[1..], maxPacket);
      NeverMoreThanDelivered(next, es[1..], maxPacket);
      EventThenRest(queue, es[0], maxPacket, AllHanded(next, es[1..], maxPacket), After(next, es[1..], maxPacket),
                    AllDelivered(next, es[1..], maxPacket));
    }
  }

  /** One event in front of a run with handed h, buffered a and delivered d. */
  lemma EventThenRest(queue: seq<Byte>, e: Event, maxPacket: nat, h: seq<Byte>, a: seq<Byte>, d: seq<Byte>)
    requires !e.Reset?
    requires |h| + |a| <= |Next(queue, e, maxPacket)| + |d|
    ensures (Handed(queue, e) + h) + a == queue + (Delivered(queue, e, maxPacket) + d)
       <==> (e.Poll? && e.transfer.error ==> Delivered(queue, e, maxPacket) == [])
            && h + a == Next(queue, e, maxPacket) + d
  {
    var next, first, taken := Next(queue, e, maxPacket), Handed(queue, e), Delivered(queue, e, maxPacket);
    if e.Poll? && e.transfer.error && taken != [] {
      assert |(first + h) + a| < |queue + (taken + d)|;
    } else {
      OneEvent(queue, e, maxPacket);
      hide Next, Handed, Delivered;
      assert (first + h) + a == first + (h + a);
      assert first + (next + d) == (first + next) + d;
      assert queue + (taken + d) == (queue + taken) + d;
      SamePrefix(first, h + a, next + d);
    }
  }

  lemma OneEvent(queue: seq<Byte>, e: Event, maxPacket: nat)
    requires !e.Reset?
    requires e.Poll? && e.transfer.error ==> Delivered(queue, e, maxPacket) == []
    ensures Handed(queue, e) + Next(queue, e, maxPacket) == queue + Delivered(queue, e, maxPacket)
  {
  }

  lemma SamePrefix(p: seq<Byte>, a: seq<Byte>, b: seq<Byte>)
    ensures p + a == p + b <==> a == b
  {
    if p + a == p + b {
      assert a == (p + a)[|p|..];
      assert b == (p + b)[|p|..];
    }
  }

  // ----- the ring

  /** What lies from the tail to the head, around the end. */
  function Window(buf: seq<Byte>, tail: nat, head: nat): (w: seq<Byte>)
    requires |buf| == FIFO_SIZE && tail < FIFO_SIZE && head < FIFO_SIZE
    ensures |w| == if head >= tail then head - tail else FIFO_SIZE - tail + head
  {
    if head >= tail then buf[tail..head] else buf[tail..] + buf[..head]
  }

  lemma TakeOne(buf: seq<Byte>, tail: nat, head: nat)
    requires |buf| == FIFO_SIZE && tail < FIFO_SIZE && head < FIFO_SIZE && tail != head
    ensures Window(buf, tail, head) == [buf[tail]] + Window(buf, (tail + 1) % FIFO_SIZE, head)
  {
    var next := if tail == FIFO_SIZE - 1 then 0 else tail + 1;
    assert (tail + 1) % FIFO_SIZE == next;
    var w, rest := Window(buf, tail, head), Window(buf, next, head);
    assert |w| == 1 + |rest| && w[0] == buf[tail];
    forall i | 0 <= i < |rest| ensures w[1 + i] == rest[i] {
    }
  }

  lemma PutOne(buf: seq<Byte>, tail: nat, head: nat, b: Byte)
    requires |buf| == FIFO_SIZE && tail < FIFO_SIZE && head < FIFO_SIZE
    requires |Window(buf, tail, head)| < FIFO_SIZE - 1
    ensures Window(buf[head := b], tail, (head + 1) % FIFO_SIZE) == Window(buf, tail, head) + [b]
  {
    if head < tail {
      PutOutside(buf, tail, head, b);
      PutEnd(buf, 0, head, b);
      assert buf[tail..] + (buf[..head] + [b]) == buf[tail..] + buf[..head] + [b];
    } else {
      PutEnd(buf, tail, head, b);
    }
  }

  lemma PutEnd(buf: seq<Byte>, tail: nat, head: nat, b: Byte)
    requires tail <= head < |buf|
    ensures buf[head := b][tail..head + 1] == buf[tail..head] + [b]
  {
  }

  lemma PutOutside(buf: seq<Byte>, tail: nat, head: nat, b: Byte)
    requires head < tail <= |buf|
    ensures buf[head := b][tail..] == buf[tail..]
  {
  }

  datatype Control = Control(
    dataTerminalReady: bool,
    requestToSend: bool,
    loopbackOrFlowControl: bool,
    inputBufferEmpty: bool,
    outputBufferEmpty: bool)

  class Device {
    const rx: array<Byte>
    const maxPacket: nat
    var rxHead: nat
    var rxTail: nat
    var dataTerminalReady: bool
    var requestToSend: bool

    ghost predicate Valid()
      reads this
    {
      rx.Length == FIFO_SIZE && rxHead < FIFO_SIZE && rxTail < FIFO_SIZE
    }

    /** The queue the ring stands for. */
    ghost function Contents(): (q: seq<Byte>)
      requires Valid()
      reads this, rx
      ensures |q| < FIFO_SIZE
    {
      Window(rx[..], rxTail, rxHead)
    }

    constructor (maxPacket: nat)
      ensures Valid() && fresh(rx) && Contents() == [] && this.maxPacket == maxPacket
    {
      rx := new Byte[FIFO_SIZE](_ => 0);
      this.maxPacket := maxPacket;
      rxHead, rxTail := 0, 0;
      dataTerminalReady, requestToSend := false, false;
    }

    function RxCount(): (n: nat)
      requires Valid()
      reads this, rx
      ensures n == |Contents()|
    {
      if rxHead >= rxTail then rxHead - rxTail else FIFO_SIZE - rxTail + rxHead
    }

    function RxFree(): (n: nat)
      requires Valid()
      reads this, rx
      ensures n + |Contents()| == FIFO_SIZE - 1
    {
      FIFO_SIZE - 1 - RxCount()
    }

    /** One byte at the head. */
    method PutByte(b: Byte)
      requires Valid() && |Contents()| < FIFO_SIZE - 1
      modifies rx, this`rxHead
      ensures Valid() && Contents() == old(Contents()) + [b]
    {
      PutOne(rx[..], rxTail, rxHead, b);
      rx[rxHead] := b;
      assert rx[..] == old(rx[..])[rxHead := b];
      rxHead := (rxHead + 1) % FIFO_SIZE;
    }

    /** The oldest byte, from the tail. */
    method TakeByte() returns (b: Byte)
      requires Valid() && Contents() != []
      modifies this`rxTail
      ensures Valid() && old(Contents()) == [b] + Contents()
    {
      b := rx[rxTail];
      TakeOne(rx[..], rxTail, rxHead);
      rxTail := (rxTail + 1) % FIFO_SIZE;
    }

    /** RxPut: the bytes that fit are appended in order, the rest are dropped. */
    method RxPut(data: seq<Byte>)
      requires Valid()
      modifies rx, this`rxHead
      ensures Valid()
      ensures Contents() == old(Contents()) + data[..Min(|data|, old(RxFree()))]
    {
      hide Contents, RxFree;
      var length, room := |data|, RxFree();
      if length > room {
        length := room;
      }
      var index := 0;
      while index < length
        invariant 0 <= index <= length && Valid()
        invariant Contents() == old(Contents()) + data[..index]
      {
        assert data[..index + 1] == data[..index] + [data[index]];
        PutByte(data[index]);
        index := index + 1;
      }
    }

    /** The timer callback: one transfer, if the ring has room for a packet. */
    method Poll(t: Transfer)
      requires Valid() && |t.data| <= maxPacket
      modifies rx, this`rxHead
      ensures Valid() && Contents() == Next(old(Contents()), Event.Poll(t), maxPacket)
    {
      if RxFree() < maxPacket {
        return;
      }
      if t.error || |t.data| == 0 {
        assert Contents() + [] == Contents();
        return;
      }
      assert t.data[..|t.data|] == t.data;
      RxPut(t.data);
    }

    /** Read: as many of the oldest bytes as are wanted and there, success when all were there. */
    method Read(wanted: nat) returns (out: seq<Byte>, success: bool)
      requires Valid()
      modifies this`rxTail
      ensures Valid() && Contents() == Next(old(Contents()), Event.Read(wanted), maxPacket)
      ensures out == Handed(old(Contents()), Event.Read(wanted))
      ensures success <==> wanted <= |old(Contents())|
    {
      hide Contents, RxCount;
      out := [];
      while |out| < wanted && RxCount() > 0
        invariant |out| <= wanted && Valid()
        invariant old(Contents()) == out + Contents()
        decreases wanted - |out|
      {
        var b := TakeByte();
        out := out + [b];
      }
      success := |out| == wanted;
    }

    /** GetControl: the console layer is told the input is empty exactly when the queue is. */
    method GetControl() returns (c: Control)
      requires Valid()
      ensures c.inputBufferEmpty <==> Contents() == []
      ensures c == Control(dataTerminalReady, requestToSend, false, Contents() == [], true)
    {
      c := Control(dataTerminalReady, requestToSend, false, false, true);
      if RxCount() == 0 {
        c := c.(inputBufferEmpty := true);
      }
    }

    /** SetControl: only DTR and RTS are kept; loopback and flow control are refused. */
    method SetControl(c: Control) returns (success: bool)
      modifies this`dataTerminalReady, this`requestToSend
      ensures success == !c.loopbackOrFlowControl
      ensures success ==> dataTerminalReady == c.dataTerminalReady && requestToSend == c.requestToSend
      ensures !success ==> dataTerminalReady == old(dataTerminalReady) && requestToSend == old(requestToSend)
    {
      if c.loopbackOrFlowControl {
        return false;
      }
      dataTerminalReady, requestToSend := c.dataTerminalReady, c.requestToSend;
      success := true;
    }

    /** Reset: nothing is buffered any more, the line state is as it was, and it cannot fail. */
    method Reset() returns (success: bool)
      requires Valid()
      modifies this`rxHead, this`rxTail, this`dataTerminalReady, this`requestToSend
      ensures Valid() && Contents() == Next(old(Contents()), Event.Reset, maxPacket)
      ensures success && dataTerminalReady == old(dataTerminalReady) && requestToSend == old(requestToSend)
    {
      rxHead, rxTail := 0, 0;
      success := SetControl(Control(dataTerminalReady, requestToSend, false, false, false));
    }
  }

  // ----- the device over a run

  /**
   * A run of the device: every event carried out on the ring, the bytes of the reads
   * collected. What was read followed by what is buffered is what was buffered at first
   * followed by everything the endpoint delivered, over every reset-free run, if and only
   * if no failing transfer carried bytes.
   */
  method Drive(d: Device, es: seq<Event>) returns (out: seq<Byte>)
    requires d.Valid() && Sized(es, d.maxPacket)
    modifies d, d.rx
    ensures d.Valid() && d.Contents() == After(old(d.Contents()), es, d.maxPacket)
    ensures out == AllHanded(old(d.Contents()), es, d.maxPacket)
    ensures ResetFree(es) ==>
              (out + d.Contents() == old(d.Contents()) + AllDelivered(old(d.Contents()), es, d.maxPacket)
               <==> NoPartialErrors(old(d.Contents()), es, d.maxPacket))
    ensures |d.Contents()| < FIFO_SIZE
  {
    hide Device.Contents, Next, Handed, After, AllHanded, AllDelivered, NoPartialErrors;
    ghost var queue := d.Contents();
    out := [];
    assert es[0..] == es && out + AllHanded(queue, es, d.maxPacket) == AllHanded(queue, es, d.maxPacket);
    for i := 0 to |es|
      invariant d.Valid()
      invariant After(queue, es, d.maxPacket) == After(d.Contents(), es[i..], d.maxPacket)
      invariant AllHanded(queue, es, d.maxPacket) == out + AllHanded(d.Contents(), es[i..], d.maxPacket)
    {
      EventsFrom(d.Contents(), es, i, d.maxPacket);
      assert es[i] in es;
      var handed := Perform(d, es[i]);
      assert out + (handed + AllHanded(d.Contents(), es[i + 1..], d.maxPacket))
          == (out + handed) + AllHanded(d.Contents(), es[i + 1..], d.maxPacket);
      out := out + handed;
    }
    NoEvents(d.Contents(), d.maxPacket);
    assert es[|es|..] == [] && out + [] == out;
    if ResetFree(es) {
      RingIsAQueue(queue, es, d.maxPacket);
    }
  }

  lemma EventsFrom(queue: seq<Byte>, es: seq<Event>, i: nat, maxPacket: nat)
    requires i < |es|
    ensures var next := Next(queue, es[i], maxPacket);
            && After(queue, es[i..], maxPacket) == After(next, es[i + 1..], maxPacket)
            && AllHanded(queue, es[i..], maxPacket) ==
               Handed(queue, es[i]) + AllHanded(next, es[i + 1..], maxPacket)
  {
    hide Next, Handed;
    assert es[i..][0] == es[i] && es[i..][1..] == es[i + 1..];
  }

  lemma NoEvents(queue: seq<Byte>, maxPacket: nat)
    ensures After(queue, [], maxPacket) == queue && AllHanded(queue, [], maxPacket) == []
  {
  }

  /** One event, carried out. */
  method Perform(d: Device, e: Event) returns (handed: seq<Byte>)
    requires d.Valid() && (e.Poll? ==> |e.transfer.data| <= d.maxPacket)
    modifies d, d.rx
    ensures d.Valid() && d.Contents() == Next(old(d.Contents()), e, d.maxPacket)
    ensures handed == Handed(old(d.Contents()), e)
  {
    handed := [];
    match e {
      case Poll(t) => d.Poll(t);
      case Read(wanted) =>
        var ok;
        handed, ok := d.Read(wanted);
      case Reset => var _ := d.Reset();
    }
  }
}
