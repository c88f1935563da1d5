/**
 * What the inventory is collected from: SMBIOS string lists, the fixed-width strings of
 * ATA and NVMe identify data, and the list of disk handles with its duplicates.
 */
module DriveInventory {

  import opened Bytes
  import opened RedfishBodies

  const NUL: char := 0 as char

  // ----- SMBIOS string lists

  predicate NulFree(s: string) {
    forall i :: 0 <= i < |s| ==> s[i] != NUL
  }

  /** A string list as it follows the formatted part of an SMBIOS structure. */
  predicate StringList(strings: seq<string>) {
    forall s <- strings :: s != [] && NulFree(s)
  }

  function EncodeStrings(strings: seq<string>): string {
    if strings == [] then [NUL] else strings[0] + [NUL] + EncodeStrings(strings[1..])
  }

  /** AsciiStrLen: the distance to the next NUL. */
  method AsciiStrLen(memory: string, at: nat) returns (n: nat)
    requires at < |memory| && NUL in memory[at..]
    ensures at + n < |memory| && memory[at + n] == NUL && NulFree(memory[at..at + n])
  {
    n := 0;
    while memory[at + n] != NUL
      invariant at + n < |memory| && NulFree(memory[at..at + n]) && NUL in memory[at + n..]
      decreases |memory| - n
    {
      assert memory[at..at + n + 1] == memory[at..at + n] + [memory[at + n]];
      assert memory[at + n..] == [memory[at + n]] + memory[at + n + 1..];
      n := n + 1;
    }
  }

  /** A string and its terminator sit where the list says, and nowhere shorter or longer. */
  lemma StringEnds(memory: string, at: nat, s: string, rest: string, n: nat)
    requires at <= |memory| && memory[at..] == s + [NUL] + rest && NulFree(s)
    requires at + n < |memory| && memory[at + n] == NUL && NulFree(memory[at..at + n])
    ensures n == |s| && memory[at..at + n] == s && memory[at + n + 1..] == rest
  {
    var tail := memory[at..];
    assert memory[at + n] == tail[n] && tail[|s|] == NUL;
    assert forall i :: 0 <= i < n ==> memory[at..at + n][i] == tail[i];
    assert memory[at..at + n] == tail[..n];
    assert memory[at + n + 1..] == tail[n + 1..];
  }

  /**
   * The string a structure refers to by number, counting from one; nothing when the
   * number is zero or beyond the list. The one-byte counter of the walk never matters:
   * a number that fits a byte is met before the counter wraps.
   */
  method SmbiosGetString(memory: string, length: nat, index: Byte, ghost strings: seq<string>, ghost after: string)
    returns (r: Option<string>)
    requires length <= |memory| && StringList(strings) && memory[length..] == EncodeStrings(strings) + after
    ensures r == if 1 <= index <= |strings| then Some(strings[index - 1]) else None
  {
    if index == 0 {
      return None;
    }
    hide EncodeStrings, NulFree, StringList;
    var walker: nat, current: Byte := length, 1;
    ghost var k := 0;
    assert strings[0..] == strings;
    ListStart(memory, walker, strings, after);
    while memory[walker] != NUL
      invariant 0 <= k <= |strings| && k < index && current == k + 1
      invariant walker < |memory| && memory[walker..] == EncodeStrings(strings[k..]) + after
      invariant memory[walker] == NUL <==> k == |strings|
      decreases |strings| - k
    {
      StringStart(memory, walker, strings, k, after);
      var n := AsciiStrLen(memory, walker);
      StringEnds(memory, walker, strings[k], EncodeStrings(strings[k + 1..]) + after, n);
      if current == index {
        return Some(memory[walker..walker + n]);
      }
      walker := walker + n + 1;
      current := (current + 1) % 0x100;
      k := k + 1;
      ListStart(memory, walker, strings[k..], after);
    }
    return None;
  }

  /** At the k-th string of a list, what follows is that string, its NUL and the others. */
  lemma StringStart(memory: string, walker: nat, strings: seq<string>, k: nat, after: string)
    requires k < |strings| && StringList(strings)
    requires walker <= |memory| && memory[walker..] == EncodeStrings(strings[k..]) + after
    ensures memory[walker..] == strings[k] + [NUL] + (EncodeStrings(strings[k + 1..]) + after)
    ensures NUL in memory[walker..] && NulFree(strings[k]) && StringList(strings[k + 1..])
  {
    hide EncodeStrings, NulFree;
    NextEncoded(strings, k);
    var s, more := strings[k], EncodeStrings(strings[k + 1..]);
    var tail := s + [NUL] + (more + after);
    assert (s + [NUL] + more) + after == tail;
    assert memory[walker..] == tail;
    assert tail[|s|] == NUL && s in strings;
    forall t | t in strings[k + 1..]
      ensures t != [] && NulFree(t)
    {
      assert t in strings;
    }
  }

  lemma NextEncoded(strings: seq<string>, k: nat)
    requires k < |strings|
    ensures EncodeStrings(strings[k..]) == strings[k] + [NUL] + EncodeStrings(strings[k + 1..])
  {
    assert strings[k..][0] == strings[k] && strings[k..][1..] == strings[k + 1..];
  }

  /** The head of a list is a NUL exactly when the list is empty. */
  lemma ListStart(memory: string, walker: nat, strings: seq<string>, after: string)
    requires walker <= |memory| && StringList(strings) && memory[walker..] == EncodeStrings(strings) + after
    ensures walker < |memory| && (memory[walker] == NUL <==> strings == [])
  {
    assert memory[walker..] != [] && memory[walker] == memory[walker..][0];
    if strings != [] {
      assert strings[0] in strings;
      assert memory[walker..][0] == strings[0][0];
    }
  }

  // ----- identify strings

  /** The source index of character i: ATA stores each 16-bit word with its bytes swapped. */
  function Swapped(i: nat): nat {
    if i % 2 == 0 then i + 1 else i - 1
  }

  predicate Padding(c: char) {
    c <= ' '
  }

  /** A field in reading order. */
  function Ordered(source: string, swapPairs: bool): (s: string)
    requires swapPairs ==> |source| % 2 == 0
    ensures |s| == |source|
  {
    if swapPairs then seq(|source|, i requires 0 <= i < |source| => source[Swapped(i)]) else source
  }

  function TrimEnd(s: string): string {
    if s != [] && Padding(s[|s| - 1]) then TrimEnd(s[..|s| - 1]) else s
  }

  function TrimStart(s: string): string {
    if s != [] && s[0] == ' ' then TrimStart(s[1..]) else s
  }

  /** What a field of identify data says in a buffer of the given size. */
  function Identity(source: string, swapPairs: bool, size: nat): string
    requires size > 0 && (swapPairs ==> |source| % 2 == 0)
  {
    var s := Ordered(source, swapPairs);
    TrimStart(TrimEnd(if |s| >= size then s[..size - 1] else s))
  }

  lemma {:induction false} TrimStartAt(s: string, k: nat)
    requires k <= |s| && (forall i :: 0 <= i < k ==> s[i] == ' ') && (k == |s| || s[k] != ' ')
    ensures TrimStart(s) == s[k..]
    decreases k
  {
    if k > 0 {
      assert s[1..][k - 1..] == s[k..];
      TrimStartAt(s[1..], k - 1);
    } else {
      assert s[0..] == s;
    }
  }

  lemma {:induction false} TrimEndAt(s: string, k: nat)
    requires k <= |s| && (forall i :: k <= i < |s| ==> Padding(s[i])) && (k == 0 || !Padding(s[k - 1]))
    ensures TrimEnd(s) == s[..k]
    decreases |s|
  {
    if k < |s| {
      assert s[..|s| - 1][..k] == s[..k];
      TrimEndAt(s[..|s| - 1], k);
    } else {
      assert s[..|s|] == s;
    }
  }

  /**
   * CopyIdentifyString, in place in the destination: what is left there, up to its
   * terminator, is the field in reading order without its padding.
   */
  method CopyIdentifyString(dest: array<char>, source: string, swapPairs: bool) returns (ghost n: nat)
    requires swapPairs ==> |source| % 2 == 0
    modifies dest
    ensures dest.Length > 0 ==>
              && n < dest.Length && dest[n] == NUL
              && dest[..n] == Identity(source, swapPairs, dest.Length)
  {
    n := 0;
    if dest.Length == 0 {
      return;
    }
    var length := |source|;
    if length >= dest.Length {
      length := dest.Length - 1;
    }
    ghost var s := Ordered(source, swapPairs)[..length];
    assert |source| < dest.Length ==> s == Ordered(source, swapPairs);
    CopyField(dest, source, swapPairs, length);
    ghost var whole := length;
    while length > 0 && Padding(dest[length - 1])
      invariant 0 <= length <= whole
      invariant forall i :: length <= i < whole ==> Padding(s[i])
    {
      assert dest[..whole][length - 1] == s[length - 1];
      length := length - 1;
    }
    assert length > 0 ==> dest[..whole][length - 1] == s[length - 1];
    TrimEndAt(s, length);
    assert dest[..length] == s[..length] by {
      assert dest[..whole][..length] == dest[..length];
    }
    n := TrimLeading(dest, length, s[..length]);
  }

  /** The first loop: the field's leading characters, in reading order. */
  method CopyField(dest: array<char>, source: string, swapPairs: bool, length: nat)
    requires swapPairs ==> |source| % 2 == 0
    requires length <= |source| && length < dest.Length
    modifies dest
    ensures dest[..length] == Ordered(source, swapPairs)[..length]
  {
    var index := 0;
    while index < length
      invariant 0 <= index <= length
      invariant forall j :: 0 <= j < index ==> dest[j] == Ordered(source, swapPairs)[j]
    {
      dest[index] := source[if swapPairs then Swapped(index) else index];
      index := index + 1;
    }
  }

  /** The second half: terminate, and move the text down over its leading spaces. */
  method TrimLeading(dest: array<char>, length: nat, ghost s: string) returns (ghost n: nat)
    requires length < dest.Length && dest[..length] == s
    modifies dest
    ensures n < dest.Length && dest[n] == NUL && dest[..n] == TrimStart(s)
  {
    dest[length] := NUL;
    assert dest[..length] == s;
    var start := 0;
    while dest[start] == ' '
      invariant 0 <= start <= length
      invariant forall i :: 0 <= i < start ==> dest[i] == ' '
      decreases length - start
    {
      start := start + 1;
    }
    forall i | 0 <= i < start ensures s[i] == ' ' {
      assert dest[..length][i] == dest[i];
    }
    assert start < length ==> s[start] == dest[..length][start] == dest[start];
    TrimStartAt(s, start);
    n := length - start;
    ghost var text := dest[..];
    assert text[start..length] == s[start..];
    if start > 0 {
      CopyDown(dest, start, length - start + 1);
    }
    assert dest[..n] == text[start..length];
  }

  /** CopyMem to the front of a buffer from further along in it. */
  method CopyDown(dest: array<char>, start: nat, count: nat)
    requires start + count <= dest.Length
    modifies dest
    ensures forall i :: 0 <= i < count ==> dest[i] == old(dest[start + i])
  {
    var i := 0;
    while i < count
      invariant 0 <= i <= count
      invariant forall j :: 0 <= j < i ==> dest[j] == old(dest[start + j])
      invariant forall j :: i <= j < dest.Length ==> dest[j] == old(dest[j])
    {
      dest[i] := dest[start + i];
      i := i + 1;
    }
  }

  /** How a device lays a name out: space padding on either side, words swapped on ATA. */
  function LayOut(name: string, before: nat, width: nat, swapPairs: bool): (s: string)
    requires before + |name| <= width
    requires swapPairs ==> width % 2 == 0
    ensures |s| == width
  {
    Ordered(Padded(name, before, width), swapPairs)
  }

  function Padded(name: string, before: nat, width: nat): (s: string)
    requires before + |name| <= width
    ensures |s| == width
  {
    seq(width, i => if before <= i < before + |name| then name[i - before] else ' ')
  }

  /**
   * Every name without padding of its own comes back from its field, swapped or not,
   * with a buffer that holds the field; the fields are 40, 20 and 8 wide, the buffers 64.
   */
  lemma IdentityRoundTrip(name: string, before: nat, width: nat, swapPairs: bool, size: nat)
    requires before + |name| <= width < size
    requires swapPairs ==> width % 2 == 0
    requires name == [] || (name[0] != ' ' && !Padding(name[|name| - 1]))
    ensures Identity(LayOut(name, before, width, swapPairs), swapPairs, size) == name
  {
    hide Ordered, LayOut, TrimEnd, TrimStart;
    var p := Padded(name, before, width);
    ReadInOrder(name, before, width, swapPairs);
    if name == [] {
      EmptyTrims();
      TrimEndAt(p, 0);
    } else {
      var k := before + |name|;
      TrimEndAt(p, k);
      TrimStartAt(p[..k], before);
      assert p[..k][before..] == name;
    }
  }

  lemma EmptyTrims()
    ensures TrimStart("") == ""
  {
  }

  /** Swapping twice is reading in order. */
  lemma ReadInOrder(name: string, before: nat, width: nat, swapPairs: bool)
    requires before + |name| <= width && (swapPairs ==> width % 2 == 0)
    ensures Ordered(LayOut(name, before, width, swapPairs), swapPairs) == Padded(name, before, width)
  {
    hide Padded;
    var p, field := Padded(name, before, width), LayOut(name, before, width, swapPairs);
    if swapPairs {
      forall i | 0 <= i < width ensures Ordered(field, true)[i] == p[i] {
        assert Swapped(Swapped(i)) == i;
      }
    }
  }

  // ----- the drives behind the disk handles

  datatype Interface = Nvme | Ata | OtherInterface

  /** The identify data of a device; the rotation rate is word 217 of ATA data. */
  datatype Identify = Identify(model: string, serialNumber: string, revision: string, rotation: U16)

  datatype Media = Media(lastBlock: U64, blockSize: U32)

  /** One handle that LocateHandleBuffer returned, with what it answers. */
  datatype Handle = Handle(diskInfo: bool, interface: Interface, identify: Option<Identify>, media: Option<Media>)

  predicate WellFormed(h: Handle) {
    h.interface.Ata? && h.identify.Some? ==>
      var d := h.identify.value;
      |d.model| % 2 == 0 && |d.serialNumber| % 2 == 0 && |d.revision| % 2 == 0
  }

  /** The text of a buffer as a C string. */
  function CString(s: string): (r: string)
    ensures |r| <= |s|
  {
    if s == [] || s[0] == NUL then [] else [s[0]] + CString(s[1..])
  }

  lemma {:induction false} TrimsShorten(s: string)
    ensures |TrimEnd(s)| <= |s| && |TrimStart(s)| <= |s|
    decreases |s|
  {
    if s != [] {
      TrimsShorten(s[..|s| - 1]);
      TrimsShorten(s[1..]);
    }
  }

  function FieldOf(source: string, swapPairs: bool): Field
    requires swapPairs ==> |source| % 2 == 0
  {
    var s := Ordered(source, swapPairs);
    var cut := if |s| >= STR_MAX then s[..STR_MAX - 1] else s;
    TrimsShorten(cut);
    TrimsShorten(TrimEnd(cut));
    CString(Identity(source, swapPairs, STR_MAX))
  }

  function AtaMedia(rotation: U16): Option<MediaName> {
    if rotation == 1 then Some("SSD") else if 0x0401 <= rotation <= 0xFFFE then Some("HDD") else None
  }

  /** MultU64x32 of the block count, both in 64 bits. */
  function Capacity(m: Media): U64 {
    (m.lastBlock + 1) % 0x1_0000_0000_0000_0000 * m.blockSize % 0x1_0000_0000_0000_0000
  }

  const ZERO := Drive([], [], [], None, None, 0)

  /** The drive a handle stands for, in terms of that handle alone. */
  function DriveOf(h: Handle): Drive
    requires WellFormed(h) && h.identify.Some?
  {
    var d, swap := h.identify.value, h.interface.Ata?;
    Drive(FieldOf(d.model, swap), FieldOf(d.serialNumber, swap), FieldOf(d.revision, swap),
          Some(if swap then "SATA" else "NVMe"),
          if swap then AtaMedia(d.rotation) else Some("SSD"),
          if h.media.Some? then Capacity(h.media.value) else 0)
  }

  lemma {:induction false} CStringOfText(s: string)
    requires NulFree(s)
    ensures CString(s) == s
    decreases |s|
  {
    if s != [] {
      CStringOfText(s[1..]);
    }
  }

  /** A text that a field of identify data can hold and give back. */
  predicate Unpadded(s: string, width: nat) {
    |s| <= width && NulFree(s) && (s == [] || (s[0] != ' ' && !Padding(s[|s| - 1])))
  }

  lemma FieldBack(s: string, width: nat, swap: bool)
    requires Unpadded(s, width) && width < STR_MAX && width % 2 == 0
    ensures FieldOf(LayOut(s, 0, width, swap), swap) == s
  {
    hide Identity, LayOut, NulFree;
    IdentityRoundTrip(s, 0, width, swap, STR_MAX);
    CStringOfText(s);
  }

  /**
   * A device whose identify data holds a model, a serial number and a firmware revision,
   * 40, 20 and 8 characters wide, is reported with exactly those, by its own protocol, as
   * solid-state or rotating, and with the capacity its media has.
   */
  lemma DriveSays(h: Handle, model: string, serialNumber: string, revision: string)
    requires Unpadded(model, 40) && Unpadded(serialNumber, 20) && Unpadded(revision, 8)
    requires h.identify.Some? && !h.interface.OtherInterface?
    requires var d, swap := h.identify.value, h.interface.Ata?;
             && d.model == LayOut(model, 0, 40, swap)
             && d.serialNumber == LayOut(serialNumber, 0, 20, swap)
             && d.revision == LayOut(revision, 0, 8, swap)
    ensures WellFormed(h)
    ensures var d := DriveOf(h);
            && d.model == model && d.serialNumber == serialNumber && d.revision == revision
            && d.protocol == Some(if h.interface.Nvme? then "NVMe" else "SATA")
            && (d.mediaType == Some("SSD") <==> h.interface.Nvme? || h.identify.value.rotation == 1)
            && (d.mediaType == Some("HDD") <==> h.interface.Ata? && 0x0401 <= h.identify.value.rotation <= 0xFFFE)
            && (h.media.None? ==> d.capacityBytes == 0)
            && (h.media.Some? ==>
                  var bytes := (h.media.value.lastBlock + 1) * h.media.value.blockSize;
                  bytes < 0x1_0000_0000_0000_0000 && h.media.value.lastBlock < 0xFFFF_FFFF_FFFF_FFFF ==>
                    d.capacityBytes == bytes)
    ensures Reportable(h) <==> h.diskInfo && (model != "" || serialNumber != "")
  {
    hide FieldOf, LayOut, Unpadded;
    var swap := h.interface.Ata?;
    FieldBack(model, 40, swap);
    FieldBack(serialNumber, 20, swap);
    FieldBack(revision, 8, swap);
  }

  /** A handle to report: an NVMe or ATA device that says who it is. */
  predicate Reportable(h: Handle)
    requires WellFormed(h)
  {
    h.diskInfo && !h.interface.OtherInterface? && h.identify.Some? &&
    (DriveOf(h).model != [] || DriveOf(h).serialNumber != [])
  }

  predicate SameDevice(a: Drive, b: Drive) {
    a.serialNumber == b.serialNumber && a.model == b.model
  }

  predicate Known(drives: seq<Drive>, d: Drive) {
    exists e <- drives :: SameDevice(e, d)
  }

  /** The drives reported for a list of handles: the first of each device, up to the limit. */
  function Reported(hs: seq<Handle>, max: nat): (ds: seq<Drive>)
    requires forall h <- hs :: WellFormed(h)
    ensures |ds| <= max
    decreases |hs|
  {
    if hs == [] then []
    else
      var ds := Reported(hs[..|hs| - 1], max);
      var h := hs[|hs| - 1];
      if |ds| < max && Reportable(h) && !Known(ds, DriveOf(h)) then ds + [DriveOf(h)] else ds
  }

  /** CollectNvmeDrive and CollectAtaDrive: fill a slot, or fail and leave it. */
  method FillSlot(slot: Drive, h: Handle) returns (ok: bool, drive: Drive)
    requires WellFormed(h) && !h.interface.OtherInterface?
    ensures ok == h.identify.Some?
    ensures !ok ==> drive == slot
    ensures ok && slot == ZERO ==> drive == DriveOf(h).(capacityBytes := 0)
  {
    ok, drive := h.identify.Some?, slot;
    if !ok {
      return;
    }
    var d, swap := h.identify.value, h.interface.Ata?;
    drive := drive.(model := FieldOf(d.model, swap));
    drive := drive.(serialNumber := FieldOf(d.serialNumber, swap));
    drive := drive.(revision := FieldOf(d.revision, swap));
    if swap {
      drive := drive.(protocol := Some("SATA"));
      if d.rotation == 1 {
        drive := drive.(mediaType := Some("SSD"));
      } else if 0x0401 <= d.rotation <= 0xFFFE {
        drive := drive.(mediaType := Some("HDD"));
      }
    } else {
      drive := drive.(protocol := Some("NVMe"));
      drive := drive.(mediaType := Some("SSD"));
    }
  }

  /** The inner loop: whether one of the first drives is the same device. */
  method Seen(drives: array<Drive>, count: nat, d: Drive) returns (seen: bool)
    requires count <= drives.Length
    ensures seen <==> Known(drives[..count], d)
  {
    var existing := 0;
    while existing < count
      invariant 0 <= existing <= count
      invariant forall i :: 0 <= i < existing ==> !SameDevice(drives[i], d)
    {
      if SameDevice(drives[existing], d) {
        assert drives[existing] in drives[..count];
        return true;
      }
      existing := existing + 1;
    }
    return false;
  }

  /**
   * NucRedfishCollectDrives: the slots in use hold the drives to report, each exactly
   * what its own handle says, and every other slot is blank. A handle that is skipped
   * after its slot was written leaves nothing behind for the next one.
   */
  method CollectDrives(drives: array<Drive>, handles: Option<seq<Handle>>) returns (ok: bool, count: nat)
    requires handles.Some? ==> forall h <- handles.value :: WellFormed(h)
    modifies drives
    ensures ok == (drives.Length > 0)
    ensures ok ==> count <= drives.Length
    ensures ok ==> drives[..count] == if handles.None? then [] else Reported(handles.value, drives.Length)
    ensures ok ==> forall i :: count <= i < drives.Length ==> drives[i] == ZERO
  {
    hide Reported, WellFormed, Reportable, DriveOf, Known;
    ok, count := drives.Length > 0, 0;
    if !ok {
      return;
    }
    ZeroAll(drives);
    if handles.None? {
      return;
    }
    var hs := handles.value;
    var index := 0;
    NothingReported(drives.Length);
    while index < |hs|
      invariant 0 <= index <= |hs| && count <= drives.Length
      invariant drives[..count] == Reported(hs[..index], drives.Length)
      invariant forall i :: count <= i < drives.Length ==> drives[i] == ZERO
    {
      if count >= drives.Length {
        FullStaysFull(hs, index, drives.Length);
        break;
      }
      ReportedNext(hs, index, drives.Length);
      count := CollectOne(drives, count, hs[index]);
      index := index + 1;
    }
    assert hs[..|hs|] == hs;
  }

  method ZeroAll(drives: array<Drive>)
    modifies drives
    ensures forall i :: 0 <= i < drives.Length ==> drives[i] == ZERO
  {
    forall i | 0 <= i < drives.Length {
      drives[i] := ZERO;
    }
  }

  lemma NothingReported(max: nat)
    ensures Reported([], max) == []
  {
  }

  lemma ReportedNext(hs: seq<Handle>, k: nat, max: nat)
    requires (forall h <- hs :: WellFormed(h)) && k < |hs|
    ensures WellFormed(hs[k])
    ensures
      var ds := Reported(hs[..k], max);
      Reported(hs[..k + 1], max)
        == if |ds| < max && Reportable(hs[k]) && !Known(ds, DriveOf(hs[k])) then ds + [DriveOf(hs[k])] else ds
  {
    assert hs[..k + 1][..k] == hs[..k] && hs[k] in hs;
  }

  /** The body of the outer loop for one handle. */
  method CollectOne(drives: array<Drive>, count: nat, h: Handle) returns (next: nat)
    requires count < drives.Length && WellFormed(h)
    requires forall i :: count <= i < drives.Length ==> drives[i] == ZERO
    modifies drives
    ensures next <= drives.Length
    ensures drives[..next]
         == if Reportable(h) && !Known(old(drives[..count]), DriveOf(h)) then old(drives[..count]) + [DriveOf(h)]
            else old(drives[..count])
    ensures forall i :: next <= i < drives.Length ==> drives[i] == ZERO
  {
    hide FieldOf, Capacity, AtaMedia, Known;
    next := count;
    if !h.diskInfo || h.interface.OtherInterface? {
      return;
    }
    var filled, drive := FillSlot(drives[count], h);
    drives[count] := drive;
    assert drives[..count] == old(drives[..count]);
    if !filled || (drive.model == [] && drive.serialNumber == []) {
      drives[count] := ZERO;
      assert drives[..count] == old(drives[..count]);
      return;
    }
    var seen := Seen(drives, count, drive);
    SameIdentity(drives[..count], drive, DriveOf(h));
    if seen {
      drives[count] := ZERO;
      assert drives[..count] == old(drives[..count]);
      return;
    }
    if h.media.Some? {
      drives[count] := drive.(capacityBytes := Capacity(h.media.value));
    }
    next := count + 1;
    assert drives[..next] == drives[..count] + [drives[count]];
    assert drives[..count] == old(drives[..count]);
  }

  lemma SameIdentity(ds: seq<Drive>, a: Drive, b: Drive)
    requires SameDevice(a, b)
    ensures Known(ds, a) <==> Known(ds, b)
  {
    if Known(ds, a) {
      var e :| e in ds && SameDevice(e, a);
      assert SameDevice(e, b);
    }
    if Known(ds, b) {
      var e :| e in ds && SameDevice(e, b);
      assert SameDevice(e, a);
    }
  }

  lemma {:induction false} FullStaysFull(hs: seq<Handle>, k: nat, max: nat)
    requires (forall h <- hs :: WellFormed(h)) && k <= |hs|
    requires |Reported(hs[..k], max)| == max
    ensures Reported(hs[..k], max) == Reported(hs, max)
    decreases |hs| - k
  {
    if k < |hs| {
      assert hs[..k + 1][..k] == hs[..k] && hs[k] in hs;
      FullStaysFull(hs, k + 1, max);
    } else {
      assert hs[..k] == hs;
    }
  }

  /** Unless the limit was reached, every device that says who it is has been reported. */
  lemma {:induction false} NoneMissed(hs: seq<Handle>, max: nat, h: Handle)
    requires forall g <- hs :: WellFormed(g)
    requires h in hs && Reportable(h) && |Reported(hs, max)| < max
    ensures Known(Reported(hs, max), DriveOf(h))
    decreases |hs|
  {
    hide DriveOf;
    var before, last := hs[..|hs| - 1], hs[|hs| - 1];
    var ds := Reported(before, max);
    assert hs == before + [last] && ds <= Reported(hs, max);
    if h in before {
      NoneMissed(before, max, h);
      var e :| e in ds && SameDevice(e, DriveOf(h));
      assert e in Reported(hs, max);
    } else if !Known(ds, DriveOf(h)) {
      assert Reported(hs, max)[|ds|] == DriveOf(h);
      assert DriveOf(h) in Reported(hs, max);
    } else {
      var e :| e in ds && SameDevice(e, DriveOf(h));
      assert e in Reported(hs, max);
    }
  }

  /** The k-th handle is the first for its device, and says d. */
  predicate FirstToSay(hs: seq<Handle>, k: int, d: Drive)
    requires forall h <- hs :: WellFormed(h)
  {
    && 0 <= k < |hs| && Reportable(hs[k]) && d == DriveOf(hs[k])
    && forall j :: 0 <= j < k && Reportable(hs[j]) ==> !SameDevice(DriveOf(hs[j]), d)
  }

  predicate AllDifferent(ds: seq<Drive>) {
    forall i, j :: 0 <= i < j < |ds| ==> ds[i].serialNumber != ds[j].serialNumber || ds[i].model != ds[j].model
  }

  /** No device is reported twice. */
  lemma {:induction false} ReportedOnce(hs: seq<Handle>, max: nat)
    requires forall h <- hs :: WellFormed(h)
    ensures AllDifferent(Reported(hs, max))
    decreases |hs|
  {
    hide DriveOf;
    if hs != [] {
      var before, h := hs[..|hs| - 1], hs[|hs| - 1];
      assert h in hs;
      ReportedOnce(before, max);
      var ds := Reported(before, max);
      if Reported(hs, max) != ds {
        forall i | 0 <= i < |ds| ensures !SameDevice(ds[i], DriveOf(h)) {
          assert ds[i] in ds;
        }
      }
    }
  }

  lemma FirstStaysFirst(hs: seq<Handle>, k: int, d: Drive)
    requires (forall h <- hs :: WellFormed(h)) && hs != []
    requires FirstToSay(hs[..|hs| - 1], k, d)
    ensures FirstToSay(hs, k, d)
  {
    hide DriveOf, WellFormed;
    var before := hs[..|hs| - 1];
    forall j | 0 <= j < k && Reportable(hs[j]) ensures !SameDevice(DriveOf(hs[j]), d) {
      assert before[j] == hs[j];
    }
  }

  /** Every report is what the first handle of its device says. */
  lemma {:induction false} ReportedIsFirst(hs: seq<Handle>, max: nat, i: nat) returns (k: int)
    requires (forall h <- hs :: WellFormed(h)) && i < |Reported(hs, max)|
    ensures FirstToSay(hs, k, Reported(hs, max)[i])
    decreases |hs|
  {
    hide DriveOf, FirstToSay, Known, Reportable;
    var ds := Reported(hs[..|hs| - 1], max);
    if i < |ds| {
      k := ReportedIsFirst(hs[..|hs| - 1], max, i);
      FirstStaysFirst(hs, k, ds[i]);
    } else {
      k := |hs| - 1;
      NewIsFirst(hs, max);
    }
  }

  lemma NewIsFirst(hs: seq<Handle>, max: nat)
    requires forall h <- hs :: WellFormed(h)
    requires hs != [] && |Reported(hs, max)| > |Reported(hs[..|hs| - 1], max)|
    ensures FirstToSay(hs, |hs| - 1, DriveOf(hs[|hs| - 1]))
  {
    hide DriveOf;
    var before, h := hs[..|hs| - 1], hs[|hs| - 1];
    var d := DriveOf(h);
    forall j | 0 <= j < |hs| - 1 && Reportable(hs[j]) ensures !SameDevice(DriveOf(hs[j]), d) {
      assert before[j] == hs[j] && hs[j] in before;
      NoneMissed(before, max, hs[j]);
    }
  }
}
