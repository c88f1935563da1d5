/**
 * UEFI device paths (section 10.3.1 of UEFI 2.10): length-prefixed nodes closed by
 * an end node, and the three walks this firmware makes over them.
 */
module DevicePath {
  import opened Bytes

  const MESSAGING: Byte := 0x03
  const MEDIA: Byte := 0x04
  const MSG_ATAPI: Byte := 0x01
  const MSG_SCSI: Byte := 0x02
  const MSG_USB: Byte := 0x05
  const MSG_MAC: Byte := 0x0b
  const MSG_SATA: Byte := 0x12
  const MSG_NVME: Byte := 0x17
  const MSG_UFS: Byte := 0x19
  const MSG_SD: Byte := 0x1a
  const MSG_EMMC: Byte := 0x1d
  const MEDIA_HARDDRIVE: Byte := 0x01
  const END: Byte := 0x7f
  const END_ENTIRE: Byte := 0xff

  datatype Node = Node(kind: Byte, sub: Byte, data: seq<Byte>) {
    /** A node whose length fits its 16-bit field and that does not end the path. */
    predicate Valid() {
      |data| + 4 < 0x1_0000 && !(kind == END && sub == END_ENTIRE)
    }

    predicate Is(k: Byte, s: Byte) {
      kind == k && sub == s
    }
  }

  type Path = p: seq<Node> | forall n <- p :: n.Valid()

  // ----- classification by node type

  /** A path that reaches a network interface without passing through USB. */
  predicate IsNonUsbNic(path: seq<Node>) {
    && (exists n <- path :: n.Is(MESSAGING, MSG_MAC))
    && (forall n <- path :: !n.Is(MESSAGING, MSG_USB))
  }

  method OptionHasNode(path: seq<Node>, kind: Byte, sub: Byte) returns (r: bool)
    ensures r <==> exists n <- path :: n.Is(kind, sub)
  {
    for i := 0 to |path|
      invariant forall k :: 0 <= k < i ==> !path[k].Is(kind, sub)
    {
      if path[i].kind == kind && path[i].sub == sub {
        assert path[i] in path;
        return true;
      }
    }
    return false;
  }

  method OptionIsNetworkBoot(path: seq<Node>) returns (r: bool)
    ensures r <==> IsNonUsbNic(path)
  {
    var hasMac := false;
    for i := 0 to |path|
      invariant hasMac <==> exists k :: 0 <= k < i && path[k].Is(MESSAGING, MSG_MAC)
      invariant forall k :: 0 <= k < i ==> !path[k].Is(MESSAGING, MSG_USB)
    {
      if path[i].kind != MESSAGING {
        continue;
      }
      if path[i].sub == MSG_USB {
        assert path[i] in path;
        return false;
      }
      if path[i].sub == MSG_MAC {
        hasMac := true;
      }
    }
    return hasMac;
  }

  method ClassifyNicDevicePath(path: seq<Node>) returns (hasMac: bool, overUsb: bool)
    ensures hasMac && !overUsb <==> IsNonUsbNic(path)
    ensures overUsb <==> exists n <- path :: n.Is(MESSAGING, MSG_USB)
  {
    hasMac, overUsb := false, false;
    for i := 0 to |path|
      invariant hasMac <==> exists k :: 0 <= k < i && path[k].Is(MESSAGING, MSG_MAC)
      invariant overUsb <==> exists k :: 0 <= k < i && path[k].Is(MESSAGING, MSG_USB)
    {
      if path[i].kind != MESSAGING {
        continue;
      }
      if path[i].sub == MSG_USB {
        overUsb := true;
      } else if path[i].sub == MSG_MAC {
        hasMac := true;
      }
    }
  }

  predicate IsStorageNode(n: Node) {
    n.kind == MESSAGING && n.sub in {MSG_NVME, MSG_SATA, MSG_ATAPI, MSG_SCSI, MSG_EMMC, MSG_SD, MSG_UFS}
  }

  predicate IsDisk(path: seq<Node>) {
    exists n <- path :: n.Is(MEDIA, MEDIA_HARDDRIVE) || IsStorageNode(n)
  }

  method OptionIsDiskBoot(path: seq<Node>) returns (r: bool)
    ensures r <==> IsDisk(path)
  {
    var hd := OptionHasNode(path, MEDIA, MEDIA_HARDDRIVE);
    if hd {
      return true;
    }
    for i := 0 to |path|
      invariant forall k :: 0 <= k < i ==> !IsStorageNode(path[k])
    {
      if path[i].kind == MESSAGING &&
         path[i].sub in {MSG_NVME, MSG_SATA, MSG_ATAPI, MSG_SCSI, MSG_EMMC, MSG_SD, MSG_UFS}
      {
        assert path[i] in path;
        return true;
      }
    }
    return false;
  }

  // ----- the byte encoding

  function EncodeNode(n: Node): (s: seq<Byte>)
    requires n.Valid()
    ensures |s| == 4 + |n.data|
  {
    var len := 4 + |n.data|;
    [n.kind, n.sub, len % 0x100, len / 0x100] + n.data
  }

  function Body(p: Path): (s: seq<Byte>)
    ensures p == [] <==> s == []
  {
    if p == [] then [] else EncodeNode(p[0]) + Body(p[1..])
  }

  const END_NODE: seq<Byte> := [END, END_ENTIRE, 4, 0]

  function Encode(p: Path): seq<Byte> {
    Body(p) + END_NODE
  }

  lemma Regroup(a: seq<Byte>, b: seq<Byte>, c: seq<Byte>)
    ensures a + (b + c) == (a + b) + c
  {
  }

  lemma {:induction false} BodyAppend(p: Path, q: Path)
    ensures Body(p + q) == Body(p) + Body(q)
    decreases |p|
  {
    hide EncodeNode;
    if p == [] {
      assert p + q == q;
    } else {
      var more: Path := p[1..];
      BodyAppend(more, q);
      assert (p + q)[0] == p[0] && (p + q)[1..] == more + q;
      assert Body(p + q) == EncodeNode(p[0]) + Body(more + q);
      Regroup(EncodeNode(p[0]), Body(more), Body(q));
    }
  }

  /** Node encodings are self-delimiting: equal byte strings come from equal node lists. */
  lemma {:induction false} BodyInjective(p: Path, q: Path)
    requires Body(p) == Body(q)
    ensures p == q
  {
    if p == [] || q == [] {
      return;
    }
    var s := Body(p);
    var n, m := EncodeNode(p[0]), EncodeNode(q[0]);
    assert s[..4] == n[..4] && s[..4] == m[..4];
    assert n[2] == m[2] && n[3] == m[3];
    assert |p[0].data| == |q[0].data|;
    assert n == s[..|n|] == m;
    assert p[0].data == n[4..] && q[0].data == m[4..];
    assert Body(p[1..]) == s[|n|..] == Body(q[1..]);
    BodyInjective(p[1..], q[1..]);
    assert p == [p[0]] + p[1..] && q == [q[0]] + q[1..];
  }

  // ----- the sibling test

  /** Everything but the last node. */
  function Parent(p: Path): Path
    requires p != []
  {
    p[..|p| - 1]
  }

  lemma OneNode(p: Path)
    requires |p| == 1
    ensures Body(p) == EncodeNode(p[0])
  {
    hide EncodeNode;
    assert p[1..] == [] && EncodeNode(p[0]) + [] == EncodeNode(p[0]);
  }

  lemma BodyStep(p: Path, i: nat)
    requires i < |p|
    ensures Body(p[..i + 1]) == Body(p[..i]) + EncodeNode(p[i])
    ensures Encode(p) == Body(p[..i]) + (EncodeNode(p[i]) + Body(p[i + 1..]) + END_NODE)
  {
    hide EncodeNode, Body;
    BodyTo(p, i);
    BodyFrom(p, i);
    var a, b, c := Body(p[..i]), EncodeNode(p[i]), Body(p[i + 1..]);
    assert (a + (b + c)) + END_NODE == a + (b + c + END_NODE);
  }

  lemma BodyTo(p: Path, i: nat)
    requires i < |p|
    ensures Body(p[..i + 1]) == Body(p[..i]) + EncodeNode(p[i])
  {
    hide EncodeNode, Body;
    var front: Path, one: Path := p[..i], p[i..i + 1];
    OneNode(one);
    assert p[..i + 1] == front + one;
    BodyAppend(front, one);
  }

  lemma BodyFrom(p: Path, i: nat)
    requires i < |p|
    ensures Body(p) == Body(p[..i]) + (EncodeNode(p[i]) + Body(p[i + 1..]))
  {
    hide EncodeNode;
    var front: Path, tail: Path := p[..i], p[i..];
    assert p == front + tail && tail[0] == p[i] && tail[1..] == p[i + 1..];
    assert Body(tail) == EncodeNode(p[i]) + Body(p[i + 1..]);
    hide Body;
    BodyAppend(front, tail);
  }

  lemma BodyGrows(p: Path, i: nat)
    requires i < |p|
    ensures |Body(p[..i + 1])| == |Body(p[..i])| + 4 + |p[i].data|
  {
    BodyStep(p, i);
  }

  /**
   * The byte walk: mem is memory starting at the path, path the nodes encoded there.
   * It lands on the last node and its size is that of everything before it.
   */
  method DevicePathPrefixSize(mem: seq<Byte>, ghost path: Path) returns (size: nat, last: Option<nat>)
    requires Encode(path) <= mem
    ensures path == [] ==> size == 0 && last == None
    ensures path != [] ==> size == |Body(Parent(path))| && last == Some(size)
  {
    EmptyBody();
    hide Body, Encode, Le16;
    last := None;
    var node := 0;
    ghost var i := 0;
    assert path[..0] == [];
    LookingAt(mem, path, 0);
    while !(mem[node] == END && mem[node + 1] == END_ENTIRE)
      invariant i <= |path|
      invariant node == |Body(path[..i])| && node + 4 <= |mem|
      invariant mem[node] == END && mem[node + 1] == END_ENTIRE <==> i == |path|
      invariant i < |path| ==> Le16(mem[node + 2], mem[node + 3]) == 4 + |path[i].data|
      invariant last == if i == 0 then None else Some(|Body(path[..i - 1])|)
      decreases |path| - i
    {
      last := Some(node);
      BodyGrows(path, i);
      node := node + Le16(mem[node + 2], mem[node + 3]);
      i := i + 1;
      LookingAt(mem, path, i);
    }
    assert path != [] ==> path[..i - 1] == Parent(path);
    size := if last.None? then 0 else last.value;
  }

  lemma EmptyBody()
    ensures Body([]) == []
  {
  }

  lemma NodeAt(mem: seq<Byte>, before: seq<Byte>, n: Node, after: seq<Byte>)
    requires n.Valid() && before + (EncodeNode(n) + after) <= mem
    ensures var o := |before|;
            && o + 4 <= |mem| && mem[o] == n.kind && mem[o + 1] == n.sub
            && Le16(mem[o + 2], mem[o + 3]) == 4 + |n.data|
  {
    var o, s := |before|, before + (EncodeNode(n) + after);
    assert mem[o] == s[o] && mem[o + 1] == s[o + 1] && mem[o + 2] == s[o + 2] && mem[o + 3] == s[o + 3];
  }

  /** What the walk sees at the start of the i-th node, or at the end node. */
  lemma LookingAt(mem: seq<Byte>, p: Path, i: nat)
    requires Encode(p) <= mem && i <= |p|
    ensures var o := |Body(p[..i])|;
            && o + 4 <= |mem|
            && (mem[o] == END && mem[o + 1] == END_ENTIRE <==> i == |p|)
            && (i < |p| ==> Le16(mem[o + 2], mem[o + 3]) == 4 + |p[i].data|)
  {
    hide Body;
    var o := |Body(p[..i])|;
    if i < |p| {
      BodyStep(p, i);
      NodeAt(mem, Body(p[..i]), p[i], Body(p[i + 1..]) + END_NODE);
    } else {
      assert p[..i] == p;
      assert mem[o] == Encode(p)[o] == END_NODE[0] && mem[o + 1] == Encode(p)[o + 1] == END_NODE[1];
    }
  }

  /** Same prefix size and same prefix bytes: the test that two interfaces share one device. */
  method SameDevice(ctrl: seq<Byte>, cand: seq<Byte>, ghost a: Path, ghost b: Path)
    returns (same: bool, candLast: Option<nat>)
    requires a != [] && Encode(a) <= ctrl && Encode(b) <= cand
    ensures same <==> b != [] && Parent(a) == Parent(b)
    ensures same ==> candLast == Some(|Body(Parent(b))|)
  {
    var ctrlPrefix, _ := DevicePathPrefixSize(ctrl, a);
    var candPrefix;
    candPrefix, candLast := DevicePathPrefixSize(cand, b);
    PrefixInside(a, ctrl);
    if candPrefix != ctrlPrefix {
      return false, candLast;
    }
    if candLast.None? {
      return false, candLast;
    }
    PrefixInside(b, cand);
    same := cand[..ctrlPrefix] == ctrl[..ctrlPrefix];
    if same {
      BodyInjective(Parent(a), Parent(b));
    }
  }

  lemma PrefixInside(p: Path, mem: seq<Byte>)
    requires p != [] && Encode(p) <= mem
    ensures var n := |Body(Parent(p))|;
            n <= |mem| && mem[..n] == Body(Parent(p))
  {
    hide Body, Encode, EncodeNode;
    BodyStep(p, |p| - 1);
    var b := Body(Parent(p));
    assert b <= Encode(p);
    assert b <= mem;
  }
}
