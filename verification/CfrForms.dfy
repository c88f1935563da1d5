/**
 * The serialized CFR form tree (patch 0011): how coreboot lays records out, how the
 * payload checks and splits the table into forms (ParseMiscInfo), and the flat walk
 * that looks up an option's default (CfrOptionGetDefaultValue).
 */
module CfrForms {
  import opened Bytes
  import CfrChecksum

  const TAG_FORM: U32 := 1
  const TAG_ENUM: U32 := 3
  const TAG_NUMBER: U32 := 4
  const TAG_BOOL: U32 := 5
  const TAG_VARCHAR: U32 := 6
  const TAG_OPT_NAME: U32 := 7
  const TAG_UI_NAME: U32 := 8
  const TAG_HELP_TEXT: U32 := 9
  const TAG_DEF_VALUE: U32 := 10
  const TAG_DEP_VALUES: U32 := 12

  /** A NUL-free string in a CFR_VARBINARY, with any padding after its terminator. */
  datatype Text = Text(chars: seq<Byte>, pad: seq<Byte>) {
    predicate Valid() {
      0 !in chars
    }

    function Size(): nat {
      13 + |chars| + |pad|
    }

    function Encode(tag: U32): (s: seq<Byte>)
      requires Size() < 0x1_0000_0000
      ensures |s| == Size()
    {
      PutLe32(tag) + PutLe32(Size()) + PutLe32(|chars| + 1) + chars + [0] + pad
    }
  }

  /**
   * A record of the tree. A form holds its UI name and then its children; a numeric
   * option its fixed fields, its name and then whatever else it carries (UI name, help
   * text, dependency values, enum values); a character option its fixed fields, its name,
   * UI name, help text if any and default, in the order this reader takes them, or its
   * name and then records of any other kind, among which its default is not read; anything
   * else, a form's own dependency values included, is a record the walk skips by its size.
   */
  datatype Item =
    | Form(head: seq<Byte>, name: Text, items: seq<Item>)
    | Numeric(tag: U32, head: seq<Byte>, default: U32, limits: seq<Byte>, name: Text, rest: seq<Byte>)
    | Varchar(head: seq<Byte>, name: Text, uiName: Text, help: Option<Text>, text: Text, rest: seq<Byte>)
    | Unread(head: seq<Byte>, name: Text, tail: seq<Byte>)
    | Other(tag: U32, body: seq<Byte>)

  function TagOf(x: Item): U32 {
    match x
    case Form(_, _, _) => TAG_FORM
    case Numeric(tag, _, _, _, _, _) => tag
    case Varchar(_, _, _, _, _, _) => TAG_VARCHAR
    case Unread(_, _, _) => TAG_VARCHAR
    case Other(tag, _) => tag
  }

  function HelpSize(help: Option<Text>): nat {
    if help.None? then 0 else help.value.Size()
  }

  function HelpBytes(help: Option<Text>): (s: seq<Byte>)
    requires HelpSize(help) < 0x1_0000_0000
    ensures |s| == HelpSize(help)
  {
    if help.None? then [] else help.value.Encode(TAG_HELP_TEXT)
  }

  function Size(x: Item): nat {
    match x
    case Form(_, name, items) => 28 + name.Size() + SizeAll(items)
    case Numeric(_, _, _, _, name, rest) => 48 + name.Size() + |rest|
    case Varchar(_, name, uiName, help, text, rest) =>
      28 + name.Size() + uiName.Size() + HelpSize(help) + text.Size() + |rest|
    case Unread(_, name, tail) => 28 + name.Size() + |tail|
    case Other(_, body) => 8 + |body|
  }

  function SizeAll(xs: seq<Item>): nat {
    if xs == [] then 0 else Size(xs[0]) + SizeAll(xs[1..])
  }

  predicate Valid(x: Item) {
    && Size(x) < 0x1_0000_0000
    && match x
       case Form(head, name, items) => |head| == 20 && name.Valid() && ValidAll(items)
       case Numeric(tag, head, _, limits, name, _) =>
         tag in {TAG_ENUM, TAG_NUMBER, TAG_BOOL} && |head| == 20 && |limits| == 16 && name.Valid()
       case Varchar(head, name, uiName, help, text, _) =>
         |head| == 20 && name.Valid() && uiName.Valid() && (help.Some? ==> help.value.Valid()) && text.Valid()
       case Unread(head, name, _) => |head| == 20 && name.Valid()
       case Other(tag, _) => tag !in {TAG_FORM, TAG_ENUM, TAG_NUMBER, TAG_BOOL, TAG_VARCHAR}
  }

  predicate ValidAll(xs: seq<Item>) {
    forall x <- xs :: Valid(x)
  }

  /** The bytes of a record: tag, size including all children, fields, children. */
  function Encode(x: Item): (s: seq<Byte>)
    requires Valid(x)
    ensures |s| == Size(x)
    decreases x, 0
  {
    match x
    case Form(head, name, items) => FormHead(x) + EncodeAll(items)
    case Numeric(tag, head, default, limits, name, rest) =>
      PutLe32(tag) + PutLe32(Size(x)) + head + PutLe32(default) + limits + name.Encode(TAG_OPT_NAME) + rest
    case Varchar(head, name, uiName, help, text, rest) =>
      PutLe32(TAG_VARCHAR) + PutLe32(Size(x)) + head + name.Encode(TAG_OPT_NAME) + VarcharTail(x)
    case Unread(head, name, tail) =>
      PutLe32(TAG_VARCHAR) + PutLe32(Size(x)) + head + name.Encode(TAG_OPT_NAME) + tail
    case Other(tag, body) => PutLe32(tag) + PutLe32(Size(x)) + body
  }

  /** What follows the name of a character option. */
  function VarcharTail(x: Item): (s: seq<Byte>)
    requires x.Varchar? && Valid(x)
    ensures |s| == x.uiName.Size() + HelpSize(x.help) + x.text.Size() + |x.rest|
  {
    x.uiName.Encode(TAG_UI_NAME) + HelpBytes(x.help) + x.text.Encode(TAG_DEF_VALUE) + x.rest
  }

  /** What the walk steps over when it enters a form: the fixed fields and the UI name. */
  function FormHead(x: Item): (s: seq<Byte>)
    requires x.Form? && Valid(x)
    ensures |s| == 28 + x.name.Size()
  {
    PutLe32(TAG_FORM) + PutLe32(Size(x)) + x.head + x.name.Encode(TAG_UI_NAME)
  }

  function EncodeAll(xs: seq<Item>): (s: seq<Byte>)
    requires ValidAll(xs)
    ensures |s| == SizeAll(xs)
    decreases xs
  {
    if xs == [] then [] else Encode(xs[0]) + EncodeAll(xs[1..])
  }

  lemma {:induction false} EncodeAllAppend(xs: seq<Item>, ys: seq<Item>)
    requires ValidAll(xs) && ValidAll(ys)
    ensures ValidAll(xs + ys)
    ensures EncodeAll(xs + ys) == EncodeAll(xs) + EncodeAll(ys)
    decreases |xs|
  {
    hide Encode, Valid, Size, SizeAll;
    if xs == [] {
      assert xs + ys == ys;
    } else {
      EncodeAllAppend(xs[1..], ys);
      var a, b, c := Encode(xs[0]), EncodeAll(xs[1..]), EncodeAll(ys);
      assert (xs + ys)[0] == xs[0] && (xs + ys)[1..] == xs[1..] + ys;
      assert EncodeAll(xs + ys) == a + (b + c);
      assert EncodeAll(xs) == a + b;
      assert a + (b + c) == (a + b) + c;
    }
  }

  // ----- preorder

  /** An option is visited with its default value, four bytes or a string with its terminator, if that is read. */
  datatype Visit =
    | FormNamed(name: seq<Byte>)
    | OptionNamed(name: seq<Byte>, default: seq<Byte>)
    | DefaultUnread(name: seq<Byte>)

  function Preorder(xs: seq<Item>): seq<Visit> {
    if xs == [] then [] else PreorderOf(xs[0]) + Preorder(xs[1..])
  }

  function PreorderOf(x: Item): seq<Visit> {
    match x
    case Form(_, name, items) => [FormNamed(name.chars)] + Preorder(items)
    case Numeric(_, _, default, _, name, _) => [OptionNamed(name.chars, PutLe32(default))]
    case Varchar(_, name, _, _, text, _) => [OptionNamed(name.chars, text.chars + [0])]
    case Unread(_, name, _) => [DefaultUnread(name.chars)]
    case Other(_, _) => []
  }

  lemma {:induction false} PreorderAppend(xs: seq<Item>, ys: seq<Item>)
    ensures Preorder(xs + ys) == Preorder(xs) + Preorder(ys)
    decreases |xs|
  {
    hide PreorderOf;
    if xs == [] {
      assert xs + ys == ys;
    } else {
      PreorderAppend(xs[1..], ys);
      var a, b, c := PreorderOf(xs[0]), Preorder(xs[1..]), Preorder(ys);
      assert (xs + ys)[0] == xs[0] && (xs + ys)[1..] == xs[1..] + ys;
      assert Preorder(xs + ys) == a + (b + c);
      assert Preorder(xs) == a + b;
      assert a + (b + c) == (a + b) + c;
    }
  }

  /** The first visit that carries the name decides: an option's default, or nothing for a form. */
  function Lookup(visits: seq<Visit>, option: seq<Byte>): Option<Visit> {
    if visits == [] then None
    else if visits[0].name == option then Some(visits[0])
    else Lookup(visits[1..], option)
  }

  lemma {:induction false} LookupAppend(a: seq<Visit>, b: seq<Visit>, option: seq<Byte>)
    requires Lookup(a, option).None?
    ensures Lookup(a + b, option) == Lookup(b, option)
  {
    if a == [] {
      assert a + b == b;
    } else {
      LookupAppend(a[1..], b, option);
      assert (a + b)[1..] == a[1..] + b;
    }
  }

  /** Somewhere in the tree under these records. */
  predicate InTree(x: Item, xs: seq<Item>)
    decreases xs
  {
    exists i :: 0 <= i < |xs| && (xs[i] == x || (xs[i].Form? && InTree(x, xs[i].items)))
  }

  lemma {:induction false} PreorderHolds(xs: seq<Item>, i: nat)
    requires i < |xs|
    ensures forall v <- PreorderOf(xs[i]) :: v in Preorder(xs)
    decreases |xs|
  {
    hide PreorderOf;
    if i > 0 {
      PreorderHolds(xs[1..], i - 1);
    }
  }

  /**
   * Every option at any depth is visited under its name: a numeric one with its default as
   * a little-endian word, a character one with its text and the terminator.
   */
  lemma {:induction false} EveryOptionVisited(x: Item, xs: seq<Item>)
    requires InTree(x, xs)
    ensures x.Numeric? ==>
      exists d: seq<Byte> :: |d| == 4 && Le32(d, 0) == x.default && OptionNamed(x.name.chars, d) in Preorder(xs)
    ensures x.Varchar? ==>
      exists d: seq<Byte> :: d == x.text.chars + [0] && OptionNamed(x.name.chars, d) in Preorder(xs)
    ensures x.Form? ==> FormNamed(x.name.chars) in Preorder(xs)
    decreases xs
  {
    hide Preorder, Le32;
    var i :| 0 <= i < |xs| && (xs[i] == x || (xs[i].Form? && InTree(x, xs[i].items)));
    PreorderHolds(xs, i);
    if xs[i] != x {
      EveryOptionVisited(x, xs[i].items);
      assert forall v <- Preorder(xs[i].items) :: v in PreorderOf(xs[i]);
    } else if x.Numeric? {
      var d := PutLe32(x.default);
      assert OptionNamed(x.name.chars, d) in PreorderOf(x);
    } else if x.Varchar? {
      var d := x.text.chars + [0];
      assert OptionNamed(x.name.chars, d) in PreorderOf(x);
    }
  }

  /** A name that one visit only carries is looked up to that visit. */
  lemma {:induction false} LookupUnique(visits: seq<Visit>, v: Visit)
    requires v in visits && forall u <- visits :: u.name == v.name ==> u == v
    ensures Lookup(visits, v.name) == Some(v)
    decreases |visits|
  {
    if visits[0].name != v.name {
      assert visits == [visits[0]] + visits[1..];
      LookupUnique(visits[1..], v);
    } else {
      assert visits[0] in visits;
    }
  }

  // ----- reading records

  /** The C string at offset o of a buffer is s. */
  predicate StringAt(mem: seq<Byte>, o: nat, s: seq<Byte>) {
    o + |s| < |mem| && mem[o..o + |s|] == s && mem[o + |s|] == 0
  }

  lemma StringIsText(mem: seq<Byte>, o: nat, chars: seq<Byte>, s: seq<Byte>)
    requires 0 !in chars && 0 !in s && StringAt(mem, o, chars)
    ensures StringAt(mem, o, s) <==> s == chars
  {
  }

  /** CfrExtractVarBinary: the record at offset, if it has the wanted tag, and the offset after it. */
  method ExtractVarBinary(mem: seq<Byte>, offset: nat, tag: U32) returns (found: bool, next: nat)
    requires offset + 8 <= |mem|
    ensures found <==> Le32(mem, offset) == tag
    ensures next == if found then offset + Le32(mem, offset + 4) else offset
  {
    if Le32(mem, offset) != tag {
      return false, offset;
    }
    return true, offset + Le32(mem, offset + 4);
  }

  lemma WordsAt(mem: seq<Byte>, o: nat, a: U32, b: U32, rest: seq<Byte>)
    requires o <= |mem| && mem[o..] == PutLe32(a) + PutLe32(b) + rest
    ensures o + 8 <= |mem| && Le32(mem, o) == a && Le32(mem, o + 4) == b
  {
    assert mem[o..o + 4] == mem[o..][..4] == PutLe32(a);
    assert mem[o + 4..o + 8] == mem[o..][4..8] == PutLe32(b);
    Le32Congruent(mem, o, PutLe32(a), 0);
    Le32Congruent(mem, o + 4, PutLe32(b), 0);
  }

  lemma SliceShift(mem: seq<Byte>, o: nat, k: nat, n: nat)
    requires o + k + n <= |mem|
    ensures mem[o..][k..k + n] == mem[o + k..o + k + n]
  {
  }

  /** What a record's name looks like in memory. */
  lemma TextAt(mem: seq<Byte>, o: nat, t: Text, tag: U32, rest: seq<Byte>)
    requires t.Size() < 0x1_0000_0000
    requires o <= |mem| && mem[o..] == t.Encode(tag) + rest
    ensures o + 8 <= |mem| && Le32(mem, o) == tag && Le32(mem, o + 4) == t.Size()
    ensures StringAt(mem, o + 12, t.chars)
    ensures o + t.Size() <= |mem| && mem[o + t.Size()..] == rest
  {
    hide Le32;
    var tail := PutLe32(|t.chars| + 1) + t.chars + [0] + t.pad + rest;
    assert mem[o..] == PutLe32(tag) + PutLe32(t.Size()) + tail;
    WordsAt(mem, o, tag, t.Size(), tail);
    assert mem[o..][12..12 + |t.chars|] == t.chars && mem[o..][12 + |t.chars|] == 0;
    SliceShift(mem, o, 12, |t.chars|);
    assert mem[o + t.Size()..] == mem[o..][t.Size()..];
  }

  /** The data of a string record: its length with the terminator, and the bytes. */
  lemma TextData(mem: seq<Byte>, o: nat, t: Text, tag: U32, rest: seq<Byte>)
    requires t.Size() < 0x1_0000_0000
    requires o <= |mem| && mem[o..] == t.Encode(tag) + rest
    ensures o + 12 <= |mem| && Le32(mem, o + 8) == |t.chars| + 1
    ensures o + 13 + |t.chars| <= |mem| && mem[o + 12..o + 13 + |t.chars|] == t.chars + [0]
  {
    var s := mem[o..];
    assert s[8..12] == PutLe32(|t.chars| + 1);
    SliceShift(mem, o, 8, 4);
    Le32Congruent(mem, o + 8, PutLe32(|t.chars| + 1), 0);
    assert s[12..13 + |t.chars|] == t.chars + [0];
    SliceShift(mem, o, 12, |t.chars| + 1);
  }

  /** What the walk sees at a record followed by more bytes. */
  lemma ItemAt(mem: seq<Byte>, o: nat, x: Item, rest: seq<Byte>)
    requires Valid(x) && o <= |mem| && mem[o..] == Encode(x) + rest
    ensures o + 8 <= |mem| && Le32(mem, o + 4) == Size(x)
    ensures Le32(mem, o) == TagOf(x)
  {
    hide Encode, Size, Valid, PutLe32, Le32;
    RecordStart(x);
    var start, tail := PutLe32(TagOf(x)) + PutLe32(Size(x)), Encode(x)[8..];
    assert Encode(x) == start + tail;
    assert mem[o..] == start + (tail + rest);
    WordsAt(mem, o, TagOf(x), Size(x), tail + rest);
  }

  lemma RecordStart(x: Item)
    requires Valid(x)
    ensures Size(x) < 0x1_0000_0000
    ensures |Encode(x)| >= 8 && Encode(x)[..8] == PutLe32(TagOf(x)) + PutLe32(Size(x))
  {
    hide Text.Encode, PutLe32, Size, VarcharTail, EncodeAll;
  }

  lemma NumericAt(mem: seq<Byte>, o: nat, x: Item, rest: seq<Byte>)
    requires Valid(x) && x.Numeric? && o <= |mem| && mem[o..] == Encode(x) + rest
    ensures o + 56 <= |mem| && mem[o + 28..o + 32] == PutLe32(x.default)
    ensures Le32(mem, o + 48) == TAG_OPT_NAME && StringAt(mem, o + 60, x.name.chars)
  {
    hide Le32, StringAt, Text.Encode, PutLe32, Size;
    var pre := PutLe32(x.tag) + PutLe32(Size(x)) + x.head;
    var d, name := PutLe32(x.default), x.name.Encode(TAG_OPT_NAME);
    assert Encode(x) + rest == pre + (d + (x.limits + (name + (x.rest + rest))));
    SplitAt(mem, o, pre, d + (x.limits + (name + (x.rest + rest))));
    SplitAt(mem, o + 28, d, x.limits + (name + (x.rest + rest)));
    SplitAt(mem, o + 32, x.limits, name + (x.rest + rest));
    TextAt(mem, o + 48, x.name, TAG_OPT_NAME, x.rest + rest);
  }

  lemma SplitAt(mem: seq<Byte>, o: nat, p: seq<Byte>, q: seq<Byte>)
    requires o <= |mem| && mem[o..] == p + q
    ensures o + |p| <= |mem| && mem[o..o + |p|] == p && mem[o + |p|..] == q
  {
    assert mem[o..][..|p|] == p && mem[o..][|p|..] == q;
  }

  /** The records of a character option, one behind the other. */
  lemma VarcharAt(mem: seq<Byte>, o: nat, x: Item, rest: seq<Byte>)
    requires Valid(x) && x.Varchar? && o <= |mem| && mem[o..] == Encode(x) + rest
    ensures o + 36 <= |mem| && Le32(mem, o + 28) == TAG_OPT_NAME && Le32(mem, o + 32) == x.name.Size()
    ensures StringAt(mem, o + 40, x.name.chars)
    ensures o + 28 + x.name.Size() <= |mem| && mem[o + 28 + x.name.Size()..] == VarcharTail(x) + rest
  {
    hide StringAt, Le32, VarcharTail;
    var s := mem[o..];
    assert mem[o + 28..] == s[28..] == x.name.Encode(TAG_OPT_NAME) + (VarcharTail(x) + rest);
    TextAt(mem, o + 28, x.name, TAG_OPT_NAME, VarcharTail(x) + rest);
  }

  lemma UnreadAt(mem: seq<Byte>, o: nat, x: Item, rest: seq<Byte>)
    requires Valid(x) && x.Unread? && o <= |mem| && mem[o..] == Encode(x) + rest
    ensures x.name.Size() < 0x1_0000_0000
    ensures o + 36 <= |mem| && mem[o + 28..] == x.name.Encode(TAG_OPT_NAME) + (x.tail + rest)
    ensures StringAt(mem, o + 40, x.name.chars)
  {
    hide StringAt, Le32, Text.Encode;
    var s := mem[o..];
    assert mem[o + 28..] == s[28..] == x.name.Encode(TAG_OPT_NAME) + (x.tail + rest);
    TextAt(mem, o + 28, x.name, TAG_OPT_NAME, x.tail + rest);
  }

  function DefaultTail(x: Item, rest: seq<Byte>): seq<Byte>
    requires x.Varchar? && Valid(x)
  {
    x.text.Encode(TAG_DEF_VALUE) + (x.rest + rest)
  }

  lemma UiNameAt(mem: seq<Byte>, o: nat, x: Item, rest: seq<Byte>)
    requires Valid(x) && x.Varchar? && o <= |mem| && mem[o..] == VarcharTail(x) + rest
    ensures o + 8 <= |mem| && Le32(mem, o) == TAG_UI_NAME && Le32(mem, o + 4) == x.uiName.Size()
    ensures o + x.uiName.Size() <= |mem| && mem[o + x.uiName.Size()..] == HelpBytes(x.help) + DefaultTail(x, rest)
  {
    hide Le32, Text.Encode, HelpBytes;
    var more := HelpBytes(x.help) + DefaultTail(x, rest);
    assert VarcharTail(x) + rest == x.uiName.Encode(TAG_UI_NAME) + more;
    TextAt(mem, o, x.uiName, TAG_UI_NAME, more);
  }

  /** The help text is recognised by its tag, and the default value follows it or stands in its place. */
  lemma HelpAt(mem: seq<Byte>, o: nat, x: Item, rest: seq<Byte>)
    requires Valid(x) && x.Varchar? && o <= |mem| && mem[o..] == HelpBytes(x.help) + DefaultTail(x, rest)
    ensures o + 8 <= |mem| && (Le32(mem, o) == TAG_HELP_TEXT <==> x.help.Some?)
    ensures var next := if x.help.Some? then o + Le32(mem, o + 4) else o;
            next <= |mem| && mem[next..] == DefaultTail(x, rest)
  {
    hide Le32, Text.Encode;
    if x.help.Some? {
      TextAt(mem, o, x.help.value, TAG_HELP_TEXT, DefaultTail(x, rest));
    } else {
      assert [] + DefaultTail(x, rest) == DefaultTail(x, rest);
      TextAt(mem, o, x.text, TAG_DEF_VALUE, x.rest + rest);
    }
  }

  /** The four records of a character option: the default is the one after the help text, if that is there. */
  method ReadVarchar(mem: seq<Byte>, o: nat, ghost x: Item, ghost rest: seq<Byte>) returns (default: seq<Byte>)
    requires Valid(x) && x.Varchar? && o <= |mem| && mem[o..] == Encode(x) + rest
    ensures default == x.text.chars + [0]
  {
    hide Encode, Le32, Text.Encode, HelpBytes, VarcharTail, StringAt;
    VarcharAt(mem, o, x, rest);
    var found, offset := ExtractVarBinary(mem, o + 28, TAG_OPT_NAME);
    UiNameAt(mem, offset, x, rest);
    found, offset := ExtractVarBinary(mem, offset, TAG_UI_NAME);
    HelpAt(mem, offset, x, rest);
    found, offset := ExtractVarBinary(mem, offset, TAG_HELP_TEXT);
    TextData(mem, offset, x.text, TAG_DEF_VALUE, x.rest + rest);
    default := mem[offset + 12..offset + 12 + Le32(mem, offset + 8)];
  }

  // ----- the two readers of a character option

  /** Where the record after the one at offset starts, when that one is in memory and has the tag. */
  function After(mem: seq<Byte>, offset: nat, tag: U32): Option<nat> {
    if offset + 8 <= |mem| && Le32(mem, offset) == tag then Some(offset + Le32(mem, offset + 4)) else None
  }

  /** The reader of defaults: name, UI name, help text if any, default; where it finds the default. */
  function DefaultAt(mem: seq<Byte>, o: nat): Option<nat> {
    var a := After(mem, o + 28, TAG_OPT_NAME);
    if a.None? then None
    else
      var b := After(mem, a.value, TAG_UI_NAME);
      if b.None? then None
      else
        var c := After(mem, b.value, TAG_HELP_TEXT);
        var d := if c.Some? then c.value else b.value;
        if After(mem, d, TAG_DEF_VALUE).Some? then Some(d) else None
  }

  /** The reader that builds the menu: default first, then, unless that is too long, name and UI name. */
  predicate MenuReads(mem: seq<Byte>, o: nat) {
    var a := After(mem, o + 28, TAG_DEF_VALUE);
    && a.Some? && o + 40 <= |mem|
    && (|| Le32(mem, o + 36) > 0xff
        || var b := After(mem, a.value, TAG_OPT_NAME);
           b.Some? && After(mem, b.value, TAG_UI_NAME).Some?)
  }

  /** Whatever its bytes, a character option suits at most one of its two readers. */
  lemma NoRecordSuitsBoth(mem: seq<Byte>, o: nat)
    ensures !(DefaultAt(mem, o).Some? && MenuReads(mem, o))
  {
  }

  /** An option in this reader's order is read by it, and not by the reader that builds the menu. */
  lemma VarcharSuitsOneReader(mem: seq<Byte>, o: nat, x: Item, rest: seq<Byte>)
    requires Valid(x) && x.Varchar? && o <= |mem| && mem[o..] == Encode(x) + rest
    ensures !MenuReads(mem, o)
    ensures var d := DefaultAt(mem, o);
            d.Some? && d.value <= |mem| && mem[d.value..] == x.text.Encode(TAG_DEF_VALUE) + (x.rest + rest)
  {
    hide Encode, Le32, Text.Encode, HelpBytes, VarcharTail, StringAt;
    VarcharAt(mem, o, x, rest);
    var a := o + 28 + x.name.Size();
    UiNameAt(mem, a, x, rest);
    var b := a + x.uiName.Size();
    HelpAt(mem, b, x, rest);
    var d := if x.help.Some? then b + Le32(mem, b + 4) else b;
    TextAt(mem, d, x.text, TAG_DEF_VALUE, x.rest + rest);
  }

  function DepBytes(values: Option<seq<Byte>>): seq<Byte>
    requires values.Some? ==> |values.value| < 0xffff_ff00
  {
    if values.None? then []
    else PutLe32(TAG_DEP_VALUES) + PutLe32(12 + |values.value|) + PutLe32(|values.value|) + values.value
  }

  /** The record order documented for a character option, dependency values before the default. */
  function Documented(head: seq<Byte>, name: Text, uiName: Text, help: Option<Text>, values: Option<seq<Byte>>, text: Text): Item
    requires uiName.Size() < 0x1_0000_0000 && HelpSize(help) < 0x1_0000_0000 && text.Size() < 0x1_0000_0000
    requires values.Some? ==> |values.value| < 0xffff_ff00
  {
    Unread(head, name,
           uiName.Encode(TAG_UI_NAME) + (HelpBytes(help) + (DepBytes(values) + text.Encode(TAG_DEF_VALUE))))
  }

  /**
   * In the documented order the menu's reader finds nothing, and the reader of defaults
   * finds the default exactly when there are no dependency values.
   */
  lemma DocumentedOrder(mem: seq<Byte>, o: nat, rest: seq<Byte>,
      head: seq<Byte>, name: Text, uiName: Text, help: Option<Text>, values: Option<seq<Byte>>, text: Text)
    requires uiName.Size() < 0x1_0000_0000 && HelpSize(help) < 0x1_0000_0000 && text.Size() < 0x1_0000_0000
    requires values.Some? ==> |values.value| < 0xffff_ff00
    requires var x := Documented(head, name, uiName, help, values, text);
             Valid(x) && o <= |mem| && mem[o..] == Encode(x) + rest
    ensures !MenuReads(mem, o)
    ensures DefaultAt(mem, o).Some? <==> values.None?
    ensures values.None? ==> var d := DefaultAt(mem, o).value;
                             d <= |mem| && mem[d..] == text.Encode(TAG_DEF_VALUE) + rest
  {
    hide After, Text.Encode, HelpBytes, DepBytes, Size, Encode, Valid;
    var x := Documented(head, name, uiName, help, values, text);
    var last := DepBytes(values) + (text.Encode(TAG_DEF_VALUE) + rest);
    UnreadAt(mem, o, x, rest);
    AfterText(mem, o + 28, name, TAG_OPT_NAME, x.tail + rest);
    var a := o + 28 + name.Size();
    Regroup(uiName.Encode(TAG_UI_NAME), HelpBytes(help), DepBytes(values), text.Encode(TAG_DEF_VALUE), rest);
    AfterText(mem, a, uiName, TAG_UI_NAME, HelpBytes(help) + last);
    AfterHelp(mem, a + uiName.Size(), rest, help, values, text);
    AfterValues(mem, a + uiName.Size() + HelpSize(help), rest, values, text);
  }

  lemma Regroup(a: seq<Byte>, b: seq<Byte>, c: seq<Byte>, d: seq<Byte>, e: seq<Byte>)
    ensures (a + (b + (c + d))) + e == a + (b + (c + (d + e)))
  {
  }

  /** A string record is found under its own tag only, and leads to what follows it. */
  lemma AfterText(mem: seq<Byte>, o: nat, t: Text, tag: U32, rest: seq<Byte>)
    requires t.Size() < 0x1_0000_0000 && o <= |mem| && mem[o..] == t.Encode(tag) + rest
    ensures After(mem, o, tag) == Some(o + t.Size())
    ensures forall other: U32 :: other != tag ==> After(mem, o, other).None?
    ensures o + t.Size() <= |mem| && mem[o + t.Size()..] == rest
  {
    hide Le32, Text.Encode;
    TextAt(mem, o, t, tag, rest);
  }

  /** Dependency values stand where the default is looked for. */
  lemma AfterValues(mem: seq<Byte>, o: nat, rest: seq<Byte>, values: Option<seq<Byte>>, text: Text)
    requires text.Size() < 0x1_0000_0000 && (values.Some? ==> |values.value| < 0xffff_ff00)
    requires o <= |mem| && mem[o..] == DepBytes(values) + (text.Encode(TAG_DEF_VALUE) + rest)
    ensures After(mem, o, TAG_HELP_TEXT).None?
    ensures After(mem, o, TAG_DEF_VALUE).Some? <==> values.None?
    ensures values.None? ==> mem[o..] == text.Encode(TAG_DEF_VALUE) + rest
  {
    hide Text.Encode, Le32, PutLe32;
    var last := text.Encode(TAG_DEF_VALUE) + rest;
    if values.Some? {
      ValuesAt(mem, o, values.value, last);
    } else {
      assert [] + last == last;
      AfterText(mem, o, text, TAG_DEF_VALUE, rest);
    }
  }

  lemma ValuesAt(mem: seq<Byte>, o: nat, v: seq<Byte>, rest: seq<Byte>)
    requires |v| < 0xffff_ff00 && o <= |mem| && mem[o..] == DepBytes(Some(v)) + rest
    ensures o + 8 <= |mem| && Le32(mem, o) == TAG_DEP_VALUES
  {
    hide PutLe32, Le32;
    var more := PutLe32(|v|) + v + rest;
    assert mem[o..] == PutLe32(TAG_DEP_VALUES) + PutLe32(12 + |v|) + more;
    WordsAt(mem, o, TAG_DEP_VALUES, 12 + |v|, more);
  }

  /** The help text, if any, is stepped over. */
  lemma AfterHelp(mem: seq<Byte>, o: nat, rest: seq<Byte>, help: Option<Text>, values: Option<seq<Byte>>, text: Text)
    requires HelpSize(help) < 0x1_0000_0000 && text.Size() < 0x1_0000_0000
    requires values.Some? ==> |values.value| < 0xffff_ff00
    requires o <= |mem| && mem[o..] == HelpBytes(help) + (DepBytes(values) + (text.Encode(TAG_DEF_VALUE) + rest))
    ensures After(mem, o, TAG_HELP_TEXT) == if help.Some? then Some(o + HelpSize(help)) else None
    ensures var d := o + HelpSize(help);
            d <= |mem| && mem[d..] == DepBytes(values) + (text.Encode(TAG_DEF_VALUE) + rest)
  {
    hide After, Text.Encode, DepBytes;
    var last := DepBytes(values) + (text.Encode(TAG_DEF_VALUE) + rest);
    if help.Some? {
      AfterText(mem, o, help.value, TAG_HELP_TEXT, last);
    } else {
      assert [] + last == last;
      AfterValues(mem, o, rest, values, text);
    }
  }

  lemma FormAt(mem: seq<Byte>, o: nat, x: Item, rest: seq<Byte>)
    requires Valid(x) && x.Form? && o <= |mem| && mem[o..] == FormHead(x) + rest
    ensures o + 36 <= |mem| && Le32(mem, o + 28) == TAG_UI_NAME
    ensures Le32(mem, o + 32) == x.name.Size() && StringAt(mem, o + 40, x.name.chars)
    ensures o + 28 + x.name.Size() <= |mem| && mem[o + 28 + x.name.Size()..] == rest
  {
    var s := mem[o..];
    assert mem[o + 28..] == s[28..] == x.name.Encode(TAG_UI_NAME) + rest;
    TextAt(mem, o + 28, x.name, TAG_UI_NAME, rest);
    assert mem[o + 28 + x.name.Size()..] == mem[o + 28..][x.name.Size()..];
  }

  // ----- the flat walk over one form

  /** The option looked up is a character option whose default this reader would fail its assertion on. */
  predicate LooksUpUnread(visits: seq<Visit>, option: seq<Byte>) {
    var v := Lookup(visits, option);
    v.Some? && v.value.DefaultUnread?
  }

  function CharacterVisit(x: Item): (v: Visit)
    requires x.Varchar? || x.Unread?
    ensures v.name == x.name.chars
  {
    if x.Varchar? then OptionNamed(x.name.chars, x.text.chars + [0]) else DefaultUnread(x.name.chars)
  }

  /**
   * One form HOB. The walk never looks at the tree, only at offsets; form is the tree
   * whose bytes the HOB holds. It visits the preorder of the form's children, stops at
   * the first visit that carries the name, and otherwise ends exactly at the form's size.
   * The records of a character option are looked at once its name has matched; looking at
   * them earlier changes nothing.
   */
  method WalkForm(hob: seq<Byte>, start: nat, option: seq<Byte>, ghost form: Item)
    returns (r: Option<Visit>, end: nat)
    requires Valid(form) && form.Form? && hob == Encode(form) && 0 !in option
    requires start == 28 + form.name.Size()
    requires !LooksUpUnread(Preorder(form.items), option)
    ensures r == Lookup(Preorder(form.items), option)
    ensures r.None? ==> end == Size(form)
  {
    hide Encode, EncodeAll, Preorder, FormHead, Valid, ValidAll, Size, Le32, StringAt, Lookup;
    end := start;
    ghost var left := form.items;
    ghost var seen := [];
    WalkStart(form);
    LookupNothing(option);
    assert seen + Preorder(left) == Preorder(left);
    while end < Le32(hob, 4)
      invariant 8 <= |hob| && Le32(hob, 4) == |hob|
      invariant ValidAll(left) && end <= |hob| && hob[end..] == EncodeAll(left)
      invariant Preorder(form.items) == seen + Preorder(left) && Lookup(seen, option).None?
      decreases |hob| - end
    {
      NothingLeft(left);
      ghost var x, more := left[0], left[1..];
      assert left == [x] + more;
      WalkFacts(hob, end, x, more, option);
      var tag := Le32(hob, end);
      if tag == TAG_FORM {
        var found, next := ExtractVarBinary(hob, end + 28, TAG_UI_NAME);
        if StringAt(hob, end + 40, option) {
          LookupHit(seen, FormNamed(option), Preorder(x.items + more));
          return Some(FormNamed(option)), end;
        }
        LookupMiss(seen, FormNamed(x.name.chars), Preorder(x.items + more), option);
        seen := seen + [FormNamed(x.name.chars)];
        left := x.items + more;
        end := next;
      } else if tag == TAG_ENUM || tag == TAG_NUMBER || tag == TAG_BOOL {
        if StringAt(hob, end + 60, option) {
          LookupHit(seen, OptionNamed(option, PutLe32(x.default)), Preorder(more));
          return Some(OptionNamed(option, hob[end + 28..end + 32])), end;
        }
        LookupMiss(seen, OptionNamed(x.name.chars, PutLe32(x.default)), Preorder(more), option);
        seen := seen + [OptionNamed(x.name.chars, PutLe32(x.default))];
        left := more;
        end := end + Le32(hob, end + 4);
      } else if tag == TAG_VARCHAR {
        if StringAt(hob, end + 40, option) {
          LookupHit(seen, CharacterVisit(x), Preorder(more));
          var default := ReadVarchar(hob, end, x, EncodeAll(more));
          return Some(OptionNamed(option, default)), end;
        }
        LookupMiss(seen, CharacterVisit(x), Preorder(more), option);
        seen := seen + [CharacterVisit(x)];
        left := more;
        end := end + Le32(hob, end + 4);
      } else {
        left := more;
        end := end + Le32(hob, end + 4);
      }
    }
    NothingLeft(left);
    assert seen + [] == seen;
    r := None;
  }

  lemma NothingLeft(xs: seq<Item>)
    requires ValidAll(xs)
    ensures EncodeAll(xs) == [] <==> xs == []
    ensures xs == [] ==> Preorder(xs) == []
  {
    if xs != [] {
      assert |Encode(xs[0])| >= 8;
    }
  }

  lemma WalkStart(form: Item)
    requires Valid(form) && form.Form?
    ensures ValidAll(form.items)
    ensures var hob, o := Encode(form), 28 + form.name.Size();
            && 8 <= |hob| && Le32(hob, 4) == |hob| == Size(form) && o <= |hob|
            && hob[o..] == EncodeAll(form.items)
  {
    assert Encode(form)[0..] == Encode(form) + [];
    ItemAt(Encode(form), 0, form, []);
  }

  lemma LookupNothing(option: seq<Byte>)
    ensures Lookup([], option).None?
  {
  }

  lemma LookupHit(seen: seq<Visit>, v: Visit, more: seq<Visit>)
    requires Lookup(seen, v.name).None?
    ensures Lookup(seen + ([v] + more), v.name) == Some(v)
  {
    LookupAppend(seen, [v] + more, v.name);
  }

  lemma LookupMiss(seen: seq<Visit>, v: Visit, more: seq<Visit>, option: seq<Byte>)
    requires Lookup(seen, option).None? && v.name != option
    ensures Lookup(seen + [v], option).None?
    ensures seen + ([v] + more) == seen + [v] + more
  {
    LookupAppend(seen, [v], option);
    assert [v][1..] == [];
  }

  /** Everything the walk needs at the record it stands on. */
  lemma WalkFacts(mem: seq<Byte>, o: nat, x: Item, more: seq<Item>, option: seq<Byte>)
    requires ValidAll([x] + more) && 0 !in option
    requires o <= |mem| && mem[o..] == EncodeAll([x] + more)
    ensures Valid(x) && ValidAll(more)
    ensures o + 8 <= |mem| && Le32(mem, o) == TagOf(x) && mem[o..] == Encode(x) + EncodeAll(more)
    ensures x.Form? ==>
      && o + 36 <= |mem| && Le32(mem, o + 28) == TAG_UI_NAME
      && (StringAt(mem, o + 40, option) <==> x.name.chars == option)
      && var next := o + 28 + Le32(mem, o + 32);
         && o < next <= |mem| && ValidAll(x.items + more)
         && mem[next..] == EncodeAll(x.items + more)
         && Preorder([x] + more) == [FormNamed(x.name.chars)] + Preorder(x.items + more)
    ensures x.Numeric? ==>
      && x.tag in {TAG_ENUM, TAG_NUMBER, TAG_BOOL}
      && o + 32 <= |mem| && mem[o + 28..o + 32] == PutLe32(x.default)
      && (StringAt(mem, o + 60, option) <==> x.name.chars == option)
      && Preorder([x] + more) == [OptionNamed(x.name.chars, PutLe32(x.default))] + Preorder(more)
    ensures x.Varchar? || x.Unread? ==>
      && (StringAt(mem, o + 40, option) <==> x.name.chars == option)
      && Preorder([x] + more) == [CharacterVisit(x)] + Preorder(more)
    ensures x.Other? ==>
      && x.tag !in {TAG_FORM, TAG_ENUM, TAG_NUMBER, TAG_BOOL, TAG_VARCHAR}
      && Preorder([x] + more) == Preorder(more)
    ensures !x.Form? ==>
      var next := o + Le32(mem, o + 4);
      o < next <= |mem| && mem[next..] == EncodeAll(more)
  {
    hide StringAt, FormHead, Preorder, Encode, Le32;
    var all := [x] + more;
    assert all[0] == x && all[1..] == more;
    assert x in all;
    assert forall y <- more :: y in all;
    assert mem[o..] == Encode(x) + EncodeAll(more);
    ItemAt(mem, o, x, EncodeAll(more));
    SplitAt(mem, o, Encode(x), EncodeAll(more));
    PreorderFirst(x, more);
    match x {
      case Form(_, _, _) => FormFacts(mem, o, x, more, option);
      case Numeric(_, _, _, _, _, _) =>
        NumericAt(mem, o, x, EncodeAll(more));
        StringIsText(mem, o + 60, x.name.chars, option);
      case Varchar(_, _, _, _, _, _) =>
        VarcharAt(mem, o, x, EncodeAll(more));
        StringIsText(mem, o + 40, x.name.chars, option);
      case Unread(_, _, _) =>
        UnreadAt(mem, o, x, EncodeAll(more));
        StringIsText(mem, o + 40, x.name.chars, option);
      case Other(_, _) =>
        assert [] + Preorder(more) == Preorder(more);
    }
  }

  lemma FormFacts(mem: seq<Byte>, o: nat, x: Item, more: seq<Item>, option: seq<Byte>)
    requires x.Form? && Valid(x) && ValidAll(more) && 0 !in option
    requires o <= |mem| && mem[o..] == Encode(x) + EncodeAll(more)
    ensures o + 36 <= |mem| && Le32(mem, o + 28) == TAG_UI_NAME
    ensures StringAt(mem, o + 40, option) <==> x.name.chars == option
    ensures var next := o + 28 + Le32(mem, o + 32);
            && o < next <= |mem| && ValidAll(x.items + more)
            && mem[next..] == EncodeAll(x.items + more)
    ensures Preorder([x] + more) == [FormNamed(x.name.chars)] + Preorder(x.items + more)
  {
    hide FormHead, Preorder, Le32, EncodeAll, StringAt;
    EncodeAllAppend(x.items, more);
    FormOpens(x, more);
    FormAt(mem, o, x, EncodeAll(x.items + more));
    StringIsText(mem, o + 40, x.name.chars, option);
  }

  /** Entering a form turns its children into what comes next, in bytes and in preorder. */
  lemma FormOpens(x: Item, more: seq<Item>)
    requires x.Form? && Valid(x) && ValidAll(more)
    ensures ValidAll(x.items + more)
    ensures Encode(x) + EncodeAll(more) == FormHead(x) + EncodeAll(x.items + more)
    ensures Preorder([x] + more) == [FormNamed(x.name.chars)] + Preorder(x.items + more)
  {
    hide FormHead, Preorder, EncodeAll, ValidAll;
    EncodeAllAppend(x.items, more);
    assert Encode(x) == FormHead(x) + EncodeAll(x.items);
    PreorderFirst(x, more);
    PreorderAppend(x.items, more);
  }

  lemma PreorderFirst(x: Item, more: seq<Item>)
    ensures Preorder([x] + more) == PreorderOf(x) + Preorder(more)
  {
    var all := [x] + more;
    assert all[0] == x && all[1..] == more;
  }

  // ----- looking an option up

  predicate Wanted(form: Item, formName: Option<seq<Byte>>)
    requires form.Form?
  {
    formName.None? || formName.value == form.name.chars
  }

  function VisitsOf(form: Item, formName: Option<seq<Byte>>): seq<Visit>
    requires form.Form?
  {
    if Wanted(form, formName) then Preorder(form.items) else []
  }

  /** Everything visited, form after form, in the forms the caller asked about. */
  function AllVisits(forms: seq<Item>, formName: Option<seq<Byte>>): seq<Visit>
    requires forall f <- forms :: f.Form?
  {
    if forms == [] then []
    else AllVisits(forms[..|forms| - 1], formName) + VisitsOf(forms[|forms| - 1], formName)
  }

  predicate ValidForms(forms: seq<Item>) {
    forall f <- forms :: f.Form? && Valid(f)
  }

  lemma {:induction false} AllVisitsSplit(forms: seq<Item>, k: nat, formName: Option<seq<Byte>>)
    requires ValidForms(forms) && k <= |forms|
    ensures AllVisits(forms, formName) == AllVisits(forms[..k], formName) + AllVisits(forms[k..], formName)
    decreases |forms|
  {
    hide AllVisits, VisitsOf, Valid;
    if k == |forms| {
      NoVisits(formName);
      assert forms[..k] == forms;
    } else {
      var front, last := forms[..|forms| - 1], forms[|forms| - 1];
      AllVisitsSplit(front, k, formName);
      assert forms == front + [last] && front[..k] == forms[..k] && forms[k..] == front[k..] + [last];
      AllVisitsSnoc(front, last, formName);
      AllVisitsSnoc(front[k..], last, formName);
    }
  }

  lemma AllVisitsSnoc(forms: seq<Item>, last: Item, formName: Option<seq<Byte>>)
    requires last.Form? && forall f <- forms :: f.Form?
    ensures AllVisits(forms + [last], formName) == AllVisits(forms, formName) + VisitsOf(last, formName)
  {
    hide VisitsOf;
    assert (forms + [last])[..|forms|] == forms;
  }

  /** What is visited is what the preorders of the forms of that name hold, or of all forms. */
  lemma {:induction false} VisitsExactly(forms: seq<Item>, formName: Option<seq<Byte>>, v: Visit)
    requires forall f <- forms :: f.Form?
    ensures v in AllVisits(forms, formName) <==>
            exists f <- forms :: (formName.None? || f.name.chars == formName.value) && v in Preorder(f.items)
    decreases |forms|
  {
    hide Preorder;
    if forms != [] {
      var front, last := forms[..|forms| - 1], forms[|forms| - 1];
      assert forms == front + [last];
      VisitsExactly(front, formName, v);
    }
  }

  lemma NoVisits(formName: Option<seq<Byte>>)
    ensures AllVisits([], formName) == []
  {
  }

  lemma VisitsStep(forms: seq<Item>, i: nat, formName: Option<seq<Byte>>)
    requires ValidForms(forms) && i < |forms|
    ensures var a := AllVisits(forms[..i], formName);
            AllVisits(forms[..i + 1], formName) ==
            if formName.None? || formName.value == forms[i].name.chars then a + Preorder(forms[i].items) else a
  {
    hide Preorder, Valid;
    assert forms[..i + 1][..i] == forms[..i];
    assert AllVisits(forms[..i], formName) + [] == AllVisits(forms[..i], formName);
  }

  /** CfrOptionGetDefaultValue: EFI_NOT_FOUND is None. */
  method OptionGetDefaultValue(
      hobs: seq<seq<Byte>>, formName: Option<seq<Byte>>, option: seq<Byte>, ghost forms: seq<Item>)
    returns (r: Option<seq<Byte>>)
    requires ValidForms(forms) && |hobs| == |forms|
    requires forall i :: 0 <= i < |forms| ==> hobs[i] == Encode(forms[i])
    requires 0 !in option && (formName.Some? ==> 0 !in formName.value)
    requires !LooksUpUnread(AllVisits(forms, formName), option)
    ensures var v := Lookup(AllVisits(forms, formName), option);
            r == if v.Some? && v.value.OptionNamed? then Some(v.value.default) else None
  {
    hide Encode, Preorder, Lookup, Valid, Size, AllVisits, StringAt, Le32, Wanted;
    LookupNothing(option);
    NoVisits(formName);
    for i := 0 to |hobs|
      invariant Lookup(AllVisits(forms[..i], formName), option).None?
    {
      ghost var f := forms[i];
      assert f in forms;
      VisitsStep(forms, i, formName);
      NameOfForm(hobs[i], f);
      var found, start := ExtractVarBinary(hobs[i], 28, TAG_UI_NAME);
      if formName.Some? {
        StringIsText(hobs[i], 40, f.name.chars, formName.value);
      }
      if formName.Some? && !StringAt(hobs[i], 40, formName.value) {
        continue;
      }
      ghost var a, b := AllVisits(forms[..i], formName), Preorder(f.items);
      LookupAppend(a, b, option);
      if Lookup(b, option).Some? {
        AllVisitsSplit(forms, i + 1, formName);
        LookupFirst(a + b, AllVisits(forms[i + 1..], formName), option);
      }
      var v, _ := WalkForm(hobs[i], start, option, f);
      if v.Some? {
        return if v.value.OptionNamed? then Some(v.value.default) else None;
      }
    }
    assert forms[..|hobs|] == forms;
    return None;
  }

  lemma {:induction false} LookupFirst(a: seq<Visit>, b: seq<Visit>, option: seq<Byte>)
    requires Lookup(a, option).Some?
    ensures Lookup(a + b, option) == Lookup(a, option)
  {
    if a[0].name != option {
      LookupFirst(a[1..], b, option);
      assert (a + b)[1..] == a[1..] + b;
    }
  }

  lemma NameOfForm(hob: seq<Byte>, f: Item)
    requires f.Form? && Valid(f) && hob == Encode(f)
    ensures 36 <= |hob| && Le32(hob, 28) == TAG_UI_NAME && Le32(hob, 32) == f.name.Size()
    ensures StringAt(hob, 40, f.name.chars) && f.name.Valid()
  {
    assert hob[0..] == FormHead(f) + EncodeAll(f.items);
    FormAt(hob, 0, f, EncodeAll(f.items));
  }

  // ----- checking and splitting the table

  const CFR_VERSION: U32 := 0
  const ROOT_HEADER := 16
  const TAG_ROOT: U32 := 0x47

  datatype ParseResult =
    | Parsed(hobs: seq<seq<Byte>>)
    | IncompatibleVersion
    | CrcError
    | TagMismatch
    | RunsPastTable

  function Bit(on: bool, mask: bv8): bv8 {
    if on then mask else 0
  }

  function FromBits(b0: bool, b1: bool, b2: bool, b3: bool, b4: bool, b5: bool, b6: bool, b7: bool): bv8 {
    Bit(b0, 1) | Bit(b1, 2) | Bit(b2, 4) | Bit(b3, 8) | Bit(b4, 16) | Bit(b5, 32) | Bit(b6, 64) | Bit(b7, 128)
  }

  predicate BitAt(b: nat, place: nat) {
    if place == 0 then b % 2 == 1 else BitAt(b / 2, place - 1)
  }

  /** A byte as the bits the checksum works on. */
  function ToBits(b: Byte): bv8 {
    FromBits(BitAt(b, 0), BitAt(b, 1), BitAt(b, 2), BitAt(b, 3), BitAt(b, 4), BitAt(b, 5), BitAt(b, 6), BitAt(b, 7))
  }

  function Bits(s: seq<Byte>): (r: seq<bv8>)
    ensures |r| == |s|
  {
    seq(|s|, i requires 0 <= i < |s| => ToBits(s[i]))
  }

  /** The checksum field as stored, least significant byte first. */
  function StoredChecksum(table: seq<Byte>): bv32
    requires |table| >= ROOT_HEADER
  {
    CfrChecksum.Pack(ToBits(table[15]), ToBits(table[14]), ToBits(table[13]), ToBits(table[12]))
  }

  predicate Intact(table: seq<Byte>)
    requires |table| >= ROOT_HEADER
  {
    CfrChecksum.Crc(Bits(table[ROOT_HEADER..])) == StoredChecksum(table)
  }

  /**
   * The forms from offset o on, one HOB each: every record is cut off by its own size
   * field, and room is how many HOBs can still be built. A record that runs past the
   * table is one the code would read beyond it for.
   */
  function SplitForms(table: seq<Byte>, o: nat, room: nat): ParseResult
    decreases room
  {
    if o >= |table| || room == 0 then Parsed([])
    else if o + 8 > |table| then RunsPastTable
    else if Le32(table, o) != TAG_FORM then TagMismatch
    else
      var size: nat := Le32(table, o + 4);
      if o + size > |table| then RunsPastTable
      else
        var more := SplitForms(table, o + size, room - 1);
        if more.Parsed? then Parsed([table[o..o + size]] + more.hobs) else more
  }

  function Join(hobs: seq<seq<Byte>>): seq<Byte> {
    if hobs == [] then [] else hobs[0] + Join(hobs[1..])
  }

  /** With room to spare, the HOBs are the table's forms, byte for byte and in order. */
  lemma {:induction false} SplitLosesNothing(table: seq<Byte>, o: nat, room: nat)
    requires o <= |table| && SplitForms(table, o, room).Parsed? && |SplitForms(table, o, room).hobs| < room
    ensures Join(SplitForms(table, o, room).hobs) == table[o..]
    decreases room
  {
    hide Le32;
    if o < |table| {
      var n := o + Le32(table, o + 4);
      var more := SplitForms(table, n, room - 1);
      SplitLosesNothing(table, n, room - 1);
      var hobs := SplitForms(table, o, room).hobs;
      assert hobs[0] == table[o..n] && hobs[1..] == more.hobs;
      assert table[o..n] + table[n..] == table[o..];
    }
  }

  /** A table of encoded forms is split into exactly their bytes. */
  lemma {:induction false} SplitEncoded(table: seq<Byte>, o: nat, room: nat, forms: seq<Item>)
    requires ValidForms(forms) && o <= |table| && table[o..] == EncodeAll(forms) && |forms| <= room
    ensures var r := SplitForms(table, o, room);
            r.Parsed? && |r.hobs| == |forms| && forall i :: 0 <= i < |forms| ==> r.hobs[i] == Encode(forms[i])
    decreases |forms|
  {
    hide Encode, EncodeAll, Valid, Size, Le32;
    NothingLeft(forms);
    if forms != [] {
      var f, more := forms[0], forms[1..];
      assert f in forms && forms == [f] + more;
      NextForm(table, o, f, more);
      SplitEncoded(table, o + Le32(table, o + 4), room - 1, more);
    }
  }

  /** What becomes of a table: version, checksum, forms. */
  function Outcome(table: seq<Byte>, room: nat): ParseResult
    requires |table| >= ROOT_HEADER
  {
    if Le32(table, 8) != CFR_VERSION then IncompatibleVersion
    else if !Intact(table) then CrcError
    else SplitForms(table, ROOT_HEADER, room)
  }

  /**
   * The root record is found by its tag and walked over by its size, so its size is that
   * of the table handed over.
   */
  method ParseMiscInfo(table: seq<Byte>, room: nat) returns (r: ParseResult)
    requires |table| >= ROOT_HEADER && Le32(table, 4) == |table|
    ensures r == Outcome(table, room)
  {
    hide CfrChecksum.CrcFrom, CfrChecksum.Pack, Le32;
    if Le32(table, 8) != CFR_VERSION {
      return IncompatibleVersion;
    }
    var crc := CfrChecksum.CalculateCrc32(Bits(table[ROOT_HEADER..]));
    if crc != StoredChecksum(table) {
      return CrcError;
    }
    var processed: nat := ROOT_HEADER;
    var hobs: seq<seq<Byte>> := [];
    ghost var whole := SplitForms(table, ROOT_HEADER, room);
    while processed < |table| && |hobs| < room
      invariant processed <= |table| && |hobs| <= room
      invariant whole == Behind(hobs, SplitForms(table, processed, room - |hobs|))
      decreases room - |hobs|
    {
      if processed + 8 > |table| {
        return RunsPastTable;
      }
      if Le32(table, processed) != TAG_FORM {
        return TagMismatch;
      }
      var size: nat := Le32(table, processed + 4);
      if processed + size > |table| {
        return RunsPastTable;
      }
      BehindOne(hobs, table[processed..processed + size], SplitForms(table, processed + size, room - |hobs| - 1));
      hobs := hobs + [table[processed..processed + size]];
      processed := processed + size;
    }
    assert hobs + [] == hobs;
    return Parsed(hobs);
  }

  function Behind(hobs: seq<seq<Byte>>, r: ParseResult): ParseResult {
    if r.Parsed? then Parsed(hobs + r.hobs) else r
  }

  lemma BehindOne(hobs: seq<seq<Byte>>, hob: seq<Byte>, r: ParseResult)
    ensures Behind(hobs, Behind([hob], r)) == Behind(hobs + [hob], r)
  {
    if r.Parsed? {
      assert hobs + ([hob] + r.hobs) == (hobs + [hob]) + r.hobs;
    }
  }

  lemma NextForm(table: seq<Byte>, o: nat, f: Item, more: seq<Item>)
    requires f.Form? && Valid(f) && ValidAll(more)
    requires o <= |table| && table[o..] == EncodeAll([f] + more)
    ensures o + 8 <= |table| && Le32(table, o) == TAG_FORM
    ensures var n := o + Le32(table, o + 4);
            n <= |table| && table[o..n] == Encode(f) && table[n..] == EncodeAll(more)
  {
    hide Encode, Le32;
    var all := [f] + more;
    assert all[0] == f && all[1..] == more;
    assert table[o..] == Encode(f) + EncodeAll(more);
    ItemAt(table, o, f, EncodeAll(more));
    var n := o + Size(f);
    assert table[o..n] == table[o..][..Size(f)];
    assert table[n..] == table[o..][Size(f)..];
  }

  predicate Sees(x: bv8, mask: bv8) {
    x & mask != 0
  }

  lemma BitsSeen(b0: bool, b1: bool, b2: bool, b3: bool, b4: bool, b5: bool, b6: bool, b7: bool)
    ensures var x := FromBits(b0, b1, b2, b3, b4, b5, b6, b7);
            && Sees(x, 1) == b0 && Sees(x, 2) == b1 && Sees(x, 4) == b2 && Sees(x, 8) == b3
            && Sees(x, 16) == b4 && Sees(x, 32) == b5 && Sees(x, 64) == b6 && Sees(x, 128) == b7
  {
  }

  function Pow2(n: nat): nat {
    if n == 0 then 1 else 2 * Pow2(n - 1)
  }

  lemma {:induction false} SameBits(a: nat, b: nat, n: nat)
    requires a < Pow2(n) && b < Pow2(n)
    requires forall k: nat :: k < n ==> BitAt(a, k) == BitAt(b, k)
    ensures a == b
    decreases n
  {
    if n > 0 {
      forall k: nat | k < n - 1
        ensures BitAt(a / 2, k) == BitAt(b / 2, k)
      {
        assert BitAt(a, k + 1) == BitAt(b, k + 1);
      }
      SameBits(a / 2, b / 2, n - 1);
      assert BitAt(a, 0) == BitAt(b, 0);
    }
  }

  lemma ToBitsInjective(a: Byte, b: Byte)
    requires ToBits(a) == ToBits(b)
    ensures a == b
  {
    hide FromBits, Sees, BitAt;
    BitsSeen(BitAt(a, 0), BitAt(a, 1), BitAt(a, 2), BitAt(a, 3), BitAt(a, 4), BitAt(a, 5), BitAt(a, 6), BitAt(a, 7));
    BitsSeen(BitAt(b, 0), BitAt(b, 1), BitAt(b, 2), BitAt(b, 3), BitAt(b, 4), BitAt(b, 5), BitAt(b, 6), BitAt(b, 7));
    assert Pow2(8) == 256 by { assert Pow2(4) == 16; }
    SameBits(a, b, 8);
  }

  // ----- a table as coreboot writes it

  function Twice(low: bool, high: nat): nat {
    (if low then 1 else 0) + 2 * high
  }

  /** The number eight bits stand for. */
  function ByteOf(x: bv8): Byte {
    Twice(Sees(x, 1), Twice(Sees(x, 2), Twice(Sees(x, 4), Twice(Sees(x, 8),
      Twice(Sees(x, 16), Twice(Sees(x, 32), Twice(Sees(x, 64), Twice(Sees(x, 128), 0))))))))
  }

  lemma TwiceBits(low: bool, high: nat, place: nat)
    ensures BitAt(Twice(low, high), 0) == low
    ensures BitAt(Twice(low, high), place + 1) == BitAt(high, place)
  {
    assert Twice(low, high) / 2 == high;
  }

  lemma BitsOfByte(b0: bool, b1: bool, b2: bool, b3: bool, b4: bool, b5: bool, b6: bool, b7: bool)
    ensures var n := Twice(b0, Twice(b1, Twice(b2, Twice(b3, Twice(b4, Twice(b5, Twice(b6, Twice(b7, 0))))))));
            && BitAt(n, 0) == b0 && BitAt(n, 1) == b1 && BitAt(n, 2) == b2 && BitAt(n, 3) == b3
            && BitAt(n, 4) == b4 && BitAt(n, 5) == b5 && BitAt(n, 6) == b6 && BitAt(n, 7) == b7
  {
    hide Twice, BitAt;
    var n7 := Twice(b7, 0);
    var n6 := Twice(b6, n7);
    var n5 := Twice(b5, n6);
    var n4 := Twice(b4, n5);
    var n3 := Twice(b3, n4);
    var n2 := Twice(b2, n3);
    var n1 := Twice(b1, n2);
    TwiceBits(b7, 0, 0);
    TwiceBits(b6, n7, 0);
    forall k: nat | k < 2 { TwiceBits(b5, n6, k); }
    forall k: nat | k < 3 { TwiceBits(b4, n5, k); }
    forall k: nat | k < 4 { TwiceBits(b3, n4, k); }
    forall k: nat | k < 5 { TwiceBits(b2, n3, k); }
    forall k: nat | k < 6 { TwiceBits(b1, n2, k); }
    forall k: nat | k < 7 { TwiceBits(b0, n1, k); }
  }

  lemma FromOwnBits(x: bv8)
    ensures FromBits(Sees(x, 1), Sees(x, 2), Sees(x, 4), Sees(x, 8), Sees(x, 16), Sees(x, 32), Sees(x, 64), Sees(x, 128)) == x
  {
  }

  /** Bytes and their bits determine each other. */
  lemma BitsAndBytes(x: bv8, b: Byte)
    ensures ToBits(ByteOf(x)) == x && ByteOf(ToBits(b)) == b
  {
    ByteOfBits(x);
    ByteOfBits(ToBits(b));
    ToBitsInjective(ByteOf(ToBits(b)), b);
  }

  lemma ByteOfBits(x: bv8)
    ensures ToBits(ByteOf(x)) == x
  {
    hide FromBits, BitAt, Sees, Twice;
    BitsOfByte(Sees(x, 1), Sees(x, 2), Sees(x, 4), Sees(x, 8), Sees(x, 16), Sees(x, 32), Sees(x, 64), Sees(x, 128));
    FromOwnBits(x);
  }

  /** The checksum of the forms as the table's field holds it, least significant byte first. */
  function ChecksumField(body: seq<Byte>): (s: seq<Byte>)
    ensures |s| == 4
  {
    var c := CfrChecksum.BigEndian(CfrChecksum.Crc(Bits(body)));
    [ByteOf(c[3]), ByteOf(c[2]), ByteOf(c[1]), ByteOf(c[0])]
  }

  /** The root record: tag, size, version, checksum, forms. */
  function RootRecord(checksum: seq<Byte>, body: seq<Byte>): (s: seq<Byte>)
    requires |checksum| == 4 && ROOT_HEADER + |body| < 0x1_0000_0000
    ensures |s| == ROOT_HEADER + |body|
  {
    PutLe32(TAG_ROOT) + PutLe32(ROOT_HEADER + |body|) + PutLe32(0) + checksum + body
  }

  lemma RootAt(checksum: seq<Byte>, body: seq<Byte>)
    requires |checksum| == 4 && ROOT_HEADER + |body| < 0x1_0000_0000
    ensures var table := RootRecord(checksum, body);
            && Le32(table, 4) == |table| && Le32(table, 8) == 0
            && table[12..16] == checksum && table[16..] == body
  {
    hide PutLe32, Le32;
    var table := RootRecord(checksum, body);
    var a, b, c := PutLe32(TAG_ROOT), PutLe32(ROOT_HEADER + |body|), PutLe32(0);
    assert table[4..8] == b && table[8..12] == c;
    Le32Congruent(table, 4, b, 0);
    Le32Congruent(table, 8, c, 0);
  }

  /** The field is compared as a number: it matches the forms' checksum exactly when it holds its bytes. */
  lemma FieldMatches(table: seq<Byte>)
    requires |table| >= ROOT_HEADER
    ensures Intact(table) <==> table[12..16] == ChecksumField(table[ROOT_HEADER..])
  {
    hide ToBits, ByteOf, CfrChecksum.BigEndian, CfrChecksum.CrcFrom, CfrChecksum.Pack;
    var crc := CfrChecksum.Crc(Bits(table[ROOT_HEADER..]));
    var big := CfrChecksum.BigEndian(crc);
    var field := table[12..16];
    assert field[0] == table[12] && field[1] == table[13] && field[2] == table[14] && field[3] == table[15];
    CfrChecksum.BytesWord(crc);
    if Intact(table) {
      CfrChecksum.WordBytes([ToBits(table[15]), ToBits(table[14]), ToBits(table[13]), ToBits(table[12])]);
      BitsAndBytes(0, table[12]);
      BitsAndBytes(0, table[13]);
      BitsAndBytes(0, table[14]);
      BitsAndBytes(0, table[15]);
      assert field == ChecksumField(table[ROOT_HEADER..]);
    } else if field == ChecksumField(table[ROOT_HEADER..]) {
      BitsAndBytes(big[0], 0);
      BitsAndBytes(big[1], 0);
      BitsAndBytes(big[2], 0);
      BitsAndBytes(big[3], 0);
      assert false;
    }
  }

  function EncodeEach(forms: seq<Item>): (r: seq<seq<Byte>>)
    requires ValidForms(forms)
    ensures |r| == |forms|
  {
    seq(|forms|, i requires 0 <= i < |forms| => assert forms[i] in forms; Encode(forms[i]))
  }

  /**
   * A table as coreboot writes it is accepted and split into exactly its forms; with any
   * other four bytes in the place of the checksum it is refused.
   */
  lemma TableAccepted(checksum: seq<Byte>, forms: seq<Item>, room: nat)
    requires |checksum| == 4 && ValidForms(forms) && |forms| <= room
    requires ROOT_HEADER + |EncodeAll(forms)| < 0x1_0000_0000
    ensures Outcome(RootRecord(checksum, EncodeAll(forms)), room) ==
            if checksum == ChecksumField(EncodeAll(forms)) then Parsed(EncodeEach(forms)) else CrcError
  {
    hide Encode, EncodeAll, Valid, Intact, SplitForms, ChecksumField, RootRecord, Le32;
    var body := EncodeAll(forms);
    var table := RootRecord(checksum, body);
    RootAt(checksum, body);
    FieldMatches(table);
    SplitEncoded(table, ROOT_HEADER, room, forms);
    var r := SplitForms(table, ROOT_HEADER, room);
    assert r.hobs == EncodeEach(forms);
  }

  /**
   * A table that passed the checks, with its forms then changed within any four
   * consecutive bytes, never passes them again.
   */
  lemma CorruptFormsRejected(table: seq<Byte>, bad: seq<Byte>, i: nat)
    requires |table| == |bad| >= ROOT_HEADER && Intact(table)
    requires ROOT_HEADER <= i < |table| && table != bad
    requires forall k :: 0 <= k < |table| && !(i <= k < i + 4) ==> table[k] == bad[k]
    ensures !Intact(bad)
  {
    hide CfrChecksum.CrcFrom, CfrChecksum.Pack, ToBits;
    var s, t := Bits(table[ROOT_HEADER..]), Bits(bad[ROOT_HEADER..]);
    var k :| 0 <= k < |table| && table[k] != bad[k];
    var j := k - ROOT_HEADER;
    assert s[j] == ToBits(table[k]) && t[j] == ToBits(bad[k]);
    if s[j] == t[j] {
      ToBitsInjective(table[k], bad[k]);
    }
    CfrChecksum.BurstDetected(s, t, i - ROOT_HEADER);
  }
}
