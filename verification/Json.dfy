/**
 * Compact JSON text and a reader for it (RFC 8259): strings with the escapes of
 * section 7, integers without leading zeros, arrays, objects with ordered members.
 * Characters stand for the bytes of a CHAR8 string.
 */
module Json {

  import opened Bytes

  datatype Value =
    | Str(text: string)
    | Num(number: int)
    | Arr(items: seq<Value>)
    | Obj(members: seq<Member>)

  datatype Member = Member(name: string, value: Value)

  // ----- printing

  predicate IsControl(c: char) {
    c < ' '
  }

  function EscapeChar(c: char): string {
    if c == '"' || c == '\\' then ['\\', c] else [c]
  }

  function Escape(s: string): string {
    if s == [] then [] else EscapeChar(s[0]) + Escape(s[1..])
  }

  function Digit(d: nat): char
    requires d < 10
  {
    '0' + d as char
  }

  function PrintNat(n: nat): (s: string)
    ensures s != []
  {
    if n < 10 then [Digit(n)] else PrintNat(n / 10) + [Digit(n % 10)]
  }

  function PrintInt(n: int): string {
    if n < 0 then ['-'] + PrintNat(-n) else PrintNat(n)
  }

  function Print(v: Value): (s: string)
    ensures s != []
    decreases v, 0
  {
    match v
    case Str(t) => ['"'] + Escape(t) + ['"']
    case Num(n) => assert PrintInt(n) != []; PrintInt(n)
    case Arr(items) => ['['] + PrintItems(items) + [']']
    case Obj(members) => ['{'] + PrintMembers(members) + ['}']
  }

  function PrintItems(items: seq<Value>): string
    decreases items
  {
    if items == [] then []
    else if |items| == 1 then Print(items[0])
    else Print(items[0]) + [','] + PrintItems(items[1..])
  }

  function PrintMember(m: Member): string
    decreases m
  {
    ['"'] + m.name + ['"', ':'] + Print(m.value)
  }

  function PrintMembers(members: seq<Member>): string
    decreases members
  {
    if members == [] then []
    else if |members| == 1 then PrintMember(members[0])
    else PrintMember(members[0]) + [','] + PrintMembers(members[1..])
  }

  /** One more member goes behind a comma. */
  lemma {:induction false} PrintMembersSnoc(ms: seq<Member>, m: Member)
    requires ms != []
    ensures PrintMembers(ms + [m]) == PrintMembers(ms) + ([','] + PrintMember(m))
    decreases |ms|
  {
    hide PrintMember;
    if |ms| == 1 {
      assert (ms + [m])[1..] == [m];
    } else {
      assert (ms + [m])[1..] == ms[1..] + [m];
      PrintMembersSnoc(ms[1..], m);
    }
  }

  // ----- what can be printed

  /** No character that would need an escape. */
  predicate PlainName(s: string) {
    forall c <- s :: !IsControl(c) && c != '"' && c != '\\'
  }

  predicate NoControls(s: string) {
    forall c <- s :: !IsControl(c)
  }

  predicate Printable(v: Value) {
    match v
    case Str(t) => NoControls(t)
    case Num(_) => true
    case Arr(items) => forall i <- items :: Printable(i)
    case Obj(members) => forall m <- members :: PrintableMember(m)
  }

  predicate PrintableMember(m: Member) {
    PlainName(m.name) && Printable(m.value)
  }

  // ----- reading

  datatype Got<T> = Got(value: T, rest: string)

  function Unescape(c: char): Option<char> {
    if c == '"' || c == '\\' || c == '/' then Some(c)
    else if c == 'b' then Some(8 as char)
    else if c == 'f' then Some(12 as char)
    else if c == 'n' then Some(10 as char)
    else if c == 'r' then Some(13 as char)
    else if c == 't' then Some(9 as char)
    else None
  }

  function HexDigit(c: char): Option<nat> {
    if '0' <= c <= '9' then Some((c - '0') as nat)
    else if 'a' <= c <= 'f' then Some((c - 'a') as nat + 10)
    else if 'A' <= c <= 'F' then Some((c - 'A') as nat + 10)
    else None
  }

  /** The value of a backslash-u escape, where it is a character a CHAR8 string can hold. */
  function CodePoint(s: string): Option<char>
    requires |s| == 4
  {
    var a, b, c, d := HexDigit(s[0]), HexDigit(s[1]), HexDigit(s[2]), HexDigit(s[3]);
    if a.None? || b.None? || c.None? || d.None? then None
    else
      var n := ((a.value * 16 + b.value) * 16 + c.value) * 16 + d.value;
      if n < 256 then Some(n as char) else None
  }

  /** The characters up to the closing quote (section 7 of RFC 8259). */
  function ReadChars(s: string): (r: Option<Got<string>>)
    ensures r.Some? ==> |r.value.rest| < |s|
    decreases |s|
  {
    if s == [] then None
    else if s[0] == '"' then Some(Got([], s[1..]))
    else if IsControl(s[0]) then None
    else if s[0] != '\\' then Cons(s[0], ReadChars(s[1..]))
    else if |s| < 2 then None
    else if s[1] == 'u' then
      if |s| < 6 then None
      else
        var c := CodePoint(s[2..6]);
        if c.None? then None else Cons(c.value, ReadChars(s[6..]))
    else
      var c := Unescape(s[1]);
      if c.None? then None else Cons(c.value, ReadChars(s[2..]))
  }

  function Cons(c: char, g: Option<Got<string>>): (r: Option<Got<string>>)
    ensures r.Some? <==> g.Some?
    ensures r.Some? ==> r.value.rest == g.value.rest
  {
    if g.None? then None else Some(Got([c] + g.value.value, g.value.rest))
  }

  predicate IsDigit(c: char) {
    '0' <= c <= '9'
  }

  function ReadDigits(s: string, acc: nat): (r: Got<nat>)
    ensures |r.rest| <= |s|
    decreases |s|
  {
    if s != [] && IsDigit(s[0]) then ReadDigits(s[1..], 10 * acc + (s[0] - '0') as nat) else Got(acc, s)
  }

  function ReadNat(s: string): (r: Option<Got<nat>>)
    ensures r.Some? ==> |r.value.rest| < |s|
  {
    if s == [] || !IsDigit(s[0]) then None
    else if s[0] == '0' && |s| > 1 && IsDigit(s[1]) then None
    else Some(ReadDigits(s[1..], (s[0] - '0') as nat))
  }

  function ReadValue(s: string): (r: Option<Got<Value>>)
    ensures r.Some? ==> |r.value.rest| < |s|
    decreases |s|, 0
  {
    if s == [] then None
    else if s[0] == '"' then
      var t := ReadChars(s[1..]);
      if t.None? then None else Some(Got(Str(t.value.value), t.value.rest))
    else if s[0] == '-' then
      var n := ReadNat(s[1..]);
      if n.None? then None else
        var magnitude: int := n.value.value;
        Some(Got(Num(-magnitude), n.value.rest))
    else if IsDigit(s[0]) then
      var n := ReadNat(s);
      if n.None? then None else Some(Got(Num(n.value.value), n.value.rest))
    else if s[0] == '[' then
      if |s| > 1 && s[1] == ']' then Some(Got(Arr([]), s[2..]))
      else
        var a := ReadItems(s[1..]);
        if a.None? then None else Some(Got(Arr(a.value.value), a.value.rest))
    else if s[0] == '{' then
      if |s| > 1 && s[1] == '}' then Some(Got(Obj([]), s[2..]))
      else
        var m := ReadMembers(s[1..]);
        if m.None? then None else Some(Got(Obj(m.value.value), m.value.rest))
    else None
  }

  function ReadItems(s: string): (r: Option<Got<seq<Value>>>)
    ensures r.Some? ==> |r.value.rest| < |s|
    decreases |s|, 1
  {
    var v := ReadValue(s);
    if v.None? || v.value.rest == [] then None
    else if v.value.rest[0] == ']' then Some(Got([v.value.value], v.value.rest[1..]))
    else if v.value.rest[0] != ',' then None
    else
      var more := ReadItems(v.value.rest[1..]);
      if more.None? then None else Some(Got([v.value.value] + more.value.value, more.value.rest))
  }

  function ReadMember(s: string): (r: Option<Got<Member>>)
    ensures r.Some? ==> |r.value.rest| < |s|
    decreases |s|, 1
  {
    if s == [] || s[0] != '"' then None
    else
      var name := ReadChars(s[1..]);
      if name.None? || name.value.rest == [] || name.value.rest[0] != ':' then None
      else
        var v := ReadValue(name.value.rest[1..]);
        if v.None? then None else Some(Got(Member(name.value.value, v.value.value), v.value.rest))
  }

  function ReadMembers(s: string): (r: Option<Got<seq<Member>>>)
    ensures r.Some? ==> |r.value.rest| < |s|
    decreases |s|, 2
  {
    var m := ReadMember(s);
    if m.None? || m.value.rest == [] then None
    else if m.value.rest[0] == '}' then Some(Got([m.value.value], m.value.rest[1..]))
    else if m.value.rest[0] != ',' then None
    else
      var more := ReadMembers(m.value.rest[1..]);
      if more.None? then None else Some(Got([m.value.value] + more.value.value, more.value.rest))
  }

  /** A whole document. */
  function Parse(s: string): Option<Value> {
    var v := ReadValue(s);
    if v.Some? && v.value.rest == [] then Some(v.value.value) else None
  }

  // ----- reading back what was printed

  lemma ReadEscapedChar(c: char, tail: string)
    requires !IsControl(c)
    ensures ReadChars(EscapeChar(c) + tail) == Cons(c, ReadChars(tail))
  {
    var s := EscapeChar(c) + tail;
    if c == '"' || c == '\\' {
      assert s[0] == '\\' && s[1] == c && s[2..] == tail;
    } else {
      assert s[0] == c && s[1..] == tail;
    }
  }

  lemma {:induction false} ReadEscaped(t: string, rest: string)
    requires NoControls(t)
    ensures ReadChars(Escape(t) + (['"'] + rest)) == Some(Got(t, rest))
    decreases |t|
  {
    var q := ['"'] + rest;
    if t == [] {
      assert Escape(t) + q == q;
      assert q[1..] == rest;
    } else {
      hide ReadChars, EscapeChar;
      ReadEscaped(t[1..], rest);
      assert t[0] in t;
      assert Escape(t) + q == EscapeChar(t[0]) + (Escape(t[1..]) + q);
      ReadEscapedChar(t[0], Escape(t[1..]) + q);
      assert [t[0]] + t[1..] == t;
    }
  }

  lemma {:induction false} ReadPlain(t: string, rest: string)
    requires PlainName(t)
    ensures ReadChars(t + (['"'] + rest)) == Some(Got(t, rest))
    decreases |t|
  {
    var q := ['"'] + rest;
    if t == [] {
      assert t + q == q && q[1..] == rest;
    } else {
      ReadPlain(t[1..], rest);
      assert t[0] in t;
      assert (t + q)[0] == t[0] && (t + q)[1..] == t[1..] + q;
      assert [t[0]] + t[1..] == t;
    }
  }

  /** Text that cannot continue a number. */
  predicate EndsNumber(rest: string) {
    rest == [] || !IsDigit(rest[0])
  }

  lemma DigitValue(d: nat)
    requires d < 10
    ensures IsDigit(Digit(d)) && (Digit(d) - '0') as nat == d && (Digit(d) == '0' <==> d == 0)
  {
  }

  /** The digits of a printed number are taken in one by one, whatever follows. */
  lemma {:induction false} ReadDigitsPrefix(n: nat, rest: string)
    ensures IsDigit(PrintNat(n)[0]) && (n != 0 ==> PrintNat(n)[0] != '0')
    ensures ReadDigits(PrintNat(n)[1..] + rest, (PrintNat(n)[0] - '0') as nat) == ReadDigits(rest, n)
    decreases n
  {
    if n < 10 {
      DigitValue(n);
      assert PrintNat(n)[1..] + rest == rest;
    } else {
      var d := Digit(n % 10);
      DigitValue(n % 10);
      var p := PrintNat(n / 10);
      ReadDigitsPrefix(n / 10, [d] + rest);
      assert PrintNat(n)[1..] + rest == p[1..] + ([d] + rest);
      assert ([d] + rest)[1..] == rest;
    }
  }

  lemma ReadNatOf(n: nat, rest: string)
    requires EndsNumber(rest)
    ensures ReadNat(PrintNat(n) + rest) == Some(Got(n, rest))
    ensures IsDigit(PrintNat(n)[0])
  {
    ReadDigitsPrefix(n, rest);
    var s := PrintNat(n) + rest;
    assert s[0] == PrintNat(n)[0] && s[1..] == PrintNat(n)[1..] + rest;
    assert n == 0 ==> s[1..] == rest;
  }

  lemma ReadPrintedStr(t: string, rest: string)
    requires NoControls(t)
    ensures ReadValue(Print(Str(t)) + rest) == Some(Got(Str(t), rest))
  {
    hide ReadChars, Escape;
    var s := Print(Str(t)) + rest;
    assert s[0] == '"' && s[1..] == Escape(t) + (['"'] + rest);
    ReadEscaped(t, rest);
  }

  lemma ReadPrintedNum(n: int, rest: string)
    requires EndsNumber(rest)
    ensures ReadValue(Print(Num(n)) + rest) == Some(Got(Num(n), rest))
  {
    hide ReadNat, PrintNat;
    var s := Print(Num(n)) + rest;
    if n < 0 {
      assert s[0] == '-' && s[1..] == PrintNat(-n) + rest;
      ReadNatOf(-n, rest);
    } else {
      ReadNatOf(n, rest);
      assert s[0] == PrintNat(n)[0];
    }
  }

  lemma {:induction false} ReadPrinted(v: Value, rest: string)
    requires Printable(v) && EndsNumber(rest)
    ensures ReadValue(Print(v) + rest) == Some(Got(v, rest))
    decreases v, 0
  {
    match v {
      case Str(t) => ReadPrintedStr(t, rest);
      case Num(n) => ReadPrintedNum(n, rest);
      case Arr(items) =>
        if items != [] {
          ReadPrintedItems(items, rest);
        }
        ReadArr(items, rest);
      case Obj(members) =>
        if members != [] {
          ReadPrintedMembers(members, rest);
        }
        ReadObj(members, rest);
    }
  }

  lemma ReadArr(items: seq<Value>, rest: string)
    requires items != [] ==> ReadItems(PrintItems(items) + ([']'] + rest)) == Some(Got(items, rest))
    ensures ReadValue(Print(Arr(items)) + rest) == Some(Got(Arr(items), rest))
  {
    hide ReadItems, PrintItems;
    var s := Print(Arr(items)) + rest;
    assert s[0] == '[' && s[1..] == PrintItems(items) + ([']'] + rest);
    if items == [] {
      PrintNothing();
      assert s[1] == ']' && s[2..] == rest;
    } else {
      PrintedItemsStart(items);
      assert s[1] == PrintItems(items)[0];
    }
  }

  lemma ReadObj(members: seq<Member>, rest: string)
    requires members != [] ==> ReadMembers(PrintMembers(members) + (['}'] + rest)) == Some(Got(members, rest))
    ensures ReadValue(Print(Obj(members)) + rest) == Some(Got(Obj(members), rest))
  {
    hide ReadMembers, PrintMembers;
    var s := Print(Obj(members)) + rest;
    assert s[0] == '{' && s[1..] == PrintMembers(members) + (['}'] + rest);
    if members == [] {
      PrintNothing();
      assert s[1] == '}' && s[2..] == rest;
    } else {
      PrintedMembersStart(members);
      assert s[1] == PrintMembers(members)[0];
    }
  }

  lemma PrintNothing()
    ensures PrintItems([]) == [] && PrintMembers([]) == []
  {
  }

  lemma PrintedMembersStart(members: seq<Member>)
    requires members != []
    ensures PrintMembers(members) != [] && PrintMembers(members)[0] == '"'
  {
    assert PrintMember(members[0])[0] == '"';
  }

  lemma PrintedItemsStart(items: seq<Value>)
    requires items != []
    ensures PrintItems(items) != [] && PrintItems(items)[0] != ']'
  {
    PrintStart(items[0]);
    assert PrintItems(items)[0] == Print(items[0])[0];
  }

  lemma PrintStart(v: Value)
    ensures Print(v)[0] != ']'
  {
    if v.Num? {
      ReadDigitsPrefix(if v.number < 0 then -v.number else v.number, []);
    }
  }

  lemma {:induction false} ReadPrintedItems(items: seq<Value>, rest: string)
    requires items != [] && forall i <- items :: Printable(i)
    ensures ReadItems(PrintItems(items) + ([']'] + rest)) == Some(Got(items, rest))
    decreases items
  {
    hide Print, ReadValue, Printable;
    var q := [']'] + rest;
    assert items[0] in items;
    if |items| == 1 {
      ReadPrinted(items[0], q);
      assert q[1..] == rest && items == [items[0]];
    } else {
      var more := PrintItems(items[1..]) + q;
      assert PrintItems(items) + q == Print(items[0]) + ([','] + more);
      ReadPrinted(items[0], [','] + more);
      ReadPrintedItems(items[1..], rest);
      assert ([','] + more)[1..] == more && items == [items[0]] + items[1..];
    }
  }

  lemma {:induction false} ReadPrintedMember(m: Member, rest: string)
    requires PrintableMember(m) && EndsNumber(rest)
    ensures ReadMember(PrintMember(m) + rest) == Some(Got(m, rest))
    decreases m
  {
    var s := PrintMember(m) + rest;
    var tail := [':'] + (Print(m.value) + rest);
    assert s[1..] == m.name + (['"'] + tail);
    ReadPlain(m.name, tail);
    assert tail[1..] == Print(m.value) + rest;
    ReadPrinted(m.value, rest);
  }

  lemma {:induction false} ReadPrintedMembers(members: seq<Member>, rest: string)
    requires members != [] && forall m <- members :: PrintableMember(m)
    ensures ReadMembers(PrintMembers(members) + (['}'] + rest)) == Some(Got(members, rest))
    decreases members
  {
    hide PrintMember, ReadMember, PrintableMember;
    var q := ['}'] + rest;
    assert members[0] in members;
    if |members| == 1 {
      ReadPrintedMember(members[0], q);
      assert q[1..] == rest && members == [members[0]];
    } else {
      var more := PrintMembers(members[1..]) + q;
      assert PrintMembers(members) + q == PrintMember(members[0]) + ([','] + more);
      ReadPrintedMember(members[0], [','] + more);
      ReadPrintedMembers(members[1..], rest);
      assert ([','] + more)[1..] == more && members == [members[0]] + members[1..];
    }
  }

  /** Reading a printed value gives the value back, members in order. */
  lemma ParsePrint(v: Value)
    requires Printable(v)
    ensures Parse(Print(v)) == Some(v)
  {
    ReadPrinted(v, []);
    assert Print(v) + [] == Print(v);
  }

  // ----- no text for a value is shorter than the printed one

  lemma {:induction false} EscapeLonger(t: string)
    ensures |t| <= |Escape(t)|
    decreases |t|
  {
    if t != [] {
      EscapeLonger(t[1..]);
    }
  }

  lemma {:induction false} CharsCost(s: string)
    requires ReadChars(s).Some?
    ensures |Escape(ReadChars(s).value.value)| + 1 + |ReadChars(s).value.rest| <= |s|
    decreases |s|
  {
    if s[0] != '"' {
      var skip := if s[0] != '\\' then 1 else if s[1] == 'u' then 6 else 2;
      CharsCost(s[skip..]);
      var t := ReadChars(s).value.value;
      assert t[1..] == ReadChars(s[skip..]).value.value;
      assert |Escape(t)| == |EscapeChar(t[0])| + |Escape(t[1..])|;
    }
  }

  lemma NatCost(acc: nat, d: nat)
    requires d < 10
    ensures |PrintNat(10 * acc + d)| <= |PrintNat(acc)| + 1
  {
    if acc > 0 {
      assert (10 * acc + d) / 10 == acc;
    }
  }

  lemma {:induction false} DigitsCost(s: string, acc: nat)
    ensures |PrintNat(ReadDigits(s, acc).value)| + |ReadDigits(s, acc).rest| <= |PrintNat(acc)| + |s|
    decreases |s|
  {
    if s != [] && IsDigit(s[0]) {
      var d := (s[0] - '0') as nat;
      NatCost(acc, d);
      DigitsCost(s[1..], 10 * acc + d);
    }
  }

  lemma NatReadCost(s: string)
    requires ReadNat(s).Some?
    ensures |PrintNat(ReadNat(s).value.value)| + |ReadNat(s).value.rest| <= |s|
  {
    DigitsCost(s[1..], (s[0] - '0') as nat);
  }

  lemma {:induction false} ValueCost(s: string)
    requires ReadValue(s).Some?
    ensures |Print(ReadValue(s).value.value)| + |ReadValue(s).value.rest| <= |s|
    decreases |s|, 0
  {
    hide PrintItems, PrintMembers, Escape, PrintNat, ReadChars, ReadNat, ReadItems, ReadMembers;
    if s[0] == '"' {
      CharsCost(s[1..]);
    } else if s[0] == '-' {
      NatReadCost(s[1..]);
      NegationCost(ReadNat(s[1..]).value.value);
    } else if IsDigit(s[0]) {
      NatReadCost(s);
    } else if s[0] == '[' {
      PrintNothing();
      if !(|s| > 1 && s[1] == ']') {
        ItemsCost(s[1..]);
      }
    } else {
      PrintNothing();
      if !(|s| > 1 && s[1] == '}') {
        MembersCost(s[1..]);
      }
    }
  }

  lemma NegationCost(n: int)
    requires n >= 0
    ensures |PrintInt(-n)| <= 1 + |PrintNat(n)|
  {
  }

  lemma {:induction false} ItemsCost(s: string)
    requires ReadItems(s).Some?
    ensures |PrintItems(ReadItems(s).value.value)| + 1 + |ReadItems(s).value.rest| <= |s|
    decreases |s|, 1
  {
    hide Print, ReadValue;
    ValueCost(s);
    var v := ReadValue(s).value;
    if v.rest[0] != ']' {
      ItemsCost(v.rest[1..]);
      assert ReadItems(s).value.value[1..] == ReadItems(v.rest[1..]).value.value;
    }
  }

  lemma {:induction false} MemberCost(s: string)
    requires ReadMember(s).Some?
    ensures |PrintMember(ReadMember(s).value.value)| + |ReadMember(s).value.rest| <= |s|
    decreases |s|, 1
  {
    hide Print, ReadValue, ReadChars, Escape;
    CharsCost(s[1..]);
    var name := ReadChars(s[1..]).value;
    EscapeLonger(name.value);
    ValueCost(name.rest[1..]);
  }

  lemma {:induction false} MembersCost(s: string)
    requires ReadMembers(s).Some?
    ensures |PrintMembers(ReadMembers(s).value.value)| + 1 + |ReadMembers(s).value.rest| <= |s|
    decreases |s|, 2
  {
    hide PrintMember, ReadMember;
    MemberCost(s);
    var m := ReadMember(s).value;
    if m.rest[0] != '}' {
      MembersCost(m.rest[1..]);
      assert ReadMembers(s).value.value[1..] == ReadMembers(m.rest[1..]).value.value;
    }
  }

  /** The printed text is a shortest one: every text that reads as v is at least as long. */
  lemma PrintIsShortest(s: string)
    requires Parse(s).Some?
    ensures |Print(Parse(s).value)| <= |s|
  {
    ValueCost(s);
  }
}
