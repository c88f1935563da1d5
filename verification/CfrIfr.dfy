/**
 * IFR opcodes emitted for CFR options (SetupMenuCfr.c in patch 0011), and what a
 * browser makes of them (section 33.2.5 of UEFI 2.10): every opcode starts with a code
 * byte and a byte holding a 7-bit length and the scope bit; a scope is closed by END; a
 * conditional's first nested object is its expression, which is one opcode, or, when
 * that opcode opens a scope, everything up to its END in reverse Polish order.
 */
module CfrIfr {
  import opened Bytes

  const OP_ONE_OF: Byte := 0x05
  const OP_NUMERIC: Byte := 0x07
  const OP_SUPPRESS_IF: Byte := 0x0a
  const OP_EQ_ID_VAL: Byte := 0x12
  const OP_EQ_ID_VAL_LIST: Byte := 0x14
  const OP_NOT: Byte := 0x17
  const OP_GRAY_OUT_IF: Byte := 0x19
  const OP_END: Byte := 0x29
  const OP_TRUE: Byte := 0x46

  const COMPONENT_START := 0x1000

  // ----- opcodes and their bytes

  datatype Op = Op(code: Byte, scope: bool, payload: seq<Byte>) {
    predicate Fits() {
      2 + |payload| <= 0x7f
    }
  }

  /** The bytes the emitter writes: the length goes into a 7-bit field, whatever it is. */
  function OpBytes(o: Op): (s: seq<Byte>)
    ensures |s| == 2 + |o.payload|
  {
    [o.code, (2 + |o.payload|) % 0x80 + (if o.scope then 0x80 else 0)] + o.payload
  }

  function OpsBytes(ops: seq<Op>): seq<Byte> {
    if ops == [] then [] else OpBytes(ops[0]) + OpsBytes(ops[1..])
  }

  /** How a browser reads one opcode off a stream. */
  function ReadOp(s: seq<Byte>): (r: Option<Op>)
    ensures r.Some? ==> 2 <= 2 + |r.value.payload| <= |s|
  {
    if |s| < 2 then None
    else
      var len := s[1] % 0x80;
      if len < 2 || len > |s| then None else Some(Op(s[0], s[1] >= 0x80, s[2..len]))
  }

  function ReadOps(s: seq<Byte>): Option<seq<Op>>
    decreases |s|
  {
    if s == [] then Some([])
    else
      var o := ReadOp(s);
      if o.None? then None
      else
        var rest := ReadOps(s[2 + |o.value.payload|..]);
        if rest.None? then None else Some([o.value] + rest.value)
  }

  /** An opcode is read back as itself exactly when its length fits seven bits. */
  lemma ReadBack(o: Op, rest: seq<Byte>)
    ensures ReadOp(OpBytes(o) + rest) == Some(o) <==> o.Fits()
  {
    var s := OpBytes(o) + rest;
    if o.Fits() {
      assert s[2..2 + |o.payload|] == o.payload;
    }
  }

  lemma ReadFirst(o: Op, rest: seq<Byte>)
    requires o.Fits()
    ensures ReadOps(OpBytes(o) + rest) == if ReadOps(rest).None? then None else Some([o] + ReadOps(rest).value)
  {
    hide OpBytes, ReadOp;
    ReadBack(o, rest);
    assert (OpBytes(o) + rest)[2 + |o.payload|..] == rest;
  }

  /** Opcodes that fit are read back in front of anything. */
  lemma {:induction false} ReadBackAll(ops: seq<Op>, rest: seq<Byte>)
    requires forall o <- ops :: o.Fits()
    ensures ReadOps(OpsBytes(ops) + rest) ==
            if ReadOps(rest).None? then None else Some(ops + ReadOps(rest).value)
    decreases |ops|
  {
    hide OpBytes, ReadOps;
    if ops == [] {
      assert OpsBytes(ops) + rest == rest;
      assert ReadOps(rest).Some? ==> ops + ReadOps(rest).value == ReadOps(rest).value;
    } else {
      var o, more := ops[0], OpsBytes(ops[1..]);
      assert o in ops;
      assert (OpBytes(o) + more) + rest == OpBytes(o) + (more + rest);
      ReadFirst(o, more + rest);
      ReadBackAll(ops[1..], rest);
      assert ReadOps(rest).Some? ==> [o] + (ops[1..] + ReadOps(rest).value) == ops + ReadOps(rest).value;
    }
  }

  lemma {:induction false} OpsBytesAppend(a: seq<Op>, b: seq<Op>)
    ensures OpsBytes(a + b) == OpsBytes(a) + OpsBytes(b)
    decreases |a|
  {
    if a == [] {
      assert a + b == b;
    } else {
      assert (a + b)[1..] == a[1..] + b;
      OpsBytesAppend(a[1..], b);
    }
  }

  function Put16(v: U16): (s: seq<Byte>)
    ensures |s| == 2 && Le16(s[0], s[1]) == v
  {
    [v % 0x100, v / 0x100]
  }

  // ----- what a browser shows

  datatype Seen = Seen(id: U16, hidden: bool, grayed: bool)

  /** An open scope: whether it hides and grays what is inside. */
  datatype Frame = Frame(hides: bool, grays: bool)

  /** The answer a question id stands for, if any; the emitter makes every question four bytes wide. */
  type Answers = U16 -> Option<U32>

  /** What an expression evaluates to: None is the Undefined of a question id that no question carries. */
  type Truth = Option<bool>

  function Negated(t: Truth): Truth {
    if t.None? then None else Some(!t.value)
  }

  function EqualTo(answer: Option<U32>, word: U16): Truth {
    if answer.None? then None else Some(answer.value == word)
  }

  function Within(answer: Option<U32>, words: seq<U16>): Truth {
    if answer.None? then None else Some(answer.value in words)
  }

  function ListOf(s: seq<Byte>, n: nat): seq<U16>
    requires |s| >= 2 * n
  {
    seq(n, i requires 0 <= i < n => Le16(s[2 * i], s[2 * i + 1]))
  }

  /** One expression opcode applied to the operand stack (top first). */
  function Operate(o: Op, stack: seq<Truth>, env: Answers): Option<seq<Truth>> {
    if o.code == OP_TRUE then Some([Some(true)] + stack)
    else if o.code == OP_NOT then
      if stack == [] then None else Some([Negated(stack[0])] + stack[1..])
    else if o.code == OP_EQ_ID_VAL then
      if |o.payload| < 4 then None
      else Some([EqualTo(env(Le16(o.payload[0], o.payload[1])), Le16(o.payload[2], o.payload[3]))] + stack)
    else if o.code == OP_EQ_ID_VAL_LIST then
      if |o.payload| < 4 then None
      else
        var n: nat := Le16(o.payload[2], o.payload[3]);
        if |o.payload| < 4 + 2 * n then None
        else Some([Within(env(Le16(o.payload[0], o.payload[1])), ListOf(o.payload[4..], n))] + stack)
    else None
  }

  datatype Result = Result(value: Truth, used: nat)

  /** The rest of a scoped expression: its value, and how many opcodes it took with its END. */
  function Finish(ops: seq<Op>, stack: seq<Truth>, env: Answers): (r: Option<Result>)
    ensures r.Some? ==> 0 < r.value.used <= |ops|
    decreases |ops|
  {
    if ops == [] then None
    else if ops[0].code == OP_END then
      if |stack| == 1 then Some(Result(stack[0], 1)) else None
    else if ops[0].scope then None
    else
      var s := Operate(ops[0], stack, env);
      if s.None? then None
      else
        var r := Finish(ops[1..], s.value, env);
        if r.None? then None else Some(r.value.(used := r.value.used + 1))
  }

  function Expression(ops: seq<Op>, env: Answers): (r: Option<Result>)
    ensures r.Some? ==> 0 < r.value.used <= |ops|
  {
    if ops == [] then None
    else
      var s := Operate(ops[0], [], env);
      if s.None? || |s.value| != 1 then None
      else if !ops[0].scope then Some(Result(s.value[0], 1))
      else
        var r := Finish(ops[1..], s.value, env);
        if r.None? then None else Some(r.value.(used := r.value.used + 1))
  }

  predicate IsQuestion(o: Op) {
    o.code in {OP_ONE_OF, OP_NUMERIC} && |o.payload| >= 6
  }

  /** The question id comes after the prompt and help string ids. */
  function QuestionId(o: Op): U16
    requires IsQuestion(o)
  {
    Le16(o.payload[4], o.payload[5])
  }

  predicate Any(frames: seq<Frame>, hides: bool) {
    exists f <- frames :: if hides then f.hides else f.grays
  }

  /** The questions a browser finds, in order; None when the scopes do not nest. */
  function Shown(ops: seq<Op>, frames: seq<Frame>, env: Answers): Option<seq<Seen>>
    decreases |ops|
  {
    if ops == [] then (if frames == [] then Some([]) else None)
    else
      var o, rest := ops[0], ops[1..];
      if o.code == OP_END then
        if frames == [] then None else Shown(rest, frames[1..], env)
      else if o.code in {OP_SUPPRESS_IF, OP_GRAY_OUT_IF} then
        var e := Expression(rest, env);
        if e.None? || !o.scope then None
        else
          var holds := e.value.value == Some(true);
          var f := Frame(o.code == OP_SUPPRESS_IF && holds, o.code == OP_GRAY_OUT_IF && holds);
          Shown(rest[e.value.used..], [f] + frames, env)
      else
        var more := Shown(rest, if o.scope then [Frame(false, false)] + frames else frames, env);
        if more.None? then None
        else if IsQuestion(o) then Some([Seen(QuestionId(o), Any(frames, true), Any(frames, false))] + more.value)
        else more
  }

  // ----- what the emitter intends

  function Simple(code: Byte, scope: bool): Op {
    Op(code, scope, [])
  }

  const END := Simple(OP_END, false)

  function Low16(v: U32): U16 {
    v % 0x1_0000
  }

  function QuestionIdOf(objectId: nat): U16 {
    (COMPONENT_START + objectId) % 0x1_0000
  }

  function Values16(values: seq<U32>): (s: seq<Byte>)
    ensures |s| == 2 * |values|
  {
    if values == [] then [] else Values16(values[..|values| - 1]) + Put16(Low16(values[|values| - 1]))
  }

  function ListOp(q: U16, values: seq<U32>): Op {
    Op(OP_EQ_ID_VAL_LIST, true, Put16(q) + Put16(|values| % 0x1_0000) + Values16(values))
  }

  function ZeroOp(q: U16): Op {
    Op(OP_EQ_ID_VAL, true, Put16(q) + Put16(0))
  }

  /** The opening of a dependency: everything up to the end of its expression. */
  function DependencyOps(q: U16, values: seq<U32>): seq<Op> {
    if values != [] then [Simple(OP_SUPPRESS_IF, true), ListOp(q, values), Simple(OP_NOT, false), END]
    else [Simple(OP_SUPPRESS_IF, true), ZeroOp(q), END]
  }

  function FlagOps(code: Byte): seq<Op> {
    [Simple(code, true), Simple(OP_TRUE, false)]
  }

  datatype Dependency = Dependency(objectId: nat, values: seq<U32>)

  /** What HiiLib builds between the conditionals: a question with its options and defaults, or a line of text. */
  datatype Block =
    | Question(op: Op, inner: seq<Op>)
    | Line(op: Op)

  predicate ValidBlock(b: Block) {
    match b
    case Question(op, inner) =>
      && IsQuestion(op) && op.scope && op.Fits()
      && forall o <- inner :: o.Fits() && IsPlain(o)
    case Line(op) => op.Fits() && IsPlain(op)
  }

  /** Neither a scope, nor the end of one, nor a conditional, nor a question. */
  predicate IsPlain(o: Op) {
    !o.scope && o.code !in {OP_END, OP_SUPPRESS_IF, OP_GRAY_OUT_IF} && !IsQuestion(o)
  }

  function BlockOps(b: Block): seq<Op> {
    match b
    case Question(op, inner) => [op] + inner + [END]
    case Line(op) => [op]
  }

  /** One entry of a form: storage first, then the block inside its conditionals. */
  datatype Entry = Entry(
    objectId: nat,
    storage: seq<Op>,
    dependency: Option<Dependency>,
    suppress: bool,
    inactive: bool,
    block: Block
  )

  predicate ValidEntry(e: Entry) {
    && (forall o <- e.storage :: o.Fits() && IsPlain(o))
    && (e.dependency.Some? ==> e.dependency.value.objectId != 0)
    && ValidBlock(e.block)
    && (e.block.Question? ==> QuestionId(e.block.op) == QuestionIdOf(e.objectId))
  }

  function DepOpsOf(e: Entry): seq<Op> {
    if e.dependency.Some? then DependencyOps(QuestionIdOf(e.dependency.value.objectId), e.dependency.value.values) else []
  }

  function FlagsIf(b: bool, code: Byte): seq<Op> {
    if b then FlagOps(code) else []
  }

  function Suppress(e: Entry): seq<Op> {
    FlagsIf(e.suppress, OP_SUPPRESS_IF)
  }

  function Inactive(e: Entry): seq<Op> {
    FlagsIf(e.inactive, OP_GRAY_OUT_IF)
  }

  function EndIf(b: bool): seq<Op> {
    if b then [END] else []
  }

  function EntryOps(e: Entry): seq<Op> {
    e.storage + (DepOpsOf(e) + Suppress(e) + Inactive(e)) + BlockOps(e.block) +
    (EndIf(e.inactive) + EndIf(e.suppress) + EndIf(e.dependency.Some?))
  }

  function FormOps(entries: seq<Entry>): seq<Op> {
    if entries == [] then [] else EntryOps(entries[0]) + FormOps(entries[1..])
  }

  /** A dependency with one value, byte for byte (section 33.3.8.3 of UEFI 2.10). */
  lemma ListIsUefi(q: U16, v: U16)
    ensures OpsBytes(DependencyOps(q, [v])) ==
            [0x0a, 0x82, 0x14, 0x88, q % 0x100, q / 0x100, 1, 0, v % 0x100, v / 0x100, 0x17, 0x02, 0x29, 0x02]
  {
    FourOps(Simple(OP_SUPPRESS_IF, true), ListOp(q, [v]), Simple(OP_NOT, false), END);
    OneValue(q, v);
    hide OpsBytes, ListOp;
    assert OpBytes(Simple(OP_SUPPRESS_IF, true)) == [0x0a, 0x82];
    assert OpBytes(Simple(OP_NOT, false)) == [0x17, 0x02];
    assert OpBytes(END) == [0x29, 0x02];
  }

  lemma OneValue(q: U16, v: U16)
    ensures OpBytes(ListOp(q, [v])) == [0x14, 0x88, q % 0x100, q / 0x100, 1, 0, v % 0x100, v / 0x100]
  {
    assert [v][..0] == [];
    assert Values16([v]) == Put16(v);
  }

  /** A dependency without values, the two conditionals of the flags, and what closes them. */
  lemma OthersAreUefi(q: U16)
    ensures OpsBytes(DependencyOps(q, [])) == [0x0a, 0x82, 0x12, 0x86, q % 0x100, q / 0x100, 0, 0, 0x29, 0x02]
    ensures OpsBytes(FlagOps(OP_SUPPRESS_IF)) == [0x0a, 0x82, 0x46, 0x02]
    ensures OpsBytes(FlagOps(OP_GRAY_OUT_IF)) == [0x19, 0x82, 0x46, 0x02]
  {
    hide OpsBytes;
    ThreeOps(Simple(OP_SUPPRESS_IF, true), ZeroOp(q), END);
    TwoOps(Simple(OP_SUPPRESS_IF, true), Simple(OP_TRUE, false));
    TwoOps(Simple(OP_GRAY_OUT_IF, true), Simple(OP_TRUE, false));
  }

  // ----- the emitter

  /** An opcode handle: raw bytes appended in place. */
  class OpCodeBuffer {
    var bytes: seq<Byte>

    method Append(raw: seq<Byte>)
      modifies this
      ensures bytes == old(bytes) + raw
    {
      bytes := bytes + raw;
    }

    method AppendHeader(code: Byte, scope: bool)
      modifies this
      ensures bytes == old(bytes) + OpBytes(Simple(code, scope))
    {
      Append([code, 2 + (if scope then 0x80 else 0)]);
    }

    /** CfrProduceHiiForFlags. */
    method ProduceForFlags(code: Byte)
      modifies this
      ensures bytes == old(bytes) +
                       (if code in {OP_SUPPRESS_IF, OP_GRAY_OUT_IF} then OpsBytes(FlagOps(code)) else [])
    {
      if code != OP_SUPPRESS_IF && code != OP_GRAY_OUT_IF {
        return;
      }
      TwoOps(Simple(code, true), Simple(OP_TRUE, false));
      AppendHeader(code, true);
      AppendHeader(OP_TRUE, false);
    }

    /** The EQ_ID_VAL_LIST opcode, its value array filled one truncated word at a time. */
    method AppendValueList(q: U16, values: seq<U32>)
      requires values != []
      modifies this
      ensures bytes == old(bytes) + OpBytes(ListOp(q, values))
    {
      var size := 8 + (|values| - 1) * 2;
      var list: seq<Byte> := [];
      for index := 0 to |values|
        invariant list == Values16(values[..index])
      {
        assert values[..index + 1][..index] == values[..index];
        var v: U16 := values[index] % 0x1_0000;
        list := list + [v % 0x100, v / 0x100];
      }
      assert values[..|values|] == values;
      var raw: seq<Byte> := [OP_EQ_ID_VAL_LIST, size % 0x80 + 0x80] +
                            (Put16(q) + Put16(|values| % 0x1_0000) + list);
      Append(raw);
    }

    /** CfrProduceHiiForDependency. */
    method ProduceForDependency(q: U16, values: seq<U32>)
      modifies this
      ensures bytes == old(bytes) + OpsBytes(DependencyOps(q, values))
    {
      hide OpBytes, ListOp, OpsBytes;
      AppendHeader(OP_SUPPRESS_IF, true);
      if values != [] {
        AppendValueList(q, values);
        AppendHeader(OP_NOT, false);
        AppendHeader(OP_END, false);
        FourOps(Simple(OP_SUPPRESS_IF, true), ListOp(q, values), Simple(OP_NOT, false), END);
      } else {
        AppendZero(q);
        AppendHeader(OP_END, false);
        ThreeOps(Simple(OP_SUPPRESS_IF, true), ZeroOp(q), END);
      }
    }

    method AppendZero(q: U16)
      modifies this
      ensures bytes == old(bytes) + OpBytes(ZeroOp(q))
    {
      Append([OP_EQ_ID_VAL, 6 + 0x80] + (Put16(q) + Put16(0)));
    }

    /** The conditionals in front of a block. */
    method OpenConditionals(e: Entry)
      modifies this
      ensures bytes == old(bytes) + (OpsBytes(DepOpsOf(e)) + OpsBytes(Suppress(e)) + OpsBytes(Inactive(e)))
    {
      hide OpBytes, OpsBytes, DependencyOps, FlagOps;
      OneOp(END);
      if e.dependency.Some? {
        ProduceForDependency(QuestionIdOf(e.dependency.value.objectId), e.dependency.value.values);
      }
      if e.suppress {
        ProduceForFlags(OP_SUPPRESS_IF);
      }
      if e.inactive {
        ProduceForFlags(OP_GRAY_OUT_IF);
      }
    }

    /** One END per conditional behind it. */
    method CloseConditionals(e: Entry)
      modifies this
      ensures bytes == old(bytes) +
        (OpsBytes(EndIf(e.inactive)) + OpsBytes(EndIf(e.suppress)) + OpsBytes(EndIf(e.dependency.Some?)))
    {
      hide OpBytes, OpsBytes;
      OneOp(END);
      if e.inactive {
        AppendHeader(OP_END, false);
      }
      if e.suppress {
        AppendHeader(OP_END, false);
      }
      if e.dependency.Some? {
        AppendHeader(OP_END, false);
      }
    }

    /** The shape shared by forms, numeric options and comments: storage, conditionals, block, ENDs. */
    method ProcessEntry(e: Entry)
      modifies this
      ensures bytes == old(bytes) + OpsBytes(EntryOps(e))
    {
      hide OpsBytes, EntryOps, DepOpsOf, Suppress, Inactive, EndIf, BlockOps;
      Append(OpsBytes(e.storage));
      OpenConditionals(e);
      Append(OpsBytes(BlockOps(e.block)));
      CloseConditionals(e);
      EntryBytes(e);
    }

    /** A form: every entry in turn. */
    method ProcessForm(entries: seq<Entry>)
      modifies this
      ensures bytes == old(bytes) + OpsBytes(FormOps(entries))
    {
      hide EntryOps, OpBytes;
      assert entries[..0] == [];
      for i := 0 to |entries|
        invariant bytes == old(bytes) + OpsBytes(FormOps(entries[..i]))
      {
        ProcessEntry(entries[i]);
        FormOpsSnoc(entries[..i], entries[i]);
        OpsBytesAppend(FormOps(entries[..i]), EntryOps(entries[i]));
        assert entries[..i + 1] == entries[..i] + [entries[i]];
      }
      assert entries[..|entries|] == entries;
    }
  }

  lemma {:induction false} FormOpsSnoc(entries: seq<Entry>, e: Entry)
    ensures FormOps(entries + [e]) == FormOps(entries) + EntryOps(e)
    decreases |entries|
  {
    hide EntryOps;
    if entries == [] {
      assert [e][1..] == [] && entries + [e] == [e];
    } else {
      assert (entries + [e])[1..] == entries[1..] + [e];
      FormOpsSnoc(entries[1..], e);
    }
  }

  lemma OneOp(a: Op)
    ensures OpsBytes([a]) == OpBytes(a) && OpsBytes([]) == []
  {
    assert [a][1..] == [];
    assert OpBytes(a) + [] == OpBytes(a);
  }

  lemma EntryBytes(e: Entry)
    ensures OpsBytes(EntryOps(e)) ==
      OpsBytes(e.storage) +
      (OpsBytes(DepOpsOf(e)) + OpsBytes(Suppress(e)) + OpsBytes(Inactive(e))) +
      OpsBytes(BlockOps(e.block)) +
      (OpsBytes(EndIf(e.inactive)) + OpsBytes(EndIf(e.suppress)) + OpsBytes(EndIf(e.dependency.Some?)))
  {
    hide OpsBytes, DepOpsOf, Suppress, Inactive, BlockOps, EndIf;
    var open := DepOpsOf(e) + Suppress(e) + Inactive(e);
    var close := EndIf(e.inactive) + EndIf(e.suppress) + EndIf(e.dependency.Some?);
    OpsBytesAppend(DepOpsOf(e) + Suppress(e), Inactive(e));
    OpsBytesAppend(DepOpsOf(e), Suppress(e));
    OpsBytesAppend(EndIf(e.inactive) + EndIf(e.suppress), EndIf(e.dependency.Some?));
    OpsBytesAppend(EndIf(e.inactive), EndIf(e.suppress));
    OpsBytesAppend(e.storage, open);
    OpsBytesAppend(e.storage + open, BlockOps(e.block));
    OpsBytesAppend(e.storage + open + BlockOps(e.block), close);
  }

  lemma TwoOps(a: Op, b: Op)
    ensures OpsBytes([a, b]) == OpBytes(a) + OpBytes(b)
  {
    assert [a, b][1..] == [b];
    OneOp(b);
  }

  lemma ThreeOps(a: Op, b: Op, c: Op)
    ensures OpsBytes([a, b, c]) == OpBytes(a) + OpBytes(b) + OpBytes(c)
  {
    assert [a, b, c][1..] == [b, c];
    TwoOps(b, c);
  }

  lemma FourOps(a: Op, b: Op, c: Op, d: Op)
    ensures OpsBytes([a, b, c, d]) == OpBytes(a) + OpBytes(b) + OpBytes(c) + OpBytes(d)
  {
    assert [a, b, c, d][1..] == [b, c, d];
    ThreeOps(b, c, d);
  }

  // ----- the stream nests, and hides what it should

  /** The answers a dependency hides at: outside its list, or zero when there is no list. */
  predicate Outside(d: Dependency, answer: U32) {
    if d.values == [] then answer == 0 else answer !in d.values
  }

  /** The answers its opcodes hide at: the values have become 16-bit words. */
  predicate OpsOutside(d: Dependency, answer: U32) {
    if d.values == [] then answer == 0 else forall v <- d.values :: Low16(v) != answer
  }

  /** What its opcodes ask for: the object has become a question id. */
  predicate OpsHide(d: Dependency, env: Answers) {
    var answer := env(QuestionIdOf(d.objectId));
    answer.Some? && OpsOutside(d, answer.value)
  }

  /** The list fits the 7-bit length of its opcode. */
  predicate ListFits(e: Entry) {
    e.dependency.Some? ==> |e.dependency.value.values| <= 60
  }

  lemma {:induction false} ValuesRead(values: seq<U32>, i: nat)
    requires i < |values|
    ensures var s := Values16(values); Le16(s[2 * i], s[2 * i + 1]) == Low16(values[i])
    decreases |values|
  {
    var n := |values| - 1;
    if i < n {
      ValuesRead(values[..n], i);
    }
  }

  function Listed(values: seq<U32>, answer: Option<U32>): Truth {
    if answer.None? then None else Some(exists v <- values :: Low16(v) == answer.value)
  }

  lemma ListMeans(q: U16, values: seq<U32>, env: Answers)
    requires |values| < 0x1_0000
    ensures ListOp(q, values).scope
    ensures Operate(ListOp(q, values), [], env) == Some([Listed(values, env(q))])
  {
    hide Values16, ListOf, Low16;
    ListPayload(q, values);
    if env(q).Some? {
      ListHolds(values, env(q).value);
    }
    var b := Listed(values, env(q));
    assert [b] + [] == [b];
  }

  lemma ListPayload(q: U16, values: seq<U32>)
    requires |values| < 0x1_0000
    ensures var p := ListOp(q, values).payload;
            && |p| == 4 + 2 * |values| && p[4..] == Values16(values)
            && Le16(p[0], p[1]) == q && Le16(p[2], p[3]) == |values|
  {
    hide Values16, Put16, Le16;
    var a, b, s := Put16(q), Put16(|values|), Values16(values);
    var p := ListOp(q, values).payload;
    assert p == a + b + s;
    assert p[0] == a[0] && p[1] == a[1] && p[2] == b[0] && p[3] == b[1];
    assert p[4..] == s;
  }

  lemma ListHolds(values: seq<U32>, answer: U32)
    ensures answer in ListOf(Values16(values), |values|) <==> exists v <- values :: Low16(v) == answer
  {
    hide Values16, Low16;
    var list := ListOf(Values16(values), |values|);
    forall i | 0 <= i < |values|
      ensures list[i] == Low16(values[i])
    {
      ValuesRead(values, i);
    }
    if v :| v in values && Low16(v) == answer {
      var i :| 0 <= i < |values| && values[i] == v;
      assert list[i] == answer;
    }
    if answer in list {
      var i :| 0 <= i < |list| && list[i] == answer;
      assert values[i] in values;
    }
  }

  lemma ShownDependency(d: Dependency, rest: seq<Op>, frames: seq<Frame>, env: Answers)
    requires |d.values| <= 60
    ensures Shown(DependencyOps(QuestionIdOf(d.objectId), d.values) + rest, frames, env) ==
            Shown(rest, [Frame(OpsHide(d, env), false)] + frames, env)
  {
    hide Operate, ListOp, ZeroOp;
    var q := QuestionIdOf(d.objectId);
    var ops := DependencyOps(q, d.values) + rest;
    if d.values == [] {
      ZeroMeans(q, env);
      assert ops[1..] == [ZeroOp(q), END] + rest;
      ScopedZero(q, rest, env);
      assert ops[1..][2..] == rest;
    } else {
      ListMeans(q, d.values, env);
      assert ops[1..] == [ListOp(q, d.values), Simple(OP_NOT, false), END] + rest;
      ScopedNot(ListOp(q, d.values), Listed(d.values, env(q)), rest, env);
      assert ops[1..][3..] == rest;
    }
  }

  lemma ZeroMeans(q: U16, env: Answers)
    ensures Operate(ZeroOp(q), [], env) == Some([EqualTo(env(q), 0)])
  {
    var p := ZeroOp(q).payload;
    assert p[0] == Put16(q)[0] && p[1] == Put16(q)[1] && p[2] == 0 && p[3] == 0;
    var t := EqualTo(env(q), 0);
    assert [t] + [] == [t];
  }

  lemma ScopedZero(q: U16, rest: seq<Op>, env: Answers)
    ensures Expression([ZeroOp(q), END] + rest, env) == Some(Result(EqualTo(env(q), 0), 2))
  {
    hide Operate, EqualTo;
    ZeroMeans(q, env);
    var t := EqualTo(env(q), 0);
    var ops := [ZeroOp(q), END] + rest;
    assert ops[0] == ZeroOp(q) && ops[1..] == [END] + rest;
    assert Finish([END] + rest, [t], env) == Some(Result(t, 1));
  }

  lemma ScopedNot(o: Op, value: Truth, rest: seq<Op>, env: Answers)
    requires o.scope && Operate(o, [], env) == Some([value])
    ensures Expression([o, Simple(OP_NOT, false), END] + rest, env) == Some(Result(Negated(value), 3))
  {
    hide Negated;
    var not, t := Simple(OP_NOT, false), Negated(value);
    var ops := [o, not, END] + rest;
    assert ops[0] == o && ops[1..] == [not, END] + rest;
    var ops1 := [not, END] + rest;
    assert ops1[0] == not && ops1[1..] == [END] + rest;
    assert Operate(not, [value], env) == Some([t]) by { assert [value][1..] == [] && [t] + [] == [t]; }
    assert Finish([END] + rest, [t], env) == Some(Result(t, 1));
    assert Finish(ops1, [value], env) == Some(Result(t, 2));
  }

  lemma ShownFlag(code: Byte, rest: seq<Op>, frames: seq<Frame>, env: Answers)
    requires code in {OP_SUPPRESS_IF, OP_GRAY_OUT_IF}
    ensures Shown(FlagOps(code) + rest, frames, env) ==
            Shown(rest, [Frame(code == OP_SUPPRESS_IF, code == OP_GRAY_OUT_IF)] + frames, env)
  {
    var ops := FlagOps(code) + rest;
    var t := Simple(OP_TRUE, false);
    assert ops[0] == Simple(code, true) && ops[1..] == [t] + rest;
    assert Expression([t] + rest, env) == Some(Result(Some(true), 1));
    assert ops[1..][1..] == rest;
  }

  lemma ShownEnd(f: Frame, rest: seq<Op>, frames: seq<Frame>, env: Answers)
    ensures Shown([END] + rest, [f] + frames, env) == Shown(rest, frames, env)
  {
    assert ([END] + rest)[1..] == rest && ([f] + frames)[1..] == frames;
  }

  lemma {:induction false} ShownPlain(plain: seq<Op>, rest: seq<Op>, frames: seq<Frame>, env: Answers)
    requires forall o <- plain :: IsPlain(o)
    ensures Shown(plain + rest, frames, env) == Shown(rest, frames, env)
    decreases |plain|
  {
    if plain == [] {
      assert plain + rest == rest;
    } else {
      assert (plain + rest)[1..] == plain[1..] + rest;
      assert plain[0] in plain;
      ShownPlain(plain[1..], rest, frames, env);
    }
  }

  /** What is expected of a list of seen questions behind some others. */
  function Prepend(a: seq<Seen>, b: Option<seq<Seen>>): Option<seq<Seen>> {
    if b.None? then None else Some(a + b.value)
  }

  function BlockSeen(b: Block, hidden: bool, grayed: bool): seq<Seen>
    requires b.Question? ==> IsQuestion(b.op)
  {
    if b.Question? then [Seen(QuestionId(b.op), hidden, grayed)] else []
  }

  lemma ShownBlock(b: Block, rest: seq<Op>, frames: seq<Frame>, env: Answers)
    requires ValidBlock(b)
    ensures Shown(BlockOps(b) + rest, frames, env) ==
            Prepend(BlockSeen(b, Any(frames, true), Any(frames, false)), Shown(rest, frames, env))
  {
    hide Any;
    match b {
      case Question(op, inner) =>
        var ops := BlockOps(b) + rest;
        assert ops[0] == op && ops[1..] == inner + ([END] + rest);
        var f := Frame(false, false);
        ShownPlain(inner, [END] + rest, [f] + frames, env);
        ShownEnd(f, rest, frames, env);
      case Line(op) =>
        ShownPlain([op], rest, frames, env);
        var more := Shown(rest, frames, env);
        assert more.Some? ==> [] + more.value == more.value;
    }
  }

  predicate OpsHideEntry(e: Entry, env: Answers) {
    e.suppress || (e.dependency.Some? && OpsHide(e.dependency.value, env))
  }

  function FrameIf(b: bool, f: Frame): seq<Frame> {
    if b then [f] else []
  }

  function DepFrames(e: Entry, env: Answers): seq<Frame> {
    FrameIf(e.dependency.Some?, Frame(e.dependency.Some? && OpsHide(e.dependency.value, env), false))
  }

  function SuppressFrames(e: Entry): seq<Frame> {
    FrameIf(e.suppress, Frame(true, false))
  }

  function InactiveFrames(e: Entry): seq<Frame> {
    FrameIf(e.inactive, Frame(false, true))
  }

  lemma ShownEntry(e: Entry, rest: seq<Op>, env: Answers)
    requires ValidEntry(e) && ListFits(e)
    ensures Shown(EntryOps(e) + rest, [], env) ==
            Prepend(BlockSeen(e.block, OpsHideEntry(e, env), e.inactive), Shown(rest, [], env))
  {
    hide Shown, BlockOps, OpsHide, OpsHideEntry, ValidBlock, Any, EntryOps, DepOpsOf, Suppress, Inactive, EndIf,
      DepFrames, SuppressFrames, InactiveFrames;
    var f := InactiveFrames(e) + (SuppressFrames(e) + DepFrames(e, env));
    var behind := EndIf(e.inactive) + (EndIf(e.suppress) + (EndIf(e.dependency.Some?) + rest));
    EntryOpsRegroup(e, rest);
    ShownPlain(e.storage, DepOpsOf(e) + (Suppress(e) + (Inactive(e) + (BlockOps(e.block) + behind))), [], env);
    ShownOpening(e, BlockOps(e.block) + behind, env);
    ShownBlock(e.block, behind, f, env);
    FramesMean(e, env);
    ShownClosing(e, rest, env);
  }

  /** The conditionals in front of a block open its frames. */
  lemma ShownOpening(e: Entry, rest: seq<Op>, env: Answers)
    requires ListFits(e)
    ensures Shown(DepOpsOf(e) + (Suppress(e) + (Inactive(e) + rest)), [], env) ==
            Shown(rest, InactiveFrames(e) + (SuppressFrames(e) + DepFrames(e, env)), env)
  {
    hide Shown, OpsHide, FrameIf, FlagsIf, DepOpsOf;
    var f1 := DepFrames(e, env);
    var o3 := Inactive(e) + rest;
    OpenDependency(e, Suppress(e) + o3, env);
    OpenOne(e.suppress, OP_SUPPRESS_IF, o3, f1, env);
    OpenOne(e.inactive, OP_GRAY_OUT_IF, rest, SuppressFrames(e) + f1, env);
  }

  lemma OpenDependency(e: Entry, rest: seq<Op>, env: Answers)
    requires ListFits(e)
    ensures Shown(DepOpsOf(e) + rest, [], env) == Shown(rest, DepFrames(e, env), env)
  {
    hide Shown, OpsHide, DependencyOps;
    if e.dependency.Some? {
      ShownDependency(e.dependency.value, rest, [], env);
      assert DepFrames(e, env) + [] == DepFrames(e, env);
    } else {
      assert [] + rest == rest;
    }
  }

  lemma OpenOne(b: bool, code: Byte, rest: seq<Op>, frames: seq<Frame>, env: Answers)
    requires code in {OP_SUPPRESS_IF, OP_GRAY_OUT_IF}
    ensures Shown(FlagsIf(b, code) + rest, frames, env) ==
            Shown(rest, FrameIf(b, Frame(code == OP_SUPPRESS_IF, code == OP_GRAY_OUT_IF)) + frames, env)
  {
    hide Shown;
    if b {
      ShownFlag(code, rest, frames, env);
    } else {
      assert [] + rest == rest && [] + frames == frames;
    }
  }

  /** The ENDs behind a block close its frames. */
  lemma ShownClosing(e: Entry, rest: seq<Op>, env: Answers)
    ensures Shown(EndIf(e.inactive) + (EndIf(e.suppress) + (EndIf(e.dependency.Some?) + rest)),
                  InactiveFrames(e) + (SuppressFrames(e) + DepFrames(e, env)), env) == Shown(rest, [], env)
  {
    hide Shown, OpsHide, EndIf, FrameIf;
    var f1 := DepFrames(e, env);
    var f2 := SuppressFrames(e) + f1;
    var o7 := EndIf(e.dependency.Some?) + rest;
    var o6 := EndIf(e.suppress) + o7;
    CloseOne(e.inactive, Frame(false, true), o6, f2, env);
    CloseOne(e.suppress, Frame(true, false), o7, f1, env);
    CloseOne(e.dependency.Some?, Frame(e.dependency.Some? && OpsHide(e.dependency.value, env), false), rest, [], env);
    assert f1 + [] == f1;
  }

  lemma CloseOne(b: bool, f: Frame, rest: seq<Op>, frames: seq<Frame>, env: Answers)
    ensures Shown(EndIf(b) + rest, FrameIf(b, f) + frames, env) == Shown(rest, frames, env)
  {
    if b {
      ShownEnd(f, rest, frames, env);
    } else {
      assert [] + rest == rest && [] + frames == frames;
    }
  }

  lemma EntryOpsRegroup(e: Entry, rest: seq<Op>)
    ensures EntryOps(e) + rest ==
      e.storage + (DepOpsOf(e) + (Suppress(e) + (Inactive(e) + (BlockOps(e.block) +
        (EndIf(e.inactive) + (EndIf(e.suppress) + (EndIf(e.dependency.Some?) + rest)))))))
  {
    hide DepOpsOf, Suppress, Inactive, BlockOps, EndIf;
  }

  lemma FramesMean(e: Entry, env: Answers)
    ensures var f := InactiveFrames(e) + (SuppressFrames(e) + DepFrames(e, env));
            Any(f, true) == OpsHideEntry(e, env) && Any(f, false) == e.inactive
  {
    hide OpsHide;
    var f := InactiveFrames(e) + (SuppressFrames(e) + DepFrames(e, env));
    if e.inactive {
      assert Frame(false, true) in f;
    }
    if e.suppress {
      assert Frame(true, false) in f;
    }
    if e.dependency.Some? {
      assert DepFrames(e, env)[0] in f;
    }
  }

  /** What the opcodes of a form show: its questions in order, hidden and grayed as the opcodes say. */
  function Emitted(entries: seq<Entry>, env: Answers): seq<Seen>
    requires forall e <- entries :: ValidEntry(e)
  {
    if entries == [] then []
    else
      assert ValidEntry(entries[0]);
      BlockSeen(entries[0].block, OpsHideEntry(entries[0], env), entries[0].inactive) +
      Emitted(entries[1..], env)
  }

  /** What a browser makes of a byte stream: None when it cannot be read or does not nest. */
  function View(s: seq<Byte>, env: Answers): Option<seq<Seen>> {
    var ops := ReadOps(s);
    if ops.None? then None else Shown(ops.value, [], env)
  }

  lemma DependencyFits(q: U16, values: seq<U32>)
    requires |values| <= 60
    ensures forall o <- DependencyOps(q, values) :: o.Fits()
  {
    assert ListOp(q, values).Fits() && ZeroOp(q).Fits();
  }

  lemma EntryFits(e: Entry)
    requires ValidEntry(e) && ListFits(e)
    ensures forall o <- EntryOps(e) :: o.Fits()
  {
    hide DependencyOps, BlockOps, FlagOps, ValidBlock, Op.Fits;
    if e.dependency.Some? {
      DependencyFits(QuestionIdOf(e.dependency.value.objectId), e.dependency.value.values);
    }
    BlockFits(e.block);
    FlagsFit();
  }

  lemma BlockFits(b: Block)
    requires ValidBlock(b)
    ensures forall o <- BlockOps(b) :: o.Fits()
  {
    hide IsPlain, IsQuestion;
    assert END.Fits();
  }

  lemma FlagsFit()
    ensures forall o <- FlagOps(OP_SUPPRESS_IF) :: o.Fits()
    ensures forall o <- FlagOps(OP_GRAY_OUT_IF) :: o.Fits()
    ensures END.Fits()
  {
  }

  /** An entry whose list fits shows its block, and leaves the rest of the stream as it is. */
  lemma ViewEntry(e: Entry, rest: seq<Byte>, env: Answers)
    requires ValidEntry(e) && ListFits(e)
    ensures View(OpsBytes(EntryOps(e)) + rest, env) ==
            Prepend(BlockSeen(e.block, OpsHideEntry(e, env), e.inactive), View(rest, env))
  {
    hide EntryOps, OpsHideEntry, BlockSeen, Shown, OpsBytes;
    EntryFits(e);
    ReadBackAll(EntryOps(e), rest);
    var ops := ReadOps(rest);
    if ops.Some? {
      ShownEntry(e, ops.value, env);
    }
  }

  /** The count of the list fits its own 16-bit field. */
  predicate CountFits(e: Entry) {
    e.dependency.Some? ==> |e.dependency.value.values| < 0x1_0000
  }

  /** A list that does not fit is cut short by its length field, and then has fewer values than it counts. */
  lemma CutList(q: U16, values: seq<U32>, rest: seq<Byte>, env: Answers)
    requires 60 < |values| < 0x1_0000
    ensures var r := ReadOp(OpBytes(ListOp(q, values)) + rest);
            r.Some? ==> Operate(r.value, [], env) == None
  {
    hide Operate, OpBytes, ReadOp, ListOp;
    var r := ReadOp(OpBytes(ListOp(q, values)) + rest);
    if r.Some? {
      CutPayload(q, values, rest);
      ShortListFails(r.value, env);
    }
  }

  lemma CutPayload(q: U16, values: seq<U32>, rest: seq<Byte>)
    requires 60 < |values| < 0x1_0000
    requires ReadOp(OpBytes(ListOp(q, values)) + rest).Some?
    ensures var o := ReadOp(OpBytes(ListOp(q, values)) + rest).value;
            && o.code == OP_EQ_ID_VAL_LIST && |o.payload| <= 125
            && (|o.payload| >= 4 ==> Le16(o.payload[2], o.payload[3]) == |values|)
  {
    ListPayload(q, values);
    assert ListOp(q, values).code == OP_EQ_ID_VAL_LIST;
    hide ListOp, Le16, Values16;
    var o := ListOp(q, values);
    var s := OpBytes(o) + rest;
    var p := ReadOp(s).value.payload;
    if |p| >= 4 {
      assert s[4] == o.payload[2] && s[5] == o.payload[3];
      assert p[2] == s[4] && p[3] == s[5];
    }
  }

  lemma ShortListFails(o: Op, env: Answers)
    requires o.code == OP_EQ_ID_VAL_LIST
    requires |o.payload| >= 4 ==> |o.payload| < 4 + 2 * Le16(o.payload[2], o.payload[3])
    ensures Operate(o, [], env) == None
  {
  }

  lemma ConditionFails(o: Op, rest: seq<Op>, env: Answers)
    requires Operate(o, [], env) == None
    ensures Shown([Simple(OP_SUPPRESS_IF, true)] + ([o] + rest), [], env) == None
  {
    hide Operate;
    var ops := [Simple(OP_SUPPRESS_IF, true)] + ([o] + rest);
    assert ops[1..] == [o] + rest && ops[1..][0] == o;
  }

  /** An entry whose list does not fit spoils the whole stream. */
  lemma ViewCutEntry(e: Entry, rest: seq<Byte>, env: Answers)
    requires ValidEntry(e) && !ListFits(e) && CountFits(e)
    ensures View(OpsBytes(EntryOps(e)) + rest, env) == None
  {
    hide ListOp, Shown, Operate, OpBytes, ReadOp, BlockOps, FlagOps, ValidBlock, EndIf, Suppress, Inactive, OpsBytes;
    var d := e.dependency.value;
    var q := QuestionIdOf(d.objectId);
    var list := ListOp(q, d.values);
    var start := Simple(OP_SUPPRESS_IF, true);
    var head := e.storage + [start];
    var more := [Simple(OP_NOT, false), END] +
      (Suppress(e) + (Inactive(e) + (BlockOps(e.block) + (EndIf(e.inactive) + (EndIf(e.suppress) + EndIf(true))))));
    CutRegroup(e, head, list, more);
    var tail := OpsBytes(more) + rest;
    OpsBytesAppend(head, [list] + more);
    OneAndMore(list, more);
    assert OpsBytes(EntryOps(e)) + rest == OpsBytes(head) + (OpBytes(list) + tail);
    ReadBackAll(head, OpBytes(list) + tail);
    CutList(q, d.values, tail, env);
    var ops := ReadOps(OpBytes(list) + tail);
    if ops.Some? {
      var o := ReadOp(OpBytes(list) + tail).value;
      FirstRead(OpBytes(list) + tail);
      ConditionFails(o, ops.value[1..], env);
      assert ops.value == [o] + ops.value[1..];
      assert head + ops.value == e.storage + ([start] + ops.value);
      ShownPlain(e.storage, [start] + ops.value, [], env);
    }
  }

  lemma CutRegroup(e: Entry, head: seq<Op>, list: Op, more: seq<Op>)
    requires e.dependency.Some? && e.dependency.value.values != []
    requires list == ListOp(QuestionIdOf(e.dependency.value.objectId), e.dependency.value.values)
    requires head == e.storage + [Simple(OP_SUPPRESS_IF, true)]
    requires more == [Simple(OP_NOT, false), END] +
      (Suppress(e) + (Inactive(e) + (BlockOps(e.block) + (EndIf(e.inactive) + (EndIf(e.suppress) + EndIf(true))))))
    ensures EntryOps(e) == head + ([list] + more)
  {
    hide ListOp, Suppress, Inactive, BlockOps, EndIf, EntryOps;
    EntryOpsRegroup(e, []);
    assert EntryOps(e) + [] == EntryOps(e);
    assert EndIf(true) + [] == EndIf(true);
    var start, two := [Simple(OP_SUPPRESS_IF, true)], [Simple(OP_NOT, false), END];
    var behind :=
      Suppress(e) + (Inactive(e) + (BlockOps(e.block) + (EndIf(e.inactive) + (EndIf(e.suppress) + EndIf(true)))));
    assert DepOpsOf(e) == start + ([list] + two);
    Reassociate(e.storage, start, [list], two, behind);
  }

  lemma Reassociate(a: seq<Op>, b: seq<Op>, c: seq<Op>, d: seq<Op>, e: seq<Op>)
    ensures a + ((b + (c + d)) + e) == (a + b) + (c + (d + e))
  {
  }

  lemma OneAndMore(o: Op, more: seq<Op>)
    ensures OpsBytes([o] + more) == OpBytes(o) + OpsBytes(more)
  {
    assert ([o] + more)[1..] == more;
  }

  lemma FirstRead(s: seq<Byte>)
    requires s != [] && ReadOps(s).Some?
    ensures ReadOp(s).Some? && ReadOps(s).value != [] && ReadOps(s).value[0] == ReadOp(s).value
  {
    hide ReadOp;
  }

  lemma {:induction false} ViewForm(entries: seq<Entry>, env: Answers)
    requires forall e <- entries :: ValidEntry(e) && CountFits(e)
    ensures View(OpsBytes(FormOps(entries)), env) ==
            if forall e <- entries :: ListFits(e) then Some(Emitted(entries, env)) else None
    decreases |entries|
  {
    hide EntryOps, OpsHideEntry, ValidEntry, ListFits, CountFits, BlockSeen, View;
    if entries == [] {
      EmptyView(env);
    } else {
      var e, rest := entries[0], OpsBytes(FormOps(entries[1..]));
      assert e in entries;
      OpsBytesAppend(EntryOps(e), FormOps(entries[1..]));
      ViewForm(entries[1..], env);
      if ListFits(e) {
        ViewEntry(e, rest, env);
        assert entries == [e] + entries[1..];
      } else {
        ViewCutEntry(e, rest, env);
      }
    }
  }

  lemma EmptyView(env: Answers)
    ensures View(OpsBytes([]), env) == Some([])
  {
  }

  lemma {:induction false} ViewFitting(entries: seq<Entry>, env: Answers)
    requires forall e <- entries :: ValidEntry(e) && ListFits(e)
    ensures View(OpsBytes(FormOps(entries)), env) == Some(Emitted(entries, env))
    decreases |entries|
  {
    forall e | e in entries ensures CountFits(e) {
    }
    ViewForm(entries, env);
  }

  // ----- what is meant

  /** The value of every object of the menu, by its own id. */
  type Values = nat -> U32

  predicate HasQuestion(menu: seq<Entry>, objectId: nat) {
    exists e <- menu :: e.block.Question? && e.objectId == objectId
  }

  /** What a dependency asks for: hidden when the object is a question of the menu whose value is outside the list. */
  predicate Hides(d: Dependency, menu: seq<Entry>, values: Values) {
    HasQuestion(menu, d.objectId) && Outside(d, values(d.objectId))
  }

  predicate EntryHidden(e: Entry, menu: seq<Entry>, values: Values) {
    e.suppress || (e.dependency.Some? && Hides(e.dependency.value, menu, values))
  }

  /** What entries of a menu should show: hidden and grayed as their flags and dependencies say. */
  function Expected(entries: seq<Entry>, menu: seq<Entry>, values: Values): seq<Seen>
    requires forall e <- entries :: ValidEntry(e)
  {
    if entries == [] then []
    else
      assert ValidEntry(entries[0]);
      BlockSeen(entries[0].block, EntryHidden(entries[0], menu, values), entries[0].inactive) +
      Expected(entries[1..], menu, values)
  }

  // ----- whom a question id stands for

  /** The ids of the questions of a stream, in order. */
  function Questions(ops: seq<Op>): seq<U16> {
    if ops == [] then []
    else (if IsQuestion(ops[0]) then [QuestionId(ops[0])] else []) + Questions(ops[1..])
  }

  /** A question id stands for the first question that carries it. */
  function Answer(ids: seq<U16>, answers: seq<U32>, q: U16): Option<U32> {
    if ids == [] || answers == [] then None
    else if ids[0] == q then Some(answers[0])
    else Answer(ids[1..], answers[1..], q)
  }

  function AnswersTo(ops: seq<Op>, answers: seq<U32>): Answers {
    q => Answer(Questions(ops), answers, q)
  }

  /** What a browser shows of a byte stream while its questions, in order, have these answers. */
  function Browse(s: seq<Byte>, answers: seq<U32>): Option<seq<Seen>> {
    var ops := ReadOps(s);
    if ops.None? then None else Shown(ops.value, [], AnswersTo(ops.value, answers))
  }

  /** The answers of the questions of a menu: each has the value of its own object. */
  function ValuesOf(menu: seq<Entry>, values: Values): seq<U32> {
    if menu == [] then []
    else (if menu[0].block.Question? then [values(menu[0].objectId)] else []) + ValuesOf(menu[1..], values)
  }

  function IdsOf(menu: seq<Entry>): seq<U16> {
    if menu == [] then []
    else (if menu[0].block.Question? then [QuestionIdOf(menu[0].objectId)] else []) + IdsOf(menu[1..])
  }

  /** The object behind a question id: that of the first question whose id is cut to it. */
  function First(menu: seq<Entry>, q: U16): (r: Option<nat>)
    ensures r.Some? ==> HasQuestion(menu, r.value) && QuestionIdOf(r.value) == q
    ensures r.None? ==> forall e <- menu :: e.block.Question? ==> QuestionIdOf(e.objectId) != q
  {
    if menu == [] then None
    else if menu[0].block.Question? && QuestionIdOf(menu[0].objectId) == q then Some(menu[0].objectId)
    else First(menu[1..], q)
  }

  lemma {:induction false} AnswerOfFirst(menu: seq<Entry>, values: Values, q: U16)
    ensures Answer(IdsOf(menu), ValuesOf(menu, values), q) ==
            if First(menu, q).None? then None else Some(values(First(menu, q).value))
    decreases |menu|
  {
    hide QuestionIdOf;
    if menu != [] {
      AnswerOfFirst(menu[1..], values, q);
      var ids, answers := IdsOf(menu[1..]), ValuesOf(menu[1..], values);
      if menu[0].block.Question? {
        assert ([QuestionIdOf(menu[0].objectId)] + ids)[1..] == ids;
        assert ([values(menu[0].objectId)] + answers)[1..] == answers;
      } else {
        assert [] + ids == ids && [] + answers == answers;
      }
    }
  }

  lemma {:induction false} QuestionsAppend(a: seq<Op>, b: seq<Op>)
    ensures Questions(a + b) == Questions(a) + Questions(b)
    decreases |a|
  {
    hide IsQuestion, QuestionId;
    if a == [] {
      assert a + b == b;
    } else {
      assert (a + b)[0] == a[0] && (a + b)[1..] == a[1..] + b;
      QuestionsAppend(a[1..], b);
      var h := if IsQuestion(a[0]) then [QuestionId(a[0])] else [];
      var x, y := Questions(a[1..]), Questions(b);
      assert Questions(a + b) == h + (x + y) && Questions(a) == h + x;
      assert h + (x + y) == (h + x) + y;
    }
  }

  lemma {:induction false} NoQuestions(ops: seq<Op>)
    requires forall o <- ops :: !IsQuestion(o)
    ensures Questions(ops) == []
    decreases |ops|
  {
    hide IsQuestion, QuestionId;
    if ops != [] {
      assert ops[0] in ops;
      NoQuestions(ops[1..]);
    }
  }

  /** An entry carries the question of its block and no other. */
  lemma EntryQuestions(e: Entry)
    requires ValidEntry(e)
    ensures Questions(EntryOps(e)) == if e.block.Question? then [QuestionIdOf(e.objectId)] else []
  {
    hide QuestionIdOf, Questions, ListOp, ZeroOp;
    var open := DepOpsOf(e) + Suppress(e) + Inactive(e);
    var close := EndIf(e.inactive) + EndIf(e.suppress) + EndIf(e.dependency.Some?);
    ConditionalsAsk(e);
    NoQuestions(e.storage);
    QuestionsAppend(e.storage, open);
    QuestionsAppend(e.storage + open, BlockOps(e.block));
    QuestionsAppend(e.storage + open + BlockOps(e.block), close);
    BlockQuestions(e.block);
  }

  lemma ConditionalsAsk(e: Entry)
    ensures Questions(DepOpsOf(e) + Suppress(e) + Inactive(e)) == []
    ensures Questions(EndIf(e.inactive) + EndIf(e.suppress) + EndIf(e.dependency.Some?)) == []
  {
    hide Questions, DependencyOps, FlagOps;
    ExpressionsAsk();
    if e.dependency.Some? {
      DependencyAsks(QuestionIdOf(e.dependency.value.objectId), e.dependency.value.values);
    }
    NoQuestions([]);
    QuestionsAppend(DepOpsOf(e) + Suppress(e), Inactive(e));
    QuestionsAppend(DepOpsOf(e), Suppress(e));
    QuestionsAppend(EndIf(e.inactive) + EndIf(e.suppress), EndIf(e.dependency.Some?));
    QuestionsAppend(EndIf(e.inactive), EndIf(e.suppress));
  }

  lemma DependencyAsks(q: U16, values: seq<U32>)
    ensures Questions(DependencyOps(q, values)) == []
  {
    hide Questions;
    assert !IsQuestion(ListOp(q, values)) && !IsQuestion(ZeroOp(q));
    NoQuestions(DependencyOps(q, values));
  }

  lemma ExpressionsAsk()
    ensures Questions(FlagOps(OP_SUPPRESS_IF)) == [] && Questions(FlagOps(OP_GRAY_OUT_IF)) == []
    ensures Questions([END]) == []
  {
    hide Questions;
    NoQuestions(FlagOps(OP_SUPPRESS_IF));
    NoQuestions(FlagOps(OP_GRAY_OUT_IF));
    NoQuestions([END]);
  }

  lemma BlockQuestions(b: Block)
    requires ValidBlock(b)
    ensures Questions(BlockOps(b)) == if b.Question? then [QuestionId(b.op)] else []
  {
    match b {
      case Question(op, inner) =>
        assert BlockOps(b)[1..] == inner + [END];
        NoQuestions(inner + [END]);
      case Line(op) =>
        NoQuestions([op]);
    }
  }

  lemma {:induction false} FormQuestions(menu: seq<Entry>)
    requires forall e <- menu :: ValidEntry(e)
    ensures Questions(FormOps(menu)) == IdsOf(menu)
    decreases |menu|
  {
    hide EntryOps, ValidEntry, QuestionIdOf;
    if menu != [] {
      assert menu[0] in menu;
      EntryQuestions(menu[0]);
      QuestionsAppend(EntryOps(menu[0]), FormOps(menu[1..]));
      FormQuestions(menu[1..]);
    }
  }

  // ----- 16-bit words

  /**
   * The opcodes of a dependency mean what it lists, for every answer a four-byte question
   * can have, if and only if every listed value is a 16-bit one.
   */
  lemma ListMeansItself(d: Dependency)
    ensures (forall answer: U32 :: OpsOutside(d, answer) <==> Outside(d, answer)) <==>
            (forall v <- d.values :: v < 0x1_0000)
  {
    if v :| v in d.values && v >= 0x1_0000 {
      assert OpsOutside(d, v) && !Outside(d, v);
    } else {
      forall answer: U32 ensures OpsOutside(d, answer) <==> Outside(d, answer) {
        WordsMeanThemselves(d, answer);
      }
    }
  }

  lemma WordsMeanThemselves(d: Dependency, answer: U32)
    requires forall v <- d.values :: v < 0x1_0000
    ensures OpsOutside(d, answer) <==> Outside(d, answer)
  {
    if !OpsOutside(d, answer) && d.values != [] {
      var v :| v in d.values && Low16(v) == answer;
      assert v == answer;
    }
  }

  /** The dependency decides what is seen of the entry. */
  predicate DependencyShows(e: Entry) {
    e.dependency.Some? && !e.suppress && e.block.Question?
  }

  /**
   * A dependency that decides what is seen names no question of the menu at all, or the
   * first question with its id is that of its object and its list has 16-bit values only.
   */
  predicate Resolved(menu: seq<Entry>, e: Entry) {
    DependencyShows(e) ==>
      var d := e.dependency.value;
      var first := First(menu, QuestionIdOf(d.objectId));
      first.None? || (first.value == d.objectId && forall v <- d.values :: v < 0x1_0000)
  }

  /** The browser's answer to the question id of a dependency's object. */
  predicate AnsweredBy(env: Answers, menu: seq<Entry>, values: Values, q: U16) {
    env(q) == if First(menu, q).None? then None else Some(values(First(menu, q).value))
  }

  lemma ResolvedMeans(menu: seq<Entry>, e: Entry, env: Answers, values: Values)
    requires DependencyShows(e) && Resolved(menu, e)
    requires AnsweredBy(env, menu, values, QuestionIdOf(e.dependency.value.objectId))
    ensures OpsHide(e.dependency.value, env) <==> Hides(e.dependency.value, menu, values)
  {
    hide First, OpsOutside, Outside, QuestionIdOf;
    var d := e.dependency.value;
    var first := First(menu, QuestionIdOf(d.objectId));
    if first.Some? {
      WordsMeanThemselves(d, values(d.objectId));
    }
  }

  /** Values that tell an unresolved dependency from what its opcodes ask for. */
  lemma UnresolvedDiffers(menu: seq<Entry>, e: Entry) returns (values: Values)
    requires DependencyShows(e) && !Resolved(menu, e)
    ensures forall env: Answers | AnsweredBy(env, menu, values, QuestionIdOf(e.dependency.value.objectId)) ::
              OpsHide(e.dependency.value, env) && !Hides(e.dependency.value, menu, values)
  {
    hide First;
    var d := e.dependency.value;
    var first := First(menu, QuestionIdOf(d.objectId)).value;
    if first == d.objectId {
      var v :| v in d.values && v >= 0x1_0000;
      values := _ => v;
    } else if d.values == [] {
      values := o => if o == first then 0 else 1;
    } else {
      var v := d.values[0];
      values := o => if o == first then 0x1_0000 else v;
    }
  }

  lemma {:induction false} EmittedAsExpected(entries: seq<Entry>, menu: seq<Entry>, env: Answers, values: Values)
    requires forall e <- entries :: ValidEntry(e) &&
               (DependencyShows(e) ==> (OpsHide(e.dependency.value, env) <==> Hides(e.dependency.value, menu, values)))
    ensures Emitted(entries, env) == Expected(entries, menu, values)
    decreases |entries|
  {
    hide Hides, OpsHide, ValidEntry;
    if entries != [] {
      var e := entries[0];
      assert e in entries;
      EmittedAsExpected(entries[1..], menu, env, values);
    }
  }

  /** One question hidden by its opcodes alone shows the difference. */
  lemma {:induction false} DifferenceSeen(entries: seq<Entry>, k: nat, menu: seq<Entry>, env: Answers, values: Values)
    requires forall e <- entries :: ValidEntry(e)
    requires k < |entries| && DependencyShows(entries[k])
    requires OpsHide(entries[k].dependency.value, env) && !Hides(entries[k].dependency.value, menu, values)
    ensures Emitted(entries, env) != Expected(entries, menu, values)
    decreases k
  {
    hide Hides, OpsHide;
    var e := entries[0];
    assert e in entries;
    var a, b := Emitted(entries[1..], env), Expected(entries[1..], menu, values);
    var x := BlockSeen(e.block, OpsHideEntry(e, env), e.inactive);
    var y := BlockSeen(e.block, EntryHidden(e, menu, values), e.inactive);
    assert Emitted(entries, env) == x + a && Expected(entries, menu, values) == y + b;
    if k == 0 {
      assert (x + a)[0] != (y + b)[0];
    } else {
      DifferenceSeen(entries[1..], k - 1, menu, env, values);
      TailsDiffer(x, y, a, b);
    }
  }

  lemma TailsDiffer(x: seq<Seen>, y: seq<Seen>, a: seq<Seen>, b: seq<Seen>)
    requires |x| == |y| && a != b
    ensures x + a != y + b
  {
    if |a| == |b| {
      var i :| 0 <= i < |a| && a[i] != b[i];
      assert (x + a)[|x| + i] == a[i] && (y + b)[|x| + i] == b[i];
    }
  }

  // ----- the whole form

  /** The answers a browser has for the stream of a form. */
  function FormAnswers(entries: seq<Entry>, values: Values): Answers {
    AnswersTo(FormOps(entries), ValuesOf(entries, values))
  }

  lemma FormAnswered(entries: seq<Entry>, values: Values, q: U16)
    requires forall e <- entries :: ValidEntry(e)
    ensures AnsweredBy(FormAnswers(entries, values), entries, values, q)
  {
    hide FormOps, Questions, Answer, IdsOf, ValuesOf, First, ValidEntry;
    FormQuestions(entries);
    AnswerOfFirst(entries, values, q);
  }

  /** A browser shows the form as meant: hidden and grayed as its flags and dependencies say. */
  predicate ShownAsMeant(entries: seq<Entry>, values: Values)
    requires forall e <- entries :: ValidEntry(e)
  {
    Browse(OpsBytes(FormOps(entries)), ValuesOf(entries, values)) == Some(Expected(entries, entries, values))
  }

  lemma BrowseForm(entries: seq<Entry>, values: Values)
    requires forall e <- entries :: ValidEntry(e) && ListFits(e)
    ensures Browse(OpsBytes(FormOps(entries)), ValuesOf(entries, values)) ==
            Some(Emitted(entries, FormAnswers(entries, values)))
  {
    hide FormOps, OpsBytes, ValuesOf, ValidEntry, ListFits, Emitted, Shown;
    ReadForm(entries);
    ViewFitting(entries, FormAnswers(entries, values));
  }

  /** The opcodes of a form whose lists fit are read back. */
  lemma {:induction false} ReadForm(entries: seq<Entry>)
    requires forall e <- entries :: ValidEntry(e) && ListFits(e)
    ensures ReadOps(OpsBytes(FormOps(entries))) == Some(FormOps(entries))
    decreases |entries|
  {
    hide EntryOps, ValidEntry, ListFits, OpsBytes, ReadOps;
    if entries == [] {
      assert ReadOps(OpsBytes([])) == Some([]) by { NothingToRead(); }
    } else {
      var e := entries[0];
      assert e in entries;
      EntryFits(e);
      ReadForm(entries[1..]);
      OpsBytesAppend(EntryOps(e), FormOps(entries[1..]));
      ReadBackAll(EntryOps(e), OpsBytes(FormOps(entries[1..])));
    }
  }

  lemma NothingToRead()
    ensures ReadOps(OpsBytes([])) == Some([])
  {
  }

  lemma BrowseCutForm(entries: seq<Entry>, values: Values)
    requires forall e <- entries :: ValidEntry(e) && CountFits(e)
    requires exists e <- entries :: !ListFits(e)
    ensures Browse(OpsBytes(FormOps(entries)), ValuesOf(entries, values)) == None
  {
    hide FormOps, OpsBytes, ValuesOf, ValidEntry, ListFits, CountFits, Emitted, Shown;
    var ops := ReadOps(OpsBytes(FormOps(entries)));
    if ops.Some? {
      ViewForm(entries, AnswersTo(ops.value, ValuesOf(entries, values)));
    }
  }

  /**
   * The bytes emitted for a form read back as properly nested scopes that show exactly its
   * questions, for all values of its objects -- hidden when suppressed or when the value of
   * the dependency's object is outside its list (zero, when there is no list), grayed when
   * inactive -- if and only if every list has at most 60 values and every dependency that
   * decides what is seen is resolved: ids cut to 16 bits still find its object first, and
   * its values are 16-bit ones.
   */
  lemma FormShownAsMeant(entries: seq<Entry>)
    requires forall e <- entries :: ValidEntry(e) && CountFits(e)
    ensures (forall values: Values :: ShownAsMeant(entries, values)) <==>
            (forall e <- entries :: ListFits(e) && Resolved(entries, e))
  {
    hide ListFits, Resolved, ValidEntry, CountFits, Browse, Emitted, Expected;
    if forall e <- entries :: ListFits(e) && Resolved(entries, e) {
      forall values: Values ensures ShownAsMeant(entries, values) {
        FittingFormShownAsMeant(entries, values);
      }
    } else if e :| e in entries && !ListFits(e) {
      BrowseCutForm(entries, _ => 0);
      assert !ShownAsMeant(entries, _ => 0);
    } else {
      var e :| e in entries && !Resolved(entries, e);
      UnresolvedShows(entries, e);
    }
  }

  lemma UnresolvedShows(entries: seq<Entry>, e: Entry)
    requires forall e <- entries :: ValidEntry(e) && ListFits(e)
    requires e in entries && !Resolved(entries, e)
    ensures exists values: Values :: !ShownAsMeant(entries, values)
  {
    hide ListFits, ValidEntry, Browse, Emitted, Expected, First, OpsHide, Hides;
    var k :| 0 <= k < |entries| && entries[k] == e;
    var values := UnresolvedDiffers(entries, e);
    var env := FormAnswers(entries, values);
    FormAnswered(entries, values, QuestionIdOf(e.dependency.value.objectId));
    BrowseForm(entries, values);
    DifferenceSeen(entries, k, entries, env, values);
    assert !ShownAsMeant(entries, values);
  }

  /** With nothing at all assumed of the counts, the condition suffices. */
  lemma FittingFormShownAsMeant(entries: seq<Entry>, values: Values)
    requires forall e <- entries :: ValidEntry(e) && ListFits(e) && Resolved(entries, e)
    ensures ShownAsMeant(entries, values)
  {
    hide Browse, Emitted, Expected, ValidEntry, ListFits, Resolved, OpsHide, Hides;
    BrowseForm(entries, values);
    var env := FormAnswers(entries, values);
    forall e | e in entries && DependencyShows(e)
      ensures OpsHide(e.dependency.value, env) <==> Hides(e.dependency.value, entries, values)
    {
      FormAnswered(entries, values, QuestionIdOf(e.dependency.value.objectId));
      ResolvedMeans(entries, e, env, values);
    }
    EmittedAsExpected(entries, entries, env, values);
  }

  /** A numeric option without flags. */
  function Numeric(objectId: nat, dependency: Option<Dependency>): Entry {
    Entry(objectId, [], dependency, false, false,
          Question(Op(OP_NUMERIC, true, [0, 0, 0, 0] + Put16(QuestionIdOf(objectId))), []))
  }

  lemma NumericIsValid(objectId: nat, dependency: Option<Dependency>)
    requires dependency.Some? ==> dependency.value.objectId != 0
    ensures ValidEntry(Numeric(objectId, dependency))
  {
    var op := Numeric(objectId, dependency).block.op;
    assert op.payload[4] == Put16(QuestionIdOf(objectId))[0] && op.payload[5] == Put16(QuestionIdOf(objectId))[1];
  }

  /**
   * Two options whose ids are cut to the same question id, and a third that depends on one
   * of them: it follows that one exactly when that one comes first.
   */
  lemma CollidingIds(a: nat, b: nat, c: nat)
    requires b != 0 && b != a && QuestionIdOf(a) == QuestionIdOf(b)
    ensures var d := Numeric(c, Some(Dependency(b, [1])));
            && ValidEntry(Numeric(a, None)) && ValidEntry(Numeric(b, None)) && ValidEntry(d)
            && (exists values: Values :: !ShownAsMeant([Numeric(a, None), Numeric(b, None), d], values))
            && (forall values: Values :: ShownAsMeant([Numeric(b, None), Numeric(a, None), d], values))
  {
    hide ShownAsMeant, ValidEntry, QuestionIdOf;
    var x, y, d := Numeric(a, None), Numeric(b, None), Numeric(c, Some(Dependency(b, [1])));
    NumericIsValid(a, None);
    NumericIsValid(b, None);
    NumericIsValid(c, d.dependency);
    assert First([x, y, d], QuestionIdOf(b)) == Some(a);
    assert !Resolved([x, y, d], d);
    UnresolvedShows([x, y, d], d);
    assert First([y, x, d], QuestionIdOf(b)) == Some(b);
    FormShownAsMeant([y, x, d]);
  }

  /** The condition on the count is exact for the opcode itself: it reads back just for up to 60 values. */
  lemma ListLimit(q: U16, values: seq<U32>, rest: seq<Byte>)
    ensures ReadOp(OpBytes(ListOp(q, values)) + rest) == Some(ListOp(q, values)) <==> |values| <= 60
  {
    ReadBack(ListOp(q, values), rest);
  }
}
