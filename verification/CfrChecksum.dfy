/**
 * coreboot's CRC-32 over the CFR forms (CbCalculateCrc32 in patch 0011): register
 * starting at zero, polynomial 0x04C11DB7, most significant bit first.
 */
module CfrChecksum {

  function Xor(a: bv32, b: bv32): bv32 {
    a ^ b
  }

  predicate Top(c: bv32) {
    c & 0x8000_0000 != 0
  }

  function Shift(c: bv32): bv32 {
    c << 1
  }

  function Poly(): bv32 {
    0x04C1_1DB7
  }

  /** One bit of the division. */
  function Step(c: bv32): bv32 {
    if Top(c) then Xor(Shift(c), Poly()) else Shift(c)
  }

  function Step2(c: bv32): bv32 {
    Step(Step(c))
  }

  function Step4(c: bv32): bv32 {
    Step2(Step2(c))
  }

  /** A whole byte of the division. */
  function Step8(c: bv32): bv32 {
    Step4(Step4(c))
  }

  /** A byte moved to the top of the register. */
  function High(b: bv8): bv32 {
    (b as bv32) << 24
  }

  function CrcFrom(c: bv32, s: seq<bv8>): bv32
    decreases s
  {
    if s == [] then c else CrcFrom(Step8(Xor(c, High(s[0]))), s[1..])
  }

  /** The checksum of a byte string. */
  function Crc(s: seq<bv8>): bv32 {
    CrcFrom(0, s)
  }

  lemma {:induction false} CrcAppend(c: bv32, s: seq<bv8>, t: seq<bv8>)
    ensures CrcFrom(c, s + t) == CrcFrom(CrcFrom(c, s), t)
    decreases s
  {
    hide Step8, High, Xor;
    if s == [] {
      assert s + t == t;
    } else {
      assert (s + t)[1..] == s[1..] + t;
      CrcAppend(Step8(Xor(c, High(s[0]))), s[1..], t);
    }
  }

  lemma CrcOne(c: bv32, b: bv8)
    ensures CrcFrom(c, [b]) == Step8(Xor(c, High(b)))
  {
    hide Step8, High, Xor;
    assert [b][1..] == [];
  }

  method CalculateCrc32(buffer: seq<bv8>) returns (crc: bv32)
    ensures crc == Crc(buffer)
  {
    hide Step8, High, Xor;
    crc := 0;
    for idx := 0 to |buffer|
      invariant crc == Crc(buffer[..idx])
    {
      CrcAppend(0, buffer[..idx], [buffer[idx]]);
      assert buffer[..idx + 1] == buffer[..idx] + [buffer[idx]];
      CrcOne(crc, buffer[idx]);
      crc := Xor(crc, High(buffer[idx]));
      crc := EightBits(crc);
    }
    assert buffer[..|buffer|] == buffer;
  }

  function Iterate(c: bv32, n: nat): bv32 {
    if n == 0 then c else Step(Iterate(c, n - 1))
  }

  method OneBit(c: bv32) returns (crc: bv32)
    ensures crc == Step(c)
  {
    if c & 0x8000_0000 != 0 {
      crc := (c << 1) ^ 0x04C1_1DB7;
    } else {
      crc := c << 1;
    }
  }

  /** The inner loop over the bits of one byte. */
  method EightBits(c: bv32) returns (crc: bv32)
    ensures crc == Step8(c)
  {
    hide Step;
    crc := c;
    for bitIdx := 0 to 8
      invariant crc == Iterate(c, bitIdx)
    {
      crc := OneBit(crc);
    }
    assert Iterate(c, 2) == Step2(c);
    assert Iterate(c, 4) == Step2(Iterate(c, 2));
    assert Iterate(c, 6) == Step2(Iterate(c, 4));
    assert Iterate(c, 8) == Step2(Iterate(c, 6));
  }

  // ----- which CRC this is

  /** The taps of x^32 + x^26 + x^23 + x^22 + x^16 + x^12 + x^11 + x^10 + x^8 + x^7 + x^5 + x^4 + x^2 + x + 1. */
  const TAPS: bv32 :=
    (1 << 26) | (1 << 23) | (1 << 22) | (1 << 16) | (1 << 12) | (1 << 11) | (1 << 10) | (1 << 8)
    | (1 << 7) | (1 << 5) | (1 << 4) | (1 << 2) | (1 << 1) | 1

  /** A single one, divided by the polynomial, leaves the polynomial's other terms. */
  lemma CrcOfOne()
    ensures Crc([1]) == TAPS
  {
    CrcOne(0, 1);
    assert Xor(0, High(1)) == 0x0100_0000;
    assert Step4(0x0100_0000) == 0x1000_0000;
    assert Step2(0x1000_0000) == 0x4000_0000;
    assert Step(0x4000_0000) == 0x8000_0000;
  }

  lemma Digit1()
    ensures Step8(Xor(0, High(0x31))) == 0xD0F3_7027
  {
    assert Step4(0x3100_0000) == 0x1D43_26D9;
    assert Step4(0x1D43_26D9) == 0xD0F3_7027;
  }

  lemma Digit2()
    ensures Step8(Xor(0xD0F3_7027, High(0x32))) == 0x3F5B_3A17
  {
    assert Step4(0xE2F3_7027) == 0x13B9_A27A;
    assert Step4(0x13B9_A27A) == 0x3F5B_3A17;
  }

  lemma Digit3()
    ensures Step8(Xor(0x3F5B_3A17, High(0x33))) == 0x6E36_8C64
  {
    assert Step4(0x0C5B_3A17) == 0xC5B3_A170;
    assert Step4(0xC5B3_A170) == 0x6E36_8C64;
  }

  lemma Digit4()
    ensures Step8(Xor(0x6E36_8C64, High(0x34))) == 0x6191_19D1
  {
    assert Step4(0x5A36_8C64) == 0xB4AD_AD2B;
    assert Step4(0xB4AD_AD2B) == 0x6191_19D1;
  }

  lemma Digit5()
    ensures Step8(Xor(0x6191_19D1, High(0x35))) == 0xFA8A_0CDB
  {
    assert Step4(0x5491_19D1) == 0x5ED4_F67B;
    assert Step4(0x5ED4_F67B) == 0xFA8A_0CDB;
  }

  lemma Digit6()
    ensures Step8(Xor(0xFA8A_0CDB, High(0x36))) == 0xE28A_D0FD
  {
    assert Step4(0xCC8A_0CDB) == 0xFDAC_56D4;
    assert Step4(0xFDAC_56D4) == 0xE28A_D0FD;
  }

  lemma Digit7()
    ensures Step8(Xor(0xE28A_D0FD, High(0x37))) == 0x8C8E_DD82
  {
    assert Step4(0xD58A_D0FD) == 0x6960_8903;
    assert Step4(0x6960_8903) == 0x8C8E_DD82;
  }

  lemma Digit8()
    ensures Step8(Xor(0x8C8E_DD82, High(0x38))) == 0x20E7_79A2
  {
    assert Step4(0xB48E_DD82) == 0x63A6_1341;
    assert Step4(0x63A6_1341) == 0x20E7_79A2;
  }

  lemma Digit9()
    ensures Step8(Xor(0x20E7_79A2, High(0x39))) == 0x89A1_897F
  {
    assert Step4(0x19E7_79A2) == 0x9AB6_8797;
    assert Step4(0x9AB6_8797) == 0x89A1_897F;
  }

  /** The digits 1 to 9: the published check value of CRC-32/CKSUM, 0x765E7680, before its final inversion. */
  lemma CheckValue()
    ensures Crc([0x31, 0x32, 0x33, 0x34, 0x35, 0x36, 0x37, 0x38, 0x39]) ^ 0xffff_ffff == 0x765E_7680
  {
    hide CrcFrom, Step8, Xor, High;
    Digit1();
    Digit2();
    Digit3();
    Digit4();
    Digit5();
    Digit6();
    Digit7();
    Digit8();
    Digit9();
    CrcFour(0, 0x31, 0x32, 0x33, 0x34);
    CrcFour(0x6191_19D1, 0x35, 0x36, 0x37, 0x38);
    CrcOne(0x20E7_79A2, 0x39);
    var s, t, u: seq<bv8> := [0x31, 0x32, 0x33, 0x34], [0x35, 0x36, 0x37, 0x38], [0x39];
    assert [0x31, 0x32, 0x33, 0x34, 0x35, 0x36, 0x37, 0x38, 0x39] == s + (t + u);
    CrcAppend(0, s, t + u);
    CrcAppend(0x6191_19D1, t, u);
  }

  // ----- the step is linear over GF(2)

  lemma ShiftLinear(a: bv32, b: bv32)
    ensures Shift(Xor(a, b)) == Xor(Shift(a), Shift(b))
  {
  }

  lemma TopLinear(a: bv32, b: bv32)
    ensures Top(Xor(a, b)) <==> (Top(a) <==> !Top(b))
  {
  }

  lemma XorComm(a: bv32, b: bv32)
    ensures Xor(a, b) == Xor(b, a)
  {
  }

  lemma XorAssoc(a: bv32, b: bv32, c: bv32)
    ensures Xor(Xor(a, b), c) == Xor(a, Xor(b, c))
  {
  }

  lemma XorCancel(a: bv32)
    ensures Xor(a, a) == 0 && Xor(a, 0) == a
  {
  }

  lemma XorRegroup(a: bv32, b: bv32, p: bv32)
    ensures Xor(Xor(a, p), Xor(b, p)) == Xor(a, b)
    ensures Xor(Xor(a, p), b) == Xor(Xor(a, b), p)
    ensures Xor(a, Xor(b, p)) == Xor(Xor(a, b), p)
  {
    hide Xor;
    XorAssoc(a, b, p);
    XorAssoc(a, p, b);
    XorComm(p, b);
    XorAssoc(Xor(a, p), b, p);
    XorAssoc(Xor(a, b), p, p);
    XorCancel(p);
    XorCancel(Xor(a, b));
  }

  lemma StepLinear(a: bv32, b: bv32)
    ensures Step(Xor(a, b)) == Xor(Step(a), Step(b))
  {
    hide Shift, Top, Xor, Poly;
    ShiftLinear(a, b);
    TopLinear(a, b);
    XorRegroup(Shift(a), Shift(b), Poly());
  }

  lemma Step8Linear(a: bv32, b: bv32)
    ensures Step8(Xor(a, b)) == Xor(Step8(a), Step8(b))
  {
    hide Xor, Step2;
    var a2, b2 := Step2(a), Step2(b);
    var a4, b4 := Step2(a2), Step2(b2);
    var a6, b6 := Step2(a4), Step2(b4);
    Step2Linear(a, b);
    Step2Linear(a2, b2);
    Step2Linear(a4, b4);
    Step2Linear(a6, b6);
  }

  lemma Step2Linear(a: bv32, b: bv32)
    ensures Step2(Xor(a, b)) == Xor(Step2(a), Step2(b))
  {
    hide Xor, Step;
    StepLinear(a, b);
    StepLinear(Step(a), Step(b));
  }

  // ----- and a bijection

  function Unstep(d: bv32): bv32 {
    if d & 1 != 0 then ((d ^ 0x04C1_1DB7) >> 1) | 0x8000_0000 else d >> 1
  }

  lemma UnstepTop(c: bv32)
    requires Top(c)
    ensures Unstep(Xor(Shift(c), Poly())) == c
  {
  }

  lemma UnstepPlain(c: bv32)
    requires !Top(c)
    ensures Unstep(Shift(c)) == c
  {
  }

  lemma OddTop(d: bv32)
    ensures (((d ^ 0x04C1_1DB7) >> 1) | 0x8000_0000) & 0x8000_0000 != 0
  {
  }

  lemma OddShift(d: bv32)
    requires d & 1 != 0
    ensures ((((d ^ 0x04C1_1DB7) >> 1) | 0x8000_0000) << 1) ^ 0x04C1_1DB7 == d
  {
  }

  lemma EvenTop(d: bv32)
    ensures (d >> 1) & 0x8000_0000 == 0
  {
  }

  lemma EvenShift(d: bv32)
    requires d & 1 == 0
    ensures (d >> 1) << 1 == d
  {
  }

  /** Every register value has exactly one predecessor. */
  lemma StepBijective(c: bv32)
    ensures Unstep(Step(c)) == c && Step(Unstep(c)) == c
  {
    if Top(c) {
      UnstepTop(c);
    } else {
      UnstepPlain(c);
    }
    if c & 1 != 0 {
      OddTop(c);
      OddShift(c);
    } else {
      EvenTop(c);
      EvenShift(c);
    }
  }

  lemma Step8Injective(a: bv32, b: bv32)
    requires Step8(a) == Step8(b)
    ensures a == b
  {
    hide Step2;
    Step2Injective(Step2(Step2(Step2(a))), Step2(Step2(Step2(b))));
    Step2Injective(Step2(Step2(a)), Step2(Step2(b)));
    Step2Injective(Step2(a), Step2(b));
    Step2Injective(a, b);
  }

  lemma Step2Injective(a: bv32, b: bv32)
    requires Step2(a) == Step2(b)
    ensures a == b
  {
    hide Step, Unstep;
    StepBijective(Step(a));
    StepBijective(Step(b));
    StepBijective(a);
    StepBijective(b);
  }

  // ----- whole messages

  function XorByte(a: bv8, b: bv8): bv8 {
    a ^ b
  }

  function XorBytes(s: seq<bv8>, t: seq<bv8>): (r: seq<bv8>)
    requires |s| == |t|
    ensures |r| == |s|
  {
    seq(|s|, i requires 0 <= i < |s| => XorByte(s[i], t[i]))
  }

  lemma HighLinear(a: bv8, b: bv8)
    ensures High(XorByte(a, b)) == Xor(High(a), High(b))
  {
  }

  lemma XorSwap(a: bv32, b: bv32, x: bv32, y: bv32)
    ensures Xor(Xor(a, b), Xor(x, y)) == Xor(Xor(a, x), Xor(b, y))
  {
    hide Xor;
    XorAssoc(a, b, Xor(x, y));
    XorAssoc(b, x, y);
    XorComm(b, x);
    XorAssoc(x, b, y);
    XorAssoc(a, x, Xor(b, y));
  }

  /** The checksum is linear over GF(2) on messages of equal length. */
  lemma {:induction false} CrcLinear(a: bv32, b: bv32, s: seq<bv8>, t: seq<bv8>)
    requires |s| == |t|
    ensures CrcFrom(Xor(a, b), XorBytes(s, t)) == Xor(CrcFrom(a, s), CrcFrom(b, t))
    decreases s
  {
    hide Xor, XorByte, Step8, High;
    if s != [] {
      var c, d := Step8(Xor(a, High(s[0]))), Step8(Xor(b, High(t[0])));
      calc {
        Step8(Xor(Xor(a, b), High(XorByte(s[0], t[0]))));
        { HighLinear(s[0], t[0]); }
        Step8(Xor(Xor(a, b), Xor(High(s[0]), High(t[0]))));
        { XorSwap(a, b, High(s[0]), High(t[0])); }
        Step8(Xor(Xor(a, High(s[0])), Xor(b, High(t[0]))));
        { Step8Linear(Xor(a, High(s[0])), Xor(b, High(t[0]))); }
        Xor(c, d);
      }
      CrcLinear(c, d, s[1..], t[1..]);
      assert XorBytes(s, t)[1..] == XorBytes(s[1..], t[1..]);
    }
  }

  function Zeros(n: nat): seq<bv8> {
    seq(n, i => 0)
  }

  lemma ZeroIsFixed()
    ensures Step8(0) == 0 && High(0) == 0 && Xor(0, 0) == 0
  {
    assert Step(0) == 0;
  }

  lemma {:induction false} CrcOfZeros(n: nat)
    ensures CrcFrom(0, Zeros(n)) == 0
  {
    hide Xor, Step8, High;
    if n > 0 {
      ZeroIsFixed();
      CrcOfZeros(n - 1);
      assert Zeros(n)[1..] == Zeros(n - 1);
    }
  }

  lemma XorSame(a: bv32, b: bv32, x: bv32)
    requires Xor(a, x) == Xor(b, x)
    ensures a == b
  {
    hide Xor;
    XorAssoc(a, x, x);
    XorAssoc(b, x, x);
    XorCancel(x);
    XorCancel(a);
    XorCancel(b);
  }

  /** Feeding the same bytes never merges two register values. */
  lemma {:induction false} CrcFromInjective(a: bv32, b: bv32, s: seq<bv8>)
    requires CrcFrom(a, s) == CrcFrom(b, s)
    ensures a == b
    decreases s
  {
    hide Xor, Step8, High;
    if s != [] {
      var x, y := Xor(a, High(s[0])), Xor(b, High(s[0]));
      CrcFromInjective(Step8(x), Step8(y), s[1..]);
      Step8Injective(x, y);
      XorSame(a, b, High(s[0]));
    }
  }

  // ----- appending the checksum

  function TopByte(c: bv32): bv8 {
    (c >> 24) as bv8
  }

  function Drop(c: bv32): bv32 {
    c << 8
  }

  /** The big-endian bytes of a register value. */
  function BigEndian(c: bv32): (s: seq<bv8>)
    ensures |s| == 4
  {
    [TopByte(c), TopByte(Drop(c)), TopByte(Drop(Drop(c))), TopByte(Drop(Drop(Drop(c))))]
  }

  lemma NoTopNoTaps(c: bv32)
    requires c & 0xff00_0000 == 0
    ensures Step8(c) == c << 8
  {
  }

  lemma TopCleared(c: bv32)
    ensures Xor(c, High(TopByte(c))) & 0xff00_0000 == 0
    ensures Xor(c, High(TopByte(c))) << 8 == Drop(c)
  {
  }

  lemma OwnByte(c: bv32)
    ensures Step8(Xor(c, High(TopByte(c)))) == Drop(c)
  {
    hide Step8, Xor, High, TopByte, Drop;
    TopCleared(c);
    NoTopNoTaps(Xor(c, High(TopByte(c))));
  }

  lemma DropAll(c: bv32)
    ensures Drop(Drop(Drop(Drop(c)))) == 0
  {
  }

  lemma CrcFour(c: bv32, b0: bv8, b1: bv8, b2: bv8, b3: bv8)
    ensures var c1 := Step8(Xor(c, High(b0)));
            var c2 := Step8(Xor(c1, High(b1)));
            var c3 := Step8(Xor(c2, High(b2)));
            CrcFrom(c, [b0, b1, b2, b3]) == Step8(Xor(c3, High(b3)))
  {
    hide Step8, Xor, High;
    var c1 := Step8(Xor(c, High(b0)));
    var c2 := Step8(Xor(c1, High(b1)));
    var c3 := Step8(Xor(c2, High(b2)));
    assert [b0, b1, b2, b3] == [b0] + ([b1] + ([b2] + [b3]));
    CrcAppend(c, [b0], [b1] + ([b2] + [b3]));
    CrcAppend(c1, [b1], [b2] + [b3]);
    CrcAppend(c2, [b2], [b3]);
    CrcOne(c, b0);
    CrcOne(c1, b1);
    CrcOne(c2, b2);
    CrcOne(c3, b3);
  }

  lemma OwnBytes(c: bv32)
    ensures CrcFrom(c, BigEndian(c)) == 0
  {
    hide Step8, Xor, High, TopByte, Drop;
    CrcFour(c, TopByte(c), TopByte(Drop(c)), TopByte(Drop(Drop(c))), TopByte(Drop(Drop(Drop(c)))));
    OwnByte(c);
    OwnByte(Drop(c));
    OwnByte(Drop(Drop(c)));
    OwnByte(Drop(Drop(Drop(c))));
    DropAll(c);
  }

  /** A message followed by its own checksum, most significant byte first, has checksum zero. */
  lemma ChecksumAppended(s: seq<bv8>)
    ensures Crc(s + BigEndian(Crc(s))) == 0
  {
    hide BigEndian, CrcFrom;
    CrcAppend(0, s, BigEndian(Crc(s)));
    OwnBytes(Crc(s));
  }

  // ----- bursts

  function Pack(a: bv8, b: bv8, c: bv8, d: bv8): bv32 {
    ((a as bv32) << 24) | ((b as bv32) << 16) | ((c as bv32) << 8) | (d as bv32)
  }

  function Word(e: seq<bv8>): bv32
    requires |e| == 4
  {
    Pack(e[0], e[1], e[2], e[3])
  }

  lemma PackByte0(a: bv8, b: bv8, c: bv8, d: bv8)
    ensures TopByte(Pack(a, b, c, d)) == a
  {
  }

  lemma PackByte1(a: bv8, b: bv8, c: bv8, d: bv8)
    ensures TopByte(Drop(Pack(a, b, c, d))) == b
  {
  }

  lemma PackByte2(a: bv8, b: bv8, c: bv8, d: bv8)
    ensures TopByte(Drop(Drop(Pack(a, b, c, d)))) == c
  {
  }

  lemma PackByte3(a: bv8, b: bv8, c: bv8, d: bv8)
    ensures TopByte(Drop(Drop(Drop(Pack(a, b, c, d))))) == d
  {
  }

  lemma WordBytes(e: seq<bv8>)
    requires |e| == 4
    ensures BigEndian(Word(e)) == e
  {
    hide TopByte, Drop, Pack;
    PackByte0(e[0], e[1], e[2], e[3]);
    PackByte1(e[0], e[1], e[2], e[3]);
    PackByte2(e[0], e[1], e[2], e[3]);
    PackByte3(e[0], e[1], e[2], e[3]);
  }

  lemma BytesWord(c: bv32)
    ensures Word(BigEndian(c)) == c
  {
  }

  lemma XorBytesZeros(e: seq<bv8>)
    ensures XorBytes(e, Zeros(|e|)) == e
  {
    forall i | 0 <= i < |e|
      ensures XorBytes(e, Zeros(|e|))[i] == e[i]
    {
      XorZeroByte(e[i]);
    }
  }

  lemma XorZeroByte(b: bv8)
    ensures XorByte(b, 0) == b
  {
  }

  /** Four bytes, from a clear register, only vanish if they are all zero. */
  lemma FourBytesNonZero(e: seq<bv8>)
    requires |e| == 4 && CrcFrom(0, e) == 0
    ensures e == Zeros(4)
  {
    hide Xor, CrcFrom, BigEndian, Word;
    var w := Word(e);
    WordBytes(e);
    OwnBytes(w);
    CrcLinear(0, w, e, Zeros(4));
    XorBytesZeros(e);
    XorComm(0, w);
    XorCancel(w);
    assert Xor(0, CrcFrom(w, Zeros(4))) == 0;
    XorComm(0, CrcFrom(w, Zeros(4)));
    XorCancel(CrcFrom(w, Zeros(4)));
    CrcOfZeros(4);
    CrcFromInjective(w, 0, Zeros(4));
    BigEndianZero();
  }

  lemma BigEndianZero()
    ensures BigEndian(0) == Zeros(4)
  {
    assert TopByte(0) == 0 && Drop(0) == 0;
  }

  /** An error pattern confined to four consecutive bytes is never a codeword. */
  lemma BurstNonZero(e: seq<bv8>, i: nat)
    requires i < |e|
    requires forall k :: 0 <= k < |e| && !(i <= k < i + 4) ==> e[k] == 0
    requires Crc(e) == 0
    ensures e == Zeros(|e|)
  {
    hide CrcFrom;
    var end := if i + 4 <= |e| then i + 4 else |e|;
    var p := Zeros(3) + e;
    CrcAppend(0, Zeros(3), e);
    CrcOfZeros(3);
    var pre, win, post := p[..end - 1], p[end - 1..end + 3], p[end + 3..];
    assert p == pre + (win + post);
    assert pre == Zeros(|pre|) && post == Zeros(|post|);
    CrcAppend(0, pre, win + post);
    CrcOfZeros(|pre|);
    CrcAppend(0, win, post);
    CrcOfZeros(|post|);
    CrcFromInjective(CrcFrom(0, win), 0, post);
    FourBytesNonZero(win);
    forall k | 0 <= k < |e|
      ensures e[k] == 0
    {
      assert e[k] == p[k + 3];
      if i <= k < i + 4 {
        assert p[k + 3] == win[k + 4 - end];
      }
    }
  }

  lemma XorByteZero(a: bv8, b: bv8)
    ensures XorByte(a, b) == 0 <==> a == b
  {
  }

  /** Any change confined to four consecutive bytes changes the checksum. */
  lemma BurstDetected(s: seq<bv8>, t: seq<bv8>, i: nat)
    requires |s| == |t| && s != t && i < |s|
    requires forall k :: 0 <= k < |s| && !(i <= k < i + 4) ==> s[k] == t[k]
    ensures Crc(s) != Crc(t)
  {
    hide CrcFrom, Xor, XorByte;
    var e := XorBytes(s, t);
    forall k | 0 <= k < |s|
      ensures e[k] == 0 <==> s[k] == t[k]
    {
      XorByteZero(s[k], t[k]);
    }
    if Crc(s) == Crc(t) {
      CrcLinear(0, 0, s, t);
      XorCancel(0);
      XorCancel(Crc(s));
      BurstNonZero(e, i);
    }
  }
}
