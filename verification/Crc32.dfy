/** The IEEE 802.3 CRC-32 (reflected polynomial 0xEDB88320): the table-driven code equals the bit-serial
    definition, and no corruption confined to 32 consecutive message bits goes unnoticed.

    A 32-bit register is modelled as its bits, least significant first, so that XOR is pointwise and a right
    shift drops the first bit. */
module Crc32 {
  import opened Bytes

  type Word = w: seq<bool> | |w| == 32 witness seq(32, i => false)

  /** The n low bits of x, least significant first. */
  function BitsOf(x: nat, n: nat): (bits: seq<bool>)
    ensures |bits| == n
  {
    if n == 0 then [] else [x % 2 == 1] + BitsOf(x / 2, n - 1)
  }

  function ValueOf(bits: seq<bool>): nat {
    if bits == [] then 0 else (if bits[0] then 1 else 0) + 2 * ValueOf(bits[1..])
  }

  function Zeros(n: nat): (z: seq<bool>)
    ensures |z| == n && forall i :: 0 <= i < n ==> !z[i]
  {
    seq(n, i => false)
  }

  const POLYNOMIAL: nat := 0xEDB88320
  const OCTET: nat := 8
  const WIDTH: nat := 32

  function Polynomial(): (p: Word)
    ensures p[31]
  {
    PowerValues(); TopBit(POLYNOMIAL, WIDTH);
    BitsOf(POLYNOMIAL, WIDTH)
  }

  function Ones(): Word { seq(32, i => true) }

  function Xor(a: Word, b: Word): (c: Word)
    ensures forall i :: 0 <= i < 32 ==> c[i] == (a[i] != b[i])
  {
    seq(32, i requires 0 <= i < 32 => a[i] != b[i])
  }

  /** c >> n for n at most 32. */
  function ShiftRight(c: Word, n: nat): Word
    requires n <= 32
  {
    c[n..] + Zeros(n)
  }

  /** One division step of the reflected register. */
  function Step(c: Word): Word {
    if c[0] then Xor(Polynomial(), ShiftRight(c, 1)) else ShiftRight(c, 1)
  }

  function Steps(c: Word, n: nat): Word
    decreases n
  {
    if n == 0 then c else Steps(Step(c), n - 1)
  }

  /** At most 32 bits placed at the low end of a register. */
  function Pad(bits: seq<bool>): Word
    requires |bits| <= 32
  {
    bits + Zeros(32 - |bits|)
  }

  /** The reference: message bits enter one at a time. */
  ghost function Serial(c: Word, bits: seq<bool>): Word
    decreases bits
  {
    if bits == [] then c else Serial(Step(Xor(c, Pad([bits[0]]))), bits[1..])
  }

  /** The bits of a byte string in transmission order: bytes in order, least significant bit first. */
  ghost function MessageBits(data: seq<byte>): (bits: seq<bool>)
    ensures |bits| == OCTET * |data|
  {
    if data == [] then [] else BitsOf(data[0], OCTET) + MessageBits(data[1..])
  }

  /** The register after a whole byte string. */
  ghost function Register(data: seq<byte>): Word {
    Serial(Ones(), MessageBits(data))
  }

  /** The number a register stands for, after the final inversion. */
  function Finish(c: Word): u32 {
    var w := Xor(c, Ones());
    ValueBound(w); PowerValues();
    ValueOf(w)
  }

  /** CRC-32 of a byte string by the bit-serial definition. */
  ghost function Crc(data: seq<byte>): u32 {
    Finish(Register(data))
  }

  // ---- Numbers and bits ---------------------------------------------------

  lemma PowerValues()
    ensures PowerOf2(OCTET) == 0x100 && PowerOf2(31) == 0x8000_0000 && PowerOf2(32) == TWO32
  {
    assert PowerOf2(12) == 0x1000;
    assert PowerOf2(16) == 0x1_0000;
    assert PowerOf2(20) == 0x10_0000;
    assert PowerOf2(24) == 0x100_0000;
    assert PowerOf2(28) == 0x1000_0000;
  }

  lemma {:induction false} ValueBound(bits: seq<bool>)
    ensures ValueOf(bits) < PowerOf2(|bits|)
  {
    if bits != [] {
      ValueBound(bits[1..]);
    }
  }

  lemma {:induction false} BitsOfValue(bits: seq<bool>)
    ensures BitsOf(ValueOf(bits), |bits|) == bits
  {
    if bits != [] {
      BitsOfValue(bits[1..]);
      assert ValueOf(bits) / 2 == ValueOf(bits[1..]);
      assert bits == [bits[0]] + bits[1..];
    }
  }

  lemma {:induction false} ValueOfBits(x: nat, n: nat)
    requires x < PowerOf2(n)
    ensures ValueOf(BitsOf(x, n)) == x
  {
    if n > 0 {
      ValueOfBits(x / 2, n - 1);
      assert BitsOf(x, n)[1..] == BitsOf(x / 2, n - 1);
    }
  }

  lemma {:induction false} TopBit(x: nat, n: nat)
    requires n > 0 && PowerOf2(n - 1) <= x < PowerOf2(n)
    ensures BitsOf(x, n)[n - 1]
  {
    if n > 1 {
      TopBit(x / 2, n - 1);
    }
  }

  // ---- The register is linear and invertible ------------------------------

  lemma StepAt(c: Word, i: nat)
    requires i < 32
    ensures Step(c)[i] == ((i < 31 && c[i + 1]) != (c[0] && Polynomial()[i]))
  {
  }

  lemma StepLinear(x: Word, y: Word)
    ensures Step(Xor(x, y)) == Xor(Step(x), Step(y))
  {
    forall i | 0 <= i < 32
      ensures Step(Xor(x, y))[i] == Xor(Step(x), Step(y))[i]
    {
      StepAt(Xor(x, y), i);
      StepAt(x, i);
      StepAt(y, i);
    }
  }

  lemma {:induction false} StepsLinear(x: Word, y: Word, n: nat)
    ensures Steps(Xor(x, y), n) == Xor(Steps(x, n), Steps(y, n))
    decreases n
  {
    if n > 0 {
      StepLinear(x, y);
      StepsLinear(Step(x), Step(y), n - 1);
    }
  }

  /** The top polynomial coefficient reveals the bit that was shifted out. */
  lemma StepInjective(x: Word, y: Word)
    requires Step(x) == Step(y)
    ensures x == y
  {
    StepAt(x, 31);
    StepAt(y, 31);
    forall i | 0 <= i < 32
      ensures x[i] == y[i]
    {
      if i > 0 {
        StepAt(x, i - 1);
        StepAt(y, i - 1);
      }
    }
  }

  lemma {:induction false} StepsInjective(x: Word, y: Word, n: nat)
    requires Steps(x, n) == Steps(y, n)
    ensures x == y
    decreases n
  {
    if n > 0 {
      StepsInjective(Step(x), Step(y), n - 1);
      StepInjective(x, y);
    }
  }

  lemma XorCancel(c: Word, x: Word, y: Word)
    requires Xor(c, x) == Xor(c, y)
    ensures x == y
  {
    forall i | 0 <= i < 32
      ensures x[i] == y[i]
    {
      assert Xor(c, x)[i] == Xor(c, y)[i];
    }
  }

  lemma XorComm(x: Word, y: Word)
    ensures Xor(x, y) == Xor(y, x)
  {
  }

  /** Steps over zero bits only move the register down. */
  lemma {:induction false} StepsDown(c: Word, n: nat)
    requires n <= 32 && forall i :: 0 <= i < n ==> !c[i]
    ensures Steps(c, n) == ShiftRight(c, n)
    decreases n
  {
    if n == 0 {
      assert c[0..] + Zeros(0) == c;
    } else {
      var d := ShiftRight(c, 1);
      assert Step(c) == d;
      StepsDown(d, n - 1);
      assert ShiftRight(d, n - 1) == ShiftRight(c, n);
    }
  }

  /** The bits still waiting behind the first one can be XORed in before or after its step. */
  lemma PadStep(c: Word, bits: seq<bool>)
    requires 1 <= |bits| <= 32
    ensures Step(Xor(c, Pad(bits))) == Xor(Step(Xor(c, Pad([bits[0]]))), Pad(bits[1..]))
  {
    var x, d := Xor(c, Pad(bits)), Xor(c, Pad([bits[0]]));
    var p, q := Step(x), Xor(Step(d), Pad(bits[1..]));
    forall i | 0 <= i < 32
      ensures p[i] == q[i]
    {
      StepAt(x, i);
      StepAt(d, i);
    }
  }

  /** Up to 32 message bits act on the register as one XOR followed by plain steps. */
  lemma {:induction false} SerialIsSteps(c: Word, bits: seq<bool>)
    requires |bits| <= 32
    ensures Serial(c, bits) == Steps(Xor(c, Pad(bits)), |bits|)
    decreases bits
  {
    if bits == [] {
      assert Xor(c, Pad(bits)) == c;
    } else {
      var d, rest := Xor(c, Pad([bits[0]])), bits[1..];
      SerialIsSteps(Step(d), rest);
      PadStep(c, bits);
    }
  }

  lemma {:induction false} SerialAppend(c: Word, a: seq<bool>, b: seq<bool>)
    ensures Serial(c, a + b) == Serial(Serial(c, a), b)
    decreases a
  {
    if a == [] {
      assert a + b == b;
    } else {
      assert (a + b)[1..] == a[1..] + b;
      SerialAppend(Step(Xor(c, Pad([a[0]]))), a[1..], b);
    }
  }

  lemma {:induction false} MessageAppend(a: seq<byte>, b: seq<byte>)
    ensures MessageBits(a + b) == MessageBits(a) + MessageBits(b)
  {
    if a == [] {
      assert a + b == b;
    } else {
      assert (a + b)[1..] == a[1..] + b;
      MessageAppend(a[1..], b);
    }
  }

  // ---- The table-driven loop ----------------------------------------------

  /** The low byte of a register, as a table index. */
  function LowByte(c: Word): (b: byte)
    ensures BitsOf(b, OCTET) == c[..OCTET]
  {
    ValueBound(c[..OCTET]); PowerValues(); BitsOfValue(c[..OCTET]);
    ValueOf(c[..OCTET])
  }

  lemma SplitLow(x: Word)
    ensures x == Xor(Pad(x[..OCTET]), Zeros(OCTET) + x[OCTET..])
    ensures ShiftRight(Zeros(OCTET) + x[OCTET..], OCTET) == ShiftRight(x, OCTET)
  {
  }

  lemma HighUnchanged(c: Word, bits: seq<bool>)
    requires |bits| == OCTET
    ensures ShiftRight(Xor(c, Pad(bits)), OCTET) == ShiftRight(c, OCTET)
  {
  }

  /** Absorbing a byte by table look-up equals absorbing its eight bits. */
  lemma TableStep(c: Word, b: byte)
    ensures var index := LowByte(Xor(c, Pad(BitsOf(b, OCTET))));
            Serial(c, BitsOf(b, OCTET)) == Xor(Steps(Pad(BitsOf(index, OCTET)), OCTET), ShiftRight(c, OCTET))
  {
    var x := Xor(c, Pad(BitsOf(b, OCTET)));
    var low, high := Pad(x[..OCTET]), Zeros(OCTET) + x[OCTET..];
    SerialIsSteps(c, BitsOf(b, OCTET));
    SplitLow(x);
    StepsLinear(low, high, OCTET);
    StepsDown(high, OCTET);
    HighUnchanged(c, BitsOf(b, OCTET));
  }

  ghost predicate IsTable(table: seq<Word>) {
    |table| == 256 && forall i: byte :: table[i] == Entry(i)
  }

  /** The inner loop: eight shifts of one table index. */
  method EightSteps(start: Word) returns (c: Word)
    ensures c == Steps(start, OCTET)
  {
    c := start;
    for k := 0 to OCTET
      invariant Steps(c, OCTET - k) == Steps(start, OCTET)
    {
      c := if c[0] then Xor(Polynomial(), ShiftRight(c, 1)) else ShiftRight(c, 1);
    }
  }

  ghost function Entry(i: byte): Word {
    Steps(Pad(BitsOf(i, OCTET)), OCTET)
  }

  /** The 256-entry table of eight-step remainders. */
  method BuildTable() returns (table: seq<Word>)
    ensures IsTable(table)
  {
    table := [];
    for i := 0 to 256
      invariant |table| == i
      invariant forall j: byte :: j < i ==> table[j] == Entry(j)
    {
      var c := EightSteps(Pad(BitsOf(i, OCTET)));
      table := table + [c];
    }
  }

  /** The table-driven loop computes the bit-serial CRC of every byte string. */
  method Checksum(data: seq<byte>) returns (crc: u32)
    ensures crc == Crc(data)
  {
    var table := BuildTable();
    var c := Ones();
    for i := 0 to |data|
      invariant c == Register(data[..i])
    {
      AbsorbNext(table, data, i);
      c := TableLookup(table, c, data[i]);
    }
    assert data[..|data|] == data;
    crc := Finish(c);
  }

  function TableLookup(table: seq<Word>, c: Word, b: byte): Word
    requires |table| == 256
  {
    Xor(table[LowByte(Xor(c, Pad(BitsOf(b, OCTET))))], ShiftRight(c, OCTET))
  }

  lemma AbsorbByte(table: seq<Word>, data: seq<byte>, b: byte)
    requires IsTable(table)
    ensures Register(data + [b]) == TableLookup(table, Register(data), b)
  {
    MessageAppend(data, [b]);
    assert MessageBits([b]) == BitsOf(b, OCTET) + MessageBits([]) == BitsOf(b, OCTET);
    SerialAppend(Ones(), MessageBits(data), BitsOf(b, OCTET));
    TableStep(Register(data), b);
  }

  lemma AbsorbNext(table: seq<Word>, data: seq<byte>, i: nat)
    requires IsTable(table) && i < |data|
    ensures Register(data[..i + 1]) == TableLookup(table, Register(data[..i]), data[i])
  {
    var init, b := data[..i], data[i];
    OneMore(data, i);
    AbsorbByte(table, init, b);
  }

  lemma OneMore(data: seq<byte>, i: nat)
    requires i < |data|
    ensures data[..i + 1] == data[..i] + [data[i]]
  {
  }

  // ---- Burst detection ----------------------------------------------------

  /** Distinct registers stay distinct whatever bits follow. */
  lemma {:induction false} SerialInjective(c: Word, d: Word, bits: seq<bool>)
    requires c != d
    ensures Serial(c, bits) != Serial(d, bits)
    decreases bits
  {
    if bits != [] {
      var p := Pad([bits[0]]);
      if Step(Xor(c, p)) == Step(Xor(d, p)) {
        StepInjective(Xor(c, p), Xor(d, p));
        XorComm(c, p);
        XorComm(d, p);
        XorCancel(p, c, d);
      }
      SerialInjective(Step(Xor(c, p)), Step(Xor(d, p)), bits[1..]);
    }
  }

  lemma PadInjective(v: seq<bool>, w: seq<bool>)
    requires |v| == |w| <= 32 && Pad(v) == Pad(w)
    ensures v == w
  {
    assert v == Pad(v)[..|v|] && w == Pad(w)[..|w|];
  }

  /** From one register, different windows of at most 32 bits lead to different registers. */
  lemma WindowInjective(c: Word, v: seq<bool>, w: seq<bool>)
    requires |v| == |w| <= 32 && v != w
    ensures Serial(c, v) != Serial(c, w)
  {
    SerialIsSteps(c, v);
    SerialIsSteps(c, w);
    if Serial(c, v) == Serial(c, w) {
      StepsInjective(Xor(c, Pad(v)), Xor(c, Pad(w)), |v|);
      XorCancel(c, Pad(v), Pad(w));
      PadInjective(v, w);
    }
  }

  /** A burst of at most 32 bits between a common beginning and a common end changes the register. */
  lemma BurstChangesRegister(before: seq<bool>, v: seq<bool>, w: seq<bool>, after: seq<bool>)
    requires |v| == |w| <= 32 && v != w
    ensures Serial(Ones(), before + (v + after)) != Serial(Ones(), before + (w + after))
  {
    var c := Serial(Ones(), before);
    SerialAppend(Ones(), before, v + after);
    SerialAppend(Ones(), before, w + after);
    SerialAppend(c, v, after);
    SerialAppend(c, w, after);
    WindowInjective(c, v, w);
    SerialInjective(Serial(c, v), Serial(c, w), after);
  }

  /** Two byte strings whose message bits differ only inside one window of 32 consecutive bits have
      different CRCs. */
  lemma BurstDetected(a: seq<byte>, b: seq<byte>, start: nat, width: nat)
    requires |a| == |b| && a != b
    requires width <= 32 && start + width <= OCTET * |a|
    requires MessageBits(a)[..start] == MessageBits(b)[..start]
    requires MessageBits(a)[start + width..] == MessageBits(b)[start + width..]
    ensures Crc(a) != Crc(b)
  {
    if MessageBits(a) == MessageBits(b) {
      MessageInjective(a, b);
    }
    WindowDetected(MessageBits(a), MessageBits(b), start, width);
    FinalInjective(Register(a), Register(b));
  }

  lemma WindowDetected(x: seq<bool>, y: seq<bool>, start: nat, width: nat)
    requires |x| == |y| && x != y && width <= 32 && start + width <= |x|
    requires x[..start] == y[..start] && x[start + width..] == y[start + width..]
    ensures Serial(Ones(), x) != Serial(Ones(), y)
  {
    var v, w := x[start..start + width], y[start..start + width];
    assert x == x[..start] + (v + x[start + width..]);
    assert y == y[..start] + (w + y[start + width..]);
    BurstChangesRegister(x[..start], v, w, x[start + width..]);
  }

  lemma FinalInjective(c: Word, d: Word)
    requires c != d
    ensures Finish(c) != Finish(d)
  {
    if Finish(c) == Finish(d) {
      BitsOfValue(Xor(c, Ones()));
      BitsOfValue(Xor(d, Ones()));
      XorComm(c, Ones());
      XorComm(d, Ones());
      XorCancel(Ones(), c, d);
    }
  }

  lemma {:induction false} MessageInjective(a: seq<byte>, b: seq<byte>)
    requires |a| == |b| && MessageBits(a) == MessageBits(b)
    ensures a == b
  {
    if a != [] {
      assert MessageBits(a)[..OCTET] == BitsOf(a[0], OCTET) && MessageBits(b)[..OCTET] == BitsOf(b[0], OCTET);
      PowerValues();
      ValueOfBits(a[0], OCTET);
      ValueOfBits(b[0], OCTET);
      assert MessageBits(a)[OCTET..] == MessageBits(a[1..]) && MessageBits(b)[OCTET..] == MessageBits(b[1..]);
      MessageInjective(a[1..], b[1..]);
      assert a == [a[0]] + a[1..] && b == [b[0]] + b[1..];
    }
  }

  /** The same for bytes: at most four consecutive bytes replaced by different ones. */
  lemma ByteBurstDetected(before: seq<byte>, v: seq<byte>, w: seq<byte>, after: seq<byte>)
    requires |v| == |w| <= 4 && v != w
    ensures Crc(before + v + after) != Crc(before + w + after)
  {
    var a, b := before + v + after, before + w + after;
    MessageAppend(before + v, after);
    MessageAppend(before, v);
    MessageAppend(before + w, after);
    MessageAppend(before, w);
    assert a[|before|..|before| + |v|] == v && b[|before|..|before| + |v|] == w;
    BurstDetected(a, b, OCTET * |before|, OCTET * |v|);
  }
}
