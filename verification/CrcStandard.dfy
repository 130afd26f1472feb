/** The CRC as the standard defines it: the remainder of a polynomial division over two elements, computed here by long
    division on bit strings, and the known value that tells this CRC-32 from its relatives. */
module CrcStandard {
  import opened Bytes
  import opened Crc32
  import CrcTail

  // ---- Long division ------------------------------------------------------

  /** The powers in the generator of IEEE 802.3: x^32 + x^26 + x^23 + x^22 + x^16 + x^12 + x^11 + x^10 + x^8 + x^7 +
      x^5 + x^4 + x^2 + x + 1. */
  predicate Term(power: int) {
    || power == 32 || power == 26 || power == 23 || power == 22 || power == 16 || power == 12 || power == 11
    || power == 10 || power == 8 || power == 7 || power == 5 || power == 4 || power == 2 || power == 1 || power == 0
  }

  /** Subtract the generator, its leading term under the first bit. */
  ghost function Subtract(s: seq<bool>): (r: seq<bool>)
    requires |s| > 32
    ensures |r| == |s|
  {
    seq(|s|, i requires 0 <= i < |s| => if i <= 32 then s[i] != Term(32 - i) else s[i])
  }

  /** Long division of the polynomial with these coefficients, highest power first: what is left below x^32. */
  ghost function Remainder(s: seq<bool>): (w: Word)
    requires |s| >= 32
    decreases |s|
  {
    if |s| == 32 then s else Remainder((if s[0] then Subtract(s) else s)[1..])
  }

  /** The first bits of a string with a register added to them. */
  ghost function Onto(c: Word, s: seq<bool>): (r: seq<bool>)
    requires |s| >= 32
    ensures |r| == |s|
  {
    seq(|s|, i requires 0 <= i < |s| => if i < 32 then s[i] != c[i] else s[i])
  }

  lemma TapIsTerm(i: nat)
    requires i < 32
    ensures CrcTail.Tap(i) == Term(31 - i)
  {
  }

  /** The next line of the division at one place, read off the first bit of this one. */
  lemma LineAt(s: seq<bool>, i: nat)
    requires |s| > 32 && i + 1 < |s|
    ensures (if s[0] then Subtract(s) else s)[1..][i] == (s[i + 1] != (i < 32 && s[0] && Term(31 - i)))
  {
    assert 32 - (i + 1) == 31 - i;
  }

  /** The register moved on by one step, in terms of the generator. */
  ghost predicate Moved(d: Word, e: Word) {
    forall i :: 0 <= i < 32 ==> e[i] == ((i < 31 && d[i + 1]) != (d[0] && Term(31 - i)))
  }

  lemma StepMoves(d: Word)
    ensures Moved(d, Step(d))
  {
    forall i | 0 <= i < 32
      ensures Step(d)[i] == ((i < 31 && d[i + 1]) != (d[0] && Term(31 - i)))
    {
      CrcTail.StepTap(d, i);
      TapIsTerm(i);
    }
  }

  /** One step of the register is one line of the division. */
  lemma DivisionLine(c: Word, t: seq<bool>, d: Word, e: Word, s: seq<bool>)
    requires |t| > 32 && d == Xor(c, Pad([t[0]])) && Moved(d, e) && s == Onto(c, t)
    ensures (if s[0] then Subtract(s) else s)[1..] == Onto(e, t[1..])
  {
    var next, want := (if s[0] then Subtract(s) else s)[1..], Onto(e, t[1..]);
    forall i | 0 <= i < |next|
      ensures next[i] == want[i]
    {
      LineAt(s, i);
      OntoNext(c, t, d, s, i);
    }
  }

  lemma OntoNext(c: Word, t: seq<bool>, d: Word, s: seq<bool>, i: nat)
    requires |t| > 32 && d == Xor(c, Pad([t[0]])) && s == Onto(c, t) && i + 1 < |t|
    ensures s[0] == d[0] && s[i + 1] == (t[1..][i] != (i < 31 && d[i + 1]))
  {
  }

  /** Feeding bits through the register divides them, followed by 32 zeros, with the register added in front. */
  lemma {:induction false} SerialDivides(c: Word, bits: seq<bool>)
    ensures Serial(c, bits) == Remainder(Onto(c, bits + Zeros(32)))
    decreases bits
  {
    if bits == [] {
      assert bits + Zeros(32) == Zeros(32);
      assert Onto(c, Zeros(32)) == c;
    } else {
      var d, t := Xor(c, Pad([bits[0]])), bits + Zeros(32);
      assert t[0] == bits[0] && t[1..] == bits[1..] + Zeros(32);
      StepMoves(d);
      DivisionLine(c, t, d, Step(d), Onto(c, t));
      SerialDivides(Step(d), bits[1..]);
    }
  }

  /** The first 32 bits inverted. */
  ghost function Complemented(s: seq<bool>): (r: seq<bool>)
    requires |s| >= 32
    ensures |r| == |s| && forall i :: 0 <= i < |s| ==> r[i] == if i < 32 then !s[i] else s[i]
  {
    seq(|s|, i requires 0 <= i < |s| => if i < 32 then !s[i] else s[i])
  }

  /** CRC-32 of every byte string by the standard: the bits in transmission order, followed by 32 zeros, the first 32
      bits inverted, divided by the generator; the remainder inverted. */
  lemma CrcIsDivision(data: seq<byte>)
    ensures Crc(data) == Finish(Remainder(Complemented(MessageBits(data) + Zeros(32))))
  {
    var s := MessageBits(data) + Zeros(32);
    SerialDivides(Ones(), MessageBits(data));
    assert Onto(Ones(), s) == Complemented(s);
  }

  // ---- Known values -------------------------------------------------------

  /** Nothing has CRC 0: the two inversions cancel. */
  lemma EmptyCrc()
    ensures Crc([]) == 0
  {
    assert Xor(Ones(), Ones()) == Zeros(WIDTH);
    ZeroValue(Zeros(WIDTH));
  }

  lemma {:induction false} ZeroValue(bits: seq<bool>)
    requires forall i :: 0 <= i < |bits| ==> !bits[i]
    ensures ValueOf(bits) == 0
  {
    if bits != [] {
      ZeroValue(bits[1..]);
    }
  }

  // A division is checked by its quotient: every coefficient of the dividend is that of quotient times generator plus
  // remainder. Quotient and remainder are one list here, n quotient bits first.

  predicate At(f: seq<bool>, n: nat, j: int) {
    0 <= j < n <= |f| && f[j]
  }

  // An odd number of the generator's lower terms meet a quotient bit at power k. The terms in three groups.

  predicate OddHigh(f: seq<bool>, n: nat, k: int) {
    At(f, n, k - 6) != (At(f, n, k - 9) != (At(f, n, k - 10) != At(f, n, k - 16)))
  }

  predicate OddMid(f: seq<bool>, n: nat, k: int) {
    At(f, n, k - 20) != (At(f, n, k - 21) != (At(f, n, k - 22) != (At(f, n, k - 24) != At(f, n, k - 25))))
  }

  predicate OddLow(f: seq<bool>, n: nat, k: int) {
    At(f, n, k - 27) != (At(f, n, k - 28) != (At(f, n, k - 30) != (At(f, n, k - 31) != At(f, n, k - 32))))
  }

  predicate Odd(f: seq<bool>, n: nat, k: int) {
    OddHigh(f, n, k) != (OddMid(f, n, k) != OddLow(f, n, k))
  }

  /** f lists the quotient and the remainder of s. */
  ghost predicate Certifies(f: seq<bool>, s: seq<bool>, n: nat) {
    |f| == |s| == n + 32 && forall k :: 0 <= k < |s| ==> f[k] == (s[k] != Odd(f, n, k))
  }

  lemma OddFront(f: seq<bool>, n: nat, m: nat, k: nat)
    requires n == m + 1 && |f| == n + 32
    ensures Odd(f, n, k + 1) == (Odd(f[1..], m, k) != (f[0] && Term(31 - k)))
  {
    forall j: int
      ensures At(f, n, j) <==> At(f[1..], m, j - 1) || (j == 0 && f[0])
    {
      if 1 <= j < n {
        assert f[1..][j - 1] == f[j];
      }
    }
  }

  lemma CertifiesNext(f: seq<bool>, s: seq<bool>, n: nat, m: nat)
    requires Certifies(f, s, n) && n == m + 1
    ensures Certifies(f[1..], (if s[0] then Subtract(s) else s)[1..], m)
  {
    var next := (if s[0] then Subtract(s) else s)[1..];
    assert !Odd(f, n, 0);
    forall k | 0 <= k < |next|
      ensures f[1..][k] == (next[k] != Odd(f[1..], m, k))
    {
      LineAt(s, k);
      OddFront(f, n, m, k);
      assert f[k + 1] == (s[k + 1] != Odd(f, n, k + 1));
    }
  }

  /** A certified list ends in the remainder. */
  lemma {:induction false} CertifiedRemainder(f: seq<bool>, s: seq<bool>, n: nat)
    requires Certifies(f, s, n)
    ensures Remainder(s) == f[n..]
    decreases n
  {
    if n == 0 {
      assert forall k :: !At(f, n, k);
    } else {
      var m := n - 1;
      CertifiesNext(f, s, n, m);
      CertifiedRemainder(f[1..], (if s[0] then Subtract(s) else s)[1..], m);
      assert f[1..][m..] == f[n..];
    }
  }

  lemma CertifiesFront(f: seq<bool>, s: seq<bool>, n: nat, m: nat)
    requires |f| == |s| == n + 32 && n == m + 1 && f[0] == s[0]
    requires Certifies(f[1..], (if s[0] then Subtract(s) else s)[1..], m)
    ensures Certifies(f, s, n)
  {
    var next := (if s[0] then Subtract(s) else s)[1..];
    assert !Odd(f, n, 0);
    forall k | 0 <= k < |s|
      ensures f[k] == (s[k] != Odd(f, n, k))
    {
      if k > 0 {
        var j := k - 1;
        LineAt(s, j);
        OddFront(f, n, m, j);
        assert f[1..][j] == (next[j] != Odd(f[1..], m, j));
      }
    }
  }

  /** Every division has such a list. */
  lemma {:induction false} Division(s: seq<bool>, n: nat) returns (f: seq<bool>)
    requires |s| == n + 32
    ensures Certifies(f, s, n)
    decreases n
  {
    if n == 0 {
      f := s;
      assert forall k :: !At(f, n, k);
    } else {
      var m := n - 1;
      var rest := Division((if s[0] then Subtract(s) else s)[1..], m);
      f := [s[0]] + rest;
      assert f[1..] == rest;
      CertifiesFront(f, s, n, m);
    }
  }

  // The digits 1 to 9 in ASCII. Their bits in transmission order, the first 32 of them inverted, and 32 zeros:

  predicate IsDividend(s: seq<bool>) {
    && |s| == 104
    && !s[0] && s[1] && s[2] && s[3] && !s[4] && !s[5] && s[6] && s[7]
    && s[8] && !s[9] && s[10] && s[11] && !s[12] && !s[13] && s[14] && s[15]
    && !s[16] && !s[17] && s[18] && s[19] && !s[20] && !s[21] && s[22] && s[23]
    && s[24] && s[25] && !s[26] && s[27] && !s[28] && !s[29] && s[30] && s[31]
    && s[32] && !s[33] && s[34] && !s[35] && s[36] && s[37] && !s[38] && !s[39]
    && !s[40] && s[41] && s[42] && !s[43] && s[44] && s[45] && !s[46] && !s[47]
    && s[48] && s[49] && s[50] && !s[51] && s[52] && s[53] && !s[54] && !s[55]
    && !s[56] && !s[57] && !s[58] && s[59] && s[60] && s[61] && !s[62] && !s[63]
    && s[64] && !s[65] && !s[66] && s[67] && s[68] && s[69] && !s[70] && !s[71]
    && !s[72] && !s[73] && !s[74] && !s[75] && !s[76] && !s[77] && !s[78] && !s[79]
    && !s[80] && !s[81] && !s[82] && !s[83] && !s[84] && !s[85] && !s[86] && !s[87]
    && !s[88] && !s[89] && !s[90] && !s[91] && !s[92] && !s[93] && !s[94] && !s[95]
    && !s[96] && !s[97] && !s[98] && !s[99] && !s[100] && !s[101] && !s[102] && !s[103]
  }

  // The quotient of that, and from place 72 on the remainder.

  predicate IsSolution(f: seq<bool>) {
    && |f| == 104
    && !f[0] && f[1] && f[2] && f[3] && !f[4] && !f[5] && f[6] && !f[7]
    && !f[8] && f[9] && !f[10] && f[11] && f[12] && f[13] && f[14] && f[15]
    && f[16] && !f[17] && !f[18] && !f[19] && !f[20] && !f[21] && f[22] && !f[23]
    && f[24] && !f[25] && !f[26] && f[27] && f[28] && !f[29] && f[30] && !f[31]
    && f[32] && !f[33] && !f[34] && f[35] && !f[36] && f[37] && !f[38] && !f[39]
    && f[40] && !f[41] && f[42] && !f[43] && f[44] && !f[45] && !f[46] && f[47]
    && f[48] && !f[49] && !f[50] && f[51] && !f[52] && f[53] && f[54] && f[55]
    && !f[56] && !f[57] && !f[58] && f[59] && f[60] && !f[61] && f[62] && !f[63]
    && f[64] && !f[65] && !f[66] && f[67] && !f[68] && f[69] && !f[70] && !f[71]
    && f[72] && !f[73] && !f[74] && f[75] && f[76] && !f[77] && f[78] && f[79]
    && !f[80] && f[81] && f[82] && !f[83] && !f[84] && !f[85] && f[86] && f[87]
    && f[88] && f[89] && !f[90] && f[91] && !f[92] && !f[93] && !f[94] && !f[95]
    && !f[96] && !f[97] && f[98] && !f[99] && f[100] && f[101] && !f[102] && !f[103]
  }

  lemma SolutionFound(f: seq<bool>, s: seq<bool>)
    requires IsDividend(s) && Certifies(f, s, 72)
    ensures IsSolution(f)
  {
  }

  lemma EightBits(b: byte, bits: seq<bool>)
    requires |bits| == OCTET
    requires b == CrcTail.One(bits[0]) + 2 * (CrcTail.One(bits[1]) + 2 * (CrcTail.One(bits[2]) + 2 * (
                  CrcTail.One(bits[3]) + 2 * (CrcTail.One(bits[4]) + 2 * (CrcTail.One(bits[5]) + 2 * (
                  CrcTail.One(bits[6]) + 2 * CrcTail.One(bits[7])))))))
    ensures BitsOf(b, OCTET) == bits && ValueOf(bits) == b
  {
    CrcTail.EightValue(bits);
    BitsOfValue(bits);
  }

  /** The text 123456789. */
  predicate IsDigits(data: seq<byte>) {
    |data| == 9 && forall j :: 0 <= j < 9 ==> data[j] == 0x31 + j
  }

  lemma {:induction false} MessageBitAt(data: seq<byte>, j: nat, i: nat)
    requires j < |data| && i < OCTET
    ensures MessageBits(data)[OCTET * j + i] == BitsOf(data[j], OCTET)[i]
    decreases j
  {
    if j > 0 {
      MessageBitAt(data[1..], j - 1, i);
      assert OCTET * j + i == OCTET + (OCTET * (j - 1) + i);
    }
  }

  ghost function Padded(data: seq<byte>): (s: seq<bool>)
    ensures |s| == OCTET * |data| + 32
  {
    Complemented(MessageBits(data) + Zeros(32))
  }

  /** The bits of byte j in the dividend. */
  predicate ByteAt(s: seq<bool>, k: nat, bits: seq<bool>, flip: bool) {
    && k + 8 <= |s| && |bits| == 8
    && s[k] == (bits[0] != flip) && s[k + 1] == (bits[1] != flip)
    && s[k + 2] == (bits[2] != flip) && s[k + 3] == (bits[3] != flip)
    && s[k + 4] == (bits[4] != flip) && s[k + 5] == (bits[5] != flip)
    && s[k + 6] == (bits[6] != flip) && s[k + 7] == (bits[7] != flip)
  }

  lemma PaddedByte(data: seq<byte>, s: seq<bool>, j: nat, k: nat, b: byte, bits: seq<bool>)
    requires s == Padded(data) && j < |data| && k == 8 * j && b == data[j] && bits == BitsOf(b, OCTET)
    ensures ByteAt(s, k, bits, j < 4)
  {
    forall i | 0 <= i < 8
      ensures s[k + i] == (bits[i] != (j < 4))
    {
      MessageBitAt(data, j, i);
    }
  }

  lemma PaddedEnd(data: seq<byte>, s: seq<bool>)
    requires s == Padded(data) && |data| == 9
    ensures |s| == 104 && forall k :: 72 <= k < 104 ==> !s[k]
  {
  }

  lemma DigitBits()
    ensures BitsOf(0x31, OCTET) == [true, false, false, false, true, true, false, false]
    ensures BitsOf(0x32, OCTET) == [false, true, false, false, true, true, false, false]
    ensures BitsOf(0x33, OCTET) == [true, true, false, false, true, true, false, false]
    ensures BitsOf(0x34, OCTET) == [false, false, true, false, true, true, false, false]
    ensures BitsOf(0x35, OCTET) == [true, false, true, false, true, true, false, false]
    ensures BitsOf(0x36, OCTET) == [false, true, true, false, true, true, false, false]
    ensures BitsOf(0x37, OCTET) == [true, true, true, false, true, true, false, false]
    ensures BitsOf(0x38, OCTET) == [false, false, false, true, true, true, false, false]
    ensures BitsOf(0x39, OCTET) == [true, false, false, true, true, true, false, false]
  {
    EightBits(0x31, [true, false, false, false, true, true, false, false]);
    EightBits(0x32, [false, true, false, false, true, true, false, false]);
    EightBits(0x33, [true, true, false, false, true, true, false, false]);
    EightBits(0x34, [false, false, true, false, true, true, false, false]);
    EightBits(0x35, [true, false, true, false, true, true, false, false]);
    EightBits(0x36, [false, true, true, false, true, true, false, false]);
    EightBits(0x37, [true, true, true, false, true, true, false, false]);
    EightBits(0x38, [false, false, false, true, true, true, false, false]);
    EightBits(0x39, [true, false, false, true, true, true, false, false]);
  }

  predicate DigitRows(s: seq<bool>) {
    && ByteAt(s, 0, [true, false, false, false, true, true, false, false], true)
    && ByteAt(s, 8, [false, true, false, false, true, true, false, false], true)
    && ByteAt(s, 16, [true, true, false, false, true, true, false, false], true)
    && ByteAt(s, 24, [false, false, true, false, true, true, false, false], true)
    && ByteAt(s, 32, [true, false, true, false, true, true, false, false], false)
    && ByteAt(s, 40, [false, true, true, false, true, true, false, false], false)
    && ByteAt(s, 48, [true, true, true, false, true, true, false, false], false)
    && ByteAt(s, 56, [false, false, false, true, true, true, false, false], false)
    && ByteAt(s, 64, [true, false, false, true, true, true, false, false], false)
  }

  lemma DigitBytes(data: seq<byte>, s: seq<bool>)
    requires s == Padded(data) && IsDigits(data)
    ensures DigitRows(s)
  {
    DigitBits();
    PaddedByte(data, s, 0, 0, 0x31, [true, false, false, false, true, true, false, false]);
    PaddedByte(data, s, 1, 8, 0x32, [false, true, false, false, true, true, false, false]);
    PaddedByte(data, s, 2, 16, 0x33, [true, true, false, false, true, true, false, false]);
    PaddedByte(data, s, 3, 24, 0x34, [false, false, true, false, true, true, false, false]);
    PaddedByte(data, s, 4, 32, 0x35, [true, false, true, false, true, true, false, false]);
    PaddedByte(data, s, 5, 40, 0x36, [false, true, true, false, true, true, false, false]);
    PaddedByte(data, s, 6, 48, 0x37, [true, true, true, false, true, true, false, false]);
    PaddedByte(data, s, 7, 56, 0x38, [false, false, false, true, true, true, false, false]);
    PaddedByte(data, s, 8, 64, 0x39, [true, false, false, true, true, true, false, false]);
  }

  lemma DigitsDividend(s: seq<bool>)
    requires |s| == 104 && DigitRows(s) && forall k :: 72 <= k < 104 ==> !s[k]
    ensures IsDividend(s)
  {
  }

  /** The remainder, inverted, as a number. */
  lemma RemainderValue(f: seq<bool>, r: Word)
    requires IsSolution(f) && r == f[72..]
    ensures Finish(r) == 0xCBF4_3926
  {
    var w := Xor(r, Ones());
    var a, b, c, d := w[..8], w[8..16], w[16..24], w[24..];
    assert w == a + (b + (c + d));
    EightBits(0x26, a);
    EightBits(0x39, b);
    EightBits(0xF4, c);
    EightBits(0xCB, d);
    CrcTail.FourBytes(a, b, c, d);
  }

  /** The check value of this CRC: the text 123456789 has CRC 0xCBF43926. */
  lemma CheckValue(data: seq<byte>)
    requires IsDigits(data)
    ensures Crc(data) == 0xCBF4_3926
  {
    var s := Padded(data);
    DigitBytes(data, s);
    PaddedEnd(data, s);
    DigitsDividend(s);
    var f := Division(s, 72);
    SolutionFound(f, s);
    CertifiedRemainder(f, s, 72);
    RemainderValue(f, f[72..]);
    CrcIsDivision(data);
  }
}
