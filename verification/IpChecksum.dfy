/** The IPv4 header checksum (section 3.1 of RFC 791, section 1 of RFC 1071): the carry-folding loop computes the
    ones-complement sum, and a header that carries its checksum checks to zero. */
module IpChecksum {
  import opened Bytes

  const HALF: nat := 0x1_0000

  function Word(hi: byte, lo: byte): u16 {
    256 * hi + lo
  }

  /** The sum of the big-endian words, an odd last byte padded with a zero. */
  function WordSum(data: seq<byte>): nat {
    if |data| >= 2 then Word(data[0], data[1]) + WordSum(data[2..])
    else if |data| == 1 then Word(data[0], 0)
    else 0
  }

  /** Add the carries back in until none is left. */
  function Folded(n: nat): (r: u16) {
    if n < HALF then n else Folded(n % HALF + n / HALF)
  }

  /** ip_checksum: the sum is kept in 32 bits, folded and complemented. */
  function Checksum(data: seq<byte>): u16 {
    0xFFFF - Folded(WordSum(data) % TWO32)
  }

  /** The ones-complement value of a sum: its residue modulo 65535, in 1..65535 unless the sum is zero. */
  function Residue(n: nat): (r: u16) {
    if n == 0 then 0 else (n - 1) % 0xFFFF + 1
  }

  lemma ResidueStep(n: nat, h: nat, m: nat)
    requires n == m + 0xFFFF * h && m > 0
    ensures Residue(n) == Residue(m)
  {
    ModUnique(n - 1, 0xFFFF, (m - 1) / 0xFFFF + h, (m - 1) % 0xFFFF);
  }

  /** Folding computes the ones-complement value. */
  lemma {:induction false} FoldedIsResidue(n: nat)
    ensures Folded(n) == Residue(n)
  {
    if n >= HALF {
      var m := n % HALF + n / HALF;
      FoldedIsResidue(m);
      ResidueStep(n, n / HALF, m);
    }
  }

  /** What the 32-bit accumulator holds at the end of the sum. */
  function Accumulated(data: seq<byte>): u32 {
    WordSum(data) % TWO32
  }

  lemma ChecksumIsComplement(data: seq<byte>)
    ensures Checksum(data) == 0xFFFF - Residue(Accumulated(data))
  {
    FoldedIsResidue(Accumulated(data));
  }

  /** The bytes at even places count 256 times, those at odd places once. */
  function ByteSum(data: seq<byte>): nat {
    if data == [] then 0
    else
      var n := |data| - 1;
      ByteSum(data[..n]) + Weighted(n, data[n])
  }

  function Weighted(place: nat, b: nat): nat {
    if place % 2 == 0 then 256 * b else b
  }

  lemma {:induction false} ByteSumFront(data: seq<byte>)
    requires |data| >= 2
    ensures ByteSum(data) == Word(data[0], data[1]) + ByteSum(data[2..])
    decreases |data|
  {
    var n := |data| - 1;
    if n == 1 {
      assert data[..1][..0] == [] && data[2..] == [];
      assert ByteSum(data[..1]) == ByteSum(data[..1][..0]) + Weighted(0, data[0]);
    } else {
      ByteSumFront(data[..n]);
      assert data[..n][2..] == data[2..][..n - 2] && data[2..][n - 2] == data[n];
    }
  }

  /** The sum of section 1 of RFC 1071: adjacent bytes paired to words, an odd one out padded with zero. */
  lemma {:induction false} WordSumExact(data: seq<byte>)
    ensures WordSum(data) == ByteSum(data)
    decreases |data|
  {
    if |data| >= 2 {
      ByteSumFront(data);
      WordSumExact(data[2..]);
    } else if |data| == 1 {
      assert data[..0] == [];
    }
  }

  /** The example of section 3 of RFC 1071: the words 0001 f203 f4f5 f6f7 add up to ddf2, so their checksum is 220d. */
  lemma Rfc1071Example()
    ensures Checksum([0x00, 0x01, 0xF2, 0x03, 0xF4, 0xF5, 0xF6, 0xF7]) == 0x220D
  {
    var d: seq<byte> := [0x00, 0x01, 0xF2, 0x03, 0xF4, 0xF5, 0xF6, 0xF7];
    assert d[2..] == [0xF2, 0x03, 0xF4, 0xF5, 0xF6, 0xF7] && d[2..][2..] == [0xF4, 0xF5, 0xF6, 0xF7];
    assert d[2..][2..][2..] == [0xF6, 0xF7] && d[2..][2..][2..][2..] == [];
    assert WordSum([0xF6, 0xF7]) == 0xF6F7;
    assert WordSum([0xF4, 0xF5, 0xF6, 0xF7]) == 0xF4F5 + 0xF6F7;
    assert WordSum(d) == 0x2_DDF0;
    ChecksumIsComplement(d);
  }

  // ---- Inserting the checksum ---------------------------------------------

  /** The range with the word at an even offset replaced. */
  function Patched(data: seq<byte>, at: nat, w: u16): (r: seq<byte>)
    requires at % 2 == 0 && at + 2 <= |data|
    ensures |r| == |data|
  {
    data[at := w / 256][at + 1 := w % 256]
  }

  function WordAt(data: seq<byte>, at: nat): u16
    requires at + 2 <= |data|
  {
    Word(data[at], data[at + 1])
  }

  /** Replacing a word changes the sum by the difference. */
  lemma {:induction false} PatchedSum(data: seq<byte>, at: nat, w: u16)
    requires at % 2 == 0 && at + 2 <= |data|
    ensures WordSum(Patched(data, at, w)) + WordAt(data, at) == WordSum(data) + w
    decreases at
  {
    var p := Patched(data, at, w);
    if at == 0 {
      assert p[2..] == data[2..];
    } else {
      PatchedSum(data[2..], at - 2, w);
      assert p[2..] == Patched(data[2..], at - 2, w);
    }
  }

  /** The accumulator after a word was replaced. */
  lemma PatchedAccumulated(data: seq<byte>, at: nat, w: u16)
    requires at % 2 == 0 && at + 2 <= |data|
    ensures var s := Accumulated(data) + w - WordAt(data, at);
            Accumulated(Patched(data, at, w)) == if s < 0 then s + TWO32 else if s < TWO32 then s else s - TWO32
  {
    PatchedSum(data, at, w);
    var n, k := WordSum(data), WordSum(data) / TWO32;
    var s := Accumulated(data) + w - WordAt(data, at);
    assert WordSum(Patched(data, at, w)) == k * TWO32 + s;
    if s < 0 {
      ModUnique(k * TWO32 + s, TWO32, k - 1, s + TWO32);
    } else if s < TWO32 {
      ModUnique(k * TWO32 + s, TWO32, k, s);
    } else {
      ModUnique(k * TWO32 + s, TWO32, k + 1, s - TWO32);
    }
  }

  /** The next multiple of 65535 never leaves 32 bits, because 2^32 - 1 is one. */
  lemma RoundsUp(s: u32, c: u16)
    requires c == 0xFFFF - Residue(s)
    ensures s + c < TWO32 && Residue(s + c) == 0xFFFF
  {
    if s > 0 {
      var q := (s - 1) / 0xFFFF;
      assert s + c == 0xFFFF + 0xFFFF * q;
      ResidueStep(s + c, q, 0xFFFF);
    }
  }

  /** With its checksum stored in a field that was zero, a range of any length, even or odd, checks to zero. */
  lemma InsertedChecksZero(data: seq<byte>, at: nat)
    requires at % 2 == 0 && at + 2 <= |data| && WordAt(data, at) == 0
    ensures Checksum(Patched(data, at, Checksum(data))) == 0
  {
    var c := Checksum(data);
    ChecksumIsComplement(data);
    RoundsUp(Accumulated(data), c);
    PatchedAccumulated(data, at, c);
    ChecksumIsComplement(Patched(data, at, c));
  }

  /** Changing one word of a range that checks to zero goes unnoticed if and only if the change is between 0x0000 and
      0xFFFF and keeps the accumulated sum above zero and within 32 bits. */
  lemma OneWordDetected(data: seq<byte>, at: nat, w: u16)
    requires at % 2 == 0 && at + 2 <= |data| && Checksum(data) == 0 && w != WordAt(data, at)
    ensures Checksum(Patched(data, at, w)) == 0 <==>
            {w, WordAt(data, at)} == {0, 0xFFFF} && 0 < Accumulated(data) + w - WordAt(data, at) < TWO32
  {
    var word := WordAt(data, at);
    ChecksumIsComplement(data);
    ChecksumIsComplement(Patched(data, at, w));
    FullResidue(Accumulated(data));
    FullResidue(Accumulated(Patched(data, at, w)));
    PatchedAccumulated(data, at, w);
    PairOf(w, word);
    MovedSum(Accumulated(data), Accumulated(Patched(data, at, w)), w - word);
  }

  lemma PairOf(x: u16, y: u16)
    requires x != y
    ensures {x, y} == {0, 0xFFFF} <==> x - y == 0xFFFF || y - x == 0xFFFF
  {
    if {x, y} == {0, 0xFFFF} {
      assert 0 in {x, y} && 0xFFFF in {x, y};
    }
  }

  /** A multiple of 65535 moved by less than 65536, and wrapped, is a positive multiple again only by a whole step. */
  lemma MovedSum(n: u32, m: u32, d: int)
    requires n > 0 && n % 0xFFFF == 0 && d != 0 && -0xFFFF <= d <= 0xFFFF
    requires m == if n + d < 0 then n + d + TWO32 else if n + d < TWO32 then n + d else n + d - TWO32
    ensures m > 0 && m % 0xFFFF == 0 <==> (d == 0xFFFF || d == -0xFFFF) && 0 < n + d < TWO32
  {
    var a := n / 0xFFFF;
    assert n == 0xFFFF * a && a >= 1;
    if 0 <= n + d < TWO32 {
      if m % 0xFFFF == 0 {
        SmallDifference(n, m, d);
      }
      if d == 0xFFFF || d == -0xFFFF {
        SameResidue(n, m);
      }
    } else {
      WrappedSum(n, m, d, a);
    }
  }

  lemma WrappedSum(n: nat, m: nat, d: int, a: nat)
    requires n == 0xFFFF * a && n < TWO32 <= n + d && d <= 0xFFFF && m == n + d - TWO32
    ensures !(m > 0 && m % 0xFFFF == 0)
  {
    assert a <= 0x1_0001;
    assert m < 0xFFFF;
  }

  /** A sum is worth 0xFFFF exactly when it is a positive multiple of 65535. */
  lemma FullResidue(n: nat)
    ensures Residue(n) == 0xFFFF <==> n > 0 && n % 0xFFFF == 0
  {
    if n > 0 {
      var q, r := (n - 1) / 0xFFFF, (n - 1) % 0xFFFF;
      if r + 1 < 0xFFFF {
        ModUnique(n, 0xFFFF, q, r + 1);
      } else {
        ModUnique(n, 0xFFFF, q + 1, 0);
      }
    }
  }

  lemma SmallDifference(n: nat, m: nat, d: int)
    requires n % 0xFFFF == 0 && m % 0xFFFF == 0 && m == n + d && d != 0 && -0xFFFF <= d <= 0xFFFF
    ensures d == 0xFFFF || d == -0xFFFF
  {
    var a, b := n / 0xFFFF, m / 0xFFFF;
    assert d == 0xFFFF * (b - a);
  }

  lemma SameResidue(n: nat, m: nat)
    requires n % 0xFFFF == 0 && (m == n + 0xFFFF || n == m + 0xFFFF)
    ensures m % 0xFFFF == 0
  {
  }

  // ---- The code -----------------------------------------------------------

  lemma AddWrapped(a: nat, w: nat)
    ensures (a % TWO32 + w) % TWO32 == (a + w) % TWO32
  {
    ModUnique(a % TWO32 + w, TWO32, (a + w) / TWO32 - a / TWO32, (a + w) % TWO32);
  }

  method Compute(data: seq<byte>) returns (ck: u16)
    ensures ck == Checksum(data)
  {
    var sum: u32 := 0;
    var i := 0;
    ghost var t: nat := 0;
    while i + 1 < |data|
      invariant 0 <= i <= |data|
      invariant sum == t % TWO32 && t + WordSum(data[i..]) == WordSum(data)
    {
      AddWrapped(t, Word(data[i], data[i + 1]));
      t := t + Word(data[i], data[i + 1]);
      assert data[i..][2..] == data[i + 2..];
      sum := (sum + Word(data[i], data[i + 1])) % TWO32;
      i := i + 2;
    }
    if i < |data| {
      AddWrapped(t, Word(data[i], 0));
      t := t + Word(data[i], 0);
      sum := (sum + Word(data[i], 0)) % TWO32;
    }
    assert t == WordSum(data);
    while sum / HALF != 0
      invariant Folded(sum) == Folded(t % TWO32)
      decreases sum
    {
      sum := sum % HALF + sum / HALF;
    }
    ck := 0xFFFF - sum;
  }

  /** The IPv4 header of a captured datagram, its checksum field still zero: version 4 and five words, time to live 16,
      protocol 17, from 127.0.0.1 to 239.0.0.7. */
  function BlankHeader(total: u16): (h: seq<byte>)
    ensures |h| == 20 && WordAt(h, 2) == total && WordAt(h, 10) == 0
  {
    [0x45, 0, total / 256, total % 256, 0, 0, 0, 0, 0x10, 0x11, 0, 0, 127, 0, 0, 1, 239, 0, 0, 7]
  }

  /** The fixed fields. */
  predicate FromHereToGroup(h: seq<byte>) {
    && |h| == 20 && h[0] == 0x45 && h[8] == 16 && h[9] == 17
    && h[12] == 127 && h[13] == 0 && h[14] == 0 && h[15] == 1
    && h[16] == 239 && h[17] == 0 && h[18] == 0 && h[19] == 7
  }

  lemma BlankFields(total: u16)
    ensures FromHereToGroup(BlankHeader(total))
  {
  }

  lemma PatchedFields(h: seq<byte>, w: u16)
    requires FromHereToGroup(h)
    ensures FromHereToGroup(Patched(h, 10, w)) && WordAt(Patched(h, 10, w), 2) == WordAt(h, 2)
  {
  }

  /** The header written in front of a datagram of the given length: its total length, cut to 16 bits as the code does,
      and a checksum that checks. */
  method WriteHeader(payload: nat) returns (header: seq<byte>)
    ensures FromHereToGroup(header) && Checksum(header) == 0
    ensures WordAt(header, 2) == (20 + (8 + payload) % HALF) % HALF
  {
    var total := (20 + (8 + payload) % HALF) % HALF;
    var blank := BlankHeader(total);
    BlankFields(total);
    var ck := Compute(blank);
    header := Patched(blank, 10, ck);
    PatchedFields(blank, ck);
    InsertedChecksZero(blank, 10);
  }
}
