/** Fixed-width integers, byte strings and the big-endian integer codec that every wire format here uses. */
module Bytes {

  type byte = x: int | 0 <= x < 0x100
  type u16 = x: int | 0 <= x < 0x1_0000
  type u32 = x: int | 0 <= x < 0x1_0000_0000
  type u48 = x: int | 0 <= x < 0x1_0000_0000_0000
  type u64 = x: int | 0 <= x < 0x1_0000_0000_0000_0000

  const TWO32: nat := 0x1_0000_0000
  const TWO48: nat := 0x1_0000_0000_0000
  const TWO64: nat := 0x1_0000_0000_0000_0000

  datatype Option<+T> = None | Some(value: T)

  function PowerOf2(n: nat): (r: nat)
    ensures r > 0
  {
    if n == 0 then 1 else 2 * PowerOf2(n - 1)
  }

  /** 256 to the n: the number of values that n bytes can carry. */
  function Span(n: nat): (r: nat)
    ensures r > 0
  {
    if n == 0 then 1 else 256 * Span(n - 1)
  }

  /** The last n bytes of x, most significant first. */
  function Put(n: nat, x: nat): (s: seq<byte>)
    ensures |s| == n
  {
    if n == 0 then [] else Put(n - 1, x / 256) + [x % 256]
  }

  /** The number a byte string spells, most significant byte first. */
  function Take(s: seq<byte>): nat {
    if s == [] then 0 else 256 * Take(s[..|s| - 1]) + s[|s| - 1]
  }

  lemma SpanValues()
    ensures Span(1) == 0x100 && Span(2) == 0x1_0000 && Span(4) == TWO32 && Span(6) == TWO48 && Span(8) == TWO64
  {
    assert Span(3) == 0x100_0000;
    assert Span(5) == 0x100_0000_0000;
    assert Span(7) == 0x100_0000_0000_0000;
  }

  lemma {:induction false} TakeBound(s: seq<byte>)
    ensures Take(s) < Span(|s|)
  {
    if s != [] {
      TakeBound(s[..|s| - 1]);
    }
  }

  /** Reading back n bytes recovers the number modulo 256^n. */
  lemma {:induction false} TakePut(n: nat, x: nat)
    ensures Take(Put(n, x)) == x % Span(n)
  {
    if n > 0 {
      TakePut(n - 1, x / 256);
      var high := Put(n - 1, x / 256);
      assert Put(n, x)[..n - 1] == high;
      DigitSplit(x, Span(n - 1));
    }
  }

  lemma DigitSplit(x: nat, m: nat)
    requires m > 0
    ensures 256 * (x / 256 % m) + x % 256 == x % (256 * m)
  {
    var q, r := x / 256 / m, x / 256 % m;
    assert x / 256 == q * m + r;
    assert x == q * (256 * m) + (256 * r + x % 256) by {
      assert 256 * (q * m) == q * (256 * m);
    }
    ModUnique(x, 256 * m, q, 256 * r + x % 256);
  }

  lemma ModUnique(x: int, m: int, q: int, r: int)
    requires m > 0 && 0 <= r < m && x == q * m + r
    ensures x % m == r
  {
    var k, t := x / m, x % m;
    assert (q - k) * m == t - r by {
      assert x == k * m + t;
      Distribute(q, k, m);
    }
    SmallMultiple(q - k, m);
  }

  lemma Distribute(a: int, b: int, m: int)
    ensures (a - b) * m == a * m - b * m
  {
  }

  lemma SmallMultiple(d: int, m: int)
    requires m > 0 && -m < d * m < m
    ensures d == 0
  {
  }

  /** Writing back the number a byte string spells recovers the byte string. */
  lemma {:induction false} PutTake(s: seq<byte>)
    ensures Put(|s|, Take(s)) == s
  {
    if s != [] {
      var init, last := s[..|s| - 1], s[|s| - 1];
      PutTake(init);
      assert Take(s) / 256 == Take(init) && Take(s) % 256 == last;
      assert s == init + [last];
    }
  }

  // The widths the wire formats use. Named, so that proofs treat a field as a unit.
  const W2: nat := 2
  const W4: nat := 4
  const W6: nat := 6
  const W8: nat := 8

  function Put16(x: nat): (s: seq<byte>)
    ensures |s| == 2
  {
    Put(W2, x)
  }

  function Take16(s: seq<byte>): u16
    requires |s| == 2
  {
    TakeBound(s); SpanValues(); Take(s)
  }

  function Put32(x: nat): (s: seq<byte>)
    ensures |s| == 4
  {
    Put(W4, x)
  }

  function Take32(s: seq<byte>): u32
    requires |s| == 4
  {
    TakeBound(s); SpanValues(); Take(s)
  }

  function Put48(x: nat): (s: seq<byte>)
    ensures |s| == 6
  {
    Put(W6, x)
  }

  function Take48(s: seq<byte>): u48
    requires |s| == 6
  {
    TakeBound(s); SpanValues(); Take(s)
  }

  function Put64(x: nat): (s: seq<byte>)
    ensures |s| == 8
  {
    Put(W8, x)
  }

  function Take64(s: seq<byte>): u64
    requires |s| == 8
  {
    TakeBound(s); SpanValues(); Take(s)
  }

  // Reading a field back gives the number that was written, modulo what the width can carry.

  lemma Back16(x: u16)
    ensures Take16(Put16(x)) == x
  {
    SpanValues();
    TakePut(W2, x);
    assert x % 0x1_0000 == x;
  }

  lemma Back32(x: nat)
    ensures Take32(Put32(x)) == x % TWO32
    ensures x < TWO32 ==> Take32(Put32(x)) == x
  {
    SpanValues();
    TakePut(W4, x);
  }

  lemma Back48(x: nat)
    ensures Take48(Put48(x)) == x % TWO48
  {
    SpanValues();
    TakePut(W6, x);
  }

  lemma Back64(x: u64)
    ensures Take64(Put64(x)) == x
  {
    SpanValues();
    TakePut(W8, x);
  }

  // What the bytes of a field mean, most significant first.

  lemma {:induction false} TakeAppend(a: seq<byte>, b: seq<byte>, n: nat)
    requires n == |b|
    ensures Take(a + b) == Span(n) * Take(a) + Take(b)
    decreases n
  {
    if n == 0 {
      assert a + b == a && b == [];
    } else {
      var k := n - 1;
      assert (a + b)[..|a| + k] == a + b[..k];
      TakeAppend(a, b[..k], k);
      assert 256 * (Span(k) * Take(a)) == Span(n) * Take(a);
    }
  }

  function Big16(a: nat, b: nat): nat {
    0x100 * a + b
  }

  function Big32(a: nat, b: nat, c: nat, d: nat): nat {
    0x100_0000 * a + 0x1_0000 * b + 0x100 * c + d
  }

  lemma BigEndian16(s: seq<byte>)
    requires |s| == 2
    ensures Take16(s) == Big16(s[0], s[1])
  {
    var a := s[..1];
    assert a[..0] == [] && Take(a) == 256 * Take(a[..0]) + a[0];
  }

  lemma BigEndian32(s: seq<byte>)
    requires |s| == 4
    ensures Take32(s) == Big32(s[0], s[1], s[2], s[3])
  {
    var a, b := s[..2], s[2..];
    assert s == a + b;
    SpanValues();
    TakeAppend(a, b, W2);
    BigEndian16(a);
    BigEndian16(b);
  }

  lemma BigEndian48(s: seq<byte>)
    requires |s| == 6
    ensures Take48(s) == 0x1_0000_0000 * Big16(s[0], s[1]) + Big32(s[2], s[3], s[4], s[5])
  {
    var a, b := s[..2], s[2..];
    assert s == a + b;
    SpanValues();
    TakeAppend(a, b, W4);
    BigEndian16(a);
    BigEndian32(b);
  }

  lemma BigEndian64(s: seq<byte>)
    requires |s| == 8
    ensures Take64(s) == 0x1_0000_0000 * Big32(s[0], s[1], s[2], s[3]) + Big32(s[4], s[5], s[6], s[7])
  {
    var a, b := s[..4], s[4..];
    assert s == a + b;
    SpanValues();
    TakeAppend(a, b, W4);
    BigEndian32(a);
    BigEndian32(b);
  }

  /** Cutting a field off the front of a byte string: raw bytes, then each integer width. */
  lemma Cut(p: seq<byte>, n: nat)
    requires n <= |p|
    ensures p == p[..n] + p[n..]
  {
  }

  lemma CutByte(p: seq<byte>)
    requires |p| >= 1
    ensures p == [p[0]] + p[1..]
  {
  }

  lemma Cut16(p: seq<byte>)
    requires |p| >= 2
    ensures p == Put16(Take16(p[..2])) + p[2..]
  {
    PutTake(p[..2]);
  }

  lemma Cut32(p: seq<byte>)
    requires |p| >= 4
    ensures p == Put32(Take32(p[..4])) + p[4..]
  {
    PutTake(p[..4]);
  }

  lemma Cut48(p: seq<byte>)
    requires |p| >= 6
    ensures p == Put48(Take48(p[..6])) + p[6..]
  {
    PutTake(p[..6]);
  }

  lemma Cut64(p: seq<byte>)
    requires |p| >= 8
    ensures p == Put64(Take64(p[..8])) + p[8..]
  {
    PutTake(p[..8]);
  }
}
