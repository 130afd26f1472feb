/** Price levels on the wire: three big-endian 32-bit integers each. Shared by the recovery protocol and the book
    snapshots. */
module LevelWire {
  import opened Bytes
  import opened Ladder

  function PutLevel(l: Level): (s: seq<byte>)
    ensures |s| == 12
  {
    Put32(l.price) + (Put32(l.total) + Put32(l.count))
  }

  function PutLevels(ls: seq<Level>): (s: seq<byte>)
    ensures |s| == 12 * |ls|
  {
    if ls == [] then [] else PutLevel(ls[0]) + PutLevels(ls[1..])
  }

  function TakeLevel(p: seq<byte>): Level
    requires |p| >= 12
  {
    var q := p[4..];
    Level(Take32(p[..4]), Take32(q[..4]), Take32(q[4..][..4]))
  }

  function TakeLevels(p: seq<byte>, n: nat): (ls: seq<Level>)
    requires |p| >= 12 * n
    ensures |ls| == n
    decreases n
  {
    if n == 0 then [] else [TakeLevel(p)] + TakeLevels(p[12..], n - 1)
  }

  lemma LevelRoundTrip(l: Level, tail: seq<byte>)
    ensures TakeLevel(PutLevel(l) + tail) == l && (PutLevel(l) + tail)[12..] == tail
  {
    Back32(l.price);
    Back32(l.total);
    Back32(l.count);
    var p := PutLevel(l) + tail;
    var q := Put32(l.total) + (Put32(l.count) + tail);
    assert p == Put32(l.price) + q;
    assert p[4..] == q && q[4..] == Put32(l.count) + tail;
  }

  lemma LevelCanonical(p: seq<byte>)
    requires |p| >= 12
    ensures PutLevel(TakeLevel(p)) == p[..12]
  {
    var q := p[4..];
    PutTake(p[..4]);
    PutTake(q[..4]);
    PutTake(q[4..][..4]);
    assert p[..12] == p[..4] + (q[..4] + q[4..][..4]);
  }

  lemma {:induction false} LevelsRoundTrip(ls: seq<Level>, tail: seq<byte>)
    ensures TakeLevels(PutLevels(ls) + tail, |ls|) == ls
    decreases ls
  {
    if ls != [] {
      var rest := PutLevels(ls[1..]) + tail;
      assert PutLevels(ls) + tail == PutLevel(ls[0]) + rest;
      LevelRoundTrip(ls[0], rest);
      LevelsRoundTrip(ls[1..], tail);
      assert ls == [ls[0]] + ls[1..];
    }
  }

  lemma {:induction false} LevelsCanonical(p: seq<byte>, n: nat)
    requires |p| >= 12 * n
    ensures PutLevels(TakeLevels(p, n)) == p[..12 * n]
    decreases n
  {
    if n > 0 {
      LevelCanonical(p);
      LevelsCanonical(p[12..], n - 1);
      var ls := TakeLevels(p, n);
      assert ls[1..] == TakeLevels(p[12..], n - 1);
      assert p[..12 * n] == p[..12] + p[12..][..12 * (n - 1)];
    }
  }

  lemma {:induction false} PutLevelsSnoc(ls: seq<Level>, l: Level)
    ensures PutLevels(ls + [l]) == PutLevels(ls) + PutLevel(l)
    decreases ls
  {
    if ls == [] {
      assert ls + [l] == [l] && [l][1..] == [];
      assert PutLevels([l]) == PutLevel(l) + [];
    } else {
      assert (ls + [l])[1..] == ls[1..] + [l];
      PutLevelsSnoc(ls[1..], l);
    }
  }

  /** Append levels to a growing frame, one at a time. */
  method AppendLevels(frame: seq<byte>, ls: seq<Level>) returns (out: seq<byte>)
    ensures out == frame + PutLevels(ls)
  {
    out := frame;
    for i := 0 to |ls|
      invariant out == frame + PutLevels(ls[..i])
    {
      out := out + PutLevel(ls[i]);
      PutLevelsSnoc(ls[..i], ls[i]);
      assert ls[..i + 1] == ls[..i] + [ls[i]];
    }
    assert ls[..|ls|] == ls;
  }

  lemma TakeLevelsFront(p: seq<byte>, n: nat, k: nat)
    requires n == k + 1 && |p| >= 12 * n
    ensures TakeLevels(p, n) == [TakeLevel(p)] + TakeLevels(p[12..], k)
  {
  }

  lemma {:induction false} TakeLevelsSnoc(p: seq<byte>, n: nat, m: nat)
    requires m == n + 1 && |p| >= 12 * m
    ensures TakeLevels(p, m) == TakeLevels(p, n) + [TakeLevel(p[12 * n..])]
    decreases n
  {
    TakeLevelsFront(p, m, n);
    if n == 0 {
      assert p[0..] == p;
    } else {
      var k := n - 1;
      TakeLevelsFront(p, n, k);
      TakeLevelsSnoc(p[12..], k, n);
      assert p[12..][12 * k..] == p[12 * n..];
    }
  }

  /** Read n levels at a cursor, one at a time. */
  method ReadLevels(p: seq<byte>, n: nat) returns (ls: seq<Level>)
    requires |p| >= 12 * n
    ensures ls == TakeLevels(p, n)
  {
    ls := [];
    for i := 0 to n
      invariant ls == TakeLevels(p, i)
    {
      TakeLevelsSnoc(p, i, i + 1);
      ls := ls + [TakeLevel(p[12 * i..])];
    }
  }
}
