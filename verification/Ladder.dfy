/** Price ladders: a map from price to level, and its levels listed best price first. */
module Ladder {
  import opened Bytes
  import opened Itch

  datatype Level = Level(price: Price, total: Quantity, count: u32)

  type Levels = map<Price, Level>

  /** Bids rank by descending price, asks by ascending price. */
  predicate Before(desc: bool, p: Price, q: Price) {
    if desc then p > q else p < q
  }

  predicate IsBest(p: Price, levels: Levels, desc: bool) {
    p in levels && forall q :: q in levels && q != p ==> Before(desc, p, q)
  }

  ghost predicate Keyed(levels: Levels) {
    forall p :: p in levels ==> levels[p].price == p
  }

  ghost predicate Sorted(s: seq<Level>, desc: bool) {
    forall i, j :: 0 <= i < j < |s| ==> Before(desc, s[i].price, s[j].price)
  }

  /** Every level of s is the ladder's level at that price. */
  ghost predicate Within(s: seq<Level>, levels: Levels) {
    forall i :: 0 <= i < |s| ==> s[i].price in levels && levels[s[i].price] == s[i]
  }

  lemma {:induction false} BestExists(levels: Levels, desc: bool)
    requires levels.Keys != {}
    ensures exists p :: IsBest(p, levels, desc)
    decreases |levels|
  {
    var p :| p in levels;
    var rest := levels - {p};
    assert rest.Keys == levels.Keys - {p};
    if rest.Keys == {} {
      assert forall r :: r in levels ==> r == p || r in rest;
      assert IsBest(p, levels, desc);
    } else {
      BestExists(rest, desc);
      var q :| IsBest(q, rest, desc);
      var best := if Before(desc, p, q) then p else q;
      assert forall r :: r in levels ==> r == p || r in rest;
      assert IsBest(best, levels, desc);
    }
  }

  /** The whole ladder in iteration order. */
  ghost function Ranked(levels: Levels, desc: bool): seq<Level>
    decreases |levels|
  {
    if levels.Keys == {} then []
    else
      BestExists(levels, desc);
      var p :| IsBest(p, levels, desc);
      assert (levels - {p}).Keys == levels.Keys - {p};
      [levels[p]] + Ranked(levels - {p}, desc)
  }

  /** The first depth levels. */
  ghost function Top(levels: Levels, desc: bool, depth: nat): seq<Level> {
    var all := Ranked(levels, desc);
    if |all| <= depth then all else all[..depth]
  }

  lemma BestUnique(levels: Levels, desc: bool, p: Price, q: Price)
    requires IsBest(p, levels, desc) && IsBest(q, levels, desc)
    ensures p == q
  {
  }

  /** The best level comes first, then the rest. */
  lemma RankedUnfold(levels: Levels, desc: bool, p: Price)
    requires IsBest(p, levels, desc)
    ensures Ranked(levels, desc) == [levels[p]] + Ranked(levels - {p}, desc)
  {
    var q :| IsBest(q, levels, desc) && Ranked(levels, desc) == [levels[q]] + Ranked(levels - {q}, desc);
    BestUnique(levels, desc, p, q);
  }

  /** The ranking lists the ladder's levels, all of them, in strict price order. */
  lemma {:induction false} RankedSound(levels: Levels, desc: bool)
    requires Keyed(levels)
    ensures Sorted(Ranked(levels, desc), desc) && Within(Ranked(levels, desc), levels)
    ensures |Ranked(levels, desc)| == |levels|
    ensures forall p :: p in levels ==> levels[p] in Ranked(levels, desc)
    decreases |levels|
  {
    if levels.Keys != {} {
      BestExists(levels, desc);
      var p :| IsBest(p, levels, desc);
      RankedUnfold(levels, desc, p);
      var rest := levels - {p};
      assert rest.Keys == levels.Keys - {p};
      RankedSound(rest, desc);
      Prepend(levels, desc, p, Ranked(rest, desc));
    }
  }

  /** Putting the best level in front of the ranking of the others. */
  lemma Prepend(levels: Levels, desc: bool, p: Price, t: seq<Level>)
    requires Keyed(levels) && IsBest(p, levels, desc)
    requires Sorted(t, desc) && Within(t, levels - {p}) && |t| == |levels| - 1
    requires forall q :: q in levels - {p} ==> levels[q] in t
    ensures var s := [levels[p]] + t;
            Sorted(s, desc) && Within(s, levels) && |s| == |levels| && forall q :: q in levels ==> levels[q] in s
  {
    var s := [levels[p]] + t;
    forall i | 0 <= i < |t|
      ensures t[i].price in levels && levels[t[i].price] == t[i] && Before(desc, p, t[i].price)
    {
      assert t[i].price in levels - {p};
    }
    assert forall i :: 0 < i < |s| ==> s[i] == t[i - 1];
    forall q | q in levels
      ensures levels[q] in s
    {
      assert q == p || q in levels - {p};
    }
  }

  /** Any strictly ordered list with exactly the ladder's levels is the ranking. */
  lemma {:induction false} RankedUnique(levels: Levels, desc: bool, s: seq<Level>)
    requires Keyed(levels) && Sorted(s, desc) && Within(s, levels)
    requires forall p :: p in levels ==> levels[p] in s
    ensures s == Ranked(levels, desc)
    decreases |s|
  {
    if s == [] {
      assert levels.Keys == {};
    } else {
      var p, rest := s[0].price, levels - {s[0].price};
      HeadIsBest(levels, desc, s);
      RankedUnfold(levels, desc, p);
      RestCovered(levels, desc, s);
      RestKeyed(levels, p);
      RankedUnique(rest, desc, s[1..]);
      HeadAndRest(s, levels[p], Ranked(rest, desc));
    }
  }

  lemma RestKeyed(levels: Levels, p: Price)
    requires Keyed(levels)
    ensures Keyed(levels - {p})
  {
  }

  lemma HeadAndRest(s: seq<Level>, l: Level, t: seq<Level>)
    requires s != [] && s[0] == l && s[1..] == t
    ensures s == [l] + t
  {
  }

  lemma HeadIsBest(levels: Levels, desc: bool, s: seq<Level>)
    requires Keyed(levels) && Sorted(s, desc) && Within(s, levels) && |s| > 0
    requires forall p :: p in levels ==> levels[p] in s
    ensures IsBest(s[0].price, levels, desc)
  {
    forall q | q in levels && q != s[0].price
      ensures Before(desc, s[0].price, q)
    {
      var i :| 0 <= i < |s| && s[i] == levels[q];
    }
  }

  lemma RestCovered(levels: Levels, desc: bool, s: seq<Level>)
    requires Keyed(levels) && Sorted(s, desc) && Within(s, levels) && |s| > 0
    requires forall p :: p in levels ==> levels[p] in s
    ensures var rest := levels - {s[0].price};
            Sorted(s[1..], desc) && Within(s[1..], rest) && forall p :: p in rest ==> rest[p] in s[1..]
  {
    var rest := levels - {s[0].price};
    forall p | p in rest
      ensures rest[p] in s[1..]
    {
      var i :| 0 <= i < |s| && s[i] == levels[p];
      assert i != 0;
      assert s[1..][i - 1] == s[i];
    }
  }

  /** One more level taken off the ranking. */
  lemma TakeBest(levels: Levels, desc: bool, top: seq<Level>, rest: Levels, p: Price)
    requires Ranked(levels, desc) == top + Ranked(rest, desc) && IsBest(p, rest, desc)
    ensures Ranked(levels, desc) == (top + [rest[p]]) + Ranked(rest - {p}, desc)
    ensures |rest - {p}| < |rest|
  {
    RankedUnfold(rest, desc, p);
    assert (rest - {p}).Keys == rest.Keys - {p};
    var t := Ranked(rest - {p}, desc);
    assert top + ([rest[p]] + t) == (top + [rest[p]]) + t;
  }

  /** Enough of them, or all, are the top list. */
  lemma TopTaken(levels: Levels, desc: bool, top: seq<Level>, rest: Levels, depth: nat)
    requires Ranked(levels, desc) == top + Ranked(rest, desc) && |top| <= depth
    requires rest.Keys == {} || |top| == depth
    ensures top == Top(levels, desc, depth)
  {
    if rest.Keys == {} {
      assert Ranked(rest, desc) == [];
    }
  }

  /** The list is full of levels better than p. */
  ghost predicate Beaten(top: seq<Level>, desc: bool, depth: nat, p: Price) {
    |top| == depth && forall i :: 0 <= i < depth ==> Before(desc, top[i].price, p)
  }

  /** What a consumer sees of a ladder: sorted, capped, nothing better left out. */
  lemma TopSound(levels: Levels, desc: bool, depth: nat)
    requires Keyed(levels)
    ensures var top := Top(levels, desc, depth);
            && Sorted(top, desc) && Within(top, levels)
            && |top| == (if |levels| <= depth then |levels| else depth)
            && forall p :: p in levels && levels[p] !in top ==> Beaten(top, desc, depth, p)
  {
    RankedSound(levels, desc);
    var all, top := Ranked(levels, desc), Top(levels, desc, depth);
    forall p | p in levels && levels[p] !in top
      ensures Beaten(top, desc, depth, p)
    {
      var k :| 0 <= k < |all| && all[k] == levels[p];
      assert k >= |top| by {
        assert forall i :: 0 <= i < |top| ==> top[i] == all[i];
      }
    }
  }
}
