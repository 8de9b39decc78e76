/** Searching the chain's authority set history for epoch ends (circuits/input/mod.rs). */
module Epochs {
  import opened Basics

  /** The authority set id recorded at each block. */
  type History = nat -> nat

  ghost predicate UnitStep(setId: History, b: nat) {
    setId(b) <= setId(b + 1) <= setId(b) + 1
  }

  /** Set ids start at zero and rise by at most one a block, up to the head. */
  ghost predicate ValidHistory(setId: History, head: nat) {
    setId(0) == 0 && forall b | 0 <= b < head :: UnitStep(setId, b)
  }

  lemma {:induction false} Monotone(setId: History, head: nat, a: nat, b: nat)
    requires ValidHistory(setId, head) && a <= b <= head
    ensures setId(a) <= setId(b)
    decreases b - a
  {
    if a == b {
    } else {
      Monotone(setId, head, a, b - 1);
      assert UnitStep(setId, b - 1);
    }
  }

  /** Block b is the first one of a new authority set: the last one the old set justifies. */
  predicate EpochEnd(setId: History, b: nat) {
    b > 0 && setId(b) == setId(b - 1) + 1
  }

  /** What a search for the last block justified by set t finds up to the head: the first block
      whose set id is t + 1, or 0 when there is none. */
  ghost predicate FoundLast(setId: History, head: nat, t: nat, r: nat) {
    if exists b :: 0 <= b <= head && setId(b) == t + 1
    then 0 < r <= head && setId(r) == t + 1 && forall b | 0 <= b < r :: setId(b) <= t
    else r == 0
  }

  /** That block, as a value. */
  ghost function LastJustified(setId: History, head: nat, t: nat): nat {
    ScanFrom(setId, head, t + 1, 0)
  }

  ghost function ScanFrom(setId: History, head: nat, v: nat, b: nat): nat
    decreases head + 1 - b
  {
    if b > head then 0 else if setId(b) == v then b else ScanFrom(setId, head, v, b + 1)
  }

  lemma {:induction false} ScanFinds(setId: History, head: nat, t: nat, b: nat)
    requires ValidHistory(setId, head) && b <= head + 1
    requires forall k | 0 <= k < b :: setId(k) <= t
    ensures FoundLast(setId, head, t, ScanFrom(setId, head, t + 1, b))
    decreases head + 1 - b
  {
    if b > head || setId(b) == t + 1 {
    } else {
      if b > 0 {
        assert UnitStep(setId, b - 1);
      }
      ScanFinds(setId, head, t, b + 1);
    }
  }

  lemma {:induction false} LastJustifiedFound(setId: History, head: nat, t: nat)
    requires ValidHistory(setId, head)
    ensures FoundLast(setId, head, t, LastJustified(setId, head, t))
  {
    ScanFinds(setId, head, t, 0);
  }

  lemma {:induction false} FoundLastUnique(setId: History, head: nat, t: nat, r: nat)
    requires ValidHistory(setId, head) && FoundLast(setId, head, t, r)
    ensures r == LastJustified(setId, head, t)
  {
    LastJustifiedFound(setId, head, t);
    var s := LastJustified(setId, head, t);
    assert setId(r) >= 0 && setId(s) >= 0;
  }

  /** A block found is an epoch end, justified by set t. */
  lemma {:induction false} FoundIsEpochEnd(setId: History, head: nat, t: nat, r: nat)
    requires ValidHistory(setId, head) && FoundLast(setId, head, t, r) && r != 0
    ensures EpochEnd(setId, r) && setId(r - 1) == t
  {
    assert UnitStep(setId, r - 1);
  }

  /** `last_justified_block`: binary search. The sum of the bounds stays within u32. */
  method LastJustifiedBlock(setId: History, head: U32, target: U64) returns (r: U32)
    requires ValidHistory(setId, head) && 2 * head + 1 < U32_BOUND && target + 1 < U64_BOUND
    ensures FoundLast(setId, head, target, r)
    ensures r == LastJustified(setId, head, target)
  {
    var low: U32, high: U32 := 0, head;
    r := 0;
    while low <= high
      invariant low <= high + 1 && high <= head && r == 0
      invariant low > 0 ==> setId(low - 1) <= target
      invariant high < head ==> setId(high) >= target + 1
      decreases high + 1 - low
    {
      var mid: U32 := (low + high) / 2;
      if setId(mid) == target + 1 {
        if mid == 0 {
          break;
        }
        assert UnitStep(setId, mid - 1);
        if setId(mid - 1) == target {
          forall b | 0 <= b < mid
            ensures setId(b) <= target
          {
            Monotone(setId, head, b, mid - 1);
          }
          r := mid;
          FoundLastUnique(setId, head, target, r);
          return;
        } else {
          Monotone(setId, head, mid - 1, head);
          high := mid - 1;
        }
      } else if setId(mid) < target + 1 {
        low := mid + 1;
      } else {
        assert mid > 0;
        assert UnitStep(setId, mid - 1);
        high := mid - 1;
      }
    }
    forall b | 0 <= b <= head
      ensures setId(b) != target + 1
    {
      Monotone(setId, head, b, head);
    }
    FoundLastUnique(setId, head, target, r);
  }

  // ----- enumeration

  /** The epoch ends in lo..hi, in order. */
  function EpochEnds(setId: History, lo: nat, hi: nat): (r: seq<nat>)
    decreases hi + 1 - lo
  {
    if lo > hi then []
    else if EpochEnd(setId, lo) then [lo] + EpochEnds(setId, lo + 1, hi)
    else EpochEnds(setId, lo + 1, hi)
  }

  lemma {:induction false} EpochEndsExact(setId: History, lo: nat, hi: nat)
    ensures forall b :: b in EpochEnds(setId, lo, hi) <==> lo <= b <= hi && EpochEnd(setId, b)
    ensures forall i, j | 0 <= i < j < |EpochEnds(setId, lo, hi)| ::
            EpochEnds(setId, lo, hi)[i] < EpochEnds(setId, lo, hi)[j]
    decreases hi + 1 - lo
  {
    if lo > hi {
    } else {
      EpochEndsExact(setId, lo + 1, hi);
      var rest := EpochEnds(setId, lo + 1, hi);
      assert forall i | 0 <= i < |rest| :: rest[i] in rest;
    }
  }

  /** Up to the next epoch end there is none. */
  lemma {:induction false} NextEpochEnd(setId: History, lo: nat, mid: nat, hi: nat)
    requires lo <= mid <= hi && EpochEnd(setId, mid)
    requires forall b | lo <= b < mid :: !EpochEnd(setId, b)
    ensures EpochEnds(setId, lo, hi) == [mid] + EpochEnds(setId, mid + 1, hi)
    decreases mid - lo
  {
    if lo == mid {
    } else {
      NextEpochEnd(setId, lo + 1, mid, hi);
    }
  }

  lemma {:induction false} NoEpochEnd(setId: History, lo: nat, hi: nat)
    requires forall b | lo <= b <= hi :: !EpochEnd(setId, b)
    ensures EpochEnds(setId, lo, hi) == []
    decreases hi + 1 - lo
  {
    if lo > hi {
    } else {
      NoEpochEnd(setId, lo + 1, hi);
    }
  }

  /** Between a block of set era and the first block of the next set there is no epoch end. */
  lemma {:induction false} QuietUntil(setId: History, head: nat, from: nat, era: nat)
    requires ValidHistory(setId, head) && from <= head && setId(from) == era
    ensures var e := LastJustified(setId, head, era);
            && (e == 0 ==> forall b | from < b <= head :: !EpochEnd(setId, b))
            && (e != 0 ==> from < e <= head && EpochEnd(setId, e) && setId(e) == era + 1
                           && forall b | from < b < e :: !EpochEnd(setId, b))
  {
    LastJustifiedFound(setId, head, era);
    var e := LastJustified(setId, head, era);
    if e != 0 {
      FoundIsEpochEnd(setId, head, era, e);
      if e <= from {
        Monotone(setId, head, e, from);
      }
      forall b | from < b < e
        ensures !EpochEnd(setId, b)
      {
        Monotone(setId, head, from, b - 1);
      }
    } else {
      StaysAt(setId, head, from, era);
    }
  }

  /** If no block has the next set id, all later blocks keep this one. */
  lemma {:induction false} StaysAt(setId: History, head: nat, from: nat, era: nat)
    requires ValidHistory(setId, head) && from <= head && setId(from) == era
    requires forall b | 0 <= b <= head :: setId(b) != era + 1
    ensures forall b | from <= b <= head :: setId(b) == era
    ensures forall b | from < b <= head :: !EpochEnd(setId, b)
  {
    var k := from;
    while k < head
      invariant from <= k <= head && forall b | from <= b <= k :: setId(b) == era
    {
      assert UnitStep(setId, k);
      k := k + 1;
    }
  }

  // ----- sorting

  ghost predicate Sorted(s: seq<nat>) {
    forall i, j | 0 <= i < j < |s| :: s[i] <= s[j]
  }

  function Insert(x: nat, s: seq<nat>): (r: seq<nat>)
    ensures multiset(r) == multiset(s) + multiset{x}
  {
    if s == [] || x <= s[0] then [x] + s
    else
      assert s == [s[0]] + s[1..];
      [s[0]] + Insert(x, s[1..])
  }

  lemma {:induction false} InsertSorted(x: nat, s: seq<nat>)
    requires Sorted(s)
    ensures Sorted(Insert(x, s))
  {
    if s == [] || x <= s[0] {
    } else {
      InsertSorted(x, s[1..]);
      var rest := Insert(x, s[1..]);
      forall i | 0 <= i < |rest|
        ensures s[0] <= rest[i]
      {
        assert rest[i] in multiset(rest);
        assert rest[i] == x || rest[i] in s[1..];
      }
    }
  }

  /** `sort` on a vector of block numbers. */
  function Sort(s: seq<nat>): (r: seq<nat>)
    ensures Sorted(r) && multiset(r) == multiset(s)
  {
    if s == [] then []
    else
      assert s == s[..|s| - 1] + [s[|s| - 1]];
      InsertSorted(s[|s| - 1], Sort(s[..|s| - 1]));
      Insert(s[|s| - 1], Sort(s[..|s| - 1]))
  }

  /** The epoch ends the search lists for a range: all those up to the head, but none when the
      range is a single block. */
  function Listed(setId: History, head: nat, start: nat, end: nat): seq<nat> {
    if start < end then EpochEnds(setId, start, Min(end, head)) else []
  }

  /** That is complete except when the range is a single block and that block is an epoch end. */
  lemma {:induction false} ListedExact(setId: History, head: nat, start: nat, end: nat)
    ensures start <= end ==>
              (Listed(setId, head, start, end) == EpochEnds(setId, start, Min(end, head)) <==>
               start < end || start > head || !EpochEnd(setId, start))
    ensures start >= end ==> Listed(setId, head, start, end) == []
  {
    if start == end {
      assert EpochEnds(setId, start + 1, Min(end, head)) == [];
    }
  }

  /** Such a range: block 1 of a chain whose second set starts there. */
  lemma {:induction false} SingleBlockMissed() returns (setId: History)
    ensures ValidHistory(setId, 1) && EpochEnd(setId, 1)
    ensures Listed(setId, 1, 1, 1) == [] && EpochEnds(setId, 1, 1) == [1]
  {
    setId := b => if b == 0 then 0 else 1;
    assert EpochEnds(setId, 2, 1) == [];
  }

  /** `find_justifications_in_range`, given the blocks stored for the range. */
  method FindJustificationsInRange(setId: History, head: U32, stored: seq<nat>, start: U32, end: U32)
    returns (blocks: seq<nat>)
    requires ValidHistory(setId, head) && 2 * head + 1 < U32_BOUND
    requires 1 <= start <= head + 1 && forall b | 0 <= b <= head :: setId(b) + 1 < U64_BOUND
    ensures Sorted(blocks)
    ensures multiset(blocks) == multiset(stored + Listed(setId, head, start, end))
  {
    hide EpochEnds, EpochEnd, LastJustified, FoundLast, ValidHistory, Sort, Sorted;
    var curr: nat := start;
    var era := setId(start - 1);
    var epochs: seq<nat> := [];
    ghost var last: nat := start - 1;
    ghost var hi := Min(end, head);
    while curr < end
      invariant era == setId(last) && start - 1 <= last <= head
      invariant curr == if epochs == [] then start else last
      invariant last == start - 1 || last <= end
      invariant epochs == [] ==> last == start - 1
      invariant epochs != [] ==> start <= last
      invariant epochs + EpochEnds(setId, last + 1, hi) == EpochEnds(setId, start, hi)
      invariant start >= end ==> epochs == []
      decreases end - last
    {
      var e := LastJustifiedBlock(setId, head, era);
      QuietUntil(setId, head, last, era);
      if e == 0 {
        NoEpochEnd(setId, last + 1, hi);
        break;
      }
      if e <= end {
        NextEpochEnd(setId, last + 1, e, hi);
        assert epochs + ([e] + EpochEnds(setId, e + 1, hi)) == (epochs + [e]) + EpochEnds(setId, e + 1, hi);
        epochs := epochs + [e];
        curr := e;
        era := era + 1;
        last := e;
      } else {
        NoEpochEnd(setId, last + 1, hi);
        break;
      }
    }
    if start < end && curr >= end {
      NoEpochEnd(setId, last + 1, hi);
    }
    assert epochs == Listed(setId, head, start, end) by {
      assert start < end ==> EpochEnds(setId, last + 1, hi) == [];
      assert epochs + [] == epochs;
    }
    blocks := Sort(stored + epochs);
  }
}
