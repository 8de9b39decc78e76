/** The operator (bin/vectorx.rs): what it requests from the chain's history and the contract's
    state, one pass of its loop at a time. */
module Operator {
  import opened Basics
  import opened Epochs

  /** What a pass reads of the contract: its latest block and the set ids with a nonzero hash. */
  datatype View = View(latest: U32, known: set<nat>)

  datatype HeaderRangeRequest = HeaderRangeRequest(trusted: U32, setId: nat, target: U32)

  /** What one pass of the loop submits. */
  datatype Requests = Requests(rotate: Option<nat>, range: Option<HeaderRangeRequest>)

  /** The chain as a pass sees it: numbers stay clear of the machine bounds. */
  ghost predicate Readable(setId: History, head: nat) {
    && ValidHistory(setId, head) && head >= 1 && 2 * head + 1 < U32_BOUND
    && forall b | 0 <= b <= head :: setId(b) + 2 < U64_BOUND
  }

  // ----- specification

  ghost function RotateOf(setId: History, head: nat, view: View): Option<nat>
    requires 1 <= view.latest && 1 <= head
  {
    var current := setId(view.latest - 1);
    if current < setId(head - 1) && current + 1 !in view.known then Some(current) else None
  }

  /** A request names the set that the latest block belongs to, or, at the last block justified by the
      set before, that one; its successor starts at an epoch end from the latest block on and
      before the head, and is unknown. Without a request, one of the two is not so. */
  ghost predicate RotateIsDue(setId: History, head: nat, view: View, request: Option<nat>)
    requires 1 <= view.latest
  {
    match request
    case Some(id) =>
      && id == (if EpochEnd(setId, view.latest) then setId(view.latest) - 1 else setId(view.latest))
      && id + 1 !in view.known
      && exists e :: view.latest <= e < head && EpochEnd(setId, e) && setId(e) == id + 1
    case None =>
      || (if EpochEnd(setId, view.latest) then setId(view.latest) else setId(view.latest) + 1) in view.known
      || forall e | view.latest <= e < head :: !EpochEnd(setId, e)
  }

  lemma {:induction false} RotateMeans(setId: History, head: nat, view: View)
    requires ValidHistory(setId, head) && 1 <= view.latest <= head
    ensures RotateIsDue(setId, head, view, RotateOf(setId, head, view))
  {
    var latest, current := view.latest, setId(view.latest - 1);
    assert UnitStep(setId, latest - 1);
    QuietUntil(setId, head, latest - 1, current);
    LastJustifiedFound(setId, head, current);
    var e := LastJustified(setId, head, current);
    hide LastJustified;
    if current < setId(head - 1) {
      if e == 0 || e >= head {
        QuietMeansSame(setId, head, latest - 1, head - 1);
      }
      assert latest <= e < head && EpochEnd(setId, e) && setId(e) == current + 1;
    } else {
      forall b | latest <= b < head
        ensures !EpochEnd(setId, b)
      {
        Monotone(setId, head, latest - 1, b - 1);
        Monotone(setId, head, b, head - 1);
      }
    }
  }

  /** Without an epoch end in between, the set stays the same. */
  lemma {:induction false} QuietMeansSame(setId: History, head: nat, lo: nat, hi: nat)
    requires ValidHistory(setId, head) && lo <= hi <= head
    requires forall b | lo < b <= hi :: !EpochEnd(setId, b)
    ensures setId(hi) == setId(lo)
    decreases hi - lo
  {
    if lo == hi {
    } else {
      QuietMeansSame(setId, head, lo, hi - 1);
      assert UnitStep(setId, hi - 1) && !EpochEnd(setId, hi);
    }
  }

  ghost function StepTo(setId: History, head: nat, max: U32, id: nat): nat {
    var last := LastJustified(setId, head, id);
    if last == 0 then max else Min(max, last)
  }

  ghost function RangeOf(setId: History, head: nat, view: View, max: U32): Option<HeaderRangeRequest>
    requires 1 <= view.latest
    requires StepTo(setId, head, max, setId(view.latest - 1)) < U32_BOUND
    requires StepTo(setId, head, max, setId(view.latest - 1) + 1) < U32_BOUND
  {
    var current := setId(view.latest - 1);
    if view.latest != LastJustified(setId, head, current)
    then Some(HeaderRangeRequest(view.latest, current, StepTo(setId, head, max, current)))
    else if current + 1 !in view.known then None
    else Some(HeaderRangeRequest(view.latest, current + 1, StepTo(setId, head, max, current + 1)))
  }

  /** The multiple of the interval that the pass tries to step to. */
  function BlockToRequest(head: nat, latest: nat, interval: nat, commitmentMax: nat): (r: nat)
    requires interval >= 1
    ensures r <= Min(head, latest + commitmentMax)
  {
    var max := Min(head, commitmentMax + latest);
    max - max % interval
  }

  lemma {:induction false} StepBounded(setId: History, head: nat, max: U32, id: nat)
    ensures StepTo(setId, head, max, id) <= max
  {
  }

  ghost function PassOf(setId: History, head: U32, view: View, interval: nat, commitmentMax: nat): Requests
    requires 1 <= view.latest && 1 <= head && interval >= 1
  {
    var max := BlockToRequest(head, view.latest, interval, commitmentMax);
    StepBounded(setId, head, max, setId(view.latest - 1));
    StepBounded(setId, head, max, setId(view.latest - 1) + 1);
    Requests(RotateOf(setId, head, view),
             if max > view.latest then RangeOf(setId, head, view, max) else None)
  }

  // ----- which set attests the blocks after the latest

  /** If the latest block is not the last one justified by the set before it, the set is unchanged. */
  lemma {:induction false} SetAtLatest(setId: History, head: nat, latest: nat)
    requires ValidHistory(setId, head) && 1 <= latest <= head
    ensures latest == LastJustified(setId, head, setId(latest - 1)) <==> setId(latest) == setId(latest - 1) + 1
    ensures setId(latest) == setId(latest - 1) || setId(latest) == setId(latest - 1) + 1
  {
    var current := setId(latest - 1);
    assert UnitStep(setId, latest - 1);
    LastJustifiedFound(setId, head, current);
    if setId(latest) == current + 1 {
      forall b | 0 <= b < latest
        ensures setId(b) <= current
      {
        Monotone(setId, head, b, latest - 1);
      }
      FoundLastUnique(setId, head, current, latest);
    }
  }

  /** Stepping within the set in force after the latest block stays within that set. */
  lemma {:induction false} StepStaysInSet(setId: History, head: nat, latest: nat, max: U32)
    requires ValidHistory(setId, head) && latest < max <= head
    ensures var target := StepTo(setId, head, max, setId(latest));
            latest < target <= max && forall b | latest <= b < target :: setId(b) == setId(latest)
  {
    QuietUntil(setId, head, latest, setId(latest));
    var target := StepTo(setId, head, max, setId(latest));
    var b := latest;
    while b + 1 < target
      invariant latest <= b < target && forall k | latest <= k <= b :: setId(k) == setId(latest)
    {
      assert UnitStep(setId, b) && !EpochEnd(setId, b + 1);
      b := b + 1;
    }
  }

  /** Range safety: a requested range lies ahead of the contract, within the head and the batch
      limit, and the one set named in the request, which is in force after each block from the
      latest up to the one before the target, attests every block of it. */
  lemma {:induction false} RangeSafe(setId: History, head: U32, view: View, interval: nat, commitmentMax: nat)
    requires ValidHistory(setId, head) && 1 <= view.latest <= head && interval >= 1
    requires PassOf(setId, head, view, interval, commitmentMax).range.Some?
    ensures var r := PassOf(setId, head, view, interval, commitmentMax).range.value;
            && r.trusted == view.latest < r.target <= Min(head, view.latest + commitmentMax)
            && r.setId == setId(view.latest)
            && forall b | view.latest <= b < r.target :: setId(b) == r.setId
  {
    var max := BlockToRequest(head, view.latest, interval, commitmentMax);
    SetAtLatest(setId, head, view.latest);
    StepStaysInSet(setId, head, view.latest, max);
    hide LastJustified, StepTo;
    var r := PassOf(setId, head, view, interval, commitmentMax).range.value;
    assert r.setId == setId(view.latest) && r.target == StepTo(setId, head, max, setId(view.latest));
  }

  // ----- what a pass should ask for

  predicate Multiple(b: nat, interval: nat)
    requires interval >= 1
  {
    b % interval == 0
  }

  /** A step from the latest block to block b, on the way to some multiple of the interval within
      the bound, crosses no epoch end. */
  ghost predicate Reachable(setId: History, latest: nat, bound: nat, interval: nat, b: nat)
    requires interval >= 1
  {
    && latest < b <= bound
    && (exists m: nat :: b <= m <= bound && Multiple(m, interval))
    && forall e | latest < e < b :: !EpochEnd(setId, e)
  }

  /** A request goes to the farthest reachable block and names the set that the latest block belongs
      to, which is known if it started there. Without a request, no block is reachable, or the set
      that started at the latest block is unknown. */
  ghost predicate RangeIsDue(setId: History, head: nat, view: View, interval: nat, commitmentMax: nat,
                             request: Option<HeaderRangeRequest>)
    requires interval >= 1
  {
    var latest, bound := view.latest, Min(head, view.latest + commitmentMax);
    var blocked := EpochEnd(setId, latest) && setId(latest) !in view.known;
    match request
    case Some(r) =>
      && !blocked && r.trusted == latest && r.setId == setId(latest)
      && Reachable(setId, latest, bound, interval, r.target)
      && forall b: nat | Reachable(setId, latest, bound, interval, b) :: b <= r.target
    case None =>
      blocked || forall b: nat :: !Reachable(setId, latest, bound, interval, b)
  }

  lemma {:induction false} TimesLess(n: nat, a: nat, b: nat)
    requires a < b
    ensures n * a + n <= n * b
    decreases b - a
  {
    if b == a + 1 {
    } else {
      TimesLess(n, a, b - 1);
    }
  }

  lemma {:induction false} MultipleOf(q: nat, interval: nat)
    requires interval >= 1
    ensures Multiple(interval * q, interval)
  {
    var d := (interval * q) / interval;
    if q < d {
      TimesLess(interval, q, d);
    } else if d < q {
      TimesLess(interval, d, q);
    }
  }

  lemma {:induction false} NextMultiple(m: nat, q: nat, interval: nat)
    requires interval >= 1 && Multiple(m, interval) && m > interval * q
    ensures m >= interval * q + interval
  {
    var d := m / interval;
    assert m == interval * d;
    if d < q {
      TimesLess(interval, d, q);
    } else if d > q {
      TimesLess(interval, q, d);
    }
  }

  /** Rounding down gives the greatest multiple. */
  lemma {:induction false} GreatestMultiple(bound: nat, interval: nat)
    requires interval >= 1
    ensures Multiple(bound - bound % interval, interval)
    ensures forall m: nat :: m <= bound && Multiple(m, interval) ==> m <= bound - bound % interval
  {
    hide Multiple;
    var q, r := bound / interval, bound % interval;
    assert bound == interval * q + r && r < interval;
    MultipleOf(q, interval);
    forall m: nat | m <= bound && Multiple(m, interval)
      ensures m <= bound - r
    {
      if m > interval * q {
        NextMultiple(m, q, interval);
      }
    }
  }

  /** Stepping to the multiple, or to the end of the set before it, is stepping as far as possible. */
  lemma {:induction false} StepIsFarthest(setId: History, head: nat, latest: nat, bound: nat, interval: nat, max: U32)
    requires ValidHistory(setId, head) && bound <= head && interval >= 1 && latest < max <= bound
    requires Multiple(max, interval) && forall m: nat :: m <= bound && Multiple(m, interval) ==> m <= max
    ensures var target := StepTo(setId, head, max, setId(latest));
            && Reachable(setId, latest, bound, interval, target)
            && forall b: nat | Reachable(setId, latest, bound, interval, b) :: b <= target
  {
    hide ValidHistory, LastJustified, EpochEnd, Multiple;
    QuietUntil(setId, head, latest, setId(latest));
  }

  lemma {:induction false} RangeMeans(setId: History, head: U32, view: View, interval: nat, commitmentMax: nat)
    requires ValidHistory(setId, head) && 1 <= view.latest <= head && interval >= 1
    ensures RangeIsDue(setId, head, view, interval, commitmentMax,
                       PassOf(setId, head, view, interval, commitmentMax).range)
  {
    var latest, bound := view.latest, Min(head, view.latest + commitmentMax);
    var max := BlockToRequest(head, latest, interval, commitmentMax);
    GreatestMultiple(bound, interval);
    SetAtLatest(setId, head, latest);
    if max > latest {
      StepIsFarthest(setId, head, latest, bound, interval, max);
    }
    assert UnitStep(setId, latest - 1);
    hide ValidHistory, LastJustified, StepTo, Multiple;
  }

  /** No multiple of the interval within the bound is passed over, unless the target is an epoch end. */
  lemma {:induction false} NothingPassedOver(setId: History, head: nat, view: View, interval: nat, commitmentMax: nat,
                                             r: HeaderRangeRequest, m: nat)
    requires interval >= 1 && RangeIsDue(setId, head, view, interval, commitmentMax, Some(r))
    requires r.target < m <= head && m <= view.latest + commitmentMax && m % interval == 0
    ensures EpochEnd(setId, r.target)
  {
    hide EpochEnd;
    var bound := Min(head, view.latest + commitmentMax);
    assert Multiple(m, interval);
    assert !EpochEnd(setId, r.target) ==> Reachable(setId, view.latest, bound, interval, r.target + 1);
  }

  // ----- the code

  /** Requests the rotation out of the set that justified the latest block, exactly when that set's
      last block is behind the head and the contract does not know the next set. */
  method FindAndRequestRotate(setId: History, head: U32, view: View) returns (r: Option<nat>)
    requires 1 <= view.latest && 1 <= head
    ensures r == RotateOf(setId, head, view)
    ensures ValidHistory(setId, head) && view.latest <= head ==> RotateIsDue(setId, head, view, r)
  {
    if ValidHistory(setId, head) && view.latest <= head {
      RotateMeans(setId, head, view);
    }
    var headSetId := setId(head - 1);
    var current := setId(view.latest - 1);
    var nextExists := current + 1 in view.known;
    r := None;
    if current < headSetId && !nextExists {
      r := Some(current);
    }
  }

  method FindBlockToStepTo(setId: History, head: U32, max: U32, id: U64) returns (r: U32)
    requires Readable(setId, head) && id + 1 < U64_BOUND
    ensures r == StepTo(setId, head, max, id)
  {
    var last := LastJustifiedBlock(setId, head, id);
    r := if last == 0 then max else Min(max, last);
  }

  method FindAndRequestHeaderRange(setId: History, head: U32, view: View, max: U32)
    returns (r: Option<HeaderRangeRequest>)
    requires Readable(setId, head) && 1 <= view.latest <= head
    requires StepTo(setId, head, max, setId(view.latest - 1)) < U32_BOUND
    requires StepTo(setId, head, max, setId(view.latest - 1) + 1) < U32_BOUND
    ensures r == RangeOf(setId, head, view, max)
  {
    var current := setId(view.latest - 1);
    var last := LastJustifiedBlock(setId, head, current);
    var requestId := current;
    if view.latest == last {
      if current + 1 !in view.known {
        return None;
      }
      requestId := current + 1;
    }
    var target := FindBlockToStepTo(setId, head, max, requestId);
    r := Some(HeaderRangeRequest(view.latest, requestId, target));
  }

  /** One pass of `run`. */
  method RunPass(setId: History, head: U32, view: View, interval: U32, commitmentMax: U32) returns (r: Requests)
    requires Readable(setId, head) && 1 <= view.latest <= head
    requires interval >= 1 && commitmentMax + view.latest < U32_BOUND
    ensures r == PassOf(setId, head, view, interval, commitmentMax)
    ensures RotateIsDue(setId, head, view, r.rotate)
    ensures RangeIsDue(setId, head, view, interval, commitmentMax, r.range)
  {
    RangeMeans(setId, head, view, interval, commitmentMax);
    hide LastJustified, StepTo, BlockToRequest, RotateIsDue, RangeIsDue;
    var rotate := FindAndRequestRotate(setId, head, view);
    var blockToRequest := BlockToRequest(head, view.latest, interval, commitmentMax);
    var range := None;
    StepBounded(setId, head, blockToRequest, setId(view.latest - 1));
    StepBounded(setId, head, blockToRequest, setId(view.latest - 1) + 1);
    if blockToRequest > view.latest {
      range := FindAndRequestHeaderRange(setId, head, view, blockToRequest);
    }
    r := Requests(rotate, range);
  }

  // ----- liveness

  /** What the contract has to know for the operator to make progress: the set id of the block
      before the latest, or, as after deployment, that of the latest block. */
  ghost predicate Serviceable(setId: History, view: View) {
    1 <= view.latest && (setId(view.latest - 1) in view.known || setId(view.latest) in view.known)
  }

  /** Every request names a set whose hash the contract has. */
  lemma {:induction false} RequestsAreBacked(setId: History, head: U32, view: View, interval: nat, commitmentMax: nat)
    requires ValidHistory(setId, head) && 1 <= view.latest <= head && interval >= 1 && Serviceable(setId, view)
    ensures var p := PassOf(setId, head, view, interval, commitmentMax);
            && (p.rotate.Some? ==> p.rotate.value in view.known && p.rotate.value + 1 !in view.known)
            && (p.range.Some? ==> p.range.value.setId in view.known)
  {
    SetAtLatest(setId, head, view.latest);
    hide LastJustified, StepTo;
  }

  /** The operator never stalls: with a full interval ahead of the contract, a pass submits a
      request. */
  lemma {:induction false} NeverStalls(setId: History, head: U32, view: View, interval: nat, commitmentMax: nat)
    requires ValidHistory(setId, head) && Serviceable(setId, view)
    requires 1 <= interval <= commitmentMax && view.latest + interval <= head
    ensures var p := PassOf(setId, head, view, interval, commitmentMax); p.rotate.Some? || p.range.Some?
    ensures BlockToRequest(head, view.latest, interval, commitmentMax) > view.latest
  {
    SetAtLatest(setId, head, view.latest);
    Monotone(setId, head, view.latest, head - 1);
    hide LastJustified, StepTo;
    var max := Min(head, commitmentMax + view.latest);
    assert max % interval < interval;
  }

  // ----- whole runs

  /** A pass at some head, and which of its requests get fulfilled. */
  datatype Round = Round(head: U32, rotateDone: bool, rangeDone: bool)

  /** The contract after a round: a fulfilled rotate adds the next set id, a fulfilled range moves
      the latest block. */
  ghost function AfterRound(setId: History, view: View, round: Round, interval: nat, commitmentMax: nat): View
    requires 1 <= view.latest && 1 <= round.head && interval >= 1
  {
    var p := PassOf(setId, round.head, view, interval, commitmentMax);
    View(
      if round.rangeDone && p.range.Some? then p.range.value.target else view.latest,
      if round.rotateDone && p.rotate.Some? then view.known + {p.rotate.value + 1} else view.known)
  }

  lemma {:induction false} RoundKeepsServiceable(setId: History, view: View, round: Round, interval: nat,
                                                 commitmentMax: nat)
    requires ValidHistory(setId, round.head) && view.latest <= round.head && interval >= 1 && Serviceable(setId, view)
    ensures var v := AfterRound(setId, view, round, interval, commitmentMax);
            Serviceable(setId, v) && view.latest <= v.latest <= round.head && view.known <= v.known
  {
    var p := PassOf(setId, round.head, view, interval, commitmentMax);
    if p.range.Some? {
      RangeSafe(setId, round.head, view, interval, commitmentMax);
      RequestsAreBacked(setId, round.head, view, interval, commitmentMax);
      hide PassOf;
      var target := p.range.value.target;
      assert setId(target - 1) in view.known;
    }
  }

  /** The heads of a run never go back behind the first one. */
  ghost predicate Heads(setId: History, latest: nat, rounds: seq<Round>) {
    && (forall i | 0 <= i < |rounds| :: latest <= rounds[i].head && ValidHistory(setId, rounds[i].head))
    && (forall i, j | 0 <= i < j < |rounds| :: rounds[i].head <= rounds[j].head)
  }

  ghost function AfterRounds(setId: History, view: View, rounds: seq<Round>, interval: nat,
                             commitmentMax: nat): (v: View)
    requires interval >= 1 && Serviceable(setId, view) && Heads(setId, view.latest, rounds)
    ensures Serviceable(setId, v) && view.latest <= v.latest
    ensures v.latest <= if rounds == [] then view.latest else rounds[|rounds| - 1].head
  {
    if rounds == [] then view
    else
      var before := AfterRounds(setId, view, rounds[..|rounds| - 1], interval, commitmentMax);
      RoundKeepsServiceable(setId, before, rounds[|rounds| - 1], interval, commitmentMax);
      AfterRound(setId, before, rounds[|rounds| - 1], interval, commitmentMax)
  }

  /** From deployment at a genesis block, whatever requests were fulfilled in whatever rounds, a
      pass with a full interval ahead submits a request that the contract can serve. */
  lemma {:induction false} RunNeverStalls(setId: History, genesis: U32, rounds: seq<Round>, head: U32, interval: nat,
                                          commitmentMax: nat)
    requires 1 <= genesis && 1 <= interval <= commitmentMax
    requires Heads(setId, genesis, rounds) && ValidHistory(setId, head)
    requires var v := AfterRounds(setId, View(genesis, {setId(genesis)}), rounds, interval, commitmentMax);
             v.latest + interval <= head
    ensures var v := AfterRounds(setId, View(genesis, {setId(genesis)}), rounds, interval, commitmentMax);
            var p := PassOf(setId, head, v, interval, commitmentMax);
            && (p.rotate.Some? || p.range.Some?)
            && (p.rotate.Some? ==> p.rotate.value in v.known)
            && (p.range.Some? ==> p.range.value.setId in v.known)
  {
    var v := AfterRounds(setId, View(genesis, {setId(genesis)}), rounds, interval, commitmentMax);
    NeverStalls(setId, head, v, interval, commitmentMax);
    RequestsAreBacked(setId, head, v, interval, commitmentMax);
  }

  /** Progress: if a pass can only rotate, then once that is fulfilled the next pass steps ahead. */
  lemma {:induction false} RotateThenStep(setId: History, head: U32, view: View, interval: nat, commitmentMax: nat)
    requires ValidHistory(setId, head) && Serviceable(setId, view)
    requires 1 <= interval <= commitmentMax && view.latest + interval <= head
    requires PassOf(setId, head, view, interval, commitmentMax).range.None?
    ensures var v := AfterRound(setId, view, Round(head, true, false), interval, commitmentMax);
            PassOf(setId, head, v, interval, commitmentMax).range.Some?
  {
    NeverStalls(setId, head, view, interval, commitmentMax);
    hide LastJustified, StepTo, BlockToRequest;
  }

  // ----- catching up

  /** Rounds at one head whose requests are all fulfilled. */
  ghost function FullRounds(head: U32, n: nat): (r: seq<Round>)
    ensures |r| == n && forall i | 0 <= i < n :: r[i] == Round(head, true, true)
  {
    seq(n, _ => Round(head, true, true))
  }

  /** Twice the latest block, and one more when the next pass can step ahead. */
  ghost function Potential(setId: History, head: U32, view: View, interval: nat, commitmentMax: nat): nat
    requires 1 <= view.latest && 1 <= head && interval >= 1
  {
    2 * view.latest + if PassOf(setId, head, view, interval, commitmentMax).range.Some? then 1 else 0
  }

  lemma {:induction false} RoundProgress(setId: History, head: U32, view: View, interval: nat, commitmentMax: nat)
    requires ValidHistory(setId, head) && Serviceable(setId, view)
    requires 1 <= interval <= commitmentMax && view.latest + interval <= head
    ensures var v := AfterRound(setId, view, Round(head, true, true), interval, commitmentMax);
            1 <= v.latest && Potential(setId, head, v, interval, commitmentMax) >
              Potential(setId, head, view, interval, commitmentMax)
  {
    assert 1 <= view.latest;
    hide ValidHistory, Serviceable;
    var p := PassOf(setId, head, view, interval, commitmentMax);
    if p.range.Some? {
      RangeSafe(setId, head, view, interval, commitmentMax);
    } else {
      RotateThenStep(setId, head, view, interval, commitmentMax);
    }
    hide PassOf;
  }

  lemma {:induction false} FullHeads(setId: History, head: U32, latest: nat, n: nat)
    requires ValidHistory(setId, head) && latest <= head
    ensures Heads(setId, latest, FullRounds(head, n))
  {
    hide ValidHistory;
  }

  lemma {:induction false} PotentialGrows(setId: History, head: U32, view: View, n: nat, interval: nat,
                                          commitmentMax: nat)
    requires ValidHistory(setId, head) && Serviceable(setId, view) && view.latest <= head
    requires 1 <= interval <= commitmentMax
    ensures Heads(setId, view.latest, FullRounds(head, n))
    ensures var v := AfterRounds(setId, view, FullRounds(head, n), interval, commitmentMax);
            && v.latest <= head
            && (v.latest + interval > head || Potential(setId, head, v, interval, commitmentMax) >= 2 * view.latest + n)
  {
    FullHeads(setId, head, view.latest, n);
    var rounds := FullRounds(head, n);
    hide ValidHistory, Serviceable, PassOf, Heads, FullRounds;
    if n == 0 {
    } else {
      PotentialGrows(setId, head, view, n - 1, interval, commitmentMax);
      assert rounds[..|rounds| - 1] == FullRounds(head, n - 1);
      var v := AfterRounds(setId, view, FullRounds(head, n - 1), interval, commitmentMax);
      RoundKeepsServiceable(setId, v, Round(head, true, true), interval, commitmentMax);
      if v.latest + interval <= head {
        RoundProgress(setId, head, v, interval, commitmentMax);
      }
    }
  }

  /** The operator catches up: when every request is fulfilled, two rounds for each block behind a head
      are enough to come within one interval of it. */
  lemma {:induction false} CatchesUp(setId: History, head: U32, view: View, n: nat, interval: nat, commitmentMax: nat)
    requires ValidHistory(setId, head) && Serviceable(setId, view) && view.latest <= head
    requires 1 <= interval <= commitmentMax
    requires n >= 2 * (head - view.latest)
    ensures Heads(setId, view.latest, FullRounds(head, n))
    ensures var v := AfterRounds(setId, view, FullRounds(head, n), interval, commitmentMax);
            v.latest <= head < v.latest + interval
  {
    hide ValidHistory, Serviceable, PassOf, Heads, FullRounds;
    PotentialGrows(setId, head, view, n, interval, commitmentMax);
  }
}
