/** The operator's requests meet the contract: one at a time, a round of them, and whole runs of
    rounds from initialization. */
module Service {
  import opened Basics
  import opened Subchain
  import opened Justifications
  import opened Rotation
  import opened HeaderRange
  import opened Contract
  import opened Runs
  import opened Epochs
  import opened Operator

  // ----- one request

  /** What the operator reads of the contract. */
  function ViewOf(s: State): View {
    View(s.latestBlock, set id | id in s.authorityHashes && s.authorityHashes[id] != ZERO32)
  }

  /** The operator sees the latest block, and which set ids have a nonzero hash. */
  lemma {:induction false} ViewExact(s: State, id: nat)
    ensures ViewOf(s).latest == s.latestBlock
    ensures id in ViewOf(s).known <==> id < U64_BOUND && Stores(s.authorityHashes, id)
  {
  }

  /** A range request of the operator passes every check of the contract: unless frozen, the commit
      goes through exactly when the proof verifies, and then the operator sees its range done. */
  lemma {:induction false} RangeRequestServed(setId: History, head: U32, s: State, interval: nat, commitmentMax: nat,
                                              verified: Option<Commitment>)
    requires ValidHistory(setId, head) && 1 <= s.latestBlock <= head && interval >= 1
    requires Serviceable(setId, ViewOf(s)) && Read(s.headerHashes, s.latestBlock) != ZERO32
    requires PassOf(setId, head, ViewOf(s), interval, commitmentMax).range.Some?
    ensures var r := PassOf(setId, head, ViewOf(s), interval, commitmentMax).range.value;
            && r.setId < U64_BOUND
            && RequestHeaderRangeOutcome(s, r.setId, r.target) == Done
            && (!s.frozen && verified.Some? ==>
                  CommitStep(s, r.setId, r.target, verified).outcome == Done
                  && ViewOf(CommitStep(s, r.setId, r.target, verified).state) ==
                     AfterRound(setId, ViewOf(s), Round(head, false, true), interval, commitmentMax))
  {
    RequestsAreBacked(setId, head, ViewOf(s), interval, commitmentMax);
    RangeSafe(setId, head, ViewOf(s), interval, commitmentMax);
    hide PassOf;
  }

  /** Likewise for a rotate request. */
  lemma {:induction false} RotateRequestServed(setId: History, head: U32, s: State, interval: nat, commitmentMax: nat,
                                               newHash: Bytes32)
    requires ValidHistory(setId, head) && 1 <= s.latestBlock <= head && interval >= 1 && newHash != ZERO32
    requires Serviceable(setId, ViewOf(s)) && PassOf(setId, head, ViewOf(s), interval, commitmentMax).rotate.Some?
    ensures var id := PassOf(setId, head, ViewOf(s), interval, commitmentMax).rotate.value;
            && id < U64_BOUND
            && (id + 1 < U64_BOUND ==>
                  && RequestRotateOutcome(s, id) == Done
                  && (!s.frozen ==>
                        RotateStep(s, id, Some(newHash)).outcome == Done
                        && ViewOf(RotateStep(s, id, Some(newHash)).state) ==
                           AfterRound(setId, ViewOf(s), Round(head, true, false), interval, commitmentMax)))
  {
    RequestsAreBacked(setId, head, ViewOf(s), interval, commitmentMax);
    hide PassOf;
    var id := PassOf(setId, head, ViewOf(s), interval, commitmentMax).rotate.value;
    if id + 1 < U64_BOUND && !s.frozen {
      var t := RotateStep(s, id, Some(newHash)).state;
      assert ViewOf(t).known == ViewOf(s).known + {id + 1};
    }
  }

  // ----- a round

  /** The head a pass sees, and the gateway's answers to what it requests. */
  datatype Answer = Answer(
    head: U32, newHash: Option<Bytes32>, rotation: RotateWitness, justification: Justification,
    verified: Option<Commitment>, proof: HeaderRangeProof)

  ghost predicate NonZeroAnswer(a: Answer) {
    && (a.newHash.Some? ==> a.newHash.value != ZERO32)
    && (a.verified.Some? ==> a.verified.value.targetHeaderHash != ZERO32)
  }

  function RoundOf(a: Answer): Round {
    Round(a.head, a.newHash.Some?, a.verified.Some?)
  }

  /** Set ids up to the head have a successor. */
  ghost predicate IdsFit(setId: History, head: nat) {
    forall b | 0 <= b <= head :: setId(b) + 1 < U64_BOUND
  }

  /** The calls that the answered requests of a pass lead to. */
  ghost function RoundCalls(setId: History, s: State, a: Answer, interval: nat, commitmentMax: nat): seq<Action>
    requires 1 <= s.latestBlock && 1 <= a.head && interval >= 1
  {
    var p := PassOf(setId, a.head, ViewOf(s), interval, commitmentMax);
    RotateCall(p.rotate, a) + RangeCall(p.range, a)
  }

  ghost function RotateCall(request: Option<nat>, a: Answer): seq<Action> {
    if request.Some? && request.value < U64_BOUND && a.newHash.Some?
    then [RotateSet(request.value, a.newHash, a.rotation, a.justification)]
    else []
  }

  ghost function RangeCall(request: Option<HeaderRangeRequest>, a: Answer): seq<Action> {
    if request.Some? && request.value.setId < U64_BOUND && a.verified.Some?
    then [CommitHeaderRange(request.value.setId, request.value.target, a.verified, a.proof)]
    else []
  }

  /** A contract that the operator can work with. */
  ghost predicate Ready(setId: History, s: State) {
    !s.frozen && Serviceable(setId, ViewOf(s)) && Read(s.headerHashes, s.latestBlock) != ZERO32
  }

  /** Every call of the sequence succeeds. */
  ghost predicate AllDone(s: State, actions: seq<Action>) {
    forall i | 0 <= i < |actions| :: StepOf(StateAfter(s, actions[..i]), actions[i]).outcome == Done
  }

  lemma {:induction false} OneCall(s: State, a: Action)
    ensures StateAfter(s, [a]) == StepOf(s, a).state
    ensures AllDone(s, [a]) <==> StepOf(s, a).outcome == Done
  {
    hide StepOf;
    assert [a][..0] == [] && StateAfter(s, []) == s;
  }

  lemma {:induction false} StateAfterConcat(s: State, xs: seq<Action>, ys: seq<Action>)
    ensures StateAfter(s, xs + ys) == StateAfter(StateAfter(s, xs), ys)
  {
    hide StepOf;
    if ys == [] {
      assert xs + ys == xs;
    } else {
      StateAfterConcat(s, xs, ys[..|ys| - 1]);
      assert (xs + ys)[..|xs + ys| - 1] == xs + ys[..|ys| - 1];
    }
  }

  lemma {:induction false} AllDoneConcat(s: State, xs: seq<Action>, ys: seq<Action>)
    requires AllDone(s, xs) && AllDone(StateAfter(s, xs), ys)
    ensures AllDone(s, xs + ys)
  {
    hide StepOf;
    var all := xs + ys;
    forall i | 0 <= i < |all|
      ensures StepOf(StateAfter(s, all[..i]), all[i]).outcome == Done
    {
      if i < |xs| {
        assert all[..i] == xs[..i];
      } else {
        assert all[..i] == xs + ys[..i - |xs|];
        StateAfterConcat(s, xs, ys[..i - |xs|]);
      }
    }
  }

  /** The rotation of a round goes through, and neither the latest block nor the input of the range
      proof requested in the same pass changes. */
  lemma {:induction false} RotateCallServed(setId: History, s: State, a: Answer, interval: nat, commitmentMax: nat)
    requires ValidHistory(setId, a.head) && IdsFit(setId, a.head) && 1 <= s.latestBlock <= a.head && interval >= 1
    requires Ready(setId, s) && NonZeroAnswer(a)
    ensures var p := PassOf(setId, a.head, ViewOf(s), interval, commitmentMax);
            var t := StateAfter(s, RotateCall(p.rotate, a));
            && AllDone(s, RotateCall(p.rotate, a))
            && t == s.(authorityHashes := t.authorityHashes)
            && ViewOf(t) == AfterRound(setId, ViewOf(s), Round(a.head, a.newHash.Some?, false), interval, commitmentMax)
            && (p.range.Some? ==> p.range.value.setId < U64_BOUND
                                  && RangeInput(t, p.range.value.setId, p.range.value.target) ==
                                     RangeInput(s, p.range.value.setId, p.range.value.target)
                                  && Read(t.authorityHashes, p.range.value.setId) != ZERO32)
  {
    var p := PassOf(setId, a.head, ViewOf(s), interval, commitmentMax);
    RequestsAreBacked(setId, a.head, ViewOf(s), interval, commitmentMax);
    RotateId(setId, a.head, ViewOf(s), interval, commitmentMax);
    hide PassOf, Serviceable, ValidHistory, StepOf;
    if p.rotate.Some? && a.newHash.Some? {
      RotateRequestServed(setId, a.head, s, interval, commitmentMax, a.newHash.value);
      OneCall(s, RotateSet(p.rotate.value, a.newHash, a.rotation, a.justification));
      RotateSteps(s, p.rotate.value, a);
    } else {
      assert StateAfter(s, []) == s;
      ViewUnchanged(setId, s, a.head, a.newHash.Some?, interval, commitmentMax);
    }
  }

  lemma {:induction false} RotateId(setId: History, head: U32, view: View, interval: nat, commitmentMax: nat)
    requires IdsFit(setId, head) && 1 <= view.latest <= head && interval >= 1
    ensures var p := PassOf(setId, head, view, interval, commitmentMax);
            p.rotate.Some? ==> p.rotate.value + 1 < U64_BOUND
  {
    assert setId(view.latest - 1) + 1 < U64_BOUND;
    hide LastJustified, StepTo;
  }

  lemma {:induction false} RotateSteps(s: State, id: U64, a: Answer)
    requires a.newHash.Some? && RotateStep(s, id, a.newHash).outcome == Done
    ensures StepOf(s, RotateSet(id, a.newHash, a.rotation, a.justification)) == RotateStep(s, id, a.newHash)
    ensures id + 1 < U64_BOUND
    ensures RotateStep(s, id, a.newHash).state == s.(authorityHashes := s.authorityHashes[id + 1 := a.newHash.value])
  {
  }

  lemma {:induction false} ViewUnchanged(setId: History, s: State, head: U32, rotateDone: bool, interval: nat,
                                         commitmentMax: nat)
    requires 1 <= s.latestBlock && 1 <= head && interval >= 1
    requires rotateDone ==> PassOf(setId, head, ViewOf(s), interval, commitmentMax).rotate.None?
    ensures ViewOf(s) == AfterRound(setId, ViewOf(s), Round(head, rotateDone, false), interval, commitmentMax)
  {
    hide PassOf;
  }

  /** The range commit of a round goes through, on the state after the rotation. */
  lemma {:induction false} RangeCallServed(setId: History, s: State, t: State, a: Answer, interval: nat,
                                           commitmentMax: nat)
    requires ValidHistory(setId, a.head) && 1 <= s.latestBlock <= a.head && interval >= 1
    requires Ready(setId, s) && NonZeroAnswer(a) && t == s.(authorityHashes := t.authorityHashes)
    requires ViewOf(t) == AfterRound(setId, ViewOf(s), Round(a.head, a.newHash.Some?, false), interval, commitmentMax)
    requires var p := PassOf(setId, a.head, ViewOf(s), interval, commitmentMax);
             p.range.Some? ==> p.range.value.setId < U64_BOUND && Read(t.authorityHashes, p.range.value.setId) != ZERO32
    ensures var p := PassOf(setId, a.head, ViewOf(s), interval, commitmentMax);
            var u := StateAfter(t, RangeCall(p.range, a));
            && AllDone(t, RangeCall(p.range, a))
            && !u.frozen && Read(u.headerHashes, u.latestBlock) != ZERO32
            && ViewOf(u) == AfterRound(setId, ViewOf(s), RoundOf(a), interval, commitmentMax)
  {
    var p := PassOf(setId, a.head, ViewOf(s), interval, commitmentMax);
    if p.range.Some? && a.verified.Some? {
      RangeSafe(setId, a.head, ViewOf(s), interval, commitmentMax);
      var r := p.range.value;
      hide PassOf, Serviceable, ValidHistory, StepOf, StateAfter;
      OneCall(t, CommitHeaderRange(r.setId, r.target, a.verified, a.proof));
      RangeSteps(t, r.setId, r.target, a);
    } else {
      hide PassOf, Serviceable, ValidHistory;
      assert StateAfter(t, []) == t;
    }
  }

  lemma {:induction false} RangeSteps(s: State, id: U64, target: U32, a: Answer)
    requires !s.frozen && Read(s.headerHashes, s.latestBlock) != ZERO32 && Read(s.authorityHashes, id) != ZERO32
    requires s.latestBlock < target && a.verified.Some? && a.verified.value.targetHeaderHash != ZERO32
    ensures var step := StepOf(s, CommitHeaderRange(id, target, a.verified, a.proof));
            && step.outcome == Done && !step.state.frozen && step.state.latestBlock == target
            && Read(step.state.headerHashes, target) != ZERO32
            && step.state.authorityHashes == s.authorityHashes
  {
  }

  /** A round: every call that a pass leads to goes through, whatever is answered; the operator then
      sees what its own account of the round says, and can go on. */
  lemma {:induction false} RoundServed(setId: History, s: State, a: Answer, interval: nat, commitmentMax: nat)
    requires ValidHistory(setId, a.head) && IdsFit(setId, a.head) && 1 <= s.latestBlock <= a.head && interval >= 1
    requires Ready(setId, s) && NonZeroAnswer(a)
    ensures var calls := RoundCalls(setId, s, a, interval, commitmentMax);
            var t := StateAfter(s, calls);
            && AllDone(s, calls) && Ready(setId, t)
            && ViewOf(t) == AfterRound(setId, ViewOf(s), RoundOf(a), interval, commitmentMax)
  {
    var p := PassOf(setId, a.head, ViewOf(s), interval, commitmentMax);
    RotateCallServed(setId, s, a, interval, commitmentMax);
    var t := StateAfter(s, RotateCall(p.rotate, a));
    RangeCallServed(setId, s, t, a, interval, commitmentMax);
    RoundKeepsServiceable(setId, ViewOf(s), RoundOf(a), interval, commitmentMax);
    hide PassOf, AfterRound, Serviceable, ValidHistory, StepOf, StateAfter, AllDone, RotateCall, RangeCall;
    StateAfterConcat(s, RotateCall(p.rotate, a), RangeCall(p.range, a));
    AllDoneConcat(s, RotateCall(p.rotate, a), RangeCall(p.range, a));
  }

  // ----- whole runs

  function RoundsOf(answers: seq<Answer>): (r: seq<Round>)
    ensures |r| == |answers| && forall i | 0 <= i < |answers| :: r[i] == RoundOf(answers[i])
  {
    seq(|answers|, i requires 0 <= i < |answers| => RoundOf(answers[i]))
  }

  /** The heads do not go back, set ids fit, and successful answers are nonzero. */
  ghost predicate Answered(setId: History, latest: nat, answers: seq<Answer>) {
    && Heads(setId, latest, RoundsOf(answers))
    && forall i | 0 <= i < |answers| :: NonZeroAnswer(answers[i]) && IdsFit(setId, answers[i].head)
  }

  lemma {:induction false} AnsweredPrefix(setId: History, latest: nat, answers: seq<Answer>)
    requires Answered(setId, latest, answers) && answers != []
    ensures Answered(setId, latest, answers[..|answers| - 1])
    ensures RoundsOf(answers)[..|answers| - 1] == RoundsOf(answers[..|answers| - 1])
  {
    hide ValidHistory, IdsFit, NonZeroAnswer;
    var before, rounds := answers[..|answers| - 1], RoundsOf(answers);
    assert rounds[..|answers| - 1] == RoundsOf(before);
    forall i | 0 <= i < |before|
      ensures RoundsOf(before)[i] == rounds[i]
    {
    }
  }

  /** Every call went through, and the contract's state is what the operator's own account of its
      rounds says. */
  ghost predicate Served(setId: History, s: State, answers: seq<Answer>, interval: nat, commitmentMax: nat,
                         calls: seq<Action>)
    requires interval >= 1 && 1 <= s.latestBlock && Ready(setId, s) && Answered(setId, s.latestBlock, answers)
  {
    var t := StateAfter(s, calls);
    && AllDone(s, calls) && Ready(setId, t) && 1 <= t.latestBlock
    && ViewOf(t) == AfterRounds(setId, ViewOf(s), RoundsOf(answers), interval, commitmentMax)
  }

  /** The calls of a whole run of the operator against the contract, pass by pass. */
  ghost function RunCalls(setId: History, s: State, answers: seq<Answer>, interval: nat,
                          commitmentMax: nat): (calls: seq<Action>)
    requires interval >= 1 && 1 <= s.latestBlock && Ready(setId, s) && Answered(setId, s.latestBlock, answers)
    ensures Served(setId, s, answers, interval, commitmentMax, calls)
    decreases |answers|
  {
    if answers == [] then
      NoRounds(setId, s, interval, commitmentMax);
      []
    else
      AnsweredPrefix(setId, s.latestBlock, answers);
      var before := RunCalls(setId, s, answers[..|answers| - 1], interval, commitmentMax);
      NextRound(setId, s, answers, interval, commitmentMax, before);
      before + RoundCalls(setId, StateAfter(s, before), answers[|answers| - 1], interval, commitmentMax)
  }

  lemma {:induction false} NoRounds(setId: History, s: State, interval: nat, commitmentMax: nat)
    requires interval >= 1 && 1 <= s.latestBlock && Ready(setId, s) && Answered(setId, s.latestBlock, [])
    ensures Served(setId, s, [], interval, commitmentMax, [])
  {
    hide StepOf;
    assert StateAfter(s, []) == s && RoundsOf([]) == [];
  }

  lemma {:induction false} LastAnswer(setId: History, latest: nat, answers: seq<Answer>)
    requires Answered(setId, latest, answers) && answers != []
    ensures var last := answers[|answers| - 1];
            && ValidHistory(setId, last.head) && NonZeroAnswer(last) && IdsFit(setId, last.head) && latest <= last.head
            && RoundsOf(answers)[|answers| - 1] == RoundOf(last)
            && (|answers| > 1 ==> RoundsOf(answers[..|answers| - 1])[|answers| - 2].head <= last.head)
  {
    hide ValidHistory, IdsFit, NonZeroAnswer;
    var rounds, n := RoundsOf(answers), |answers| - 1;
    assert rounds[n] == RoundOf(answers[n]) && rounds[n].head == answers[n].head;
    assert n > 0 ==> rounds[n - 1].head <= rounds[n].head && RoundsOf(answers[..n])[n - 1] == rounds[n - 1];
  }

  lemma {:induction false} NextRound(setId: History, s: State, answers: seq<Answer>, interval: nat, commitmentMax: nat,
                                     before: seq<Action>)
    requires interval >= 1 && 1 <= s.latestBlock && Ready(setId, s) && answers != []
    requires Answered(setId, s.latestBlock, answers) && Answered(setId, s.latestBlock, answers[..|answers| - 1])
    requires Served(setId, s, answers[..|answers| - 1], interval, commitmentMax, before)
    ensures 1 <= StateAfter(s, before).latestBlock && 1 <= answers[|answers| - 1].head
    ensures Served(setId, s, answers, interval, commitmentMax,
                   before + RoundCalls(setId, StateAfter(s, before), answers[|answers| - 1], interval, commitmentMax))
  {
    var last, t := answers[|answers| - 1], StateAfter(s, before);
    LastAnswer(setId, s.latestBlock, answers);
    AnsweredPrefix(setId, s.latestBlock, answers);
    hide Ready, AllDone, StateAfter, StepOf, RoundCalls, AfterRound, PassOf, Serviceable, ValidHistory, IdsFit,
         NonZeroAnswer, RoundsOf, Heads;
    RoundServed(setId, t, last, interval, commitmentMax);
    var more := RoundCalls(setId, t, last, interval, commitmentMax);
    StateAfterConcat(s, before, more);
    AllDoneConcat(s, before, more);
  }

  /** The operator and the contract together never stall: from initialization at a genesis block,
      whatever requests were answered, every call so far went through, and with a full interval
      ahead the next pass submits a request, which the contract accepts. */
  lemma {:induction false} ServiceNeverStalls(setId: History, genesis: U32, header: Bytes32, setHash: Bytes32,
                                              answers: seq<Answer>, interval: nat, commitmentMax: nat, head: U32)
    requires 1 <= genesis && 1 <= interval <= commitmentMax && header != ZERO32 && setHash != ZERO32
    requires setId(genesis) < U64_BOUND
    requires Answered(setId, genesis, answers) && ValidHistory(setId, head) && IdsFit(setId, head)
    ensures var s := Initialized(genesis, header, setId(genesis), setHash); Ready(setId, s)
    ensures var s := Initialized(genesis, header, setId(genesis), setHash);
            var calls := RunCalls(setId, s, answers, interval, commitmentMax);
            AllDone(s, calls) && PassServed(setId, StateAfter(s, calls), head, interval, commitmentMax)
  {
    hide Ready, Answered, ValidHistory, IdsFit, StateAfter, AllDone, PassServed, AfterRounds, ViewOf;
    var s := Initialized(genesis, header, setId(genesis), setHash);
    InitiallyReady(setId, genesis, header, setHash);
    var t := StateAfter(s, RunCalls(setId, s, answers, interval, commitmentMax));
    PassAccepted(setId, t, head, interval, commitmentMax);
  }

  /** With a full interval ahead, a pass submits a request, and the contract accepts what it submits. */
  ghost predicate PassServed(setId: History, s: State, head: U32, interval: nat, commitmentMax: nat) {
    && 1 <= s.latestBlock
    && (1 <= interval && s.latestBlock + interval <= head ==>
          var p := PassOf(setId, head, ViewOf(s), interval, commitmentMax);
          && (p.rotate.Some? || p.range.Some?)
          && (p.rotate.Some? ==> p.rotate.value < U64_BOUND && RequestRotateOutcome(s, p.rotate.value) == Done)
          && (p.range.Some? ==> p.range.value.setId < U64_BOUND
                                && RequestHeaderRangeOutcome(s, p.range.value.setId, p.range.value.target) == Done))
  }

  /** They catch up: from a state that the operator can work with, when every request of a run at one
      head is answered, two rounds for each block behind the head bring the contract within one
      interval of it. */
  lemma {:induction false} ServiceCatchesUp(setId: History, s: State, answers: seq<Answer>, interval: nat,
                                            commitmentMax: nat, head: U32)
    requires 1 <= interval <= commitmentMax && 1 <= s.latestBlock <= head && Ready(setId, s)
    requires Answered(setId, s.latestBlock, answers)
    requires ValidHistory(setId, head)
    requires forall i | 0 <= i < |answers| :: RoundOf(answers[i]) == Round(head, true, true)
    requires |answers| >= 2 * (head - s.latestBlock)
    ensures var calls := RunCalls(setId, s, answers, interval, commitmentMax);
            var t := StateAfter(s, calls);
            AllDone(s, calls) && t.latestBlock <= head < t.latestBlock + interval
  {
    hide ValidHistory, StateAfter, AllDone, AfterRounds, PassOf, RunCalls, Answered;
    assert Serviceable(setId, ViewOf(s));
    hide Serviceable, Ready;
    assert RoundsOf(answers) == FullRounds(head, |answers|);
    CatchesUp(setId, head, ViewOf(s), |answers|, interval, commitmentMax);
    assert Served(setId, s, answers, interval, commitmentMax, RunCalls(setId, s, answers, interval, commitmentMax));
  }

  lemma {:induction false} InitiallyReady(setId: History, genesis: U32, header: Bytes32, setHash: Bytes32)
    requires 1 <= genesis && header != ZERO32 && setHash != ZERO32 && setId(genesis) < U64_BOUND
    ensures Ready(setId, Initialized(genesis, header, setId(genesis), setHash))
  {
    var s := Initialized(genesis, header, setId(genesis), setHash);
    assert setId(genesis) in s.authorityHashes;
  }

  /** The contract accepts whatever a pass submits. */
  lemma {:induction false} RequestsAccepted(setId: History, s: State, head: U32, interval: nat, commitmentMax: nat)
    requires ValidHistory(setId, head) && IdsFit(setId, head) && 1 <= s.latestBlock <= head && interval >= 1
    requires Ready(setId, s)
    ensures var p := PassOf(setId, head, ViewOf(s), interval, commitmentMax);
            && (p.rotate.Some? ==> p.rotate.value + 1 < U64_BOUND && RequestRotateOutcome(s, p.rotate.value) == Done)
            && (p.range.Some? ==> p.range.value.setId < U64_BOUND
                                  && RequestHeaderRangeOutcome(s, p.range.value.setId, p.range.value.target) == Done)
  {
    hide PassOf, ValidHistory, Serviceable, IdsFit;
    var p := PassOf(setId, head, ViewOf(s), interval, commitmentMax);
    if p.range.Some? {
      RangeRequestServed(setId, head, s, interval, commitmentMax, None);
    }
    if p.rotate.Some? {
      RotateId(setId, head, ViewOf(s), interval, commitmentMax);
      var someHash: Bytes32 := [1] + Zeros(31);
      assert someHash[0] != ZERO32[0];
      RotateRequestServed(setId, head, s, interval, commitmentMax, someHash);
    }
  }

  lemma {:induction false} PassAccepted(setId: History, s: State, head: U32, interval: nat, commitmentMax: nat)
    requires ValidHistory(setId, head) && IdsFit(setId, head) && Ready(setId, s) && 1 <= s.latestBlock
    requires 1 <= interval <= commitmentMax
    ensures PassServed(setId, s, head, interval, commitmentMax)
  {
    hide PassOf, ValidHistory, Serviceable, IdsFit, RequestRotateOutcome, RequestHeaderRangeOutcome;
    if s.latestBlock + interval <= head {
      NeverStalls(setId, head, ViewOf(s), interval, commitmentMax);
      RequestsAccepted(setId, s, head, interval, commitmentMax);
    }
  }
}
