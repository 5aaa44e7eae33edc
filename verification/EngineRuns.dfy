/** Every run of the engine, from its creation on. */
module EngineRuns {
  import opened Primitives
  import opened SortedIds
  import opened Unl
  import opened ProposalTracker
  import opened HoldingPen
  import opened Disputes
  import opened CloseTime
  import opened RoundState
  import opened Quorum
  import opened Convergence

  /** What never changes about a node: its name, its settings, and the root hash of sorted ids. */
  datatype Node = Node(id: NodeId, params: Params, root: seq<Hash256> -> Hash256)

  datatype Op =
    | StartRound(prev: Hash256, ledgerSeq: u32, prior: u32, resolution: u32)
    | CloseLedger(candidate: TxSet, closeTime: u32, seqNo: u32, answers: nat -> map<NodeId, TxSet>)
    | PeerProposal(proposal: Proposal, now: u32, acquired: map<NodeId, TxSet>)
    | Converge(poll: Poll)

  function Initial(resolution: u32): (s: Round) {
    Round(Open, None, None, map[], EMPTY, map[], 0, ZERO_HASH, 0, resolution, [], map[], map[], None, 0, true)
  }

  /** The round just after closing, before the buffer is replayed. */
  function Opened(s: Round, id: NodeId, candidate: TxSet, closeTime: u32, ledgerSeq: u32): (r: Round) {
    s.(phase := Establish, ourPosition := Some(Proposal(id, candidate.hash, closeTime, 0, ledgerSeq, s.prevLedger)),
       ourSet := Some(candidate), pending := [])
  }

  ghost predicate Step(s: Round, after: Round, node: Node, u: UnlView, op: Op) {
    match op
    case StartRound(prev, ledgerSeq, prior, resolution) => after == AfterStart(s, prev, ledgerSeq, prior, resolution)
    case CloseLedger(candidate, closeTime, ledgerSeq, answers) =>
      if s.phase.Open?
        then Replayed(Opened(s, node.id, candidate, closeTime, ledgerSeq), after, s.pending, u, closeTime, answers)
      else after == s
    case PeerProposal(p, now, acquired) => AfterProposal(s, after, p, u, now, acquired)
    case Converge(poll) =>
      if s.phase.Establish? then exists accepted :: Converged(s, after, u, node.params, node.root, poll, accepted)
        else after == s
  }

  lemma InitialFits(resolution: u32)
    ensures Inv(Initial(resolution))
  {
    assert forall h :: KeysOn(EMPTY.entries, h) == {};
  }

  lemma OpenedFits(s: Round, id: NodeId, candidate: TxSet, closeTime: u32, ledgerSeq: u32)
    requires Inv(s) && s.phase.Open?
    ensures Inv(Opened(s, id, candidate, closeTime, ledgerSeq))
    ensures s.tracked == EMPTY
  {
    assert forall k :: k !in s.tracked.entries;
    assert s.tracked.entries == map[];
    assert forall h :: KeysOn(s.tracked.entries, h) == {};
    EmptyList(s.tracked.order);
    hide TidyHeld;
    HeldSmall(s.held);
  }

  /** Every step keeps the invariant; outside a round start positions only advance; and with one
      list only trusted peers have a position. */
  lemma StepKeeps(s: Round, after: Round, node: Node, u: UnlView, op: Op)
    requires Inv(s) && Step(s, after, node, u, op)
    ensures Inv(after)
    ensures !op.StartRound? ==> Advances(s.peers, after.peers)
    ensures u.trusted != {} && AllTrusted(s, u) ==> AllTrusted(after, u)
  {
    assert s.phase.Open? ==> s.peers == map[];
    match op
    case StartRound(prev, ledgerSeq, prior, resolution) =>
      StartKeeps(s, prev, ledgerSeq, prior, resolution);
    case CloseLedger(candidate, closeTime, ledgerSeq, answers) =>
      if s.phase.Open? {
        var base := Opened(s, node.id, candidate, closeTime, ledgerSeq);
        OpenedFits(s, node.id, candidate, closeTime, ledgerSeq);
        hide Inv, Replayed;
        ReplayKeeps(base, after, s.pending, u, closeTime, answers);
      }
    case PeerProposal(p, now, acquired) =>
      ProposalKeeps(s, after, p, u, now, acquired);
    case Converge(poll) =>
      if s.phase.Establish? {
        var accepted :| Converged(s, after, u, node.params, node.root, poll, accepted);
        ConvergeKeeps(s, after, u, node.params, node.root, poll, accepted);
      }
  }

  /** A run: the states along it, the operations, and the validator list at each one. */
  ghost predicate IsRun(states: seq<Round>, node: Node, ops: seq<Op>, lists: seq<UnlView>) {
    && |states| == |ops| + 1 && |lists| == |ops|
    && (exists resolution :: states[0] == Initial(resolution))
    && forall i :: 0 <= i < |ops| ==> Step(states[i], states[i + 1], node, lists[i], ops[i])
  }

  lemma {:induction false} RunFits(states: seq<Round>, node: Node, ops: seq<Op>, lists: seq<UnlView>, i: nat)
    requires IsRun(states, node, ops, lists) && i < |states|
    ensures Inv(states[i])
    decreases i
  {
    hide Inv, Step, Initial;
    if i == 0 {
      var resolution :| states[0] == Initial(resolution);
      InitialFits(resolution);
    } else {
      RunFits(states, node, ops, lists, i - 1);
      StepKeeps(states[i - 1], states[i], node, lists[i - 1], ops[i - 1]);
    }
  }

  /** Every reachable state, spelled out: positions build on the parent ledger, are what the tracker
      holds and number at most sixteen; our position names our set; every dispute knows our set;
      the buffers together hold at most 2048 proposals. */
  lemma ReachableStates(states: seq<Round>, node: Node, ops: seq<Op>, lists: seq<UnlView>, i: nat)
    requires IsRun(states, node, ops, lists) && i < |states|
    ensures forall n :: n in states[i].peers ==>
            states[i].peers[n].nodeId == n && states[i].peers[n].prevLedger == states[i].prevLedger
    ensures forall k :: k in states[i].tracked.entries <==> k.1 == states[i].prevLedger && k.0 in states[i].peers
    ensures forall k :: k in states[i].tracked.entries ==> states[i].peers[k.0] == states[i].tracked.entries[k]
    ensures |states[i].peers| <= MAX_PROPOSALS_PER_PREV
    ensures states[i].ourSet.Some? ==>
              && states[i].ourPosition.Some? && states[i].ourPosition.value.txSetHash == states[i].ourSet.value.hash
              && OurVotesMatch(states[i].disputes, states[i].ourSet.value.txs)
    ensures |states[i].pending| + Total(states[i].held) <= 2048
  {
    hide Step, Initial, OurVotesMatch, WellFormed;
    RunFits(states, node, ops, lists, i);
    PeerFacts(states[i]);
    BuffersBounded(states[i]);
  }

  /** Between two round starts a peer's stored sequence only rises. */
  lemma {:induction false} PositionsAdvance(states: seq<Round>, node: Node, ops: seq<Op>, lists: seq<UnlView>, i: nat,
                                            j: nat)
    requires IsRun(states, node, ops, lists) && i <= j < |states|
    requires forall k :: i <= k < j ==> !ops[k].StartRound?
    ensures Advances(states[i].peers, states[j].peers)
    decreases j
  {
    if i < j {
      PositionsAdvance(states, node, ops, lists, i, j - 1);
      RunFits(states, node, ops, lists, j - 1);
      hide Inv, Step, Initial;
      StepKeeps(states[j - 1], states[j], node, lists[j - 1], ops[j - 1]);
      AdvancesOn(states[i].peers, states[j - 1].peers, states[j].peers);
    }
  }

  /** As long as the list has not changed since the round was open, only trusted peers have a position. */
  lemma {:induction false} TrustedSinceOpen(states: seq<Round>, node: Node, ops: seq<Op>, lists: seq<UnlView>,
                                            u: UnlView, o: nat, i: nat)
    requires IsRun(states, node, ops, lists) && o <= i < |states|
    requires states[o].phase.Open? && u.trusted != {} && forall k :: o <= k < i ==> lists[k] == u
    ensures AllTrusted(states[i], u)
    decreases i
  {
    hide Inv, Step, Initial, AllTrusted;
    if i == o {
      RunFits(states, node, ops, lists, o);
      NobodyYet(states[o], u);
    } else {
      TrustedSinceOpen(states, node, ops, lists, u, o, i - 1);
      RunFits(states, node, ops, lists, i - 1);
      StepKeeps(states[i - 1], states[i], node, lists[i - 1], ops[i - 1]);
    }
  }

  lemma NobodyYet(s: Round, u: UnlView)
    requires Inv(s) && s.phase.Open?
    ensures AllTrusted(s, u)
  {
  }

  /** In every run, a round accepted by quorum closes with agreement at the bucket of our position,
      provided the list has not changed since the round was open, the peers are distinct validators
      and that bucket lies after the parent's close time. */
  lemma QuorumRoundsAgree(states: seq<Round>, node: Node, ops: seq<Op>, lists: seq<UnlView>, u: UnlView, o: nat, i: nat,
                          self: Option<NodeId>)
    requires IsRun(states, node, ops, lists) && o <= i < |ops| && ops[i].Converge?
    requires states[o].phase.Open? && u.trusted != {} && forall k :: o <= k <= i ==> lists[k] == u
    requires states[i].phase.Establish? && states[i + 1].phase.Accepted? && states[i + 1].ourPosition.Some?
    requires Agreement(states[i], states[i + 1].ourPosition.value, u, node.params, ops[i].poll.selfCounts)
    requires OneNameEach(states[i].peers.Keys, u, self)
    requires (self.Some? <==> ops[i].poll.selfCounts) && (self.Some? ==> self.value in Effective(u))
    requires RoundCloseTime(states[i + 1].ourPosition.value.closeTime, states[i].resolution) > states[i].prior
    ensures states[i + 1].previousAgreed
    ensures states[i + 1].acceptedTime
            == Some(RoundCloseTime(states[i + 1].ourPosition.value.closeTime, states[i].resolution))
  {
    RunFits(states, node, ops, lists, i);
    TrustedSinceOpen(states, node, ops, lists, u, o, i);
    assert Step(states[i], states[i + 1], node, lists[i], ops[i]);
    var accepted :| Converged(states[i], states[i + 1], u, node.params, node.root, ops[i].poll, accepted);
    assert accepted by {
      assert Verdict(states[i], states[i + 1], accepted);
    }
    hide Inv, Step, Initial, AllTrusted, Converged, OneNameEach, RoundCloseTime, IsRun, Agreement;
    QuorumAcceptanceCloses(states[i], states[i + 1], u, node.params, node.root, ops[i].poll, self);
  }

  // ---------------------------------------------------------------- running out of time

  /** The polls between two steps of a run at which a round interval was over. */
  function Ticks(ops: seq<Op>, i: nat, j: nat): (n: nat)
    requires i <= j <= |ops|
  {
    if i == j then 0
    else Ticks(ops, i, j - 1) + if ops[j - 1].Converge? && ops[j - 1].poll.advanceDue then 1 else 0
  }

  lemma StepTicks(s: Round, after: Round, node: Node, u: UnlView, op: Op)
    requires Inv(s) && Step(s, after, node, u, op) && !op.StartRound?
    ensures after.round <= s.round + if op.Converge? && op.poll.advanceDue then 1 else 0
  {
    match op
    case StartRound(prev, ledgerSeq, prior, resolution) =>
    case CloseLedger(candidate, closeTime, ledgerSeq, answers) =>
      if s.phase.Open? {
        OpenedFits(s, node.id, candidate, closeTime, ledgerSeq);
        hide Inv, Replayed;
        ReplaySameRound(Opened(s, node.id, candidate, closeTime, ledgerSeq), after, s.pending, u, closeTime, answers);
      }
    case PeerProposal(p, now, acquired) =>
      hide Inv, AfterProposal;
      ProposalSameRound(s, after, p, u, now, acquired);
    case Converge(poll) =>
      hide Inv, Converged;
      if s.phase.Establish? {
        var accepted :| Converged(s, after, u, node.params, node.root, poll, accepted);
        PollTicks(s, after, u, node.params, node.root, poll, accepted);
      }
  }

  lemma PollTicks(s: Round, after: Round, u: UnlView, params: Params, root: seq<Hash256> -> Hash256, poll: Poll,
                  accepted: bool)
    requires Converged(s, after, u, params, root, poll, accepted)
    ensures after.round <= s.round + if poll.advanceDue then 1 else 0
  {
    hide Settled, NewPosition, Verdict, Agreement, OutOfTime, Decides;
  }

  lemma ProposalSameRound(s: Round, after: Round, p: Proposal, u: UnlView, now: u32, acquired: map<NodeId, TxSet>)
    requires AfterProposal(s, after, p, u, now, acquired)
    ensures after.round == s.round
  {
    hide RecordedInSomeOrder, HeldAfter, Accepts, AfterTrack, PassesGate, FitsSequence;
  }

  lemma {:induction false} ReplaySameRound(s: Round, after: Round, ps: seq<Proposal>, u: UnlView, now: u32,
                                           answers: nat -> map<NodeId, TxSet>)
    requires Replayed(s, after, ps, u, now, answers)
    ensures after.round == s.round
    decreases |ps|
  {
    if ps != [] {
      var mid :| Replayed(s, mid, ps[..|ps| - 1], u, now, answers)
        && AfterProposal(mid, after, ps[|ps| - 1], u, now, answers(|ps| - 1));
      ReplaySameRound(s, mid, ps[..|ps| - 1], u, now, answers);
      hide Replayed, AfterProposal;
      ProposalSameRound(mid, after, ps[|ps| - 1], u, now, answers(|ps| - 1));
    }
  }

  /** Over every run the round number counts no more than the round intervals since the round began. */
  lemma {:induction false} RoundWithinTicks(states: seq<Round>, node: Node, ops: seq<Op>, lists: seq<UnlView>, o: nat,
                                            j: nat)
    requires IsRun(states, node, ops, lists) && o < j < |states| && ops[o].StartRound?
    requires forall k :: o < k < j ==> !ops[k].StartRound?
    ensures states[j].round <= Ticks(ops, o + 1, j)
    decreases j
  {
    hide Inv, Step, Initial;
    if j == o + 1 {
      StartsAtZero(states[o], states[j], node, lists[o], ops[o]);
    } else {
      RoundWithinTicks(states, node, ops, lists, o, j - 1);
      RunFits(states, node, ops, lists, j - 1);
      StepTicks(states[j - 1], states[j], node, lists[j - 1], ops[j - 1]);
    }
  }

  lemma StartsAtZero(s: Round, after: Round, node: Node, u: UnlView, op: Op)
    requires Step(s, after, node, u, op) && op.StartRound?
    ensures after.round == 0
  {
  }

  /** So a poll accepted without agreement comes after at least as many round intervals as there are rounds. */
  lemma TimeoutTakesAllRounds(states: seq<Round>, node: Node, ops: seq<Op>, lists: seq<UnlView>, o: nat, i: nat)
    requires IsRun(states, node, ops, lists) && o < i < |ops| && ops[o].StartRound? && ops[i].Converge?
    requires forall k :: o < k < i ==> !ops[k].StartRound?
    requires states[i].phase.Establish? && states[i + 1].phase.Accepted? && states[i + 1].ourPosition.Some?
    requires !Agreement(states[i], states[i + 1].ourPosition.value, lists[i], node.params, ops[i].poll.selfCounts)
    ensures Ticks(ops, o + 1, i + 1) >= node.params.maxRounds
  {
    RoundWithinTicks(states, node, ops, lists, o, i);
    hide Inv, Initial, Agreement, Settled, NewPosition, NextRound;
    assert Step(states[i], states[i + 1], node, lists[i], ops[i]);
    var accepted :| Converged(states[i], states[i + 1], lists[i], node.params, node.root, ops[i].poll, accepted);
    assert accepted by { assert Verdict(states[i], states[i + 1], accepted); }
  }

  // ---------------------------------------------------------------- the cap on the buffer

  /** Whether an operation leaves the buffer within its cap: a round start moves the held proposals on
      its parent in, closing an open round empties it, nothing else takes it over the cap. */
  predicate LeavesRoom(s: Round, op: Op) {
    match op
    case StartRound(prev, _, _, _) => |s.pending| + |Group(s.held, prev)| <= PENDING_PROPOSALS_MAX
    case CloseLedger(_, _, _, _) => s.phase.Open? || |s.pending| <= PENDING_PROPOSALS_MAX
    case _ => |s.pending| <= PENDING_PROPOSALS_MAX
  }

  lemma StepWithinCapIff(s: Round, after: Round, node: Node, u: UnlView, op: Op)
    requires Inv(s) && Step(s, after, node, u, op)
    ensures |after.pending| <= PENDING_PROPOSALS_MAX <==> LeavesRoom(s, op)
  {
    hide PeersTracked, PositionFits, BuffersFit, RecordedInSomeOrder, HeldAfter, AfterTrack, WithoutStale, AfterClear,
         Group, Replayed, Settled, NewPosition, Verdict, Accepts, PassesGate;
    if op.CloseLedger? && s.phase.Open? {
      OpenedFits(s, node.id, op.candidate, op.closeTime, op.seqNo);
      ReplayKeeps(Opened(s, node.id, op.candidate, op.closeTime, op.seqNo), after, s.pending, u, op.closeTime,
        op.answers);
    }
  }

  /** The buffer stays within its cap over a whole run exactly when every round start finds room for
      what it moves in. */
  lemma RunWithinCapIff(states: seq<Round>, node: Node, ops: seq<Op>, lists: seq<UnlView>)
    requires IsRun(states, node, ops, lists)
    ensures (forall i :: 0 <= i < |states| ==> |states[i].pending| <= PENDING_PROPOSALS_MAX)
       <==> (forall k :: 0 <= k < |ops| && ops[k].StartRound? ==> LeavesRoom(states[k], ops[k]))
  {
    forall k | 0 <= k < |ops| ensures |states[k + 1].pending| <= PENDING_PROPOSALS_MAX
      <==> LeavesRoom(states[k], ops[k]) {
      RunFits(states, node, ops, lists, k);
      assert Step(states[k], states[k + 1], node, lists[k], ops[k]);
      StepWithinCapIff(states[k], states[k + 1], node, lists[k], ops[k]);
    }
    hide Step, Inv;
    if forall k :: 0 <= k < |ops| && ops[k].StartRound? ==> LeavesRoom(states[k], ops[k]) {
      forall i | 0 <= i < |states| ensures |states[i].pending| <= PENDING_PROPOSALS_MAX {
        WithinCapUpTo(states, node, ops, lists, i);
      }
    } else {
      var k :| 0 <= k < |ops| && ops[k].StartRound? && !LeavesRoom(states[k], ops[k]);
      assert |states[k + 1].pending| > PENDING_PROPOSALS_MAX;
    }
  }

  lemma {:induction false} WithinCapUpTo(states: seq<Round>, node: Node, ops: seq<Op>, lists: seq<UnlView>, i: nat)
    requires IsRun(states, node, ops, lists) && i < |states|
    requires forall k :: 0 <= k < |ops| && ops[k].StartRound? ==> LeavesRoom(states[k], ops[k])
    ensures |states[i].pending| <= PENDING_PROPOSALS_MAX
    decreases i
  {
    if i > 0 {
      WithinCapUpTo(states, node, ops, lists, i - 1);
      RunFits(states, node, ops, lists, i - 1);
      assert Step(states[i - 1], states[i], node, lists[i - 1], ops[i - 1]);
      hide Step, Inv;
      StepWithinCapIff(states[i - 1], states[i], node, lists[i - 1], ops[i - 1]);
    }
  }
}
