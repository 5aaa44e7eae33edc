/** Where the positions of a round come from, over whole runs of the engine, and which proposals become one. */
module Origins {
  import opened Primitives
  import opened Unl
  import opened ProposalTracker
  import opened HoldingPen
  import opened Disputes
  import opened RoundState
  import opened Convergence
  import opened EngineRuns

  /** Good enough to be looked at: from a validator of the list, where there is one, and no more than
      thirty seconds off our clock either way. */
  predicate Admissible(u: UnlView, p: Proposal, now: u32) {
    && (u.trusted == {} || Resolve(u, p.nodeId) in u.trusted - u.negative)
    && p.closeTime <= now + 30 && now <= p.closeTime + 30
  }

  lemma GateIsAdmissible(u: UnlView, p: Proposal, now: u32)
    ensures PassesGate(u, p, now) <==> Admissible(u, p, now)
  {
  }

  // ---------------------------------------------------------------- which proposals become a position

  /** In an established round a proposal becomes its sender's position exactly when it is admissible,
      builds on our parent, does not name another ledger than ours, and is newer than what the sender
      has or finds one of the sixteen places free. */
  lemma PositionTakenIff(s: Round, after: Round, p: Proposal, u: UnlView, now: u32, acquired: map<NodeId, TxSet>)
    requires Inv(s) && s.phase.Establish? && AfterProposal(s, after, p, u, now, acquired)
    requires p.nodeId in s.peers ==> s.peers[p.nodeId] != p
    ensures p.nodeId in after.peers && after.peers[p.nodeId] == p <==>
            && Admissible(u, p, now) && p.prevLedger == s.prevLedger
            && (p.ledgerSeq == 0 || p.ledgerSeq == s.ourPosition.value.ledgerSeq)
            && (if p.nodeId in s.peers then s.peers[p.nodeId].propSeq < p.propSeq else |s.peers| < 16)
    ensures forall n :: n != p.nodeId ==>
              (n in after.peers <==> n in s.peers) && (n in s.peers ==> after.peers[n] == s.peers[n])
  {
    GateIsAdmissible(u, p, now);
    if p.prevLedger == s.prevLedger { AcceptsIff(s, p); }
    hide PassesGate, Admissible, Accepts, AfterTrack, RecordedInSomeOrder, WellFormed, OurVotesMatch, HeldAfter;
  }

  lemma AcceptsIff(s: Round, p: Proposal)
    requires PeersTracked(s) && p.prevLedger == s.prevLedger
    ensures Accepts(s.tracked, p) <==>
            if p.nodeId in s.peers then s.peers[p.nodeId].propSeq < p.propSeq else |s.peers| < 16
  {
    var keys := KeysOn(s.tracked.entries, s.prevLedger);
    hide WellFormed;
    assert KeyOf(p) in s.tracked.entries <==> p.nodeId in s.peers;
    AsManyKeys(s.peers.Keys, s.prevLedger, keys);
    NoMoreKeys(keys, s.prevLedger, s.peers.Keys);
    assert |s.peers| == |s.peers.Keys|;
    ListedIfHeld(s.tracked, s.prevLedger);
  }

  lemma ListedIfHeld(t: Tracked, prev: Hash256)
    requires WellFormed(t)
    ensures prev in t.order <==> KeysOn(t.entries, prev) != {}
  {
  }

  lemma {:induction false} NoMoreKeys(keys: set<Key>, prev: Hash256, nodes: set<NodeId>)
    requires forall k :: k in keys ==> k.1 == prev && k.0 in nodes
    ensures |keys| <= |nodes|
    decreases |keys|
  {
    if keys != {} {
      var k :| k in keys;
      NoMoreKeys(keys - {k}, prev, nodes - {k.0});
    }
  }

  // ---------------------------------------------------------------- where they come from

  /** A proposal somewhere in the state: buffered, held or a position. */
  ghost predicate Carries(s: Round, p: Proposal) {
    p in s.pending || (exists k :: k in s.held && p in s.held[k]) || (exists n :: n in s.peers && s.peers[n] == p)
  }

  lemma HeldOrigin(before: Held, p: Proposal, after: Held, k: Hash256, q: Proposal)
    requires TidyHeld(before) && HeldAfter(before, p, after) && k in after && q in after[k]
    ensures q == p || (k in before && q in before[k])
  {
    var group := Group(before, p.prevLedger);
    if k == p.prevLedger { QueuedIff(group, p, q); }
    hide Tidy, Queued, MinSeq;
  }

  /** What one proposal can touch. */
  lemma ProposalTouches(s: Round, after: Round, p: Proposal, u: UnlView, now: u32, acquired: map<NodeId, TxSet>)
    requires AfterProposal(s, after, p, u, now, acquired)
    ensures after.pending == s.pending || after.pending == s.pending + [p]
    ensures after.held == s.held || HeldAfter(s.held, p, after.held)
    ensures after.peers == s.peers || after.peers == s.peers[p.nodeId := p]
  {
    hide PassesGate, Accepts, AfterTrack, RecordedInSomeOrder, HeldAfter, FitsSequence;
  }

  lemma ProposalOrigin(s: Round, after: Round, p: Proposal, u: UnlView, now: u32, acquired: map<NodeId, TxSet>,
                       q: Proposal)
    requires Inv(s) && AfterProposal(s, after, p, u, now, acquired) && Carries(after, q)
    ensures Carries(s, q) || q == p
  {
    assert TidyHeld(s.held);
    hide Inv, AfterProposal, HeldAfter, TidyHeld;
    ProposalTouches(s, after, p, u, now, acquired);
    if k :| k in after.held && q in after.held[k] {
      if after.held != s.held { HeldOrigin(s.held, p, after.held, k, q); }
    }
  }

  /** A position after one proposal is the one before, or that proposal if it was admissible. */
  lemma ProposalPosition(s: Round, after: Round, p: Proposal, u: UnlView, now: u32, acquired: map<NodeId, TxSet>,
                         n: NodeId)
    requires AfterProposal(s, after, p, u, now, acquired) && n in after.peers
    ensures (n in s.peers && after.peers[n] == s.peers[n]) || (after.peers[n] == p && Admissible(u, p, now))
  {
    GateIsAdmissible(u, p, now);
    hide PassesGate, Admissible, Accepts, AfterTrack, RecordedInSomeOrder, HeldAfter;
  }

  lemma {:induction false} ReplayOrigin(s: Round, after: Round, ps: seq<Proposal>, u: UnlView, now: u32,
                                        answers: nat -> map<NodeId, TxSet>, n: NodeId, q: Proposal)
    requires Inv(s) && Replayed(s, after, ps, u, now, answers)
    ensures n in after.peers ==>
              || (n in s.peers && after.peers[n] == s.peers[n])
              || (after.peers[n] in ps && Admissible(u, after.peers[n], now))
    ensures Carries(after, q) ==> Carries(s, q) || q in ps
    decreases |ps|
  {
    if ps != [] {
      var rest, p := ps[..|ps| - 1], ps[|ps| - 1];
      var mid :| Replayed(s, mid, rest, u, now, answers) && AfterProposal(mid, after, p, u, now, answers(|ps| - 1));
      ReplayKeeps(s, mid, rest, u, now, answers);
      assert forall x :: x in rest ==> x in ps;
      hide Replayed, AfterProposal, Inv, Admissible, Carries;
      ReplayOrigin(s, mid, rest, u, now, answers, n, q);
      if n in after.peers { ProposalPosition(mid, after, p, u, now, answers(|ps| - 1), n); }
      if Carries(after, q) { ProposalOrigin(mid, after, p, u, now, answers(|ps| - 1), q); }
    }
  }

  lemma StartOrigin(s: Round, prev: Hash256, ledgerSeq: u32, prior: u32, resolution: u32, q: Proposal)
    requires Carries(AfterStart(s, prev, ledgerSeq, prior, resolution), q)
    ensures Carries(s, q)
  {
    var after := AfterStart(s, prev, ledgerSeq, prior, resolution);
    if k :| k in after.held && q in after.held[k] {
      KeptIff(s.held - {prev}, ledgerSeq, k, q);
      assert k in s.held && q in s.held[k];
    }
  }

  /** No step makes up a proposal. */
  lemma StepOrigin(s: Round, after: Round, node: Node, u: UnlView, op: Op, q: Proposal)
    requires Inv(s) && Step(s, after, node, u, op) && Carries(after, q)
    ensures Carries(s, q) || (op.PeerProposal? && op.proposal == q)
  {
    match op
    case StartRound(prev, ledgerSeq, prior, resolution) =>
      hide Inv;
      StartOrigin(s, prev, ledgerSeq, prior, resolution, q);
    case CloseLedger(candidate, closeTime, ledgerSeq, answers) =>
      if s.phase.Open? {
        OpenedFits(s, node.id, candidate, closeTime, ledgerSeq);
        hide Inv, Replayed;
        var base := Opened(s, node.id, candidate, closeTime, ledgerSeq);
        ReplayOrigin(base, after, s.pending, u, closeTime, answers, 0, q);
      }
    case PeerProposal(p, now, acquired) =>
      hide Inv, AfterProposal;
      ProposalOrigin(s, after, p, u, now, acquired, q);
    case Converge(poll) =>
      hide Inv;
  }

  /** A position after one step is the one before, the proposal just delivered, or one from the buffer
      at the close; the new ones were admissible at that moment. */
  lemma StepPosition(s: Round, after: Round, node: Node, u: UnlView, op: Op, n: NodeId)
    requires Inv(s) && Step(s, after, node, u, op) && n in after.peers
    ensures !op.StartRound?
    ensures || (n in s.peers && after.peers[n] == s.peers[n])
            || (op.PeerProposal? && after.peers[n] == op.proposal && Admissible(u, op.proposal, op.now))
            || (op.CloseLedger? && after.peers[n] in s.pending && Admissible(u, after.peers[n], op.closeTime))
  {
    match op
    case StartRound(prev, ledgerSeq, prior, resolution) =>
    case CloseLedger(candidate, closeTime, ledgerSeq, answers) =>
      if s.phase.Open? {
        OpenedFits(s, node.id, candidate, closeTime, ledgerSeq);
        hide Inv, Replayed, Admissible;
        ReplayOrigin(Opened(s, node.id, candidate, closeTime, ledgerSeq), after, s.pending, u, closeTime, answers, n,
          after.peers[n]);
      }
    case PeerProposal(p, now, acquired) =>
      hide Inv, AfterProposal, Admissible;
      ProposalPosition(s, after, p, u, now, acquired, n);
    case Converge(poll) =>
      hide Inv, Admissible;
  }

  /** Every proposal in a reachable state was delivered at an earlier step. */
  lemma {:induction false} DeliveredBefore(states: seq<Round>, node: Node, ops: seq<Op>, lists: seq<UnlView>, i: nat,
                                           p: Proposal) returns (j: nat)
    requires IsRun(states, node, ops, lists) && i < |states| && Carries(states[i], p)
    ensures j < i && ops[j].PeerProposal? && ops[j].proposal == p
    decreases i
  {
    hide Inv, Step, Carries;
    assert i > 0 by { NothingYet(states, node, ops, lists, p); }
    RunFits(states, node, ops, lists, i - 1);
    StepOrigin(states[i - 1], states[i], node, lists[i - 1], ops[i - 1], p);
    if ops[i - 1].PeerProposal? && ops[i - 1].proposal == p {
      j := i - 1;
    } else {
      j := DeliveredBefore(states, node, ops, lists, i - 1, p);
    }
  }

  lemma NothingYet(states: seq<Round>, node: Node, ops: seq<Op>, lists: seq<UnlView>, p: Proposal)
    requires IsRun(states, node, ops, lists)
    ensures !Carries(states[0], p)
  {
    hide Step;
  }

  /** Over every run a peer's position was delivered at some step `j` and became its position at a step
      `k` of the same round, when it was admissible under the list and the clock of that step. */
  lemma {:induction false} PositionComesFrom(states: seq<Round>, node: Node, ops: seq<Op>, lists: seq<UnlView>, i: nat,
                                             n: NodeId) returns (j: nat, k: nat)
    requires IsRun(states, node, ops, lists) && i < |states| && n in states[i].peers
    ensures j <= k < i && ops[j].PeerProposal? && ops[j].proposal == states[i].peers[n]
    ensures if ops[k].PeerProposal? then j == k && Admissible(lists[k], ops[k].proposal, ops[k].now)
            else ops[k].CloseLedger? && Admissible(lists[k], states[i].peers[n], ops[k].closeTime)
    ensures forall x :: k <= x < i ==> !ops[x].StartRound?
    decreases i
  {
    hide Inv, Step, Admissible;
    assert i > 0 by { NobodyAtFirst(states, node, ops, lists, n); }
    RunFits(states, node, ops, lists, i - 1);
    var s, op := states[i - 1], ops[i - 1];
    StepPosition(s, states[i], node, lists[i - 1], op, n);
    if n in s.peers && states[i].peers[n] == s.peers[n] {
      j, k := PositionComesFrom(states, node, ops, lists, i - 1, n);
    } else if op.PeerProposal? {
      j, k := i - 1, i - 1;
    } else {
      k := i - 1;
      j := DeliveredBefore(states, node, ops, lists, i - 1, states[i].peers[n]);
    }
  }

  lemma NobodyAtFirst(states: seq<Round>, node: Node, ops: seq<Op>, lists: seq<UnlView>, n: NodeId)
    requires IsRun(states, node, ops, lists)
    ensures n !in states[0].peers
  {
    hide Step;
  }
}
