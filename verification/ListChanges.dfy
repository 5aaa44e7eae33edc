/** Polls whose close time is not the quorum's: without a list, and after the list has shrunk. */
module ListChanges {
  import opened Primitives
  import opened SortedIds
  import opened Unl
  import opened Tracking = ProposalTracker
  import opened Disputes
  import opened CloseTime
  import opened RoundState
  import opened Quorum
  import opened Convergence
  import opened EngineRuns
  import opened Origins
  import opened Engine

  // ---------------------------------------------------------------- two nodes without a list

  lemma OnlyOrder(order: seq<NodeId>, n: NodeId)
    requires Enumerates(order, {n})
    ensures order == [n]
  {
    EnumerationSize(order, {n});
    assert order[0] in order;
  }

  lemma NothingToAlign(t: u32)
    ensures !AlignsTo(100, [200], 10, 50, false, t)
  {
    SplitVotes();
    hide Buckets;
  }

  lemma SplitVotes()
    ensures Buckets([100] + [200], 10, 50) == multiset{100, 200}
  {
    FirstVote(100, [200], 10, 50);
    BucketsOne(200, 10, 50);
    assert RoundCloseTime(100, 10) == 100 && RoundCloseTime(200, 10) == 200;
  }

  /** Without a list, a peer with our set and another bucket: nobody moves, the share of positions
      agrees, and the ledger closes at zero with the no-consensus flag. */
  lemma SplitVotePollClosesAtZero(s: Round, after: Round, u: UnlView, params: Params, root: seq<Hash256> -> Hash256,
                                  poll: Poll, accepted: bool, p: Proposal)
    requires Converged(s, after, u, params, root, poll, accepted) && u.trusted == {}
    requires s.peers == map[2 := p] && p.closeTime == 200 && s.ourPosition.value.closeTime == 100
    requires s.resolution == 10 && s.prior == 50
    ensures after.ourPosition.value.closeTime == 100
    ensures accepted ==> after.acceptedTime == Some(0) && !after.previousAgreed && after.acceptedFlags == 1
    ensures p.txSetHash == after.ourPosition.value.txSetHash && params.maxThreshold <= 100 && poll.minTimeElapsed
            ==> accepted
  {
    hide Settled, NextRound, Outcome, AlignsTo;
    assert s.peers.Keys == {2};
    var order :| Enumerates(order, s.peers.Keys) && AlignedIn(order, 100, s.peers, 10, 50, false,
        after.ourPosition.value.closeTime);
    OnlyOrder(order, 2);
    assert TimesIn([2], s.peers) == [200];
    forall t ensures !AlignsTo(100, [200], 10, 50, false, t) { NothingToAlign(t); }
    if accepted {
      var other :| Enumerates(other, s.peers.Keys) && Outcome(100, TimesIn(other, s.peers), 10, 50,
          after.acceptedTime.value, after.previousAgreed);
      OnlyOrder(other, 2);
      SplitVoteClosesAtZero(after.acceptedTime.value, after.previousAgreed);
    }
    if p.txSetHash == after.ourPosition.value.txSetHash {
      assert SameSet(s.peers, after.ourPosition.value) == {2};
    }
  }

  // ---------------------------------------------------------------- positions of validators that left

  /** Three positions: two in a later bucket than ours, and one that no longer counts. */
  predicate Departed(peers: Positions) {
    && peers.Keys == {2, 3, 4}
    && peers[2].closeTime == 1020 && peers[3].closeTime == 1020 && peers[4].closeTime == 1000
  }

  lemma DepartedRounded()
    ensures RoundCloseTime(1000, 10) == 1000 && RoundCloseTime(1010, 10) == 1010 && RoundCloseTime(1020, 10) == 1020
  {
  }

  lemma DepartedCounted(peers: Positions)
    requires Departed(peers)
    ensures CountedIn(peers, 1020, 10, 1000) == {2, 3} && CountedElsewhere(peers, 1020, 10, 1000) == {}
    ensures Vote(1010, 10, 1000) == multiset{1010}
  {
    DepartedRounded();
    hide RoundCloseTime;
  }

  lemma DepartedVotes(peers: Positions, order: seq<NodeId>)
    requires Departed(peers) && Enumerates(order, peers.Keys)
    ensures var votes := Buckets([1010] + TimesIn(order, peers), 10, 1000);
            |order| == 3 && |votes| == 3 && votes[1020] == 2
  {
    hide Buckets, RoundCloseTime, CountedIn, CountedElsewhere, Vote;
    DepartedCounted(peers);
    EnumerationSize(order, peers.Keys);
    FirstVote(1010, TimesIn(order, peers), 10, 1000);
    BucketVotes(order, peers, 1020, 10, 1000);
    assert {2, 3} * Listed(order) == {2, 3} && {} * Listed(order) == {};
  }

  /** Two of four voters are no majority, so our time stays. */
  lemma DepartedDoNotMoveUs(peers: Positions, order: seq<NodeId>, listed: bool, t: u32)
    requires Departed(peers) && Enumerates(order, peers.Keys)
    ensures !AlignsTo(1010, TimesIn(order, peers), 10, 1000, listed, t)
  {
    DepartedVotes(peers, order);
    hide Buckets;
    if t != 1020 { TwoBuckets(Buckets([1010] + TimesIn(order, peers), 10, 1000), 1020, t); }
  }

  /** Two of the three votes that count are a majority, so the round closes at their bucket. */
  lemma DepartedDecide(peers: Positions, order: seq<NodeId>, t: u32, agreed: bool)
    requires Departed(peers) && Enumerates(order, peers.Keys)
    requires Outcome(1010, TimesIn(order, peers), 10, 1000, t, agreed)
    ensures agreed && t == 1020
  {
    DepartedVotes(peers, order);
    hide Buckets;
    if t != 1020 { TwoBuckets(Buckets([1010] + TimesIn(order, peers), 10, 1000), 1020, t); }
  }

  /** Positions of validators that left the list keep their close-time votes: the poll leaves our time
      where it is, passes the quorum test of the list that is left, and closes elsewhere. */
  lemma DepartedPeersDecide(s: Round, after: Round, u: UnlView, params: Params, root: seq<Hash256> -> Hash256,
                            poll: Poll, accepted: bool)
    requires Converged(s, after, u, params, root, poll, accepted)
    requires Departed(s.peers) && s.ourPosition.value.closeTime == 1010 && s.resolution == 10 && s.prior == 1000
    requires Effective(u) == {1} && poll.selfCounts && poll.minTimeElapsed
    ensures after.ourPosition.value.closeTime == 1010 == RoundCloseTime(1010, 10)
    ensures QuorumMet(s.peers, u, after.ourPosition.value, s.resolution, poll.selfCounts)
    ensures accepted && after.previousAgreed && after.acceptedTime == Some(1020)
  {
    hide Settled, NextRound, Outcome, AlignsTo, Departed;
    var listed := u.trusted != {};
    var order :| Enumerates(order, s.peers.Keys) && AlignedIn(order, 1010, s.peers, 10, 1000, listed,
        after.ourPosition.value.closeTime);
    forall t ensures !AlignsTo(1010, TimesIn(order, s.peers), 10, 1000, listed, t) {
      DepartedDoNotMoveUs(s.peers, order, listed, t);
    }
    assert accepted;
    var other :| Enumerates(other, s.peers.Keys) && Outcome(1010, TimesIn(other, s.peers), 10, 1000,
        after.acceptedTime.value, after.previousAgreed);
    DepartedDecide(s.peers, other, after.acceptedTime.value, after.previousAgreed);
  }

  // ---------------------------------------------------------------- a run that gets there

  function Position(peer: NodeId, t: u32): (p: Proposal) {
    Proposal(peer, 7, t, 0, 10, 9)
  }

  /** An established round with our time at 1010, over a parent that closed at 1000. */
  ghost predicate Underway(s: Round) {
    && s.phase.Establish? && s.prevLedger == 9 && s.prior == 1000 && s.resolution == 10
    && s.ourPosition.Some? && s.ourPosition.value.closeTime == 1010 && s.ourPosition.value.ledgerSeq == 10
  }

  lemma ProposalJoins(s: Round, after: Round, u: UnlView, peer: NodeId, t: u32)
    requires Inv(s) && Underway(s) && AfterProposal(s, after, Position(peer, t), u, 1010, map[])
    requires Trusts(u, peer) && peer !in s.peers && |s.peers| < MAX_PROPOSALS_PER_PREV && 1000 <= t <= 1020
    ensures Underway(after) && after.peers == s.peers[peer := Position(peer, t)]
  {
    hide RecordedInSomeOrder, Accepts, AfterTrack, WellFormed, OurVotesMatch, BuffersFit, Trusts;
    AcceptsIff(s, Position(peer, t));
  }

  method Join(engine: ConsensusEngine, peer: NodeId, t: u32)
    requires engine.Valid() && Underway(engine.View()) && engine.unl.IsTrusted(peer)
    requires peer !in engine.peers && |engine.peers| < MAX_PROPOSALS_PER_PREV && 1000 <= t <= 1020
    modifies engine, engine.tracker
    ensures engine.Valid() && Underway(engine.View()) && engine.peers == old(engine.peers)[peer := Position(peer, t)]
  {
    hide Inv, AfterProposal;
    ghost var s := engine.View();
    engine.PeerProposal(Position(peer, t), 1010, map[]);
    ProposalJoins(s, engine.View(), engine.unl.View(), peer, t);
  }

  method Establish(node: Node, unl: TrustedValidatorList) returns (engine: ConsensusEngine)
    ensures fresh(engine) && fresh(engine.tracker) && engine.Valid() && Underway(engine.View())
    ensures engine.node == node && engine.unl == unl && engine.peers == map[]
  {
    hide Inv;
    engine := new ConsensusEngine(node, None, unl, 30);
    engine.StartRound(9, 10, 1000, 10);
    assert engine.pending == [];
    var ok := engine.CloseLedger(TxSet(7, []), 1010, 10, (i: nat) => map[]);
  }

  method JoinAll(engine: ConsensusEngine)
    requires engine.Valid() && Underway(engine.View()) && engine.peers == map[]
    requires engine.unl.trusted == {1, 2, 3, 4} && engine.unl.negative == {} && engine.unl.ephemeralToMaster == map[]
    modifies engine, engine.tracker
    ensures engine.Valid() && Underway(engine.View()) && Departed(engine.peers)
  {
    hide Inv, Underway;
    Join(engine, 2, 1020);
    Join(engine, 3, 1020);
    Join(engine, 4, 1000);
  }

  method PollShrunkList(engine: ConsensusEngine) returns (accepted: bool)
    requires engine.Valid() && Underway(engine.View()) && Departed(engine.peers) && engine.node.id == 1
    requires engine.unl.trusted == {1} && engine.unl.negative == {} && engine.unl.ephemeralToMaster == map[]
    modifies engine
    ensures engine.Valid() && accepted && engine.ourPosition.Some? && engine.acceptedTime == Some(1020)
    ensures engine.previousAgreed
    ensures engine.ourPosition.value.closeTime == 1010 == RoundCloseTime(1010, engine.resolution)
    ensures QuorumMet(engine.peers, engine.unl.View(), engine.ourPosition.value, engine.resolution, true)
  {
    hide Inv, Departed, QuorumMet, RoundCloseTime, Settled, NewPosition, Decides, NextRound, OutcomeFor;
    ghost var s := engine.View();
    assert engine.SelfCounts();
    accepted := engine.Converge(true, false, false);
    DepartedPeersDecide(s, engine.View(), engine.unl.View(), engine.node.params, engine.node.root,
      Poll(true, true, false, false), accepted);
  }

  /** A run of the engine: three validators propose, their keys are revoked, and the next poll is
      accepted by a quorum of one, at the bucket of the three and not at ours. */
  method RevokedValidatorsDecide(node: Node) returns (engine: ConsensusEngine, accepted: bool)
    requires node.id == 1
    ensures engine.Valid() && accepted && engine.ourPosition.Some? && engine.acceptedTime == Some(1020)
    ensures engine.previousAgreed
    ensures engine.ourPosition.value.closeTime == 1010 == RoundCloseTime(1010, engine.resolution)
    ensures QuorumMet(engine.peers, engine.unl.View(), engine.ourPosition.value, engine.resolution, true)
  {
    hide Inv, Departed, QuorumMet, RoundCloseTime, Underway;
    var unl := new TrustedValidatorList({1, 2, 3, 4});
    engine := Establish(node, unl);
    JoinAll(engine);
    unl.RevokeMaster(2);
    unl.RevokeMaster(3);
    unl.RevokeMaster(4);
    accepted := PollShrunkList(engine);
  }
}
