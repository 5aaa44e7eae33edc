/** One poll of convergence: align the close time, settle disputes, test agreement, accept. */
module Convergence {
  import opened Primitives
  import opened SortedIds
  import opened Unl
  import opened ProposalTracker
  import opened HoldingPen
  import opened Disputes
  import opened CloseTime
  import opened RoundState
  import opened Quorum

  datatype Params = Params(initialThreshold: nat, thresholdIncrease: nat, maxThreshold: nat, maxRounds: nat)

  function ThresholdForRound(params: Params, round: nat): (t: nat) {
    var raised := params.initialThreshold + round * params.thresholdIncrease;
    if raised < params.maxThreshold then raised else params.maxThreshold
  }

  /** The share asked of a node without a list: it rises by the step each round and stops at the top. */
  lemma ThresholdRises(params: Params, round: nat)
    ensures ThresholdForRound(params, round) <= params.maxThreshold
    ensures ThresholdForRound(params, 0) == params.initialThreshold || params.maxThreshold <= params.initialThreshold
    ensures var t, next := ThresholdForRound(params, round), ThresholdForRound(params, round + 1);
            next == t + params.thresholdIncrease || (next == params.maxThreshold <= t + params.thresholdIncrease)
  {
    assert (round + 1) * params.thresholdIncrease == round * params.thresholdIncrease + params.thresholdIncrease;
  }

  /** With the standard settings: 50, 60, 70, and 80 from then on. */
  lemma StandardThresholds(round: nat)
    ensures ThresholdForRound(Params(50, 10, 80, 25), round) == if round < 3 then 50 + 10 * round else 80
  {
  }

  /** What a poll reads besides the round: whether we count ourselves, and what the clock says. */
  datatype Poll = Poll(selfCounts: bool, minTimeElapsed: bool, refreshDue: bool, advanceDue: bool)

  predicate SomeFlip(disputes: Disputes, threshold: nat) {
    exists tx :: tx in disputes && Flips(disputes[tx], threshold)
  }

  /** Our set and the disputes after settling: untouched without a flip, otherwise rebuilt with each
      disputed transaction in it exactly when its tally clears the threshold. */
  ghost predicate Settled(s: Round, after: Round, root: seq<Hash256> -> Hash256)
    requires s.ourSet.Some? && after.ourSet.Some?
  {
    var ours, next := s.ourSet.value, after.ourSet.value;
    var threshold := AvalancheThreshold(s.round);
    if SomeFlip(s.disputes, threshold) then
      && Settles(ours.txs, next.txs, s.disputes, threshold) && IsSetOf(next, IdsIn(next.txs), root)
      && after.disputes == Refreshed(s.disputes, next.txs)
    else next == ours && after.disputes == s.disputes
  }

  /** The agreement test: a quorum of the list, or without one a share of the positions. */
  predicate Agreement(s: Round, our: Proposal, u: UnlView, params: Params, selfCounts: bool) {
    if u.trusted == {} then SoloAgreement(s.peers, our, ThresholdForRound(params, s.round))
    else QuorumMet(s.peers, u, our, s.resolution, selfCounts)
  }

  /** A round may be closed without agreement once it is out of time, but not without any peer. */
  predicate OutOfTime(s: Round, u: UnlView, params: Params, poll: Poll) {
    poll.advanceDue && s.round + 1 >= params.maxRounds && (s.peers != map[] || u.trusted == {})
  }

  predicate Decides(s: Round, our: Proposal, u: UnlView, params: Params, poll: Poll) {
    if Agreement(s, our, u, params, poll.selfCounts) then poll.minTimeElapsed else OutOfTime(s, u, params, poll)
  }

  function NextRound(s: Round, our: Proposal, u: UnlView, params: Params, poll: Poll): (r: nat) {
    if Agreement(s, our, u, params, poll.selfCounts) || !poll.advanceDue then s.round
    else if s.round + 1 >= params.maxRounds && !OutOfTime(s, u, params, poll) then params.maxRounds
    else s.round + 1
  }

  ghost predicate OnlyConverged(s: Round, after: Round) {
    && after.peers == s.peers && after.tracked == s.tracked && after.prevLedger == s.prevLedger
    && after.prior == s.prior && after.resolution == s.resolution
    && after.pending == s.pending && after.held == s.held && after.wrongVotes == s.wrongVotes
  }

  ghost predicate NewPosition(s: Round, after: Round, u: UnlView, refreshDue: bool)
    requires s.ourPosition.Some? && after.ourPosition.Some? && after.ourSet.Some?
  {
    var was, now := s.ourPosition.value, after.ourPosition.value;
    var shared := SomeFlip(s.disputes, AvalancheThreshold(s.round)) || now.closeTime != was.closeTime || refreshDue;
    && AlignedFor(was.closeTime, s.peers, s.resolution, s.prior, u.trusted != {}, now.closeTime)
    && now == was.(closeTime := now.closeTime, txSetHash := after.ourSet.value.hash,
                   propSeq := was.propSeq + if shared then 1 else 0)
  }

  ghost predicate Verdict(s: Round, after: Round, accepted: bool)
    requires after.ourPosition.Some?
  {
    if accepted then
      && after.phase.Accepted? && after.acceptedTime.Some?
      && OutcomeFor(after.ourPosition.value.closeTime, s.peers, s.resolution, s.prior, after.acceptedTime.value,
          after.previousAgreed)
      && after.acceptedFlags == if after.previousAgreed then s.acceptedFlags else 1
    else
      && after.phase == s.phase && after.acceptedTime == s.acceptedTime
      && after.acceptedFlags == s.acceptedFlags && after.previousAgreed == s.previousAgreed
  }

  /** Everything one poll in the Establish phase does. */
  ghost predicate Converged(s: Round, after: Round, u: UnlView, params: Params, root: seq<Hash256> -> Hash256,
                            poll: Poll, accepted: bool) {
    && s.phase.Establish? && s.ourPosition.Some? && s.ourSet.Some? && after.ourPosition.Some? && after.ourSet.Some?
    && OnlyConverged(s, after) && Settled(s, after, root) && NewPosition(s, after, u, poll.refreshDue)
    && (accepted <==> Decides(s, after.ourPosition.value, u, params, poll))
    && after.round == NextRound(s, after.ourPosition.value, u, params, poll)
    && Verdict(s, after, accepted)
  }

  /** When a poll is accepted: agreement of 80% of the effective list, or without a list of the round's
      share of all positions, closes once the minimum time is over; without it the round must be out
      of time, and a node with a list must have heard from somebody. */
  lemma PollAcceptsIff(s: Round, after: Round, u: UnlView, params: Params, root: seq<Hash256> -> Hash256, poll: Poll,
                       accepted: bool)
    requires Converged(s, after, u, params, root, poll, accepted)
    ensures var our := after.ourPosition.value;
            var agreed :=
              if u.trusted == {} then
                100 * (|SameSet(s.peers, our)| + 1) >= ThresholdForRound(params, s.round) * (|s.peers| + 1)
              else
                100 * (|Agreeing(s.peers, u, our, s.resolution)| + if poll.selfCounts then 1 else 0)
                >= 80 * |u.trusted - u.negative|;
            accepted <==> if agreed then poll.minTimeElapsed
                          else poll.advanceDue && s.round + 1 >= params.maxRounds
                               && (u.trusted != {} ==> s.peers != map[])
  {
    hide Settled, NewPosition, NextRound, Verdict, QuorumThreshold, ThresholdForRound, SameSet, Agreeing;
    if u.trusted == {} {
      hide QuorumMet;
    } else {
      hide SoloAgreement;
      QuorumIsLeast(|Effective(u)|, |Agreeing(s.peers, u, after.ourPosition.value, s.resolution)|
                                    + if poll.selfCounts then 1 else 0);
    }
  }

  /** A node with a list that has heard from nobody closes exactly when it is the only effective member
      itself, or there is none, and otherwise keeps waiting in the same round, or the next, for ever. */
  lemma LonelyNodeWaits(s: Round, after: Round, u: UnlView, params: Params, root: seq<Hash256> -> Hash256, poll: Poll,
                        accepted: bool)
    requires Converged(s, after, u, params, root, poll, accepted) && u.trusted != {} && s.peers == map[]
    ensures accepted <==> poll.minTimeElapsed && |u.trusted - u.negative| <= if poll.selfCounts then 1 else 0
    ensures !accepted ==> after.phase.Establish? && after.round <= if s.round < params.maxRounds then params.maxRounds
                                                                   else s.round
  {
    assert Agreeing(s.peers, u, after.ourPosition.value, s.resolution) == {};
    hide Settled, NewPosition, QuorumThreshold;
    PollAcceptsIff(s, after, u, params, root, poll, accepted);
  }

  /** Whatever a poll changes about our position goes out under the next sequence, so a peer that has
      our last one on file takes the new one. */
  lemma ChangedPositionSupersedes(s: Round, after: Round, u: UnlView, params: Params, root: seq<Hash256> -> Hash256,
                                  poll: Poll, accepted: bool, theirs: Tracked)
    requires Inv(s) && Converged(s, after, u, params, root, poll, accepted)
    ensures var was, now := s.ourPosition.value, after.ourPosition.value;
            && now.nodeId == was.nodeId && now.ledgerSeq == was.ledgerSeq && now.prevLedger == was.prevLedger
            && (now != was ==> now.propSeq == was.propSeq + 1)
            && (poll.refreshDue ==> now != was)
            && (KeyOf(was) in theirs.entries && theirs.entries[KeyOf(was)] == was ==>
                  (now != was <==> Accepts(theirs, now)))
  {
    hide AlignedFor, OutcomeFor, Decides, NextRound, Settles, IsSetOf, SomeFlip, Refreshed, Verdict, PeersTracked,
      BuffersFit, OurVotesMatch;
  }

  lemma RefreshedMatch(disputes: Disputes, ours: seq<Hash256>, next: seq<Hash256>)
    requires OurVotesMatch(disputes, ours)
    ensures OurVotesMatch(Refreshed(disputes, next), next)
  {
  }

  lemma ConvergeKeeps(s: Round, after: Round, u: UnlView, params: Params, root: seq<Hash256> -> Hash256, poll: Poll,
                      accepted: bool)
    requires Inv(s) && Converged(s, after, u, params, root, poll, accepted)
    ensures Inv(after)
  {
    hide Settles, IsSetOf, AlignedFor, OutcomeFor, Decides, NextRound, SomeFlip, Refreshed, OurVotesMatch, TidyHeld;
    SamePeers(s, after);
    RefreshedMatch(s.disputes, s.ourSet.value.txs, after.ourSet.value.txs);
  }

  /** After any poll our set has a disputed transaction exactly when its tally clears the round's
      threshold, and everything undisputed is as before. */
  lemma SettlementFollowsTallies(s: Round, after: Round, u: UnlView, params: Params, root: seq<Hash256> -> Hash256,
                                 poll: Poll, accepted: bool)
    requires Inv(s) && Converged(s, after, u, params, root, poll, accepted)
    ensures Settles(s.ourSet.value.txs, after.ourSet.value.txs, s.disputes, AvalancheThreshold(s.round))
  {
    hide AlignedFor, OutcomeFor, Decides, NextRound, IsSetOf, ShouldInclude, PeersTracked, BuffersFit;
    if !SomeFlip(s.disputes, AvalancheThreshold(s.round)) {
      forall tx | tx in s.disputes ensures ShouldInclude(s.disputes[tx], AvalancheThreshold(s.round))
        <==> tx in s.ourSet.value.txs {
        assert !Flips(s.disputes[tx], AvalancheThreshold(s.round));
      }
    }
  }

  /** Two polls that differ in one vote: where a peer says yes a transaction stays in our set that the
      other poll keeps, and no other transaction is affected. */
  lemma YesKeepsTransaction(s: Round, after: Round, s': Round, after': Round, u: UnlView, params: Params,
                            root: seq<Hash256> -> Hash256, poll: Poll, accepted: bool, accepted': bool,
                            tx: Hash256, n: NodeId)
    requires Inv(s) && Converged(s, after, u, params, root, poll, accepted)
    requires Inv(s') && Converged(s', after', u, params, root, poll, accepted')
    requires tx in s.disputes && s' == s.(disputes := s.disputes[tx := WithVote(s.disputes[tx], n, true)])
    ensures tx in after.ourSet.value.txs ==> tx in after'.ourSet.value.txs
    ensures forall x :: x != tx ==> (x in after.ourSet.value.txs <==> x in after'.ourSet.value.txs)
  {
    hide Inv, Converged, ShouldInclude, WithVote;
    SettlementFollowsTallies(s, after, u, params, root, poll, accepted);
    SettlementFollowsTallies(s', after', u, params, root, poll, accepted');
    VoteMovesItsWay(s.disputes[tx], n, AvalancheThreshold(s.round));
  }

  /** The exact condition for an accepted poll to close at the bucket of our position, whoever the
      peers are: more counted votes in it, ours included, than in all others together. */
  lemma AcceptedAtOurBucketIff(s: Round, after: Round, u: UnlView, params: Params, root: seq<Hash256> -> Hash256,
                               poll: Poll)
    requires Converged(s, after, u, params, root, poll, true)
    requires RoundCloseTime(after.ourPosition.value.closeTime, s.resolution) > s.prior
    ensures var b := RoundCloseTime(after.ourPosition.value.closeTime, s.resolution);
            after.previousAgreed && after.acceptedTime == Some(b)
            <==> |CountedIn(s.peers, b, s.resolution, s.prior)| + 1
                 > |CountedElsewhere(s.peers, b, s.resolution, s.prior)|
  {
    var our := after.ourPosition.value.closeTime;
    hide Settled, NewPosition, Decides, NextRound, Outcome, RoundCloseTime, CountedIn, CountedElsewhere;
    var order :| Enumerates(order, s.peers.Keys)
                 && Outcome(our, TimesIn(order, s.peers), s.resolution, s.prior, after.acceptedTime.value,
                     after.previousAgreed);
    OurBucketDecides(s.peers, our, s.resolution, s.prior, order, after.acceptedTime.value, after.previousAgreed);
  }

  /** A round accepted by quorum over distinct trusted peers closes at the bucket the quorum shares,
      as long as that lies after the parent. */
  lemma QuorumAcceptanceCloses(s: Round, after: Round, u: UnlView, params: Params, root: seq<Hash256> -> Hash256,
                               poll: Poll, self: Option<NodeId>)
    requires Inv(s) && Converged(s, after, u, params, root, poll, true)
    requires u.trusted != {} && Agreement(s, after.ourPosition.value, u, params, poll.selfCounts)
    requires AllTrusted(s, u) && OneNameEach(s.peers.Keys, u, self)
    requires (self.Some? <==> poll.selfCounts) && (self.Some? ==> self.value in Effective(u))
    requires RoundCloseTime(after.ourPosition.value.closeTime, s.resolution) > s.prior
    ensures after.previousAgreed && after.acceptedFlags == s.acceptedFlags
    ensures after.acceptedTime == Some(RoundCloseTime(after.ourPosition.value.closeTime, s.resolution))
  {
    PeerFacts(s);
    var our := after.ourPosition.value;
    hide Settled, NewPosition, Decides, NextRound, Inv, Outcome, RoundCloseTime, QuorumMet, Trusts, Resolve, Effective;
    var order :| Enumerates(order, s.peers.Keys)
                 && Outcome(our.closeTime, TimesIn(order, s.peers), s.resolution, s.prior, after.acceptedTime.value,
                     after.previousAgreed);
    QuorumAgreesOnCloseTime(s.peers, u, our, s.resolution, s.prior, self, order, after.acceptedTime.value,
      after.previousAgreed);
  }

  /** Two nodes whose polls are accepted by quorum of one list close on the same transactions and the same
      bucket, unless at least 60% of the list showed the two of them different positions. */
  lemma AcceptedPollsAgree(s: Round, after: Round, s': Round, after': Round, u: UnlView, params: Params,
                           root: seq<Hash256> -> Hash256, poll: Poll, poll': Poll, self: Option<NodeId>,
                           self': Option<NodeId>, guilty: set<NodeId>)
    requires Inv(s) && Converged(s, after, u, params, root, poll, true)
    requires Inv(s') && Converged(s', after', u, params, root, poll', true)
    requires u.trusted != {} && s.resolution == s'.resolution
    requires Agreement(s, after.ourPosition.value, u, params, poll.selfCounts)
    requires Agreement(s', after'.ourPosition.value, u, params, poll'.selfCounts)
    requires OneNameEach(s.peers.Keys, u, self) && OneNameEach(s'.peers.Keys, u, self')
    requires (self.Some? <==> poll.selfCounts) && (self.Some? ==> self.value in Effective(u))
    requires (self'.Some? <==> poll'.selfCounts) && (self'.Some? ==> self'.value in Effective(u))
    requires forall v :: v in Effective(u) && Equivocates(u, s.peers, after.ourPosition.value, self, s'.peers,
                                                          after'.ourPosition.value, self', s.resolution, v)
                         ==> v in guilty
    ensures 5 * |guilty| < 3 * |Effective(u)| ==>
              && after.ourSet.value.hash == after'.ourSet.value.hash
              && RoundCloseTime(after.ourPosition.value.closeTime, s.resolution)
                 == RoundCloseTime(after'.ourPosition.value.closeTime, s.resolution)
  {
    PeerFacts(s);
    PeerFacts(s');
    var our, our' := after.ourPosition.value, after'.ourPosition.value;
    assert our.txSetHash == after.ourSet.value.hash && our'.txSetHash == after'.ourSet.value.hash;
    assert Agreeing(s.peers, u, our, s.resolution) <= s.peers.Keys;
    assert Agreeing(s'.peers, u, our', s.resolution) <= s'.peers.Keys;
    hide Inv, Converged, QuorumMet, RoundCloseTime, Equivocates, Effective, Agreeing, Resolve;
    if our.txSetHash != our'.txSetHash
       || RoundCloseTime(our.closeTime, s.resolution) != RoundCloseTime(our'.closeTime, s.resolution)
    {
      ForkNeedsEquivocation(u, s.peers, our, self, s'.peers, our', self', s.resolution, guilty);
    }
  }

  /** A poll keeps every vote on record and only brings our own up to date. */
  lemma PollKeepsVotes(s: Round, after: Round, u: UnlView, params: Params, root: seq<Hash256> -> Hash256, poll: Poll,
                       accepted: bool, tx: Hash256)
    requires Inv(s) && Converged(s, after, u, params, root, poll, accepted)
    ensures tx in after.disputes <==> tx in s.disputes
    ensures tx in s.disputes ==>
              after.disputes[tx].votes == s.disputes[tx].votes
              && (after.disputes[tx].ourVote <==> tx in after.ourSet.value.txs)
  {
    hide AlignedFor, OutcomeFor, Decides, NextRound, Settles, IsSetOf, SomeFlip, PeersTracked, BuffersFit, TidyHeld;
  }

  /** In a list of more than twenty-one effective members, or twenty where we do not count, no poll is
      ever accepted by quorum: every acceptance is a round that ran out of time. */
  lemma LargeListsOnlyTimeOut(s: Round, after: Round, u: UnlView, params: Params, root: seq<Hash256> -> Hash256,
                              poll: Poll, accepted: bool)
    requires Inv(s) && Converged(s, after, u, params, root, poll, accepted)
    requires |Effective(u)| > LargestList(poll.selfCounts)
    ensures accepted <==> OutOfTime(s, u, params, poll)
    ensures accepted ==> s.round + 1 >= params.maxRounds
  {
    PeerFacts(s);
    hide Inv, Settled, NewPosition, OnlyConverged, Verdict, SoloAgreement;
    assert u.trusted != {} by {
      assert u.trusted == {} ==> Effective(u) == {};
    }
    LargeListNeverMeets(s.peers, u, after.ourPosition.value, s.resolution, poll.selfCounts);
  }

  lemma LargeListNeverMeets(peers: Positions, u: UnlView, our: Proposal, resolution: u32, selfCounts: bool)
    requires |peers| <= MAX_PROPOSALS_PER_PREV && |Effective(u)| > LargestList(selfCounts)
    ensures !QuorumMet(peers, u, our, resolution, selfCounts)
  {
    if QuorumMet(peers, u, our, resolution, selfCounts) { CapLimitsQuorum(peers, u, our, resolution, selfCounts); }
  }
}
