/** The consensus engine: rounds are started, closed, fed with proposals and polled until accepted. */
module Engine {
  import opened Primitives
  import opened Unl
  import opened Tracking = ProposalTracker
  import opened HoldingPen
  import opened Disputes
  import opened CloseTime
  import opened RoundState
  import opened Quorum
  import opened Convergence
  import opened EngineRuns

  class ConsensusEngine {
    const node: Node
    /** The id of our signing key, when we have one. */
    const keyId: Option<NodeId>
    const unl: TrustedValidatorList
    const tracker: Tracking.ProposalTracker

    var phase: Phase
    var ourPosition: Option<Proposal>
    var ourSet: Option<TxSet>
    var peers: map<NodeId, Proposal>
    var disputes: Disputes
    var round: nat
    var prevLedger: Hash256
    var prior: u32
    var resolution: u32
    var pending: seq<Proposal>
    var held: Held
    var wrongVotes: map<NodeId, Hash256>
    var acceptedTime: Option<u32>
    var acceptedFlags: nat
    var previousAgreed: bool
    var selfTrusted: bool
    var staleDropped: nat
    var heldTotal: nat

    ghost function View(): (s: Round)
      reads this, tracker
    {
      Round(phase, ourPosition, ourSet, peers, tracker.View(), disputes, round, prevLedger, prior, resolution,
            pending, held, wrongVotes, acceptedTime, acceptedFlags, previousAgreed)
    }

    ghost predicate Valid()
      reads this, tracker
    {
      Inv(View())
    }

    constructor (node: Node, keyId: Option<NodeId>, unl: TrustedValidatorList, resolution: u32)
      ensures Valid() && View() == Initial(resolution)
      ensures this.node == node && this.keyId == keyId && this.unl == unl && fresh(tracker)
      ensures !selfTrusted && staleDropped == 0 && heldTotal == 0
    {
      this.node, this.keyId, this.unl := node, keyId, unl;
      tracker := new Tracking.ProposalTracker();
      phase, ourPosition, ourSet, peers, disputes, round, prevLedger := Open, None, None, map[], map[], 0, ZERO_HASH;
      prior, this.resolution, pending, held, wrongVotes := 0, resolution, [], map[], map[];
      acceptedTime, acceptedFlags, previousAgreed := None, 0, true;
      selfTrusted, staleDropped, heldTotal := false, 0, 0;
      new;
      InitialFits(resolution);
    }

    /** Forget the finished round. */
    method ClearRound()
      modifies this`phase, this`ourPosition, this`ourSet, this`peers, this`disputes, this`round,
               this`acceptedTime, this`acceptedFlags, this`wrongVotes
      ensures phase == Open && ourPosition == None && ourSet == None && peers == map[] && disputes == map[]
              && round == 0
      ensures acceptedTime == None && acceptedFlags == 0 && wrongVotes == map[]
    {
      phase, ourPosition, ourSet, peers, disputes, round := Open, None, None, map[], map[], 0;
      acceptedTime, acceptedFlags, wrongVotes := None, 0, map[];
    }

    /** Held proposals on the new parent go to the buffer; old ones are dropped. */
    method ReleaseHeld(prev: Hash256, ledgerSeq: u32)
      modifies this`pending, this`held
      ensures pending == old(pending) + Group(old(held), prev)
      ensures held == WithoutStale(old(held) - {prev}, ledgerSeq)
    {
      var matching := Group(held, prev);
      held := held - {prev};
      pending := pending + matching;
      held := WithoutStale(held, ledgerSeq);
    }

    /** A new round on a new parent. */
    method Restart(prev: Hash256, ledgerSeq: u32, prior: u32, resolution: u32)
      modifies this`phase, this`ourPosition, this`ourSet, this`peers, this`disputes, this`round,
               this`acceptedTime, this`acceptedFlags, this`wrongVotes, this`pending, this`held,
               this`prevLedger, this`prior, this`resolution
      ensures phase == Open && ourPosition == None && ourSet == None && peers == map[] && disputes == map[]
              && round == 0
      ensures acceptedTime == None && acceptedFlags == 0 && wrongVotes == map[]
      ensures pending == old(pending) + Group(old(held), prev) && held == WithoutStale(old(held) - {prev}, ledgerSeq)
      ensures prevLedger == prev && this.prior == prior && this.resolution == resolution
    {
      ClearRound();
      ReleaseHeld(prev, ledgerSeq);
      prevLedger, this.prior, this.resolution := prev, prior, resolution;
    }

    method StartRound(prev: Hash256, ledgerSeq: u32, prior: u32, resolution: u32)
      requires Valid()
      modifies this, tracker
      ensures Valid() && View() == AfterStart(old(View()), prev, ledgerSeq, prior, resolution)
      ensures selfTrusted == old(selfTrusted) && staleDropped == old(staleDropped) && heldTotal == old(heldTotal)
    {
      hide Inv, WellFormed, AfterStart, AfterClear, WithoutStale, Group;
      ghost var was := View();
      StartKeeps(was, prev, ledgerSeq, prior, resolution);
      tracker.ClearFor(prevLedger);
      Restart(prev, ledgerSeq, prior, resolution);
      StartIs(was, View(), prev, ledgerSeq, prior, resolution);
    }

    /** The two tests every proposal takes first; only a stale one is counted. */
    method Gate(p: Proposal, now: u32) returns (pass: bool)
      modifies this`staleDropped
      ensures pass <==> PassesGate(unl.View(), p, now)
      ensures staleDropped == old(staleDropped)
                              + if !pass && (unl.trusted == {} || Trusts(unl.View(), p.nodeId)) then 1 else 0
    {
      if !unl.IsEmpty() && !unl.IsTrusted(p.nodeId) {
        return false;
      }
      if AbsDiff(now, p.closeTime) > PROPOSAL_FRESHNESS_SECS {
        staleDropped := staleDropped + 1;
        return false;
      }
      return true;
    }

    /** A proposal outside the Establish phase. */
    method Buffer(p: Proposal, now: u32)
      requires !phase.Establish?
      modifies this`pending, this`staleDropped
      ensures AfterProposal(old(View()), View(), p, unl.View(), now, map[])
    {
      var pass := Gate(p, now);
      if pass && |pending| < PENDING_PROPOSALS_MAX {
        pending := pending + [p];
      }
    }

    /** A proposal on our parent ledger, in sequence: the tracker decides. */
    method Admit(p: Proposal, acquired: map<NodeId, TxSet>)
      requires tracker.Valid() && ourSet.Some?
      modifies this`peers, this`disputes, tracker
      ensures tracker.View() == AfterTrack(old(tracker.View()), p)
      ensures !Accepts(old(tracker.View()), p) ==>
              peers == old(peers) && disputes == old(disputes) && tracker.View() == old(tracker.View())
      ensures Accepts(old(tracker.View()), p) ==>
                peers == old(peers)[p.nodeId := p]
                  && RecordedInSomeOrder(old(disputes), disputes, ourSet.value, peers, acquired)
    {
      hide WellFormed, RecordedInSomeOrder;
      var accepted := tracker.Track(p);
      if accepted {
        peers := peers[p.nodeId := p];
        disputes := CreateDisputes(disputes, ourSet.value, peers, acquired);
      }
    }

    /** A proposal on another parent ledger. */
    method Park(p: Proposal)
      modifies this`wrongVotes, this`heldTotal, this`held
      ensures wrongVotes == old(wrongVotes)[p.nodeId := p.prevLedger] && heldTotal == old(heldTotal) + 1
      ensures HeldAfter(old(held), p, held)
    {
      wrongVotes := wrongVotes[p.nodeId := p.prevLedger];
      heldTotal := heldTotal + 1;
      held := Hold(held, p);
    }

    /** A proposal that passed, in the Establish phase. */
    method Place(p: Proposal, now: u32, acquired: map<NodeId, TxSet>)
      requires phase.Establish? && tracker.Valid() && ourSet.Some? && ourPosition.Some?
               && PassesGate(unl.View(), p, now)
      modifies this`peers, this`disputes, this`held, this`wrongVotes, this`heldTotal, tracker
      ensures AfterProposal(old(View()), View(), p, unl.View(), now, acquired)
    {
      hide WellFormed, HeldAfter, RecordedInSomeOrder, AfterTrack, Accepts, PassesGate, AfterProposal;
      ghost var was := View();
      if p.prevLedger != prevLedger {
        Park(p);
        Parked(was, View(), p, unl.View(), now, acquired);
      } else if p.ledgerSeq == 0 || p.ledgerSeq == ourPosition.value.ledgerSeq {
        Admit(p, acquired);
        Admitted(was, View(), p, unl.View(), now, acquired);
      } else {
        OutOfSequence(was, p, unl.View(), now, acquired);
      }
    }

    /** A proposal in the Establish phase. */
    method Consider(p: Proposal, now: u32, acquired: map<NodeId, TxSet>)
      requires phase.Establish? && tracker.Valid() && ourSet.Some? && ourPosition.Some?
      modifies this`peers, this`disputes, this`held, this`wrongVotes, this`heldTotal, this`staleDropped, tracker
      ensures AfterProposal(old(View()), View(), p, unl.View(), now, acquired)
    {
      hide WellFormed, PassesGate, AfterProposal;
      ghost var was := View();
      var pass := Gate(p, now);
      if pass {
        Place(p, now, acquired);
      } else {
        Stopped(was, p, unl.View(), now, acquired);
      }
    }

    method PeerProposal(p: Proposal, now: u32, acquired: map<NodeId, TxSet>)
      requires Valid()
      modifies this, tracker
      ensures Valid() && AfterProposal(old(View()), View(), p, unl.View(), now, acquired)
      ensures selfTrusted == old(selfTrusted)
    {
      hide Inv, AfterProposal, OurVotesMatch, WellFormed;
      ghost var was := View();
      InvFacts(was);
      if phase != Establish {
        Buffer(p, now);
        BufferIgnoresSets(was, View(), p, unl.View(), now, acquired);
      } else {
        Consider(p, now, acquired);
      }
      ProposalKeeps(was, View(), p, unl.View(), now, acquired);
    }

    method Replay(ps: seq<Proposal>, now: u32, answers: nat -> map<NodeId, TxSet>)
      requires Valid()
      modifies this, tracker
      ensures Valid() && Replayed(old(View()), View(), ps, unl.View(), now, answers)
      ensures selfTrusted == old(selfTrusted)
    {
      hide Inv, AfterProposal;
      for i := 0 to |ps|
        invariant Valid() && Replayed(old(View()), View(), ps[..i], unl.View(), now, answers)
        invariant selfTrusted == old(selfTrusted)
      {
        PeerProposal(ps[i], now, answers(i));
        assert ps[..i + 1][..i] == ps[..i];
      }
      assert ps[..|ps|] == ps;
    }

    method CloseLedger(candidate: TxSet, closeTime: u32, ledgerSeq: u32, answers: nat -> map<NodeId, TxSet>)
      returns (ok: bool)
      requires Valid()
      modifies this, tracker
      ensures ok <==> old(phase).Open?
      ensures Valid()
      ensures !ok ==> View() == old(View())
      ensures ok ==> Replayed(Opened(old(View()), node.id, candidate, closeTime, ledgerSeq), View(), old(pending),
              unl.View(), closeTime, answers)
      ensures selfTrusted == old(selfTrusted)
    {
      hide Inv, Replayed, Opened;
      if phase != Open {
        return false;
      }
      ghost var was := View();
      OpenedFits(was, node.id, candidate, closeTime, ledgerSeq);
      ourPosition := Some(Proposal(node.id, candidate.hash, closeTime, 0, ledgerSeq, prevLedger));
      ourSet := Some(candidate);
      phase := Establish;
      var buffered := pending;
      pending := [];
      OpenedIs(was, View(), node.id, candidate, closeTime, ledgerSeq);
      Replay(buffered, closeTime, answers);
      return true;
    }

    // -------------------------------------------------------------- convergence

    /** Whether we are one of the validators ourselves: told so, or under one of our two names. */
    predicate SelfCounts()
      reads this, unl
      ensures SelfCounts() <==>
              selfTrusted || exists n :: (n == node.id || keyId == Some(n))
                                         && Resolve(unl.View(), n) in unl.trusted - unl.negative
    {
      selfTrusted || unl.IsTrusted(node.id) || (keyId.Some? && unl.IsTrusted(keyId.value))
    }

    method AlignWithPeers() returns (changed: bool)
      requires ourPosition.Some?
      modifies this`ourPosition
      ensures ourPosition.Some?
              && ourPosition.value == old(ourPosition.value).(closeTime := ourPosition.value.closeTime)
      ensures AlignedFor(old(ourPosition.value).closeTime, peers, resolution, prior, unl.trusted != {},
              ourPosition.value.closeTime)
      ensures changed <==> ourPosition.value.closeTime != old(ourPosition.value).closeTime
    {
      var t;
      t, changed := AlignCloseTime(ourPosition.value.closeTime, peers, resolution, prior, !unl.IsEmpty());
      if changed {
        ourPosition := Some(ourPosition.value.(closeTime := t));
      }
    }

    method SettleDisputes() returns (changed: bool)
      requires ourPosition.Some? && ourSet.Some? && OurVotesMatch(disputes, ourSet.value.txs)
      modifies this`ourPosition, this`ourSet, this`disputes
      ensures ourPosition.Some? && ourSet.Some?
      ensures changed <==> SomeFlip(old(disputes), AvalancheThreshold(round))
      ensures !changed ==> ourPosition == old(ourPosition) && ourSet == old(ourSet) && disputes == old(disputes)
      ensures changed ==>
                && Settles(old(ourSet).value.txs, ourSet.value.txs, old(disputes), AvalancheThreshold(round))
                && IsSetOf(ourSet.value, IdsIn(ourSet.value.txs), node.root)
                && disputes == Refreshed(old(disputes), ourSet.value.txs)
                && ourPosition.value
                   == old(ourPosition).value.(txSetHash := ourSet.value.hash,
                                              propSeq := old(ourPosition).value.propSeq + 1)
    {
      hide ShouldInclude;
      var txs;
      txs, changed := ResolveDisputes(disputes, ourSet.value.txs, AvalancheThreshold(round));
      if changed {
        ghost var before := ourSet.value.txs;
        var next := NewTxSet(txs, node.root);
        assert IdsIn(next.txs) == IdsIn(txs);
        ResolvedSettles(disputes, before, txs, AvalancheThreshold(round));
        assert Settles(before, next.txs, disputes, AvalancheThreshold(round));
        ourSet := Some(next);
        ourPosition := Some(ourPosition.value.(txSetHash := next.hash, propSeq := ourPosition.value.propSeq + 1));
        disputes := Refreshed(disputes, next.txs);
      }
    }

    /** The peers with our set, counted one by one in any order. */
    method CountSameSet() returns (count: nat)
      requires ourPosition.Some?
      ensures count == |SameSet(peers, ourPosition.value)|
    {
      count := 0;
      var rest := peers.Keys;
      ghost var same := SameSet(peers, ourPosition.value);
      while rest != {}
        invariant rest <= peers.Keys && count == |same - rest|
        decreases rest
      {
        var n :| n in rest;
        CountStep(same, rest, n);
        if peers[n].txSetHash == ourPosition.value.txSetHash {
          count := count + 1;
        }
        rest := rest - {n};
      }
      assert same - rest == same;
    }

    /** The trusted peers with our set and our close-time bucket, likewise. */
    method CountAgreeing() returns (count: nat)
      requires ourPosition.Some?
      ensures count == |Agreeing(peers, unl.View(), ourPosition.value, resolution)|
    {
      hide RoundCloseTime, Trusts;
      count := 0;
      var rest := peers.Keys;
      ghost var agreeing := Agreeing(peers, unl.View(), ourPosition.value, resolution);
      while rest != {}
        invariant rest <= peers.Keys && count == |agreeing - rest|
        decreases rest
      {
        var n :| n in rest;
        CountStep(agreeing, rest, n);
        if unl.IsTrusted(peers[n].nodeId) && Agrees(peers[n], ourPosition.value, resolution) {
          count := count + 1;
        }
        rest := rest - {n};
      }
      assert agreeing - rest == agreeing;
    }

    /** The agreement test, by exact shares: our set's of all positions without a list, the agreeing
        validators' of the effective list with one. */
    method CheckAgreement() returns (agreement: bool)
      requires ourPosition.Some?
      ensures agreement <==>
              if unl.trusted == {} then
                100 * (|SameSet(peers, ourPosition.value)| + 1) >= ThresholdForRound(node.params, round) * (|peers| + 1)
              else
                100 * (|Agreeing(peers, unl.View(), ourPosition.value, resolution)| + if SelfCounts() then 1 else 0)
                >= 80 * |Effective(unl.View())|
    {
      if unl.IsEmpty() {
        var total := |peers| + 1;
        var same := CountSameSet();
        var threshold := ThresholdForRound(node.params, round);
        FloorAtLeast((same + 1) * 100, total, threshold);
        agreement := (same + 1) * 100 / total >= threshold;
      } else {
        var agreeing := CountAgreeing();
        var self := if SelfCounts() then 1 else 0;
        var quorum := unl.Quorum();
        QuorumIsLeast(|Effective(unl.View())|, agreeing + self);
        agreement := agreeing + self >= quorum;
      }
    }

    method Accept()
      requires ourPosition.Some?
      modifies this`phase, this`acceptedTime, this`acceptedFlags, this`previousAgreed
      ensures phase.Accepted? && acceptedTime.Some?
      ensures OutcomeFor(ourPosition.value.closeTime, peers, resolution, prior, acceptedTime.value, previousAgreed)
      ensures acceptedFlags == if previousAgreed then old(acceptedFlags) else 1
    {
      phase := Accepted;
      var t, agreed := EffectiveCloseTime(Some(ourPosition.value.closeTime), peers, resolution, prior);
      acceptedTime := Some(t);
      if !agreed {
        acceptedFlags := 1;
      }
      previousAgreed := agreed;
    }

    /** Accept on agreement, otherwise advance the round and accept when it runs out of time. */
    method Decide(minTimeElapsed: bool, refreshDue: bool, advanceDue: bool) returns (accepted: bool)
      requires ourPosition.Some?
      modifies this`phase, this`round, this`acceptedTime, this`acceptedFlags, this`previousAgreed
      ensures var poll := Poll(SelfCounts(), minTimeElapsed, refreshDue, advanceDue);
              && accepted == Decides(old(View()), ourPosition.value, unl.View(), node.params, poll)
              && round == NextRound(old(View()), ourPosition.value, unl.View(), node.params, poll)
      ensures Verdict(old(View()), View(), accepted)
    {
      hide OutcomeFor, QuorumMet, SoloAgreement, ThresholdForRound;
      var agreement := CheckAgreement();
      SharesAgree(View(), ourPosition.value, unl.View(), node.params, SelfCounts());
      assert agreement == Agreement(View(), ourPosition.value, unl.View(), node.params, SelfCounts());
      if agreement {
        if minTimeElapsed { Accept(); }
        return minTimeElapsed;
      }
      if !advanceDue {
        return false;
      }
      round := round + 1;
      if round >= node.params.maxRounds {
        if peers == map[] && !unl.IsEmpty() {
          round := node.params.maxRounds;
          return false;
        }
        Accept();
        return true;
      }
      return false;
    }

    /** Our position before the decision: aligned, settled, and shared anew if anything is new or due. */
    method Reposition(refreshDue: bool)
      requires ourPosition.Some? && ourSet.Some? && ourPosition.value.txSetHash == ourSet.value.hash
      requires OurVotesMatch(disputes, ourSet.value.txs)
      modifies this`ourPosition, this`ourSet, this`disputes
      ensures ourPosition.Some? && ourSet.Some?
      ensures Settled(old(View()), View(), node.root)
      ensures NewPosition(old(View()), View(), unl.View(), refreshDue)
    {
      ghost var s := View();
      hide AlignedFor, OurVotesMatch, Settles, IsSetOf, SomeFlip, Refreshed;
      var realigned := AlignWithPeers();
      var changed := SettleDisputes();
      if (realigned || refreshDue) && !changed {
        ourPosition := Some(ourPosition.value.(propSeq := ourPosition.value.propSeq + 1));
      }
      assert Settled(s, View(), node.root);
    }

    method PollRound(minTimeElapsed: bool, refreshDue: bool, advanceDue: bool) returns (accepted: bool)
      requires phase.Establish? && ourPosition.Some? && ourSet.Some? && ourPosition.value.txSetHash == ourSet.value.hash
      requires OurVotesMatch(disputes, ourSet.value.txs)
      modifies this`ourPosition, this`ourSet, this`disputes,
               this`phase, this`round, this`acceptedTime, this`acceptedFlags, this`previousAgreed
      ensures Converged(old(View()), View(), unl.View(), node.params, node.root,
                        Poll(old(SelfCounts()), minTimeElapsed, refreshDue, advanceDue), accepted)
    {
      hide OurVotesMatch, Settled, NewPosition, Decides, NextRound, Verdict, Converged;
      ghost var s, poll := View(), Poll(SelfCounts(), minTimeElapsed, refreshDue, advanceDue);
      Reposition(refreshDue);
      ghost var ready := View();
      accepted := Decide(minTimeElapsed, refreshDue, advanceDue);
      ComposeConverged(s, ready, View(), unl.View(), node.params, node.root, poll, accepted);
    }

    method Converge(minTimeElapsed: bool, refreshDue: bool, advanceDue: bool) returns (accepted: bool)
      requires Valid()
      modifies this
      ensures Valid()
      ensures !old(phase).Establish? ==> !accepted && View() == old(View())
      ensures old(phase).Establish? ==>
                Converged(old(View()), View(), unl.View(), node.params, node.root,
                          Poll(old(SelfCounts()), minTimeElapsed, refreshDue, advanceDue), accepted)
      ensures accepted && unl.trusted != {} && !(advanceDue && old(round) + 1 >= node.params.maxRounds) ==>
                var listed := selfTrusted || exists n :: (n == node.id || keyId == Some(n))
                                                         && Resolve(unl.View(), n) in unl.trusted - unl.negative;
                100 * (|Agreeing(peers, unl.View(), ourPosition.value, resolution)| + if listed then 1 else 0)
                >= 80 * |unl.trusted - unl.negative|
      ensures selfTrusted == old(selfTrusted) && staleDropped == old(staleDropped) && heldTotal == old(heldTotal)
    {
      hide Inv, OurVotesMatch, Converged;
      if phase != Establish {
        return false;
      }
      ghost var s, poll := View(), Poll(SelfCounts(), minTimeElapsed, refreshDue, advanceDue);
      InvFacts(s);
      accepted := PollRound(minTimeElapsed, refreshDue, advanceDue);
      ConvergeKeeps(s, View(), unl.View(), node.params, node.root, poll, accepted);
      QuorumShare(s, View(), unl.View(), node.params, node.root, poll, accepted);
    }
  }

  /** A poll accepted in time under a list is accepted by at least 80% of the effective list. */
  lemma QuorumShare(s: Round, after: Round, u: UnlView, params: Params, root: seq<Hash256> -> Hash256, poll: Poll,
                    accepted: bool)
    requires Converged(s, after, u, params, root, poll, accepted)
    ensures after.ourPosition.Some? && after.peers == s.peers && after.resolution == s.resolution
    ensures accepted && u.trusted != {} && !(poll.advanceDue && s.round + 1 >= params.maxRounds) ==>
              100 * (|Agreeing(s.peers, u, after.ourPosition.value, s.resolution)| + if poll.selfCounts then 1 else 0)
              >= 80 * |Effective(u)|
  {
    hide Settled, NewPosition, NextRound, Verdict, QuorumThreshold;
    QuorumIsLeast(|Effective(u)|, |Agreeing(s.peers, u, after.ourPosition.value, s.resolution)|
                                  + if poll.selfCounts then 1 else 0);
  }

  lemma ComposeConverged(s: Round, ready: Round, after: Round, u: UnlView, params: Params,
                         root: seq<Hash256> -> Hash256, poll: Poll, accepted: bool)
    requires s.phase.Establish? && s.ourPosition.Some? && s.ourSet.Some? && ready.ourPosition.Some?
             && ready.ourSet.Some?
    requires ready == s.(ourPosition := ready.ourPosition, ourSet := ready.ourSet, disputes := ready.disputes)
    requires Settled(s, ready, root) && NewPosition(s, ready, u, poll.refreshDue)
    requires after == ready.(phase := after.phase, round := after.round, acceptedTime := after.acceptedTime,
                             acceptedFlags := after.acceptedFlags, previousAgreed := after.previousAgreed)
    requires accepted == Decides(ready, ready.ourPosition.value, u, params, poll)
    requires after.round == NextRound(ready, ready.ourPosition.value, u, params, poll)
    requires Verdict(ready, after, accepted)
    ensures Converged(s, after, u, params, root, poll, accepted)
  {
    hide AlignedFor, Settles, IsSetOf, SomeFlip, Refreshed, OutcomeFor, Decides, NextRound;
    SameDecision(s, ready, ready.ourPosition.value, u, params, poll);
  }

  /** The agreement test of a round is the one by shares. */
  lemma SharesAgree(s: Round, our: Proposal, u: UnlView, params: Params, selfCounts: bool)
    ensures Agreement(s, our, u, params, selfCounts) <==>
            if u.trusted == {} then
              100 * (|SameSet(s.peers, our)| + 1) >= ThresholdForRound(params, s.round) * (|s.peers| + 1)
            else
              100 * (|Agreeing(s.peers, u, our, s.resolution)| + if selfCounts then 1 else 0) >= 80 * |Effective(u)|
  {
    hide Agreeing, SameSet, ThresholdForRound;
    QuorumIsLeast(|Effective(u)|, |Agreeing(s.peers, u, our, s.resolution)| + if selfCounts then 1 else 0);
  }

  lemma InvFacts(s: Round)
    requires Inv(s)
    ensures WellFormed(s.tracked)
    ensures s.phase.Establish? ==>
              && s.ourSet.Some? && s.ourPosition.Some? && s.ourPosition.value.txSetHash == s.ourSet.value.hash
              && OurVotesMatch(s.disputes, s.ourSet.value.txs)
  {
  }

  lemma StartIs(s: Round, after: Round, prev: Hash256, ledgerSeq: u32, prior: u32, resolution: u32)
    requires after.phase == Open && after.ourPosition == None && after.ourSet == None && after.peers == map[]
             && after.disputes == map[]
    requires after.round == 0 && after.acceptedTime == None && after.acceptedFlags == 0 && after.wrongVotes == map[]
    requires after.tracked == AfterClear(s.tracked, s.prevLedger)
    requires after.prevLedger == prev && after.prior == prior && after.resolution == resolution
             && after.previousAgreed == s.previousAgreed
    requires after.pending == s.pending + Group(s.held, prev) && after.held == WithoutStale(s.held - {prev}, ledgerSeq)
    ensures after == AfterStart(s, prev, ledgerSeq, prior, resolution)
  {
  }

  lemma Stopped(s: Round, p: Proposal, u: UnlView, now: u32, acquired: map<NodeId, TxSet>)
    requires !PassesGate(u, p, now)
    ensures AfterProposal(s, s, p, u, now, acquired)
  {
  }

  lemma OutOfSequence(s: Round, p: Proposal, u: UnlView, now: u32, acquired: map<NodeId, TxSet>)
    requires s.phase.Establish? && p.prevLedger == s.prevLedger && s.ourPosition.Some? && PassesGate(u, p, now)
    requires p.ledgerSeq != 0 && p.ledgerSeq != s.ourPosition.value.ledgerSeq
    ensures AfterProposal(s, s, p, u, now, acquired)
  {
  }

  lemma Parked(s: Round, after: Round, p: Proposal, u: UnlView, now: u32, acquired: map<NodeId, TxSet>)
    requires s.phase.Establish? && p.prevLedger != s.prevLedger && PassesGate(u, p, now)
             && HeldAfter(s.held, p, after.held)
    requires after == s.(held := after.held, wrongVotes := s.wrongVotes[p.nodeId := p.prevLedger])
    ensures AfterProposal(s, after, p, u, now, acquired)
  {
  }

  lemma Admitted(s: Round, after: Round, p: Proposal, u: UnlView, now: u32, acquired: map<NodeId, TxSet>)
    requires s.phase.Establish? && p.prevLedger == s.prevLedger && s.ourPosition.Some? && s.ourSet.Some?
             && PassesGate(u, p, now)
    requires p.ledgerSeq == 0 || p.ledgerSeq == s.ourPosition.value.ledgerSeq
    requires !Accepts(s.tracked, p) ==> after == s
    requires Accepts(s.tracked, p) ==>
               && after == s.(tracked := AfterTrack(s.tracked, p), peers := s.peers[p.nodeId := p],
                   disputes := after.disputes)
               && RecordedInSomeOrder(s.disputes, after.disputes, s.ourSet.value, after.peers, acquired)
    ensures AfterProposal(s, after, p, u, now, acquired)
  {
    hide RecordedInSomeOrder, AfterTrack, Accepts;
  }

  lemma OpenedIs(s: Round, base: Round, id: NodeId, candidate: TxSet, closeTime: u32, ledgerSeq: u32)
    requires base
             == s.(phase := Establish,
             ourPosition := Some(Proposal(id, candidate.hash, closeTime, 0, ledgerSeq, s.prevLedger)),
                        ourSet := Some(candidate), pending := [])
    ensures base == Opened(s, id, candidate, closeTime, ledgerSeq)
  {
  }

  /** Outside Establish no transaction set is asked for. */
  lemma BufferIgnoresSets(s: Round, after: Round, p: Proposal, u: UnlView, now: u32, acquired: map<NodeId, TxSet>)
    ensures !s.phase.Establish? && AfterProposal(s, after, p, u, now, map[]) ==>
            AfterProposal(s, after, p, u, now, acquired)
  {
  }

  lemma ResolvedSettles(disputes: Disputes, ours: seq<Hash256>, txs: seq<Hash256>, threshold: nat)
    requires OurVotesMatch(disputes, ours)
    requires forall tx :: tx in txs <==>
               if tx in disputes && Flips(disputes[tx], threshold) then ShouldInclude(disputes[tx], threshold)
               else tx in ours
    ensures Settles(ours, txs, disputes, threshold)
  {
    hide ShouldInclude;
  }

  /** The decision does not look at what alignment and settlement changed, except our position. */
  lemma SameDecision(s: Round, t: Round, our: Proposal, u: UnlView, params: Params, poll: Poll)
    requires s.peers == t.peers && s.round == t.round && s.resolution == t.resolution
    ensures Decides(s, our, u, params, poll) == Decides(t, our, u, params, poll)
    ensures NextRound(s, our, u, params, poll) == NextRound(t, our, u, params, poll)
  {
  }
}
