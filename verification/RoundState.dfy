/** The state of a consensus round, what each step does to it, and what every step keeps. */
module RoundState {
  import opened Primitives
  import opened SortedIds
  import opened Unl
  import opened ProposalTracker
  import opened HoldingPen
  import opened Disputes

  const PROPOSAL_FRESHNESS_SECS: nat := 30
  const PENDING_PROPOSALS_MAX: nat := 1024

  datatype Phase = Open | Establish | Accepted

  datatype Round = Round(
    phase: Phase,
    ourPosition: Option<Proposal>,
    ourSet: Option<TxSet>,
    peers: map<NodeId, Proposal>,
    tracked: Tracked,
    disputes: Disputes,
    round: nat,
    prevLedger: Hash256,
    prior: u32,
    resolution: u32,
    pending: seq<Proposal>,
    held: Held,
    wrongVotes: map<NodeId, Hash256>,
    acceptedTime: Option<u32>,
    acceptedFlags: nat,
    previousAgreed: bool)

  // ---------------------------------------------------------------- the invariant

  /** Peer positions build on our parent ledger and are exactly what the tracker holds. */
  ghost predicate PeersTracked(s: Round) {
    && WellFormed(s.tracked)
    && (forall k :: k in s.tracked.entries ==>
        k.1 == s.prevLedger && k.0 in s.peers && s.peers[k.0] == s.tracked.entries[k])
    && (forall n :: n in s.peers ==> (n, s.prevLedger) in s.tracked.entries)
  }

  /** Our position names our set, and every dispute knows whether our set has its transaction. */
  ghost predicate PositionFits(s: Round) {
    match s.ourSet
    case None => s.ourPosition.None? && s.disputes == map[]
    case Some(ours) =>
      && s.ourPosition.Some? && s.ourPosition.value.txSetHash == ours.hash
      && s.ourPosition.value.prevLedger == s.prevLedger
      && OurVotesMatch(s.disputes, ours.txs)
  }

  ghost predicate PhaseFits(s: Round) {
    && (s.phase.Open? ==> s.ourSet.None? && s.peers == map[])
    && (s.phase.Establish? ==> s.ourSet.Some? && s.pending == [])
    && (s.phase.Accepted? ==> s.ourSet.Some?)
  }

  /** Nothing is held for the ledger we are on, and the two buffers share a bound. */
  ghost predicate BuffersFit(s: Round) {
    TidyHeld(s.held) && s.prevLedger !in s.held && |s.pending| + MAX_PER_KEY * |s.held| <= 2048
  }

  ghost predicate Inv(s: Round) {
    PeersTracked(s) && PositionFits(s) && PhaseFits(s) && BuffersFit(s)
  }

  lemma PeerFacts(s: Round)
    requires PeersTracked(s)
    ensures forall n :: n in s.peers ==> s.peers[n].nodeId == n && s.peers[n].prevLedger == s.prevLedger
    ensures |s.peers| <= MAX_PROPOSALS_PER_PREV
  {
    forall n | n in s.peers ensures s.peers[n].nodeId == n && s.peers[n].prevLedger == s.prevLedger {
      assert KeyOf(s.tracked.entries[(n, s.prevLedger)]) == (n, s.prevLedger);
    }
    var keys := KeysOn(s.tracked.entries, s.prevLedger);
    AsManyKeys(s.peers.Keys, s.prevLedger, keys);
    assert |s.peers| == |s.peers.Keys|;
  }

  lemma {:induction false} AsManyKeys(nodes: set<NodeId>, prev: Hash256, keys: set<Key>)
    requires forall n :: n in nodes ==> (n, prev) in keys
    ensures |nodes| <= |keys|
    decreases |nodes|
  {
    if nodes != {} {
      var n :| n in nodes;
      AsManyKeys(nodes - {n}, prev, keys - {(n, prev)});
    }
  }

  /** Pending and held proposals together never exceed 2048. */
  lemma BuffersBounded(s: Round)
    requires BuffersFit(s)
    ensures |s.pending| + Total(s.held) <= 2048
  {
    TotalBounded(s.held);
  }

  /** Within a round a peer's position is only replaced by one with a higher sequence. */
  ghost predicate Advances(before: map<NodeId, Proposal>, after: map<NodeId, Proposal>) {
    forall n :: n in before ==> n in after && (after[n] == before[n] || before[n].propSeq < after[n].propSeq)
  }

  lemma AdvancesOn(a: map<NodeId, Proposal>, b: map<NodeId, Proposal>, c: map<NodeId, Proposal>)
    requires Advances(a, b) && Advances(b, c)
    ensures Advances(a, c)
  {
  }

  ghost predicate AllTrusted(s: Round, u: UnlView) {
    forall n :: n in s.peers ==> Trusts(u, n)
  }

  // ---------------------------------------------------------------- a new round

  function AfterStart(s: Round, prev: Hash256, ledgerSeq: u32, prior: u32, resolution: u32): (r: Round) {
    Round(Open, None, None, map[], AfterClear(s.tracked, s.prevLedger), map[], 0, prev, prior, resolution,
          s.pending + Group(s.held, prev), WithoutStale(s.held - {prev}, ledgerSeq), map[], None, 0, s.previousAgreed)
  }

  /** Every round starts with an empty tracker, and replays what was buffered before what was held. */
  lemma StartKeeps(s: Round, prev: Hash256, ledgerSeq: u32, prior: u32, resolution: u32)
    requires Inv(s)
    ensures WellFormed(s.tracked)
    ensures Inv(AfterStart(s, prev, ledgerSeq, prior, resolution))
    ensures AfterStart(s, prev, ledgerSeq, prior, resolution).tracked == EMPTY
    ensures s.pending <= AfterStart(s, prev, ledgerSeq, prior, resolution).pending
  {
    var after := AfterStart(s, prev, ledgerSeq, prior, resolution);
    ClearKeeps(s.tracked, s.prevLedger);
    assert after.tracked.entries == map[];
    assert forall h :: KeysOn(after.tracked.entries, h) == {};
    EmptyList(after.tracked.order);
    StartBuffers(s.pending, s.held, prev, ledgerSeq);
  }

  lemma StartBuffers(pending: seq<Proposal>, held: Held, prev: Hash256, ledgerSeq: u32)
    requires TidyHeld(held) && |pending| + MAX_PER_KEY * |held| <= 2048
    ensures TidyHeld(WithoutStale(held - {prev}, ledgerSeq)) && prev !in WithoutStale(held - {prev}, ledgerSeq)
    ensures |pending + Group(held, prev)| + MAX_PER_KEY * |WithoutStale(held - {prev}, ledgerSeq)| <= 2048
  {
    if prev in held {
      SmallerMap(held, prev);
    } else {
      assert held - {prev} == held;
    }
    WithoutStaleTidy(held - {prev}, ledgerSeq);
  }

  // ---------------------------------------------------------------- a peer's proposal

  /** Trusted where there is a list, and within thirty seconds of our clock. */
  predicate PassesGate(u: UnlView, p: Proposal, now: u32) {
    (u.trusted == {} || Trusts(u, p.nodeId)) && AbsDiff(now, p.closeTime) <= PROPOSAL_FRESHNESS_SECS
  }

  predicate FitsSequence(s: Round, p: Proposal) {
    s.ourPosition.Some? && p.ledgerSeq != 0 ==> p.ledgerSeq == s.ourPosition.value.ledgerSeq
  }

  /** What a proposal does: buffered outside Establish, held for another parent, dropped when out of
      sequence or not newer, otherwise the peer's position and its part of the disputes. */
  ghost predicate AfterProposal(s: Round, after: Round, p: Proposal, u: UnlView, now: u32,
                                acquired: map<NodeId, TxSet>) {
    if !PassesGate(u, p, now) then after == s
    else if !s.phase.Establish? then
      after == if |s.pending| >= PENDING_PROPOSALS_MAX then s else s.(pending := s.pending + [p])
    else if p.prevLedger != s.prevLedger then
      && HeldAfter(s.held, p, after.held)
      && after == s.(held := after.held, wrongVotes := s.wrongVotes[p.nodeId := p.prevLedger])
    else if !FitsSequence(s, p) || !Accepts(s.tracked, p) || s.ourSet.None? then after == s
    else
      && RecordedInSomeOrder(s.disputes, after.disputes, s.ourSet.value, s.peers[p.nodeId := p], acquired)
      && after == s.(tracked := AfterTrack(s.tracked, p), peers := s.peers[p.nodeId := p], disputes := after.disputes)
  }

  lemma ProposalTracksPeers(s: Round, p: Proposal)
    requires PeersTracked(s) && p.prevLedger == s.prevLedger && Accepts(s.tracked, p)
    ensures PeersTracked(s.(tracked := AfterTrack(s.tracked, p), peers := s.peers[p.nodeId := p]))
    ensures Advances(s.peers, s.peers[p.nodeId := p])
  {
    TrackKeeps(s.tracked, p);
    OneParent(s);
  }

  /** A tracker that serves one parent ledger never evicts. */
  lemma OneParent(s: Round)
    requires PeersTracked(s)
    ensures forall p :: !Evicts(s.tracked, p)
  {
    var order := s.tracked.order;
    forall h | h in order ensures h == s.prevLedger {
      assert KeysOn(s.tracked.entries, h) != {};
      var k :| k in KeysOn(s.tracked.entries, h);
    }
    AtMostOne(order, s.prevLedger);
  }

  lemma HoldKeeps(s: Round, after: Round, p: Proposal)
    requires Inv(s) && s.phase.Establish? && p.prevLedger != s.prevLedger && HeldAfter(s.held, p, after.held)
    requires after == s.(held := after.held, wrongVotes := s.wrongVotes[p.nodeId := p.prevLedger])
    ensures Inv(after)
  {
    hide HeldAfter, WellFormed, TidyHeld, OurVotesMatch;
    HoldKeepsTidy(s.held, p, after.held);
    HeldSmall(after.held);
  }

  lemma AcceptKeeps(s: Round, after: Round, p: Proposal, acquired: map<NodeId, TxSet>)
    requires Inv(s) && s.phase.Establish? && p.prevLedger == s.prevLedger && Accepts(s.tracked, p)
    requires RecordedInSomeOrder(s.disputes, after.disputes, s.ourSet.value, s.peers[p.nodeId := p], acquired)
    requires after
             == s.(tracked := AfterTrack(s.tracked, p), peers := s.peers[p.nodeId := p], disputes := after.disputes)
    ensures Inv(after) && Advances(s.peers, after.peers)
  {
    ProposalTracksPeers(s, p);
    hide WellFormed, TidyHeld, AllRecorded, OurVotesMatch, AfterTrack, Accepts, PeersTracked, Advances;
    var order :| Enumerates(order, after.peers.Keys)
      && AllRecorded(s.disputes, after.disputes, s.ourSet.value, order, after.peers, acquired);
    RecordingKeepsOurVotes(s.disputes, after.disputes, s.ourSet.value, order, after.peers, acquired);
    SamePeers(s.(tracked := AfterTrack(s.tracked, p), peers := s.peers[p.nodeId := p]), after);
  }

  lemma SamePeers(s: Round, t: Round)
    requires PeersTracked(s) && s.tracked == t.tracked && s.peers == t.peers && s.prevLedger == t.prevLedger
    ensures PeersTracked(t)
  {
  }

  lemma BufferKeeps(s: Round, after: Round, p: Proposal)
    requires Inv(s) && !s.phase.Establish? && |s.pending| < PENDING_PROPOSALS_MAX
             && after == s.(pending := s.pending + [p])
    ensures Inv(after)
  {
    hide WellFormed, TidyHeld, OurVotesMatch;
    HeldSmall(s.held);
  }

  /** One proposal keeps the invariant; positions only move forward, and only trusted peers get one. */
  lemma ProposalKeeps(s: Round, after: Round, p: Proposal, u: UnlView, now: u32, acquired: map<NodeId, TxSet>)
    requires Inv(s) && AfterProposal(s, after, p, u, now, acquired)
    ensures Inv(after) && Advances(s.peers, after.peers)
    ensures after.phase == s.phase && after.prevLedger == s.prevLedger && after.ourPosition == s.ourPosition
            && after.ourSet == s.ourSet
    ensures u.trusted != {} && AllTrusted(s, u) ==> AllTrusted(after, u)
  {
    assert s.phase.Establish? ==> s.ourSet.Some?;
    hide Inv, HeldAfter, Accepts, RecordedInSomeOrder, AfterTrack, FitsSequence, Trusts;
    if PassesGate(u, p, now) {
      if !s.phase.Establish? {
        if |s.pending| < PENDING_PROPOSALS_MAX { BufferKeeps(s, after, p); }
      } else if p.prevLedger != s.prevLedger {
        HoldKeeps(s, after, p);
      } else if FitsSequence(s, p) && Accepts(s.tracked, p) {
        AcceptKeeps(s, after, p, acquired);
      }
    }
  }

  lemma HeldSmall(held: Held)
    requires TidyHeld(held)
    ensures MAX_PER_KEY * |held| <= 1024
  {
  }

  // ---------------------------------------------------------------- replaying the buffer

  /** The proposals of a buffer, one after another. */
  ghost predicate Replayed(s: Round, after: Round, ps: seq<Proposal>, u: UnlView, now: u32,
                           answers: nat -> map<NodeId, TxSet>)
    decreases |ps|
  {
    if ps == [] then after == s
    else
      var rest, p, acquired := ps[..|ps| - 1], ps[|ps| - 1], answers(|ps| - 1);
      exists mid :: Replayed(s, mid, rest, u, now, answers) && AfterProposal(mid, after, p, u, now, acquired)
  }

  /** What of a buffer can reach the tracker. */
  function Eligible(ps: seq<Proposal>, u: UnlView, now: u32, prev: Hash256, ledgerSeq: u32): (r: seq<Proposal>) {
    Retain(ps, (p: Proposal) => PassesGate(u, p, now) && p.prevLedger == prev
      && (p.ledgerSeq == 0 || p.ledgerSeq == ledgerSeq))
  }

  lemma {:induction false} ReplayKeeps(s: Round, after: Round, ps: seq<Proposal>, u: UnlView, now: u32,
                                       answers: nat -> map<NodeId, TxSet>)
    requires Inv(s) && Replayed(s, after, ps, u, now, answers)
    ensures Inv(after) && Advances(s.peers, after.peers)
    ensures after.phase == s.phase && after.prevLedger == s.prevLedger && after.ourPosition == s.ourPosition
            && after.ourSet == s.ourSet
    ensures u.trusted != {} && AllTrusted(s, u) ==> AllTrusted(after, u)
    decreases |ps|
  {
    if ps != [] {
      var mid :| Replayed(s, mid, ps[..|ps| - 1], u, now, answers)
        && AfterProposal(mid, after, ps[|ps| - 1], u, now, answers(|ps| - 1));
      hide Replayed, AfterProposal, Inv, AllTrusted, Advances;
      ReplayKeeps(s, mid, ps[..|ps| - 1], u, now, answers);
      ProposalKeeps(mid, after, ps[|ps| - 1], u, now, answers(|ps| - 1));
      AdvancesOn(s.peers, mid.peers, after.peers);
    }
  }

  /** Replaying a buffer into a new round leaves in the tracker what a run over its eligible
      proposals leaves there, whatever else the buffer contains. */
  lemma {:induction false} ReplayIsRun(s: Round, after: Round, ps: seq<Proposal>, u: UnlView, now: u32,
                                       answers: nat -> map<NodeId, TxSet>)
    requires Inv(s) && Replayed(s, after, ps, u, now, answers) && s.phase.Establish? && s.tracked == EMPTY
    ensures after.tracked == Run(Eligible(ps, u, now, s.prevLedger, s.ourPosition.value.ledgerSeq))
    decreases |ps|
  {
    if ps != [] {
      var rest, p := ps[..|ps| - 1], ps[|ps| - 1];
      var mid :| Replayed(s, mid, rest, u, now, answers) && AfterProposal(mid, after, p, u, now, answers(|ps| - 1));
      ReplayKeeps(s, mid, rest, u, now, answers);
      ReplayIsRun(s, mid, rest, u, now, answers);
      EligibleStep(ps, u, now, s.prevLedger, s.ourPosition.value.ledgerSeq);
      hide Replayed, Eligible, Run, WellFormed, AllRecorded, HeldAfter;
    }
  }

  lemma EligibleStep(ps: seq<Proposal>, u: UnlView, now: u32, prev: Hash256, ledgerSeq: u32)
    requires ps != []
    ensures var rest, p := Eligible(ps[..|ps| - 1], u, now, prev, ledgerSeq), ps[|ps| - 1];
            var whole := Eligible(ps, u, now, prev, ledgerSeq);
            if PassesGate(u, p, now) && p.prevLedger == prev && (p.ledgerSeq == 0 || p.ledgerSeq == ledgerSeq)
            then whole == rest + [p] && Run(whole) == AfterTrack(Run(rest), p) else whole == rest
  {
    var rest, p := Eligible(ps[..|ps| - 1], u, now, prev, ledgerSeq), ps[|ps| - 1];
    assert (rest + [p])[..|rest|] == rest;
  }

  /** So each peer's position is its newest eligible proposal, and every eligible peer has one. */
  lemma ReplayedPositionsAreNewest(s: Round, after: Round, ps: seq<Proposal>, u: UnlView, now: u32,
                                   answers: nat -> map<NodeId, TxSet>, n: NodeId)
    requires Inv(s) && Replayed(s, after, ps, u, now, answers) && s.phase.Establish? && s.tracked == EMPTY
    requires WithinCaps(Eligible(ps, u, now, s.prevLedger, s.ourPosition.value.ledgerSeq))
    ensures var eligible := Eligible(ps, u, now, s.prevLedger, s.ourPosition.value.ledgerSeq);
            && (n in after.peers <==> exists i :: 0 <= i < |eligible| && eligible[i].nodeId == n)
            && (n in after.peers ==> IsNewest(eligible, (n, s.prevLedger), after.peers[n]))
  {
    var eligible := Eligible(ps, u, now, s.prevLedger, s.ourPosition.value.ledgerSeq);
    ReplayKeeps(s, after, ps, u, now, answers);
    ReplayIsRun(s, after, ps, u, now, answers);
    EligibleOnParent(ps, u, now, s.prevLedger, s.ourPosition.value.ledgerSeq);
    assert PeersTracked(after);
    var k := (n, s.prevLedger);
    hide Inv, Replayed, Eligible, Run, WithinCaps, IsNewest, WellFormed, KeysOffered;
    RunIsNewest(eligible);
    OfferedOnParent(eligible, n, s.prevLedger);
  }

  lemma EligibleOnParent(ps: seq<Proposal>, u: UnlView, now: u32, prev: Hash256, ledgerSeq: u32)
    ensures forall i :: 0 <= i < |Eligible(ps, u, now, prev, ledgerSeq)| ==>
            Eligible(ps, u, now, prev, ledgerSeq)[i].prevLedger == prev
  {
    RetainKeeps(ps, (p: Proposal) => PassesGate(u, p, now) && p.prevLedger == prev
      && (p.ledgerSeq == 0 || p.ledgerSeq == ledgerSeq));
    var eligible := Eligible(ps, u, now, prev, ledgerSeq);
    assert forall i :: 0 <= i < |eligible| ==> eligible[i] in eligible;
  }

  lemma OfferedOnParent(ps: seq<Proposal>, n: NodeId, prev: Hash256)
    requires forall i :: 0 <= i < |ps| ==> ps[i].prevLedger == prev
    ensures (n, prev) in KeysOffered(ps, prev) <==> exists i :: 0 <= i < |ps| && ps[i].nodeId == n
  {
  }
}
