/** The agreement tests of a round, and what passing them implies for close times and other nodes. */
module Quorum {
  import opened Primitives
  import opened SortedIds
  import opened Unl
  import opened ProposalTracker
  import opened CloseTime

  type Positions = map<NodeId, Proposal>

  /** Same transactions, same close-time bucket. */
  predicate Agrees(p: Proposal, our: Proposal, resolution: u32) {
    p.txSetHash == our.txSetHash && RoundCloseTime(p.closeTime, resolution) == RoundCloseTime(our.closeTime, resolution)
  }

  /** The trusted peers that agree with us. */
  function Agreeing(peers: Positions, u: UnlView, our: Proposal, resolution: u32): (s: set<NodeId>) {
    set n | n in peers && Trusts(u, peers[n].nodeId) && Agrees(peers[n], our, resolution)
  }

  predicate QuorumMet(peers: Positions, u: UnlView, our: Proposal, resolution: u32, selfCounts: bool) {
    |Agreeing(peers, u, our, resolution)| + (if selfCounts then 1 else 0) >= QuorumThreshold(|Effective(u)|)
  }

  /** The peers that propose our set. */
  function SameSet(peers: Positions, our: Proposal): (s: set<NodeId>) {
    set n | n in peers && peers[n].txSetHash == our.txSetHash
  }

  /** Without a validator list: the share of positions with our set, ourselves included. */
  predicate SoloAgreement(peers: Positions, our: Proposal, threshold: nat) {
    100 * (|SameSet(peers, our)| + 1) >= threshold * (|peers| + 1)
  }

  /** Every position stands under its own name. */
  predicate Named(peers: Positions) {
    forall n :: n in peers ==> peers[n].nodeId == n
  }

  /** No two of these names belong to one validator, and our own master is another one. */
  predicate OneNameEach(names: set<NodeId>, u: UnlView, self: Option<NodeId>) {
    && (forall m, n :: m in names && n in names && m != n ==> Resolve(u, m) != Resolve(u, n))
    && (self.Some? ==> forall n :: n in names ==> Resolve(u, n) != self.value)
  }

  function Masters(names: set<NodeId>, u: UnlView, self: Option<NodeId>): (s: set<NodeId>) {
    (set n | n in names :: Resolve(u, n)) + if self.Some? then {self.value} else {}
  }

  lemma {:induction false} MastersSize(names: set<NodeId>, u: UnlView, self: Option<NodeId>)
    requires OneNameEach(names, u, self)
    ensures |Masters(names, u, self)| == |names| + if self.Some? then 1 else 0
    decreases |names|
  {
    if names == {} {
      assert Masters(names, u, self) == if self.Some? then {self.value} else {};
    } else {
      var n :| n in names;
      MastersWithout(names, u, self, n);
      hide Masters, Resolve;
      MastersSize(names - {n}, u, self);
    }
  }

  lemma MastersWithout(names: set<NodeId>, u: UnlView, self: Option<NodeId>, n: NodeId)
    requires n in names && OneNameEach(names, u, self)
    ensures Masters(names, u, self) == Masters(names - {n}, u, self) + {Resolve(u, n)}
    ensures Resolve(u, n) !in Masters(names - {n}, u, self)
  {
    hide Resolve;
    var all, rest := Masters(names, u, self), Masters(names - {n}, u, self);
    forall m | m in all ensures m in rest + {Resolve(u, n)} {
      if self != Some(m) {
        var x :| x in names && Resolve(u, x) == m;
        assert x != n ==> x in names - {n};
      }
    }
    assert rest + {Resolve(u, n)} <= all;
  }

  lemma {:induction false} MastersAtMost(names: set<NodeId>, u: UnlView, self: Option<NodeId>)
    ensures |Masters(names, u, self)| <= |names| + if self.Some? then 1 else 0
    decreases |names|
  {
    if names == {} {
      assert Masters(names, u, self) == if self.Some? then {self.value} else {};
    } else {
      var n :| n in names;
      MastersAtMost(names - {n}, u, self);
      assert Masters(names, u, self) <= Masters(names - {n}, u, self) + {Resolve(u, n)};
      SubsetSize(Masters(names, u, self), Masters(names - {n}, u, self) + {Resolve(u, n)});
    }
  }

  /** What the quorum test counts is the number of validators exactly when no two names belong to one. */
  lemma CountIsValidatorsIff(names: set<NodeId>, u: UnlView, self: Option<NodeId>)
    ensures |Masters(names, u, self)| == |names| + (if self.Some? then 1 else 0) <==> OneNameEach(names, u, self)
  {
    if OneNameEach(names, u, self) {
      MastersSize(names, u, self);
    } else if m, n :| m in names && n in names && m != n && Resolve(u, m) == Resolve(u, n) {
      MastersAtMost(names - {m}, u, self);
      assert Masters(names, u, self) == Masters(names - {m}, u, self) by { SameMaster(names, u, self, m, n); }
    } else {
      var n :| n in names && Resolve(u, n) == self.value;
      MastersAtMost(names, u, None);
      assert Masters(names, u, self) == Masters(names, u, None);
    }
  }

  lemma SameMaster(names: set<NodeId>, u: UnlView, self: Option<NodeId>, m: NodeId, n: NodeId)
    requires m in names && n in names && m != n && Resolve(u, m) == Resolve(u, n)
    ensures Masters(names, u, self) == Masters(names - {m}, u, self)
  {
    hide Resolve;
    forall x | x in names ensures Resolve(u, x) in Masters(names - {m}, u, self) {
      var y := if x == m then n else x;
      assert y in names - {m} && Resolve(u, y) == Resolve(u, x);
    }
  }

  // ---------------------------------------------------------------- quorum implies a close time

  /** The peers whose vote counts for a bucket, and those whose vote counts for another. */
  function CountedIn(peers: Positions, b: u32, resolution: u32, prior: u32): (s: set<NodeId>) {
    set n | n in peers && Counts(peers[n].closeTime, resolution, prior)
      && RoundCloseTime(peers[n].closeTime, resolution) == b
  }

  function CountedElsewhere(peers: Positions, b: u32, resolution: u32, prior: u32): (s: set<NodeId>) {
    set n | n in peers && Counts(peers[n].closeTime, resolution, prior)
      && RoundCloseTime(peers[n].closeTime, resolution) != b
  }

  function Listed(order: seq<NodeId>): (s: set<NodeId>) {
    set n | n in order
  }

  lemma {:induction false} BucketVotes(order: seq<NodeId>, peers: Positions, b: u32, resolution: u32, prior: u32)
    requires Distinct(order) && forall n :: n in order ==> n in peers
    ensures var votes := Buckets(TimesIn(order, peers), resolution, prior);
            && votes[b] == |CountedIn(peers, b, resolution, prior) * Listed(order)|
            && |votes| == votes[b] + |CountedElsewhere(peers, b, resolution, prior) * Listed(order)|
    decreases |order|
  {
    hide RoundCloseTime, Buckets;
    var here, there := CountedIn(peers, b, resolution, prior), CountedElsewhere(peers, b, resolution, prior);
    if order == [] {
      assert TimesIn(order, peers) == [];
      NoTimesNoBuckets(resolution, prior);
      assert here * Listed(order) == {} && there * Listed(order) == {};
    } else {
      var rest, n := order[..|order| - 1], order[|order| - 1];
      var t := peers[n].closeTime;
      assert order == rest + [n] && n !in rest;
      assert TimesIn(order, peers) == TimesIn(rest, peers) + [t];
      BucketsConcat(TimesIn(rest, peers), [t], resolution, prior);
      BucketsOne(t, resolution, prior);
      BucketVotes(rest, peers, b, resolution, prior);
      OneMore(here, rest, n, order);
      OneMore(there, rest, n, order);
    }
  }

  lemma NoTimesNoBuckets(resolution: u32, prior: u32)
    ensures Buckets([], resolution, prior) == multiset{}
  {
  }

  lemma OneMore(s: set<NodeId>, rest: seq<NodeId>, n: NodeId, order: seq<NodeId>)
    requires order == rest + [n] && n !in rest
    ensures |s * Listed(order)| == |s * Listed(rest)| + if n in s then 1 else 0
  {
    assert s * Listed(order) == s * Listed(rest) + if n in s then {n} else {};
  }

  /** The exact condition for closing at our own bucket, whatever the peers are: with ourselves, more
      counted votes in it than in all others together. */
  lemma OurBucketDecides(peers: Positions, our: u32, resolution: u32, prior: u32, order: seq<NodeId>, t: u32,
                         agreed: bool)
    requires RoundCloseTime(our, resolution) > prior
    requires Enumerates(order, peers.Keys) && Outcome(our, TimesIn(order, peers), resolution, prior, t, agreed)
    ensures var b := RoundCloseTime(our, resolution);
            agreed && t == b
            <==> |CountedIn(peers, b, resolution, prior)| + 1 > |CountedElsewhere(peers, b, resolution, prior)|
  {
    var b, times := RoundCloseTime(our, resolution), TimesIn(order, peers);
    var votes := Buckets([our] + times, resolution, prior);
    var here, there := CountedIn(peers, b, resolution, prior), CountedElsewhere(peers, b, resolution, prior);
    ZeroRounds(resolution);
    FirstVote(our, times, resolution, prior);
    RoundIdempotent(our, resolution);
    EffOfOurs(our, resolution, prior);
    hide Buckets, RoundCloseTime, EffCloseTime;
    BucketVotes(order, peers, b, resolution, prior);
    assert here * Listed(order) == here && there * Listed(order) == there;
    assert votes[b] == |here| + 1 && |votes| == |here| + 1 + |there|;
    assert order == [] ==> there == {};
    if t != b { TwoBuckets(votes, b, t); }
  }

  lemma EffOfOurs(our: u32, resolution: u32, prior: u32)
    requires RoundCloseTime(our, resolution) > prior
    ensures our != 0 ==> EffCloseTime(our, resolution, prior) == RoundCloseTime(our, resolution)
  {
    hide RoundCloseTime;
  }

  lemma ZeroRounds(resolution: u32)
    ensures RoundCloseTime(0, resolution) == 0
  {
    if resolution > 0 {
      DivModUnique(resolution / 2, resolution, 0, resolution / 2);
    }
  }

  /** If we pass the quorum test with peers that are distinct members of the effective list, we
      ourselves only counting as another one, then the round agrees on a close time: exactly the
      bucket we share with the agreeing peers. */
  lemma QuorumAgreesOnCloseTime(peers: Positions, u: UnlView, our: Proposal, resolution: u32, prior: u32,
                                self: Option<NodeId>,
                                order: seq<NodeId>, t: u32, agreed: bool)
    requires Named(peers) && (forall n :: n in peers ==> Trusts(u, n)) && OneNameEach(peers.Keys, u, self)
    requires self.Some? ==> self.value in Effective(u)
    requires QuorumMet(peers, u, our, resolution, self.Some?)
    requires RoundCloseTime(our.closeTime, resolution) > prior
    requires Enumerates(order, peers.Keys)
             && Outcome(our.closeTime, TimesIn(order, peers), resolution, prior, t, agreed)
    ensures agreed && t == RoundCloseTime(our.closeTime, resolution)
  {
    var b, n := RoundCloseTime(our.closeTime, resolution), |Effective(u)|;
    var agreeing := Agreeing(peers, u, our, resolution);
    hide RoundCloseTime, Outcome, Agreeing, CountedIn, CountedElsewhere, OneNameEach, Trusts;
    OurBucketDecides(peers, our.closeTime, resolution, prior, order, t, agreed);
    AgreeingCount(peers, u, our, resolution, prior);
    TrustedFit(peers, u, self);
    QuorumIsLeast(n, |agreeing| + if self.Some? then 1 else 0);
  }

  /** Agreeing peers count in our bucket, and no peer counts twice. */
  lemma AgreeingCount(peers: Positions, u: UnlView, our: Proposal, resolution: u32, prior: u32)
    requires RoundCloseTime(our.closeTime, resolution) > prior
    ensures var b := RoundCloseTime(our.closeTime, resolution);
            var here, there := CountedIn(peers, b, resolution, prior), CountedElsewhere(peers, b, resolution, prior);
            |Agreeing(peers, u, our, resolution)| <= |here| && |here| + |there| <= |peers|
  {
    var b := RoundCloseTime(our.closeTime, resolution);
    var here, there := CountedIn(peers, b, resolution, prior), CountedElsewhere(peers, b, resolution, prior);
    ZeroRounds(resolution);
    hide RoundCloseTime, Trusts;
    SubsetSize(Agreeing(peers, u, our, resolution), here);
    assert here !! there;
    SubsetSize(here + there, peers.Keys);
    assert |here + there| == |here| + |there| && |peers| == |peers.Keys|;
  }

  /** Distinct trusted peers and ourselves fit into the effective list. */
  lemma TrustedFit(peers: Positions, u: UnlView, self: Option<NodeId>)
    requires (forall n :: n in peers ==> Trusts(u, n)) && OneNameEach(peers.Keys, u, self)
    requires self.Some? ==> self.value in Effective(u)
    ensures |peers| + (if self.Some? then 1 else 0) <= |Effective(u)|
  {
    MastersSize(peers.Keys, u, self);
    SubsetSize(Masters(peers.Keys, u, self), Effective(u));
    assert |peers| == |peers.Keys|;
  }

  /** The votes for a bucket, ours among them. */
  function VotesFor(our: u32, peers: Positions, b: u32, resolution: u32, prior: u32): (n: nat) {
    |CountedIn(peers, b, resolution, prior)|
    + if Counts(our, resolution, prior) && RoundCloseTime(our, resolution) == b then 1 else 0
  }

  lemma VotesForIs(our: u32, peers: Positions, b: u32, resolution: u32, prior: u32, order: seq<NodeId>)
    requires Enumerates(order, peers.Keys)
    ensures Buckets([our] + TimesIn(order, peers), resolution, prior)[b] == VotesFor(our, peers, b, resolution, prior)
  {
    FirstVote(our, TimesIn(order, peers), resolution, prior);
    hide Buckets, RoundCloseTime, Counts;
    BucketVotes(order, peers, b, resolution, prior);
    assert CountedIn(peers, b, resolution, prior) * Listed(order) == CountedIn(peers, b, resolution, prior);
  }

  /** A strict majority of all positions for a bucket moves us there, whoever is in it; without one, and
      unless there are two of us and a list, we stay. */
  lemma MajorityMoves(our: u32, peers: Positions, resolution: u32, prior: u32, listed: bool, t: u32, b: u32)
    requires AlignedFor(our, peers, resolution, prior, listed, t) && peers != map[]
    ensures 2 * VotesFor(our, peers, b, resolution, prior) > |peers| + 1 ==> t == b
    ensures t != our && !(listed && |peers| == 1) ==> 2 * VotesFor(our, peers, t, resolution, prior) > |peers| + 1
  {
    var order :| Enumerates(order, peers.Keys) && AlignedIn(order, our, peers, resolution, prior, listed, t);
    var votes := Buckets([our] + TimesIn(order, peers), resolution, prior);
    EnumerationSize(order, peers.Keys);
    assert |peers| == |peers.Keys|;
    VotesForIs(our, peers, b, resolution, prior, order);
    VotesForIs(our, peers, t, resolution, prior, order);
    TotalVotes(our, TimesIn(order, peers), resolution, prior);
    hide Buckets, VotesFor;
    if 2 * votes[b] > |peers| + 1 {
      forall c | c in votes && c != b ensures votes[c] < votes[b] {
        TwoBuckets(votes, b, c);
      }
      assert AlignsTo(our, TimesIn(order, peers), resolution, prior, listed, b);
      if t != b { TwoBuckets(votes, b, t); }
    }
  }

  // ---------------------------------------------------------------- two quorums

  lemma Overlap(e: set<NodeId>, a: set<NodeId>, b: set<NodeId>)
    requires a <= e && b <= e
    ensures |a * b| >= |a| + |b| - |e|
  {
    assert a + b == (a - b) + b;
    assert a == (a - b) + (a * b);
    SubsetSize(a + b, e);
  }

  /** The validators a node counted as agreeing with it. */
  function Counted(peers: Positions, u: UnlView, our: Proposal, resolution: u32,
                   self: Option<NodeId>): (s: set<NodeId>) {
    Masters(Agreeing(peers, u, our, resolution), u, self)
  }

  /** Two nodes with one validator list that both pass the quorum test, even on different
      transaction sets, counted at least 60% of the list in common. */
  lemma QuorumsShareValidators(u: UnlView, peers: Positions, our: Proposal, resolution: u32, self: Option<NodeId>,
                               peers': Positions, our': Proposal, resolution': u32, self': Option<NodeId>)
    requires Named(peers) && Named(peers')
    requires OneNameEach(Agreeing(peers, u, our, resolution), u, self)
    requires OneNameEach(Agreeing(peers', u, our', resolution'), u, self')
    requires (self.Some? ==> self.value in Effective(u)) && (self'.Some? ==> self'.value in Effective(u))
    requires QuorumMet(peers, u, our, resolution, self.Some?) && QuorumMet(peers', u, our', resolution', self'.Some?)
    ensures var n, shared := |Effective(u)|,
            Counted(peers, u, our, resolution, self) * Counted(peers', u, our', resolution', self');
            shared <= Effective(u) && |shared| >= 2 * QuorumThreshold(n) - n && 5 * |shared| >= 3 * n
  {
    hide Agrees, OneNameEach;
    var a, b := Counted(peers, u, our, resolution, self), Counted(peers', u, our', resolution', self');
    MastersSize(Agreeing(peers, u, our, resolution), u, self);
    MastersSize(Agreeing(peers', u, our', resolution'), u, self');
    assert a <= Effective(u) && b <= Effective(u);
    Overlap(Effective(u), a, b);
  }

  /** What a node takes a validator to propose: its own position for itself, a peer's under any of its names. */
  ghost predicate Shows(peers: Positions, u: UnlView, our: Proposal, self: Option<NodeId>, v: NodeId, p: Proposal) {
    (self == Some(v) && p == our) || exists n :: n in peers && Resolve(u, n) == v && p == peers[n]
  }

  /** A validator that shows two nodes different transactions or close-time buckets. */
  ghost predicate Equivocates(u: UnlView, peers: Positions, our: Proposal, self: Option<NodeId>, peers': Positions,
                              our': Proposal, self': Option<NodeId>, resolution: u32, v: NodeId) {
    exists p, p' :: Shows(peers, u, our, self, v, p) && Shows(peers', u, our', self', v, p')
                    && (p.txSetHash != p'.txSetHash
                        || RoundCloseTime(p.closeTime, resolution) != RoundCloseTime(p'.closeTime, resolution))
  }

  lemma CountedShows(peers: Positions, u: UnlView, our: Proposal, resolution: u32, self: Option<NodeId>, v: NodeId)
    requires Named(peers) && v in Counted(peers, u, our, resolution, self)
    ensures exists p :: Shows(peers, u, our, self, v, p) && p.txSetHash == our.txSetHash
                        && RoundCloseTime(p.closeTime, resolution) == RoundCloseTime(our.closeTime, resolution)
  {
    hide RoundCloseTime, Resolve, Effective;
    if self == Some(v) {
      assert Shows(peers, u, our, self, v, our);
    } else {
      var n :| n in Agreeing(peers, u, our, resolution) && Resolve(u, n) == v;
      assert Shows(peers, u, our, self, v, peers[n]);
    }
  }

  lemma BothCounted(u: UnlView, peers: Positions, our: Proposal, self: Option<NodeId>, peers': Positions,
                    our': Proposal, self': Option<NodeId>, resolution: u32, v: NodeId)
    requires Named(peers) && Named(peers')
    requires v in Counted(peers, u, our, resolution, self) && v in Counted(peers', u, our', resolution, self')
    requires our.txSetHash != our'.txSetHash
             || RoundCloseTime(our.closeTime, resolution) != RoundCloseTime(our'.closeTime, resolution)
    ensures Equivocates(u, peers, our, self, peers', our', self', resolution, v)
  {
    hide RoundCloseTime, Counted, Shows, Named;
    CountedShows(peers, u, our, resolution, self, v);
    CountedShows(peers', u, our', resolution, self', v);
  }

  /** Safety: two nodes with one list that pass the quorum test on different transactions, or on different
      buckets, do so only because at least 60% of the list showed the two of them different positions. */
  lemma ForkNeedsEquivocation(u: UnlView, peers: Positions, our: Proposal, self: Option<NodeId>, peers': Positions,
                              our': Proposal, self': Option<NodeId>, resolution: u32, guilty: set<NodeId>)
    requires Named(peers) && Named(peers')
    requires OneNameEach(Agreeing(peers, u, our, resolution), u, self)
    requires OneNameEach(Agreeing(peers', u, our', resolution), u, self')
    requires (self.Some? ==> self.value in Effective(u)) && (self'.Some? ==> self'.value in Effective(u))
    requires QuorumMet(peers, u, our, resolution, self.Some?) && QuorumMet(peers', u, our', resolution, self'.Some?)
    requires our.txSetHash != our'.txSetHash
             || RoundCloseTime(our.closeTime, resolution) != RoundCloseTime(our'.closeTime, resolution)
    requires forall v :: v in Effective(u) && Equivocates(u, peers, our, self, peers', our', self', resolution, v)
                         ==> v in guilty
    ensures 5 * |guilty| >= 3 * |Effective(u)|
  {
    var shared := Counted(peers, u, our, resolution, self) * Counted(peers', u, our', resolution, self');
    hide RoundCloseTime, QuorumMet, OneNameEach, Counted, Shows, Effective, QuorumThreshold, Agreeing, Named;
    hide Equivocates;
    QuorumsShareValidators(u, peers, our, resolution, self, peers', our', resolution, self');
    forall v | v in shared ensures v in guilty {
      BothCounted(u, peers, our, self, peers', our', self', resolution, v);
    }
    SubsetSize(shared, guilty);
  }

  function ThreeNames(our: Proposal, x: NodeId, y: NodeId, z: NodeId): (ps: Positions) {
    map[x := our.(nodeId := x), y := our.(nodeId := y), z := our.(nodeId := z)]
  }

  lemma ThreeNamesCount(u: UnlView, our: Proposal, x: NodeId, y: NodeId, z: NodeId, resolution: u32, master: NodeId)
    requires x != y && y != z && x != z && master in Effective(u)
    requires Resolve(u, x) == master && Resolve(u, y) == master && Resolve(u, z) == master
    ensures Named(ThreeNames(our, x, y, z)) && |Agreeing(ThreeNames(our, x, y, z), u, our, resolution)| == 3
    ensures Counted(ThreeNames(our, x, y, z), u, our, resolution, Some(master)) == {master}
  {
    hide RoundCloseTime, Resolve, Effective;
    assert Agreeing(ThreeNames(our, x, y, z), u, our, resolution) == {x, y, z};
  }

  /** Where names do belong to one validator it counts as often as it has names, and two quorums of
      a list of five can have nobody in common. */
  lemma SharedMasterSplitsQuorums(our: Proposal, our': Proposal, resolution: u32, u: UnlView)
    requires u == UnlView({1, 2, 3, 4, 5}, {}, map[11 := 1, 12 := 1, 13 := 1, 21 := 2, 22 := 2, 23 := 2])
    ensures var peers, peers' := ThreeNames(our, 11, 12, 13), ThreeNames(our', 21, 22, 23);
            && Named(peers) && Named(peers')
            && QuorumMet(peers, u, our, resolution, true) && QuorumMet(peers', u, our', resolution, true)
            && Counted(peers, u, our, resolution, Some(1)) * Counted(peers', u, our', resolution, Some(2)) == {}
  {
    hide Agreeing, Counted, ThreeNames;
    assert Effective(u) == {1, 2, 3, 4, 5};
    ThreeNamesCount(u, our, 11, 12, 13, resolution, 1);
    ThreeNamesCount(u, our', 21, 22, 23, resolution, 2);
  }

  // ---------------------------------------------------------------- the tracker's cap

  /** The largest effective list whose quorum sixteen peers, and we ourselves if we count, can reach. */
  function LargestList(selfCounts: bool): (n: nat) {
    if selfCounts then 21 else 20
  }

  /** With at most sixteen peer positions, which is all the tracker admits, the quorum test can only
      pass while the effective list has at most twenty members, or twenty-one with ourselves. */
  lemma CapLimitsQuorum(peers: Positions, u: UnlView, our: Proposal, resolution: u32, selfCounts: bool)
    requires |peers| <= MAX_PROPOSALS_PER_PREV && QuorumMet(peers, u, our, resolution, selfCounts)
    ensures |Effective(u)| <= LargestList(selfCounts)
  {
    assert Agreeing(peers, u, our, resolution) <= peers.Keys;
    SubsetSize(Agreeing(peers, u, our, resolution), peers.Keys);
    assert |peers| == |peers.Keys|;
  }

  /** The positions of some of a list's members, all agreeing with us. */
  function FollowedBy(members: set<NodeId>, our: Proposal): (ps: Positions) {
    map n | n in members :: our.(nodeId := n)
  }

  lemma {:induction false} SubsetOfSize(s: set<NodeId>, k: nat) returns (t: set<NodeId>)
    requires k <= |s|
    ensures t <= s && |t| == k
    decreases k
  {
    if k == 0 {
      t := {};
    } else {
      var rest := SubsetOfSize(s, k - 1);
      assert s - rest != {} by { assert s == rest + (s - rest); }
      var x :| x in s - rest;
      t := rest + {x};
    }
  }

  /** For every list of validators, and wherever we stand in it: some sixteen positions of distinct
      validators, none of them our own, pass the quorum test exactly up to that size. */
  lemma ReachableQuorums(e: set<NodeId>, our: Proposal, resolution: u32, self: Option<NodeId>)
    requires self.Some? ==> self.value in e
    ensures (exists peers :: |peers| <= MAX_PROPOSALS_PER_PREV && Named(peers)
                             && OneNameEach(peers.Keys, UnlView(e, {}, map[]), self)
                             && QuorumMet(peers, UnlView(e, {}, map[]), our, resolution, self.Some?))
       <==> |e| <= LargestList(self.Some?)
  {
    var u := UnlView(e, {}, map[]);
    assert Effective(u) == e;
    if |e| <= LargestList(self.Some?) {
      var others := if self.Some? then e - {self.value} else e;
      var members := SubsetOfSize(others, if |others| <= MAX_PROPOSALS_PER_PREV then |others|
                                          else MAX_PROPOSALS_PER_PREV);
      var peers := FollowedBy(members, our);
      assert peers.Keys == members && |peers| == |peers.Keys|;
      assert Agreeing(peers, u, our, resolution) == members;
      assert Named(peers) && OneNameEach(peers.Keys, u, self) && QuorumMet(peers, u, our, resolution, self.Some?);
    } else {
      forall peers | |peers| <= MAX_PROPOSALS_PER_PREV
        ensures !QuorumMet(peers, u, our, resolution, self.Some?)
      {
        if QuorumMet(peers, u, our, resolution, self.Some?) { CapLimitsQuorum(peers, u, our, resolution, self.Some?); }
      }
    }
  }
}
