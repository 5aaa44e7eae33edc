/** Candidate transaction sets and the disputes between ours and our peers'. */
module Disputes {
  import opened Primitives
  import opened SortedIds
  import opened ProposalTracker

  /** A candidate set: its ids in increasing order and the root hash over them. */
  datatype TxSet = TxSet(hash: Hash256, txs: seq<Hash256>)

  function IdsIn(ids: seq<Hash256>): (s: set<Hash256>) {
    set id | id in ids
  }

  /** What every constructed set satisfies, for some root hash of sorted ids. */
  ghost predicate IsSetOf(s: TxSet, ids: set<Hash256>, root: seq<Hash256> -> Hash256) {
    Lists(s.txs, ids) && s.hash == root(s.txs)
  }

  method NewTxSet(ids: seq<Hash256>, root: seq<Hash256> -> Hash256) returns (s: TxSet)
    ensures IsSetOf(s, IdsIn(ids), root)
  {
    var sorted := SortIds(IdsIn(ids));
    s := TxSet(root(sorted), sorted);
  }

  /** Order and repetition of the ids do not matter: one set, one hash. */
  lemma TxSetUnique(s: TxSet, t: TxSet, ids: set<Hash256>, root: seq<Hash256> -> Hash256)
    requires IsSetOf(s, ids, root) && IsSetOf(t, ids, root)
    ensures s == t
  {
    ListingUnique(s.txs, t.txs, ids);
  }

  // ---------------------------------------------------------------- one disputed transaction

  datatype DisputedTx = DisputedTx(txHash: Hash256, ourVote: bool, votes: map<NodeId, bool>)

  type Disputes = map<Hash256, DisputedTx>

  function InFavour(d: DisputedTx): (s: set<NodeId>) {
    set n | n in d.votes && d.votes[n]
  }

  function Yays(d: DisputedTx): (n: nat) {
    |InFavour(d)|
  }

  predicate ShouldInclude(d: DisputedTx, threshold: nat) {
    (Yays(d) + if d.ourVote then 1 else 0) * 100 / (|d.votes| + 1) >= threshold
  }

  function AvalancheThreshold(round: nat): (pct: nat) {
    match round
    case 0 => 50
    case 1 => 65
    case 2 => 70
    case _ => 95
  }

  /** The rounded-down percentage decides as the exact share does. */
  lemma ShouldIncludeIsShare(d: DisputedTx, threshold: nat)
    ensures ShouldInclude(d, threshold) <==>
            100 * (Yays(d) + if d.ourVote then 1 else 0) >= threshold * (|d.votes| + 1)
  {
    FloorAtLeast((Yays(d) + if d.ourVote then 1 else 0) * 100, |d.votes| + 1, threshold);
  }

  lemma FloorAtLeast(x: nat, m: nat, k: nat)
    requires m > 0
    ensures x / m >= k <==> x >= k * m
  {
    var q := x / m;
    assert x == q * m + x % m;
    if q >= k {
      MultiplyBounds(k, q, m, m);
    } else {
      MultiplyBounds(q + 1, k, m, m);
    }
  }

  /** Thresholds only tighten: what is kept late in the round would have been kept earlier. */
  lemma AvalancheTightens(d: DisputedTx, early: nat, late: nat)
    requires early <= late && ShouldInclude(d, AvalancheThreshold(late))
    ensures ShouldInclude(d, AvalancheThreshold(early))
  {
  }

  /** The shares a disputed transaction needs: a half, then 65%, 70% and 95% of all positions. */
  lemma AvalancheShares(d: DisputedTx, round: nat)
    ensures var yes, all := Yays(d) + if d.ourVote then 1 else 0, |d.votes| + 1;
            ShouldInclude(d, AvalancheThreshold(round)) <==>
            if round == 0 then 2 * yes >= all
            else if round == 1 then 20 * yes >= 13 * all
            else if round == 2 then 10 * yes >= 7 * all
            else 20 * yes >= 19 * all
  {
    ShouldIncludeIsShare(d, AvalancheThreshold(round));
    hide Yays, ShouldInclude;
  }

  // ---------------------------------------------------------------- recording peers

  function Entry(disputes: Disputes, ours: seq<Hash256>, tx: Hash256): (d: DisputedTx) {
    if tx in disputes then disputes[tx] else DisputedTx(tx, tx in ours, map[])
  }

  function WithVote(d: DisputedTx, node: NodeId, yes: bool): (r: DisputedTx) {
    d.(votes := d.votes[node := yes])
  }

  lemma InFavourAfterVote(d: DisputedTx, n: NodeId, yes: bool)
    ensures InFavour(WithVote(d, n, yes)) == if yes then InFavour(d) + {n} else InFavour(d) - {n}
  {
  }

  lemma VotesAfterVote(d: DisputedTx, n: NodeId, yes: bool)
    ensures |WithVote(d, n, yes).votes| == |d.votes| + if n in d.votes then 0 else 1
  {
    var after := WithVote(d, n, yes).votes;
    assert after.Keys == d.votes.Keys + {n};
    assert |after| == |after.Keys| && |d.votes| == |d.votes.Keys|;
  }

  /** A vote counts once and for what it says, in place of the peer's earlier one. */
  lemma YaysAfterVote(d: DisputedTx, n: NodeId, yes: bool)
    ensures var said := n in d.votes && d.votes[n];
            Yays(WithVote(d, n, yes)) == Yays(d) + if yes == said then 0 else if yes then 1 else -1
    ensures d.votes == map[] ==> Yays(d) == 0
  {
    InFavourAfterVote(d, n, yes);
    assert n in InFavour(d) <==> n in d.votes && d.votes[n];
    assert d.votes == map[] ==> InFavour(d) == {};
    hide InFavour, WithVote;
  }

  lemma YaysWithin(d: DisputedTx)
    ensures Yays(d) <= |d.votes|
  {
    SubsetSize(InFavour(d), d.votes.Keys);
    assert |d.votes| == |d.votes.Keys|;
  }

  /** One more yes, new or in place of a no, never takes a transaction out; a no instead of a yes never
      brings one in. */
  lemma VoteMovesItsWay(d: DisputedTx, n: NodeId, threshold: nat)
    requires threshold <= 100
    ensures ShouldInclude(d, threshold) ==> ShouldInclude(WithVote(d, n, true), threshold)
    ensures ShouldInclude(WithVote(d, n, false), threshold) ==> ShouldInclude(d, threshold)
  {
    YaysAfterVote(d, n, true);
    YaysAfterVote(d, n, false);
    VotesAfterVote(d, n, true);
    VotesAfterVote(d, n, false);
    YaysWithin(d);
    ShouldIncludeIsShare(d, threshold);
    ShouldIncludeIsShare(WithVote(d, n, true), threshold);
    ShouldIncludeIsShare(WithVote(d, n, false), threshold);
    hide Yays, ShouldInclude;
    assert threshold * (|d.votes| + 2) == threshold * (|d.votes| + 1) + threshold;
  }

  predicate Differs(tx: Hash256, ours: seq<Hash256>, theirs: seq<Hash256>) {
    (tx in ours) != (tx in theirs)
  }

  /** What one peer's set does to the disputes: a dispute per difference, a vote wherever either
      side has the transaction, nothing about transactions both lack. */
  ghost predicate Recorded(before: Disputes, after: Disputes, ours: seq<Hash256>, node: NodeId, theirs: seq<Hash256>) {
    && (forall tx :: tx in after <==> tx in before || Differs(tx, ours, theirs))
    && (forall tx :: tx in after ==>
          after[tx] == if tx in ours || tx in theirs then WithVote(Entry(before, ours, tx), node, tx in theirs)
            else before[tx])
  }

  /** The set we know a peer to propose, if any. */
  function KnownSet(ours: TxSet, p: Proposal, n: NodeId, acquired: map<NodeId, TxSet>): (r: Option<seq<Hash256>>) {
    if p.txSetHash == ours.hash then Some(ours.txs)
    else if n in acquired then Some(acquired[n].txs)
    else None
  }

  method RecordSame(disputes: Disputes, ours: seq<Hash256>, node: NodeId) returns (after: Disputes)
    ensures Recorded(disputes, after, ours, node, ours)
  {
    after := disputes;
    for i := 0 to |ours|
      invariant after.Keys == disputes.Keys
      invariant forall tx :: tx in after ==>
                after[tx] == if tx in ours[..i] then WithVote(disputes[tx], node, true) else disputes[tx]
    {
      var tx := ours[i];
      assert forall x :: x in ours[..i + 1] <==> x in ours[..i] || x == tx;
      if tx in after {
        after := after[tx := WithVote(after[tx], node, true)];
      }
    }
    assert ours[..|ours|] == ours;
  }

  /** First loop: what we have and they lack. */
  method RecordMissing(disputes: Disputes, ours: seq<Hash256>, node: NodeId, theirs: seq<Hash256>)
    returns (after: Disputes)
    ensures forall tx :: tx in after <==> tx in disputes || (tx in ours && tx !in theirs)
    ensures forall tx :: tx in after ==>
              after[tx] == if tx in ours && tx !in theirs then WithVote(Entry(disputes, ours, tx), node, false)
                else disputes[tx]
  {
    after := disputes;
    for i := 0 to |ours|
      invariant forall tx :: tx in after <==> tx in disputes || (tx in ours[..i] && tx !in theirs)
      invariant forall tx :: tx in after ==>
                  after[tx] == if tx in ours[..i] && tx !in theirs then WithVote(Entry(disputes, ours, tx), node, false)
                    else disputes[tx]
    {
      var tx := ours[i];
      assert forall x :: x in ours[..i + 1] <==> x in ours[..i] || x == tx;
      if tx !in theirs {
        var d := if tx in after then after[tx] else DisputedTx(tx, true, map[]);
        after := after[tx := WithVote(d, node, false)];
      }
    }
    assert ours[..|ours|] == ours;
  }

  /** Second loop: what they have and we lack. */
  method RecordExtra(disputes: Disputes, ours: seq<Hash256>, node: NodeId, theirs: seq<Hash256>)
    returns (after: Disputes)
    ensures forall tx :: tx in after <==> tx in disputes || (tx in theirs && tx !in ours)
    ensures forall tx :: tx in after ==>
              after[tx] == if tx in theirs && tx !in ours then WithVote(Entry(disputes, ours, tx), node, true)
                else disputes[tx]
  {
    after := disputes;
    for i := 0 to |theirs|
      invariant forall tx :: tx in after <==> tx in disputes || (tx in theirs[..i] && tx !in ours)
      invariant forall tx :: tx in after ==>
                  after[tx] == if tx in theirs[..i] && tx !in ours then WithVote(Entry(disputes, ours, tx), node, true)
                    else disputes[tx]
    {
      var tx := theirs[i];
      assert forall x :: x in theirs[..i + 1] <==> x in theirs[..i] || x == tx;
      if tx !in ours {
        var d := if tx in after then after[tx] else DisputedTx(tx, false, map[]);
        after := after[tx := WithVote(d, node, true)];
      }
    }
    assert theirs[..|theirs|] == theirs;
  }

  /** Third loop: what both have, where it is disputed. */
  method RecordShared(disputes: Disputes, ours: seq<Hash256>, node: NodeId, theirs: seq<Hash256>)
    returns (after: Disputes)
    ensures after.Keys == disputes.Keys
    ensures forall tx :: tx in after ==>
              after[tx] == if tx in ours && tx in theirs then WithVote(disputes[tx], node, true) else disputes[tx]
  {
    after := disputes;
    for i := 0 to |ours|
      invariant after.Keys == disputes.Keys
      invariant forall tx :: tx in after ==>
                  after[tx] == if tx in ours[..i] && tx in theirs then WithVote(disputes[tx], node, true)
                    else disputes[tx]
    {
      var tx := ours[i];
      assert forall x :: x in ours[..i + 1] <==> x in ours[..i] || x == tx;
      if tx in theirs && tx in after {
        after := after[tx := WithVote(after[tx], node, true)];
      }
    }
    assert ours[..|ours|] == ours;
  }

  method RecordPeer(disputes: Disputes, ours: seq<Hash256>, node: NodeId, theirs: seq<Hash256>)
    returns (after: Disputes)
    ensures Recorded(disputes, after, ours, node, theirs)
  {
    var missing := RecordMissing(disputes, ours, node, theirs);
    var extra := RecordExtra(missing, ours, node, theirs);
    after := RecordShared(extra, ours, node, theirs);
  }

  // ---------------------------------------------------------------- all peers, in any order

  /** A step per peer: recorded if its set is known, nothing otherwise. */
  ghost predicate PeerStep(before: Disputes, after: Disputes, ours: TxSet, p: Proposal, n: NodeId,
                           acquired: map<NodeId, TxSet>) {
    match KnownSet(ours, p, n, acquired)
    case None => after == before
    case Some(theirs) => Recorded(before, after, ours.txs, n, theirs)
  }

  /** The disputes after the peers of an enumeration have each had their step. */
  ghost predicate AllRecorded(before: Disputes, after: Disputes, ours: TxSet, order: seq<NodeId>,
                              peers: map<NodeId, Proposal>, acquired: map<NodeId, TxSet>)
    requires forall n :: n in order ==> n in peers
    decreases |order|
  {
    if order == [] then after == before
    else
      var rest, n := order[..|order| - 1], order[|order| - 1];
      exists mid :: AllRecorded(before, mid, ours, rest, peers, acquired)
        && PeerStep(mid, after, ours, peers[n], n, acquired)
  }

  method CreateDisputes(disputes: Disputes, ours: TxSet, peers: map<NodeId, Proposal>, acquired: map<NodeId, TxSet>)
    returns (after: Disputes)
    ensures RecordedInSomeOrder(disputes, after, ours, peers, acquired)
  {
    after := disputes;
    ghost var order := [];
    var rest := peers.Keys;
    while rest != {}
      invariant rest <= peers.Keys && Enumerates(order, peers.Keys - rest)
      invariant AllRecorded(disputes, after, ours, order, peers, acquired)
      decreases rest
    {
      var n :| n in rest;
      ghost var mid, before := after, order;
      var p := peers[n];
      if p.txSetHash == ours.hash {
        after := RecordSame(after, ours.txs, n);
      } else if n in acquired {
        after := RecordPeer(after, ours.txs, n, acquired[n].txs);
      }
      EnumerateMore(order, peers.Keys - rest, n);
      rest := rest - {n};
      order := order + [n];
      assert peers.Keys - rest == peers.Keys - (rest + {n}) + {n};
      assert order[..|order| - 1] == before;
      assert PeerStep(mid, after, ours, p, n, acquired);
    }
    assert peers.Keys - rest == peers.Keys;
    assert Enumerates(order, peers.Keys);
  }

  /** The same for some enumeration of the peers. */
  ghost predicate RecordedInSomeOrder(before: Disputes, after: Disputes, ours: TxSet, peers: map<NodeId, Proposal>,
                                      acquired: map<NodeId, TxSet>) {
    exists order :: Enumerates(order, peers.Keys) && AllRecorded(before, after, ours, order, peers, acquired)
  }

  /** Every dispute is filed under its transaction and knows whether we have it. */
  ghost predicate OurVotesMatch(disputes: Disputes, ours: seq<Hash256>) {
    forall tx :: tx in disputes ==> disputes[tx].txHash == tx && (disputes[tx].ourVote <==> tx in ours)
  }

  lemma {:induction false} RecordingKeepsOurVotes(before: Disputes, after: Disputes, ours: TxSet, order: seq<NodeId>,
                                                  peers: map<NodeId, Proposal>, acquired: map<NodeId, TxSet>)
    requires forall n :: n in order ==> n in peers
    requires AllRecorded(before, after, ours, order, peers, acquired) && OurVotesMatch(before, ours.txs)
    ensures OurVotesMatch(after, ours.txs)
    ensures before.Keys <= after.Keys
    decreases |order|
  {
    if order != [] {
      var rest, n := order[..|order| - 1], order[|order| - 1];
      var mid :| AllRecorded(before, mid, ours, rest, peers, acquired)
        && PeerStep(mid, after, ours, peers[n], n, acquired);
      RecordingKeepsOurVotes(before, mid, ours, rest, peers, acquired);
    }
  }

  function VoteOf(disputes: Disputes, tx: Hash256, n: NodeId): (v: Option<bool>) {
    if tx in disputes && n in disputes[tx].votes then Some(disputes[tx].votes[n]) else None
  }

  /** One peer's step moves only that peer's votes. */
  lemma StepVotes(before: Disputes, after: Disputes, ours: TxSet, p: Proposal, n: NodeId, acquired: map<NodeId, TxSet>,
                  tx: Hash256, m: NodeId)
    requires PeerStep(before, after, ours, p, n, acquired)
    ensures m != n ==> VoteOf(after, tx, m) == VoteOf(before, tx, m)
    ensures KnownSet(ours, p, n, acquired).None? ==> VoteOf(after, tx, n) == VoteOf(before, tx, n)
    ensures KnownSet(ours, p, n, acquired).Some? ==>
              var theirs := KnownSet(ours, p, n, acquired).value;
              && (Differs(tx, ours.txs, theirs) ==> VoteOf(after, tx, n) == Some(tx in theirs))
              && (tx in ours.txs && tx in theirs ==> VoteOf(after, tx, n) == if tx in before then Some(true) else None)
              && (tx !in ours.txs && tx !in theirs ==> VoteOf(after, tx, n) == VoteOf(before, tx, n))
  {
  }

  /** Whatever order the peers come in: a peer whose known set differs from ours on a transaction
      votes its own way on it; one that shares it says yes where the dispute already stood; nobody
      votes on what both lack, so an earlier yes stays; peers outside the round keep their votes. */
  lemma {:induction false} RecordedVotes(before: Disputes, after: Disputes, ours: TxSet, order: seq<NodeId>,
                                         peers: map<NodeId, Proposal>, acquired: map<NodeId, TxSet>,
                                         tx: Hash256, n: NodeId)
    requires Distinct(order) && forall m :: m in order ==> m in peers
    requires AllRecorded(before, after, ours, order, peers, acquired)
    ensures tx in before ==> tx in after
    ensures n !in order || (peers[n].txSetHash != ours.hash && n !in acquired) ==>
              VoteOf(after, tx, n) == VoteOf(before, tx, n)
    ensures n in order && peers[n].txSetHash == ours.hash ==>
              && (tx in ours.txs && tx in before ==> VoteOf(after, tx, n) == Some(true))
              && (tx !in ours.txs ==> VoteOf(after, tx, n) == VoteOf(before, tx, n))
    ensures n in order && peers[n].txSetHash != ours.hash && n in acquired ==>
              var theirs := acquired[n].txs;
              && ((tx in ours.txs) != (tx in theirs) ==> VoteOf(after, tx, n) == Some(tx in theirs))
              && (tx in ours.txs && tx in theirs && tx in before ==> VoteOf(after, tx, n) == Some(true))
              && (tx !in ours.txs && tx !in theirs ==> VoteOf(after, tx, n) == VoteOf(before, tx, n))
    decreases |order|
  {
    if order != [] {
      var rest, m := order[..|order| - 1], order[|order| - 1];
      var mid :| AllRecorded(before, mid, ours, rest, peers, acquired)
        && PeerStep(mid, after, ours, peers[m], m, acquired);
      assert order == rest + [m] && m !in rest;
      assert tx in mid ==> tx in after;
      hide AllRecorded;
      RecordedVotes(before, mid, ours, rest, peers, acquired, tx, n);
      StepVotes(mid, after, ours, peers[m], m, acquired, tx, n);
      hide PeerStep, VoteOf;
    }
  }

  // ---------------------------------------------------------------- resolving

  predicate Flips(d: DisputedTx, threshold: nat) {
    ShouldInclude(d, threshold) != d.ourVote
  }

  /** Our next set, and whether it is a new one. */
  method ResolveDisputes(disputes: Disputes, ours: seq<Hash256>, threshold: nat)
    returns (txs: seq<Hash256>, changed: bool)
    requires forall tx :: tx in disputes ==> disputes[tx].txHash == tx
    ensures changed <==> exists tx :: tx in disputes && Flips(disputes[tx], threshold)
    ensures !changed ==> txs == ours
    ensures forall tx :: tx in txs <==>
              if tx in disputes && Flips(disputes[tx], threshold) then ShouldInclude(disputes[tx], threshold)
              else tx in ours
  {
    hide ShouldInclude;
    txs, changed := ours, false;
    var rest := disputes.Keys;
    while rest != {}
      invariant rest <= disputes.Keys
      invariant changed <==> exists tx :: tx in disputes && tx !in rest && Flips(disputes[tx], threshold)
      invariant !changed ==> txs == ours
      invariant forall tx :: tx in txs <==>
                  if tx in disputes && tx !in rest && Flips(disputes[tx], threshold)
                    then ShouldInclude(disputes[tx], threshold) else tx in ours
      decreases rest
    {
      var tx :| tx in rest;
      rest := rest - {tx};
      var yes := ShouldInclude(disputes[tx], threshold);
      if yes != disputes[tx].ourVote {
        changed := true;
        if yes {
          if tx !in txs { txs := txs + [tx]; }
        } else {
          DropRemoves(txs, tx);
          txs := Drop(txs, tx);
        }
      }
    }
  }

  /** When disputes know our set, resolution keeps a disputed transaction exactly when its tally
      clears the threshold, and leaves the rest of our set alone. */
  ghost predicate Settles(before: seq<Hash256>, after: seq<Hash256>, disputes: Disputes, threshold: nat) {
    forall tx :: tx in after <==> if tx in disputes then ShouldInclude(disputes[tx], threshold) else tx in before
  }

  function Refreshed(disputes: Disputes, ours: seq<Hash256>): (r: Disputes) {
    map tx | tx in disputes :: disputes[tx].(ourVote := tx in ours)
  }
}
