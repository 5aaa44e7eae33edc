/** Where the votes on file come from, over whole runs of the aggregator, and what they decide. */
module ValidationRuns {
  import opened Primitives
  import opened PreferredBranch
  import opened ValidationsTrie

  // ---------------------------------------------------------------- who is trusted

  /** Trusted at step `i` of the run and never distrusted since. */
  predicate TrustedAt(ops: seq<Op>, n: NodeId, i: int) {
    0 <= i < |ops| && ops[i] == Trust(n) && forall j :: i < j < |ops| ==> ops[j] != Distrust(n)
  }

  ghost predicate TrustedBy(ops: seq<Op>, n: NodeId) {
    exists i :: TrustedAt(ops, n, i)
  }

  lemma {:induction false} TrustedIff(ops: seq<Op>, n: NodeId)
    ensures n in StateAfter(ops).trusted <==> TrustedBy(ops, n)
    decreases |ops|
  {
    if ops != [] {
      var last := |ops| - 1;
      TrustedIff(ops[..last], n);
      if ops[last] == Trust(n) {
        assert TrustedAt(ops, n, last);
      } else if ops[last] != Distrust(n) {
        if i :| TrustedAt(ops[..last], n, i) { assert TrustedAt(ops, n, i); }
        if i :| TrustedAt(ops, n, i) { assert TrustedAt(ops[..last], n, i); }
      }
    }
  }

  // ---------------------------------------------------------------- where a vote comes from

  /** The entry is the one step `i` filed for `n`: cast while trusted, credited along the parents it
      came with, and neither distrusted nor pruned since. */
  ghost predicate Filed(ops: seq<Op>, n: NodeId, i: int, e: Entry) {
    && 0 <= i < |ops| && ops[i].Vote? && ops[i].validation.nodeId == n && TrustedBy(ops[..i], n)
    && e.validation == ops[i].validation && e.branch == ops[i].parents + [ops[i].validation.ledgerHash]
    && forall j :: i < j < |ops| ==> Keeps(ops[j], n, e.validation.ledgerSeq)
  }

  /** Every entry on file after a run is the vote of some step of it, with the ancestry of that step. */
  lemma {:induction false} VoteComesFrom(ops: seq<Op>, n: NodeId) returns (i: nat)
    requires n in StateAfter(ops).latest
    ensures Filed(ops, n, i, StateAfter(ops).latest[n])
    decreases |ops|
  {
    hide TrustedBy;
    var last := |ops| - 1;
    var before, e := StateAfter(ops[..last]), StateAfter(ops).latest[n];
    TrustedIff(ops[..last], n);
    if n in before.latest && before.latest[n] == e {
      i := VoteComesFrom(ops[..last], n);
      assert ops[..last][..i] == ops[..i];
      assert Keeps(ops[last], n, e.validation.ledgerSeq) by { RunConsistent(ops[..last]); }
    } else {
      i := last;
    }
  }

  /** A vote of a trusted validator for another ledger than the one on file is never lost to an older
      one: until it is distrusted or pruned, what is on file for it is that vote or a later one. */
  lemma VoteIsTaken(ops: seq<Op>, j: nat)
    requires j < |ops| && ops[j].Vote? && TrustedBy(ops[..j], ops[j].validation.nodeId)
    requires var v, latest := ops[j].validation, StateAfter(ops[..j]).latest;
             v.nodeId in latest ==> latest[v.nodeId].validation.ledgerHash != v.ledgerHash
    requires forall k :: j < k < |ops| ==> Keeps(ops[k], ops[j].validation.nodeId, ops[j].validation.ledgerSeq)
    ensures var v := ops[j].validation;
            v.nodeId in StateAfter(ops).latest && NotOlder(StateAfter(ops).latest[v.nodeId].validation, v)
  {
    var v := ops[j].validation;
    TrustedIff(ops[..j], v.nodeId);
    assert ops[..j + 1][..j] == ops[..j];
    var filed := StateAfter(ops[..j + 1]).latest[v.nodeId].validation;
    assert NotOlder(filed, v);
    VoteNeverRegresses(ops, j + 1, v.nodeId);
  }

  // ---------------------------------------------------------------- what a majority decides

  /** The validators with a vote at or above the anchor, and those of them whose vote passes `p`. */
  function Current(latest: Latest, seqNo: u32): (r: set<NodeId>) {
    set n | n in latest && latest[n].validation.ledgerSeq >= seqNo
  }

  function Passing(latest: Latest, seqNo: u32, p: Path): (r: set<NodeId>) {
    set n | n in latest && latest[n].validation.ledgerSeq >= seqNo && p <= latest[n].branch
  }

  function Along(latest: Latest, p: Path): (r: set<NodeId>) {
    set n | n in latest && p <= latest[n].branch
  }

  lemma AlongDrop(latest: Latest, c: NodeId, p: Path)
    requires c in latest
    ensures |Along(latest, p)| == |Along(latest - {c}, p)| + if p <= latest[c].branch then 1 else 0
    ensures |latest| == |latest - {c}| + 1
  {
    assert Along(latest, p) == Along(latest - {c}, p) + if p <= latest[c].branch then {c} else {};
    assert (latest - {c}).Keys == latest.Keys - {c};
    assert |latest - {c}| == |(latest - {c}).Keys| && |latest| == |latest.Keys|;
  }

  /** The votes that pass a prefix are as many as the validators whose branch does. */
  lemma {:induction false} ThroughIsVoters(latest: Latest, p: Path)
    ensures Through(BagOf(latest), p) == |Along(latest, p)| && |BagOf(latest)| == |latest|
    decreases |latest|
  {
    hide Through, Along;
    if latest == map[] {
      NoVotesThrough(latest, p);
    } else {
      var c :| c in latest;
      BagOfRemove(latest, c);
      ThroughIsVoters(latest - {c}, p);
      ThroughAdd(BagOf(latest - {c}), latest[c].branch, p);
      AlongDrop(latest, c, p);
    }
  }

  lemma NoVotesThrough(latest: Latest, p: Path)
    requires latest == map[]
    ensures Through(multiset{}, p) == 0 && Along(latest, p) == {}
  {
  }

  lemma CurrentIsFresh(latest: Latest, seqNo: u32)
    ensures |Fresh(latest, seqNo)| == |Current(latest, seqNo)|
  {
    var now := Fresh(latest, seqNo);
    assert now.Keys == Current(latest, seqNo) && |now| == |now.Keys|;
  }

  /** Where more than half of the validators current at the anchor pass through a ledger, the answer is
      the tip of a preferred path through it. */
  lemma MajorityOfValidatorsDecides(latest: Latest, seqNo: u32, p: Path, r: Option<Hash256>)
    requires IsAnswer(latest, seqNo, r) && 2 * |Passing(latest, seqNo, p)| > |Current(latest, seqNo)|
    ensures exists path :: p <= path && r == TipOf(path) && IsPreferredPath(BagOf(Fresh(latest, seqNo)), path)
  {
    var now := Fresh(latest, seqNo);
    var path :| IsPreferredPath(BagOf(now), path) && r == TipOf(path);
    hide BagOf, IsPreferredPath, Through, Current;
    ThroughIsVoters(now, p);
    assert Along(now, p) == Passing(latest, seqNo, p);
    CurrentIsFresh(latest, seqNo);
    MajorityPrefixPreferred(BagOf(now), path, p);
  }

  /** The validators current at the anchor whose vote is exactly for the ledger at the end of `b`. */
  function Backing(latest: Latest, seqNo: u32, b: Path): (r: set<NodeId>) {
    set n | n in latest && latest[n].validation.ledgerSeq >= seqNo && latest[n].branch == b
  }

  lemma BackingIsVoters(latest: Latest, seqNo: u32, b: Path)
    ensures VotersFor(Fresh(latest, seqNo), b) == Backing(latest, seqNo, b)
  {
  }

  /** Where more than half of them vote for one ledger on one ancestry, that ledger is the answer. */
  lemma MajorityLedgerIsAnswer(latest: Latest, seqNo: u32, b: Path, r: Option<Hash256>)
    requires IsAnswer(latest, seqNo, r) && b != [] && 2 * |Backing(latest, seqNo, b)| > |Current(latest, seqNo)|
    ensures r == Some(b[|b| - 1])
  {
    var now := Fresh(latest, seqNo);
    var path :| IsPreferredPath(BagOf(now), path) && r == TipOf(path);
    hide BagOf, IsPreferredPath, Through, Fresh, Backing, Current, VotersFor;
    ThroughIsVoters(now, []);
    BagOfCounts(now, b);
    BackingIsVoters(latest, seqNo, b);
    CurrentIsFresh(latest, seqNo);
    MajorityTipPreferred(BagOf(now), path, b);
  }
}
