/** Proposals held for a parent ledger we have not reached yet. */
module HoldingPen {
  import opened Primitives
  import opened ProposalTracker

  const MAX_KEYS: nat := 64
  const MAX_PER_KEY: nat := 16
  const STALE_LEDGERS: nat := 5

  type Held = map<Hash256, seq<Proposal>>

  /** `Vec::retain`. */
  function Retain(ps: seq<Proposal>, keep: Proposal -> bool): (r: seq<Proposal>) {
    if ps == [] then []
    else Retain(ps[..|ps| - 1], keep) + if keep(ps[|ps| - 1]) then [ps[|ps| - 1]] else []
  }

  predicate NodesDistinct(ps: seq<Proposal>) {
    forall i, j :: 0 <= i < j < |ps| ==> ps[i].nodeId != ps[j].nodeId
  }

  lemma {:induction false} RetainKeeps(ps: seq<Proposal>, keep: Proposal -> bool)
    ensures forall p :: p in Retain(ps, keep) <==> p in ps && keep(p)
    ensures |Retain(ps, keep)| <= |ps|
    ensures NodesDistinct(ps) ==> NodesDistinct(Retain(ps, keep))
    decreases |ps|
  {
    if ps != [] {
      var rest, last := ps[..|ps| - 1], ps[|ps| - 1];
      RetainKeeps(rest, keep);
      assert ps == rest + [last];
      assert NodesDistinct(ps) ==> forall p :: p in rest ==> p.nodeId != last.nodeId;
      AppendDistinct(Retain(rest, keep), last);
    }
  }

  lemma AppendDistinct(ps: seq<Proposal>, p: Proposal)
    ensures NodesDistinct(ps) && (forall q :: q in ps ==> q.nodeId != p.nodeId) ==> NodesDistinct(ps + [p])
  {
  }

  /** A group is never empty nor over the cap, belongs to its key and has one proposal a peer. */
  ghost predicate Tidy(key: Hash256, ps: seq<Proposal>) {
    && 0 < |ps| <= MAX_PER_KEY && NodesDistinct(ps)
    && forall p :: p in ps ==> p.prevLedger == key
  }

  ghost predicate TidyHeld(held: Held) {
    |held| <= MAX_KEYS && forall k :: k in held ==> Tidy(k, held[k])
  }

  function Group(held: Held, key: Hash256): (ps: seq<Proposal>) {
    if key in held then held[key] else []
  }

  function Queued(ps: seq<Proposal>, p: Proposal): (r: seq<Proposal>) {
    Retain(if |ps| >= MAX_PER_KEY then ps[1..] else ps, (q: Proposal) => q.nodeId != p.nodeId) + [p]
  }

  /** The lowest ledger sequence of a group. */
  function MinSeq(ps: seq<Proposal>): (m: u32) {
    if ps == [] then U32_MAX
    else
      var m := MinSeq(ps[..|ps| - 1]);
      if ps[|ps| - 1].ledgerSeq < m then ps[|ps| - 1].ledgerSeq else m
  }

  predicate IsOldest(held: Held, key: Hash256) {
    key in held && forall k :: k in held ==> MinSeq(held[key]) <= MinSeq(held[k])
  }

  /** The pen after a proposal: it joins its group, and when that is one group too many a group
      with the lowest sequence leaves. */
  ghost predicate HeldAfter(before: Held, p: Proposal, after: Held) {
    var joined := before[p.prevLedger := Queued(Group(before, p.prevLedger), p)];
    if |joined| <= MAX_KEYS then after == joined
    else exists victim :: IsOldest(joined, victim) && after == joined - {victim}
  }

  method Hold(held: Held, p: Proposal) returns (after: Held)
    ensures HeldAfter(held, p, after)
  {
    after := held[p.prevLedger := Queued(Group(held, p.prevLedger), p)];
    if |after| > MAX_KEYS {
      var victim: Hash256 :| victim in after;
      var rest := after.Keys - {victim};
      while rest != {}
        invariant rest <= after.Keys && victim in after
        invariant forall k :: k in after && k !in rest ==> MinSeq(after[victim]) <= MinSeq(after[k])
        decreases rest
      {
        var k :| k in rest;
        if MinSeq(after[k]) < MinSeq(after[victim]) { victim := k; }
        rest := rest - {k};
      }
      assert IsOldest(after, victim);
      after := after - {victim};
    }
  }

  lemma QueuedIsTidy(ps: seq<Proposal>, p: Proposal)
    requires ps == [] || Tidy(p.prevLedger, ps)
    ensures Tidy(p.prevLedger, Queued(ps, p)) && p in Queued(ps, p)
  {
    var keep := (q: Proposal) => q.nodeId != p.nodeId;
    var trimmed := if |ps| >= MAX_PER_KEY then ps[1..] else ps;
    TrimmedTidy(ps, p.prevLedger);
    var others := Retain(trimmed, keep);
    assert Queued(ps, p) == others + [p];
    hide Retain, Queued, NodesDistinct;
    RetainKeeps(trimmed, keep);
    AppendDistinct(others, p);
  }

  /** A full group loses its first proposal to make room, the peer's earlier one gives way, and the
      others stay. */
  lemma QueuedIff(ps: seq<Proposal>, p: Proposal, q: Proposal)
    requires ps == [] || Tidy(p.prevLedger, ps)
    ensures q in Queued(ps, p) <==> q == p || (q in ps && q.nodeId != p.nodeId && !(|ps| == 16 && q == ps[0]))
    ensures Queued(ps, p)[|Queued(ps, p)| - 1] == p
  {
    var keep := (x: Proposal) => x.nodeId != p.nodeId;
    var trimmed := if |ps| >= MAX_PER_KEY then ps[1..] else ps;
    RetainKeeps(trimmed, keep);
    assert Queued(ps, p) == Retain(trimmed, keep) + [p];
    hide Retain, Queued;
    if ps != [] { TrimmedIff(p.prevLedger, ps, q); }
    hide Tidy;
  }

  lemma TrimmedIff(key: Hash256, ps: seq<Proposal>, q: Proposal)
    requires Tidy(key, ps)
    ensures q in (if |ps| >= MAX_PER_KEY then ps[1..] else ps) <==> q in ps && !(|ps| == 16 && q == ps[0])
  {
    assert ps == [ps[0]] + ps[1..];
    assert forall i :: 1 <= i < |ps| ==> ps[i].nodeId != ps[0].nodeId;
  }

  /** The lowest sequence is one of the group and below none of it. */
  lemma {:induction false} MinSeqIsLeast(ps: seq<Proposal>)
    ensures forall p :: p in ps ==> MinSeq(ps) <= p.ledgerSeq
    ensures ps != [] ==> exists p :: p in ps && p.ledgerSeq == MinSeq(ps)
    decreases |ps|
  {
    if ps != [] {
      var rest, last := ps[..|ps| - 1], ps[|ps| - 1];
      MinSeqIsLeast(rest);
      assert ps == rest + [last];
      if last.ledgerSeq < MinSeq(rest) || rest == [] {
        assert last in ps && last.ledgerSeq == MinSeq(ps);
      } else {
        var p :| p in rest && p.ledgerSeq == MinSeq(rest);
        assert p in ps;
      }
    }
  }

  /** A group that leaves for want of room holds a proposal no later than any that stays. */
  lemma VictimIsOldest(before: Held, p: Proposal, after: Held, k: Hash256, q: Proposal)
    requires TidyHeld(before) && HeldAfter(before, p, after) && k in after && q in after[k]
    requires |before| == MAX_KEYS && p.prevLedger !in before
    ensures exists gone, r :: gone !in after && (gone in before || gone == p.prevLedger)
                              && (r == p || r in Group(before, gone)) && r.ledgerSeq <= q.ledgerSeq
  {
    var joined := before[p.prevLedger := Queued(Group(before, p.prevLedger), p)];
    assert joined.Keys == before.Keys + {p.prevLedger};
    assert |joined| == |joined.Keys| && |before| == |before.Keys|;
    var gone :| IsOldest(joined, gone) && after == joined - {gone};
    QueuedIsTidy([], p);
    QueuedIff([], p, p);
    MinSeqIsLeast(joined[gone]);
    MinSeqIsLeast(joined[k]);
    var r :| r in joined[gone] && r.ledgerSeq == MinSeq(joined[gone]);
    QueuedIff([], p, r);
    hide Queued, MinSeq, Tidy;
    assert gone !in after && (r == p || r in Group(before, gone)) && r.ledgerSeq <= q.ledgerSeq;
  }

  lemma TrimmedTidy(ps: seq<Proposal>, key: Hash256)
    requires ps == [] || Tidy(key, ps)
    ensures var trimmed := if |ps| >= MAX_PER_KEY then ps[1..] else ps;
            |trimmed| < MAX_PER_KEY && NodesDistinct(trimmed) && forall q :: q in trimmed ==> q.prevLedger == key
  {
    assert ps != [] ==> forall q :: q in ps[1..] ==> q in ps;
  }

  /** Holding keeps both caps and one proposal a peer, and touches no other group but the victim. */
  lemma HoldKeepsTidy(before: Held, p: Proposal, after: Held)
    requires TidyHeld(before) && HeldAfter(before, p, after)
    ensures TidyHeld(after)
    ensures forall k :: k in after ==> k == p.prevLedger || (k in before && after[k] == before[k])
    ensures |before| < MAX_KEYS ==> p.prevLedger in after && p in after[p.prevLedger] && before.Keys <= after.Keys
  {
    var group := Queued(Group(before, p.prevLedger), p);
    var joined := before[p.prevLedger := group];
    QueuedIsTidy(Group(before, p.prevLedger), p);
    hide Tidy, Queued, MinSeq, Group;
    JoinedSize(before, p.prevLedger, group);
    if |joined| > MAX_KEYS {
      var victim :| IsOldest(joined, victim) && after == joined - {victim};
      SmallerMap(joined, victim);
    }
  }

  lemma JoinedSize(held: Held, key: Hash256, ps: seq<Proposal>)
    ensures |held[key := ps]| <= |held| + 1
  {
    assert held[key := ps].Keys == held.Keys + {key};
    assert |held[key := ps]| == |held[key := ps].Keys| && |held| == |held.Keys|;
  }

  // ---------------------------------------------------------------- a new round

  function Fresh(ps: seq<Proposal>, ledgerSeq: u32): (r: seq<Proposal>) {
    Retain(ps, (p: Proposal) => p.ledgerSeq + STALE_LEDGERS >= ledgerSeq)
  }

  function WithoutStale(held: Held, ledgerSeq: u32): (r: Held) {
    map k | k in held && Fresh(held[k], ledgerSeq) != [] :: Fresh(held[k], ledgerSeq)
  }

  /** What is kept are exactly the proposals at most five ledgers behind. */
  lemma KeptIff(held: Held, ledgerSeq: u32, k: Hash256, p: Proposal)
    ensures p in Group(WithoutStale(held, ledgerSeq), k) <==> p in Group(held, k) && ledgerSeq <= p.ledgerSeq + 5
  {
    if k in held { RetainKeeps(held[k], (q: Proposal) => q.ledgerSeq + STALE_LEDGERS >= ledgerSeq); }
  }

  lemma WithoutStaleTidy(held: Held, ledgerSeq: u32)
    requires TidyHeld(held)
    ensures TidyHeld(WithoutStale(held, ledgerSeq))
    ensures |WithoutStale(held, ledgerSeq)| <= |held|
    ensures forall k, p :: k in WithoutStale(held, ledgerSeq) && p in WithoutStale(held, ledgerSeq)[k] ==>
              k in held && p in held[k] && p.ledgerSeq + STALE_LEDGERS >= ledgerSeq
  {
    var after := WithoutStale(held, ledgerSeq);
    forall k | k in after
      ensures Tidy(k, after[k])
      ensures forall p :: p in after[k] ==> p in held[k] && p.ledgerSeq + STALE_LEDGERS >= ledgerSeq
    {
      RetainKeeps(held[k], (p: Proposal) => p.ledgerSeq + STALE_LEDGERS >= ledgerSeq);
    }
    assert after.Keys <= held.Keys;
    SubsetSize(after.Keys, held.Keys);
    assert |after| == |after.Keys| && |held| == |held.Keys|;
  }

  /** How many proposals are held in all. */
  ghost function Total(held: Held): (n: nat)
    decreases |held|
  {
    if held == map[] then 0
    else
      var k :| k in held;
      SmallerMap(held, k);
      |held[k]| + Total(held - {k})
  }

  lemma SmallerMap(held: Held, k: Hash256)
    requires k in held
    ensures |held - {k}| == |held| - 1
  {
    assert (held - {k}).Keys == held.Keys - {k};
    assert |held - {k}| == |(held - {k}).Keys| && |held| == |held.Keys|;
  }

  lemma {:induction false} TotalBounded(held: Held)
    requires forall k :: k in held ==> |held[k]| <= MAX_PER_KEY
    ensures Total(held) <= MAX_PER_KEY * |held|
    decreases |held|
  {
    if held != map[] {
      var k :| k in held && Total(held) == |held[k]| + Total(held - {k});
      SmallerMap(held, k);
      TotalBounded(held - {k});
    }
  }
}
