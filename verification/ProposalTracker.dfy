/** Peer proposals, and the tracker that lets each peer's sequence only go forward within a round. */
module ProposalTracker {
  import opened Primitives
  import opened SortedIds

  const MAX_DISTINCT_PREV_LEDGERS: nat := 64
  const MAX_PROPOSALS_PER_PREV: nat := 16

  datatype Proposal = Proposal(nodeId: NodeId, txSetHash: Hash256, closeTime: u32, propSeq: nat, ledgerSeq: u32,
    prevLedger: Hash256)

  /** A round of one peer. */
  type Key = (NodeId, Hash256)

  type Entries = map<Key, Proposal>

  /** What a tracker holds: the latest proposal per key, and the parent ledgers in order of arrival. */
  datatype Tracked = Tracked(entries: Entries, order: seq<Hash256>)

  const EMPTY: Tracked := Tracked(map[], [])

  function KeyOf(p: Proposal): (k: Key) {
    (p.nodeId, p.prevLedger)
  }

  function KeysOn(entries: Entries, prev: Hash256): (ks: set<Key>) {
    set k | k in entries && k.1 == prev
  }

  function Without(entries: Entries, prev: Hash256): (r: Entries) {
    map k | k in entries && k.1 != prev :: entries[k]
  }

  /** Keys match their proposals, the order names exactly the parents in use, both caps hold. */
  ghost predicate WellFormed(t: Tracked) {
    && (forall k :: k in t.entries ==> KeyOf(t.entries[k]) == k)
    && Distinct(t.order) && |t.order| <= MAX_DISTINCT_PREV_LEDGERS
    && (forall prev :: prev in t.order <==> KeysOn(t.entries, prev) != {})
    && (forall prev :: |KeysOn(t.entries, prev)| <= MAX_PROPOSALS_PER_PREV)
  }

  // ---------------------------------------------------------------- one proposal

  predicate Accepts(t: Tracked, p: Proposal) {
    if KeyOf(p) in t.entries then t.entries[KeyOf(p)].propSeq < p.propSeq
    else p.prevLedger !in t.order || |KeysOn(t.entries, p.prevLedger)| < MAX_PROPOSALS_PER_PREV
  }

  predicate Evicts(t: Tracked, p: Proposal) {
    KeyOf(p) !in t.entries && p.prevLedger !in t.order && |t.order| >= MAX_DISTINCT_PREV_LEDGERS
  }

  /** Room for a new parent ledger: the oldest one leaves with everything on it. */
  function MadeRoom(t: Tracked, p: Proposal): (r: Tracked) {
    if Evicts(t, p) then Tracked(Without(t.entries, t.order[0]), t.order[1..]) else t
  }

  function AfterTrack(t: Tracked, p: Proposal): (r: Tracked) {
    if !Accepts(t, p) then t
    else
      var room := MadeRoom(t, p);
      Tracked(room.entries[KeyOf(p) := p], if p.prevLedger in t.order then room.order else room.order + [p.prevLedger])
  }

  function AfterClear(t: Tracked, prev: Hash256): (r: Tracked) {
    Tracked(Without(t.entries, prev), Drop(t.order, prev))
  }

  lemma KeysOnUpdate(entries: Entries, p: Proposal, prev: Hash256)
    ensures KeysOn(entries[KeyOf(p) := p], prev) == KeysOn(entries, prev) + if prev == p.prevLedger then {KeyOf(p)}
            else {}
  {
  }

  lemma KeysOnWithout(entries: Entries, gone: Hash256, prev: Hash256)
    ensures KeysOn(Without(entries, gone), prev) == if prev == gone then {} else KeysOn(entries, prev)
  {
    if prev != gone {
      assert forall k :: k in KeysOn(Without(entries, gone), prev) <==> k in KeysOn(entries, prev);
    }
  }

  lemma RoomKeeps(t: Tracked, p: Proposal)
    requires WellFormed(t)
    ensures WellFormed(MadeRoom(t, p))
    ensures p.prevLedger !in t.order ==> |MadeRoom(t, p).order| < MAX_DISTINCT_PREV_LEDGERS
    ensures p.prevLedger in MadeRoom(t, p).order <==> p.prevLedger in t.order
    ensures KeysOn(MadeRoom(t, p).entries, p.prevLedger) == KeysOn(t.entries, p.prevLedger)
  {
    assert KeyOf(p) in t.entries ==> KeyOf(p) in KeysOn(t.entries, p.prevLedger);
    if Evicts(t, p) {
      var oldest := t.order[0];
      var room := MadeRoom(t, p);
      forall prev
        ensures prev in room.order <==> KeysOn(room.entries, prev) != {}
        ensures |KeysOn(room.entries, prev)| <= MAX_PROPOSALS_PER_PREV
      {
        KeysOnWithout(t.entries, oldest, prev);
        assert prev in t.order <==> prev == oldest || prev in t.order[1..];
        assert oldest !in t.order[1..];
      }
      KeysOnWithout(t.entries, oldest, p.prevLedger);
    }
  }

  /** Tracking keeps both caps, the keys and the order. */
  lemma TrackKeeps(t: Tracked, p: Proposal)
    requires WellFormed(t)
    ensures WellFormed(AfterTrack(t, p))
  {
    if Accepts(t, p) {
      RoomKeeps(t, p);
      var room, after := MadeRoom(t, p), AfterTrack(t, p);
      assert KeyOf(p) in t.entries ==> KeyOf(p) in KeysOn(t.entries, p.prevLedger);
      Inserted(room, p, after);
    }
  }

  lemma Inserted(t: Tracked, p: Proposal, after: Tracked)
    requires WellFormed(t)
    requires KeyOf(p) in t.entries || |KeysOn(t.entries, p.prevLedger)| < MAX_PROPOSALS_PER_PREV
    requires p.prevLedger !in t.order ==> |t.order| < MAX_DISTINCT_PREV_LEDGERS
    requires after
             == Tracked(t.entries[KeyOf(p) := p], if p.prevLedger in t.order then t.order else t.order + [p.prevLedger])
    ensures WellFormed(after)
  {
    forall prev
      ensures prev in after.order <==> KeysOn(after.entries, prev) != {}
      ensures |KeysOn(after.entries, prev)| <= MAX_PROPOSALS_PER_PREV
    {
      KeysOnUpdate(t.entries, p, prev);
      assert KeyOf(p) in t.entries ==> KeyOf(p) in KeysOn(t.entries, p.prevLedger);
      assert KeyOf(p) in t.entries && prev == p.prevLedger ==> KeysOn(after.entries, prev) == KeysOn(t.entries, prev);
    }
  }

  lemma ClearKeeps(t: Tracked, prev: Hash256)
    requires WellFormed(t)
    ensures WellFormed(AfterClear(t, prev))
  {
    DropRemoves(t.order, prev);
    forall h
      ensures h in Drop(t.order, prev) <==> KeysOn(Without(t.entries, prev), h) != {}
      ensures |KeysOn(Without(t.entries, prev), h)| <= MAX_PROPOSALS_PER_PREV
    {
      KeysOnWithout(t.entries, prev, h);
    }
  }

  /** A key's proposal is only replaced by one with a higher sequence, and only leaves with the
      oldest parent when a sixty-fifth arrives. */
  lemma TrackAdvances(t: Tracked, p: Proposal, k: Key)
    requires WellFormed(t) && k in t.entries
    ensures k in AfterTrack(t, p).entries ==>
              var was, now := t.entries[k], AfterTrack(t, p).entries[k];
              now == was || (now == p && k == KeyOf(p) && was.propSeq < now.propSeq)
    ensures k !in AfterTrack(t, p).entries ==>
              |t.order| == MAX_DISTINCT_PREV_LEDGERS && k.1 == t.order[0] && p.prevLedger !in t.order
  {
  }

  /** At most 1024 proposals are ever held. */
  lemma {:induction false} EntriesBounded(t: Tracked)
    requires WellFormed(t)
    ensures |t.entries| <= MAX_PROPOSALS_PER_PREV * |t.order|
    ensures |t.entries| <= 1024
    decreases |t.order|
  {
    assert forall k :: k in t.entries ==> k in KeysOn(t.entries, k.1);
    if t.order == [] {
      assert t.entries == map[];
    } else {
      var oldest := t.order[0];
      var rest := Tracked(Without(t.entries, oldest), t.order[1..]);
      forall prev
        ensures prev in rest.order <==> KeysOn(rest.entries, prev) != {}
        ensures |KeysOn(rest.entries, prev)| <= MAX_PROPOSALS_PER_PREV
      {
        KeysOnWithout(t.entries, oldest, prev);
        assert prev in t.order <==> prev == oldest || prev in t.order[1..];
      }
      EntriesBounded(rest);
      SplitSize(t.entries, oldest);
    }
  }

  lemma SplitSize(entries: Entries, prev: Hash256)
    ensures |entries| == |Without(entries, prev)| + |KeysOn(entries, prev)|
  {
    assert entries.Keys == Without(entries, prev).Keys + KeysOn(entries, prev);
    assert |entries| == |entries.Keys| && |Without(entries, prev)| == |Without(entries, prev).Keys|;
  }

  // ---------------------------------------------------------------- runs against a plain reference

  function Run(ps: seq<Proposal>): (t: Tracked) {
    if ps == [] then EMPTY else AfterTrack(Run(ps[..|ps| - 1]), ps[|ps| - 1])
  }

  /** The reference: the first proposal with the highest sequence for a key. */
  ghost predicate IsNewest(ps: seq<Proposal>, k: Key, p: Proposal) {
    exists i :: IsNewestAt(ps, k, i) && ps[i] == p
  }

  ghost predicate IsNewestAt(ps: seq<Proposal>, k: Key, i: int) {
    && 0 <= i < |ps| && KeyOf(ps[i]) == k
    && (forall j :: 0 <= j < |ps| && KeyOf(ps[j]) == k ==> ps[j].propSeq <= ps[i].propSeq)
    && (forall j :: 0 <= j < i && KeyOf(ps[j]) == k ==> ps[j].propSeq < ps[i].propSeq)
  }

  function Parents(ps: seq<Proposal>): (s: set<Hash256>) {
    set i | 0 <= i < |ps| :: ps[i].prevLedger
  }

  function KeysOffered(ps: seq<Proposal>, prev: Hash256): (s: set<Key>) {
    set i | 0 <= i < |ps| && ps[i].prevLedger == prev :: KeyOf(ps[i])
  }

  /** No cap is reached in a run: at most sixty-four parent ledgers, and sixteen peers on each. */
  ghost predicate WithinCaps(ps: seq<Proposal>) {
    |Parents(ps)| <= 64 && forall prev :: |KeysOffered(ps, prev)| <= 16
  }

  lemma WithinCapsPrefix(ps: seq<Proposal>)
    requires ps != [] && WithinCaps(ps)
    ensures WithinCaps(ps[..|ps| - 1])
  {
    var rest := ps[..|ps| - 1];
    assert Parents(rest) <= Parents(ps);
    SubsetSize(Parents(rest), Parents(ps));
    forall prev ensures |KeysOffered(rest, prev)| <= MAX_PROPOSALS_PER_PREV {
      assert KeysOffered(rest, prev) <= KeysOffered(ps, prev);
      SubsetSize(KeysOffered(rest, prev), KeysOffered(ps, prev));
    }
  }

  lemma {:induction false} RunKeeps(ps: seq<Proposal>)
    ensures WellFormed(Run(ps))
    decreases |ps|
  {
    if ps != [] {
      RunKeeps(ps[..|ps| - 1]);
      TrackKeeps(Run(ps[..|ps| - 1]), ps[|ps| - 1]);
    }
  }

  /** Everything held was offered. */
  lemma {:induction false} RunHoldsOffered(ps: seq<Proposal>)
    ensures forall k :: k in Run(ps).entries ==> k in KeysOffered(ps, k.1)
    ensures forall prev :: prev in Run(ps).order ==> prev in Parents(ps)
    decreases |ps|
  {
    if ps != [] {
      var rest, p := ps[..|ps| - 1], ps[|ps| - 1];
      RunHoldsOffered(rest);
      forall k | k in Run(ps).entries ensures k in KeysOffered(ps, k.1) {
        if k in Run(rest).entries {
          var i :| 0 <= i < |rest| && rest[i].prevLedger == k.1 && KeyOf(rest[i]) == k;
          assert ps[i] == rest[i];
        }
      }
      forall prev | prev in Run(ps).order ensures prev in Parents(ps) {
        if prev in Run(rest).order {
          var i :| 0 <= i < |rest| && rest[i].prevLedger == prev;
          assert ps[i] == rest[i];
        }
      }
    }
  }

  lemma {:induction false} DistinctSize(order: seq<Hash256>, s: set<Hash256>)
    requires Distinct(order) && forall h :: h in order ==> h in s
    ensures |order| <= |s|
    decreases |order|
  {
    if order != [] {
      var rest, last := order[..|order| - 1], order[|order| - 1];
      assert order == rest + [last] && last !in rest;
      DistinctSize(rest, s - {last});
    }
  }

  /** Within the caps nothing is evicted and nobody is turned away. */
  lemma RoomWithinCaps(ps: seq<Proposal>)
    requires ps != [] && WithinCaps(ps)
    ensures var t, p := Run(ps[..|ps| - 1]), ps[|ps| - 1];
            && !Evicts(t, p)
            && (KeyOf(p) !in t.entries ==> Accepts(t, p))
  {
    var rest, p := ps[..|ps| - 1], ps[|ps| - 1];
    var t := Run(rest);
    RunKeeps(rest);
    RunHoldsOffered(rest);
    assert Parents(rest) <= Parents(ps) && p.prevLedger in Parents(ps);
    assert KeysOffered(rest, p.prevLedger) <= KeysOffered(ps, p.prevLedger)
      && KeyOf(p) in KeysOffered(ps, p.prevLedger);
    if p.prevLedger !in t.order {
      assert forall h :: h in t.order ==> h in Parents(ps) - {p.prevLedger};
      DistinctSize(t.order, Parents(ps) - {p.prevLedger});
    }
    if KeyOf(p) !in t.entries {
      assert forall k :: k in KeysOn(t.entries, p.prevLedger) ==> k in KeysOffered(ps, p.prevLedger) - {KeyOf(p)};
      SubsetSize(KeysOn(t.entries, p.prevLedger), KeysOffered(ps, p.prevLedger) - {KeyOf(p)});
    }
  }

  lemma NewestStep(ps: seq<Proposal>, k: Key, i: int)
    requires ps != [] && IsNewestAt(ps[..|ps| - 1], k, i)
    ensures var p := ps[|ps| - 1];
            if KeyOf(p) == k && ps[i].propSeq < p.propSeq then IsNewestAt(ps, k, |ps| - 1) else IsNewestAt(ps, k, i)
  {
    var rest := ps[..|ps| - 1];
    assert forall j :: 0 <= j < |rest| ==> rest[j] == ps[j];
  }

  /** One step of the reference. */
  lemma NewestAfter(t: Tracked, ps: seq<Proposal>, k: Key)
    requires ps != [] && k in AfterTrack(t, ps[|ps| - 1]).entries && !Evicts(t, ps[|ps| - 1])
    requires k in t.entries ==> IsNewest(ps[..|ps| - 1], k, t.entries[k])
    requires k !in t.entries ==> k !in KeysOffered(ps[..|ps| - 1], k.1)
    ensures IsNewest(ps, k, AfterTrack(t, ps[|ps| - 1]).entries[k])
  {
    var p := ps[|ps| - 1];
    var now := AfterTrack(t, p).entries[k];
    if k in t.entries {
      assert now == if k == KeyOf(p) && t.entries[k].propSeq < p.propSeq then p else t.entries[k];
      var i :| IsNewestAt(ps[..|ps| - 1], k, i) && ps[..|ps| - 1][i] == t.entries[k];
      NewestStep(ps, k, i);
    } else {
      assert now == p && k == KeyOf(p);
      FirstOffer(ps, k);
    }
  }

  lemma KeptOffered(t: Tracked, ps: seq<Proposal>, k: Key)
    requires ps != [] && !Evicts(t, ps[|ps| - 1])
    requires KeyOf(ps[|ps| - 1]) !in t.entries ==> Accepts(t, ps[|ps| - 1])
    requires k in KeysOffered(ps[..|ps| - 1], k.1) ==> k in t.entries
    requires k in KeysOffered(ps, k.1)
    ensures k in AfterTrack(t, ps[|ps| - 1]).entries
  {
    var rest := ps[..|ps| - 1];
    var i :| 0 <= i < |ps| && ps[i].prevLedger == k.1 && KeyOf(ps[i]) == k;
    assert i < |rest| ==> rest[i] == ps[i];
  }

  /** Over every run within the caps the tracker is the plain reference: each key holds the first
      proposal with its highest sequence, and every key offered is held. */
  lemma {:induction false} RunIsNewest(ps: seq<Proposal>)
    requires WithinCaps(ps)
    ensures forall k :: k in Run(ps).entries <==> k in KeysOffered(ps, k.1)
    ensures forall k :: k in Run(ps).entries ==> IsNewest(ps, k, Run(ps).entries[k])
    decreases |ps|
  {
    if ps != [] {
      var rest, p := ps[..|ps| - 1], ps[|ps| - 1];
      var t := Run(rest);
      assert Run(ps) == AfterTrack(t, p);
      hide WithinCaps, AfterTrack, Accepts, Evicts, IsNewest, KeysOffered, Run;
      WithinCapsPrefix(ps);
      RunIsNewest(rest);
      RoomWithinCaps(ps);
      RunHoldsOffered(ps);
      forall k: Key | k in KeysOffered(ps, k.1) ensures k in Run(ps).entries {
        KeptOffered(t, ps, k);
      }
      forall k | k in Run(ps).entries ensures IsNewest(ps, k, Run(ps).entries[k]) {
        NewestAfter(t, ps, k);
      }
    }
  }

  lemma FirstOffer(ps: seq<Proposal>, k: Key)
    requires ps != [] && KeyOf(ps[|ps| - 1]) == k && k !in KeysOffered(ps[..|ps| - 1], k.1)
    ensures IsNewestAt(ps, k, |ps| - 1)
  {
    var rest := ps[..|ps| - 1];
    forall j | 0 <= j < |rest| ensures KeyOf(ps[j]) != k {
      assert rest[j] == ps[j];
      assert KeyOf(rest[j]) == k ==> k in KeysOffered(rest, k.1);
    }
  }

  // ---------------------------------------------------------------- the tracker

  class ProposalTracker {
    var proposals: Entries
    var prevLedgerOrder: seq<Hash256>
    var droppedDedup: nat

    ghost function View(): (t: Tracked)
      reads this
    {
      Tracked(proposals, prevLedgerOrder)
    }

    ghost predicate Valid()
      reads this
    {
      WellFormed(View())
    }

    constructor ()
      ensures Valid() && View() == EMPTY && droppedDedup == 0
    {
      proposals, prevLedgerOrder, droppedDedup := map[], [], 0;
    }

    /** How many peers have a proposal on a parent ledger. */
    method CountFor(prev: Hash256) returns (count: nat)
      ensures count == |KeysOn(proposals, prev)|
    {
      count := 0;
      var rest := proposals.Keys;
      while rest != {}
        invariant rest <= proposals.Keys
        invariant count == |KeysOn(proposals, prev) - rest|
        decreases rest
      {
        var k :| k in rest;
        CountStep(KeysOn(proposals, prev), rest, k);
        if k.1 == prev {
          count := count + 1;
        }
        rest := rest - {k};
      }
      assert KeysOn(proposals, prev) - rest == KeysOn(proposals, prev);
    }

    method Track(p: Proposal) returns (accepted: bool)
      requires Valid()
      modifies this
      ensures Valid()
      ensures accepted <==> Accepts(old(View()), p)
      ensures View() == AfterTrack(old(View()), p)
      ensures droppedDedup == old(droppedDedup)
                              + if KeyOf(p) in old(proposals) && old(proposals)[KeyOf(p)].propSeq >= p.propSeq then 1
                                else 0
    {
      TrackKeeps(View(), p);
      hide WellFormed;
      var key := KeyOf(p);
      if key in proposals {
        InOrder(View(), p);
        if proposals[key].propSeq >= p.propSeq {
          droppedDedup := droppedDedup + 1;
          return false;
        }
        proposals := proposals[key := p];
        return true;
      }
      var isNew := p.prevLedger !in prevLedgerOrder;
      if !isNew {
        var count := CountFor(p.prevLedger);
        if count >= MAX_PROPOSALS_PER_PREV {
          return false;
        }
      } else if |prevLedgerOrder| >= MAX_DISTINCT_PREV_LEDGERS {
        var oldest := prevLedgerOrder[0];
        prevLedgerOrder := prevLedgerOrder[1..];
        proposals := Without(proposals, oldest);
      }
      proposals := proposals[key := p];
      if isNew {
        prevLedgerOrder := prevLedgerOrder + [p.prevLedger];
      }
      return true;
    }

    method ClearFor(prev: Hash256)
      requires Valid()
      modifies this
      ensures Valid() && droppedDedup == old(droppedDedup)
      ensures View() == AfterClear(old(View()), prev)
    {
      ClearKeeps(View(), prev);
      proposals := Without(proposals, prev);
      prevLedgerOrder := Drop(prevLedgerOrder, prev);
    }
  }

  lemma InOrder(t: Tracked, p: Proposal)
    requires WellFormed(t) && KeyOf(p) in t.entries
    ensures p.prevLedger in t.order
  {
    assert KeyOf(p) in KeysOn(t.entries, p.prevLedger);
  }
}
