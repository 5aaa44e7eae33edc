/** A run of the engine that fills the buffer of pending proposals to its true limit: twice the cap. */
module BufferLimits {
  import opened Primitives
  import opened Unl
  import opened Tracking = ProposalTracker
  import opened HoldingPen
  import opened Disputes
  import opened RoundState
  import opened Quorum
  import opened Convergence
  import opened EngineRuns
  import opened Engine

  /** The parent ledgers proposals are held for: as many as the pen has groups. */
  const FIRST: nat := 2
  const LAST: nat := 66

  function Early(key: Hash256, peer: nat): (p: Proposal) {
    Proposal(peer, 0, 100, 0, 11, key)
  }

  function Members(key: Hash256, n: nat): (ps: seq<Proposal>) {
    seq(n, peer requires 0 <= peer < n => Early(key, peer))
  }

  function Interval(lo: nat, hi: nat): (s: set<nat>)
    ensures forall k :: k in s <==> lo <= k < hi
    ensures |s| == if lo < hi then hi - lo else 0
  {
    if lo >= hi then {} else Interval(lo, hi - 1) + {hi - 1}
  }

  /** Full groups for the keys from `lo` up to `g`, and `j` proposals for `g`. */
  function Grid(lo: nat, g: nat, j: nat): (held: Held) {
    var keys := Interval(lo, if j > 0 then g + 1 else g);
    map k | k in keys :: Members(k, if k < g then MAX_PER_KEY else j)
  }

  lemma {:induction false} RetainAll(ps: seq<Proposal>, keep: Proposal -> bool)
    requires forall p :: p in ps ==> keep(p)
    ensures Retain(ps, keep) == ps
    decreases |ps|
  {
    if ps != [] {
      var rest := ps[..|ps| - 1];
      assert forall p :: p in rest ==> p in ps;
      RetainAll(rest, keep);
      assert ps == rest + [ps[|ps| - 1]];
    }
  }

  lemma QueuedNext(key: Hash256, j: nat)
    requires j < MAX_PER_KEY
    ensures Queued(Members(key, j), Early(key, j)) == Members(key, j + 1)
  {
    RetainAll(Members(key, j), (q: Proposal) => q.nodeId != Early(key, j).nodeId);
  }

  lemma GridJoin(g: nat, j: nat)
    requires FIRST <= g < LAST && j < MAX_PER_KEY
    ensures Group(Grid(FIRST, g, j), g) == Members(g, j)
    ensures Grid(FIRST, g, j)[g := Members(g, j + 1)] == Grid(FIRST, g, j + 1)
    ensures |Grid(FIRST, g, j + 1)| == g + 1 - FIRST
  {
    hide Members, Interval;
    assert Members(g, 0) == [] by { NoMembers(g); }
    var joined := Grid(FIRST, g, j + 1);
    assert joined.Keys == Interval(FIRST, g + 1);
    assert |joined| == |joined.Keys|;
  }

  lemma NoMembers(key: Hash256)
    ensures Members(key, 0) == []
  {
  }

  lemma GridStep(g: nat, j: nat, after: Held)
    requires FIRST <= g < LAST && j < MAX_PER_KEY && HeldAfter(Grid(FIRST, g, j), Early(g, j), after)
    ensures after == Grid(FIRST, g, j + 1)
  {
    hide Queued, Members, Grid, Group;
    GridJoin(g, j);
    QueuedNext(g, j);
  }

  lemma AllFresh(key: Hash256)
    ensures Fresh(Members(key, MAX_PER_KEY), 11) == Members(key, MAX_PER_KEY)
  {
    RetainAll(Members(key, MAX_PER_KEY), (p: Proposal) => p.ledgerSeq + STALE_LEDGERS >= 11);
  }

  lemma GridStart(lo: nat)
    requires FIRST <= lo < LAST
    ensures Group(Grid(lo, LAST, 0), lo) == Members(lo, MAX_PER_KEY)
    ensures WithoutStale(Grid(lo, LAST, 0) - {lo}, 11) == Grid(lo + 1, LAST, 0)
  {
    var rest := Grid(lo, LAST, 0) - {lo};
    forall k | k in rest ensures Fresh(rest[k], 11) == rest[k] && rest[k] != [] {
      AllFresh(k);
    }
  }

  /** A node without a validator list, in an established round with nothing in it. */
  ghost predicate Quiet(engine: ConsensusEngine)
    reads engine, engine.unl
  {
    engine.unl.trusted == {} && engine.peers == map[] && engine.pending == [] && engine.prevLedger == 1
  }

  method Established(node: Node) returns (engine: ConsensusEngine)
    ensures fresh(engine) && fresh(engine.tracker) && engine.Valid() && engine.node == node
    ensures Quiet(engine) && engine.phase.Establish? && engine.held == map[]
  {
    hide Inv;
    var unl := new TrustedValidatorList({});
    engine := new ConsensusEngine(node, None, unl, 30);
    engine.StartRound(1, 10, 0, 30);
    assert engine.held == map[] && engine.pending == [];
    var ok := engine.CloseLedger(TxSet(0, []), 100, 10, (i: nat) => map[]);
  }

  method HoldOne(engine: ConsensusEngine, g: nat, j: nat)
    requires engine.Valid() && engine.phase.Establish? && Quiet(engine)
    requires FIRST <= g < LAST && j < MAX_PER_KEY && engine.held == Grid(FIRST, g, j)
    modifies engine, engine.tracker
    ensures engine.Valid() && engine.phase.Establish? && Quiet(engine) && engine.held == Grid(FIRST, g, j + 1)
  {
    hide Inv, HeldAfter, Grid;
    engine.PeerProposal(Early(g, j), 100, map[]);
    GridStep(g, j, engine.held);
  }

  method HoldAll(engine: ConsensusEngine)
    requires engine.Valid() && engine.phase.Establish? && Quiet(engine) && engine.held == map[]
    modifies engine, engine.tracker
    ensures engine.Valid() && engine.phase.Establish? && Quiet(engine) && engine.held == Grid(FIRST, LAST, 0)
  {
    hide Inv;
    assert engine.held == Grid(FIRST, FIRST, 0);
    for g := FIRST to LAST
      invariant engine.Valid() && engine.phase.Establish? && Quiet(engine) && engine.held == Grid(FIRST, g, 0)
    {
      for j := 0 to MAX_PER_KEY
        invariant engine.Valid() && engine.phase.Establish? && Quiet(engine) && engine.held == Grid(FIRST, g, j)
      {
        HoldOne(engine, g, j);
      }
      assert Grid(FIRST, g, MAX_PER_KEY) == Grid(FIRST, g + 1, 0);
    }
  }

  lemma AloneAgrees(s: Round, our: Proposal, u: UnlView, params: Params)
    requires u.trusted == {} && s.peers == map[] && params.maxThreshold <= 100
    ensures forall poll: Poll :: poll.minTimeElapsed ==> Decides(s, our, u, params, poll)
  {
    assert SameSet(s.peers, our) == {};
  }

  /** Accepted alone, and then as many proposals as the buffer takes. */
  method FillPending(engine: ConsensusEngine)
    requires engine.Valid() && engine.phase.Establish? && Quiet(engine) && engine.node.params.maxThreshold <= 100
    modifies engine, engine.tracker
    ensures engine.Valid() && engine.unl.trusted == {} && engine.held == old(engine.held)
    ensures |engine.pending| == PENDING_PROPOSALS_MAX
  {
    hide Inv, HeldAfter;
    ghost var s := engine.View();
    var accepted := engine.Converge(true, false, false);
    AloneAgrees(s, engine.ourPosition.value, engine.unl.View(), engine.node.params);
    for i := 0 to PENDING_PROPOSALS_MAX
      invariant engine.Valid() && engine.phase.Accepted? && engine.unl.trusted == {}
      invariant engine.held == s.held && |engine.pending| == i
    {
      engine.PeerProposal(Early(1, i), 100, map[]);
    }
  }

  /** A round start on a held parent moves its group into the buffer. */
  method Release(engine: ConsensusEngine, lo: nat)
    requires engine.Valid() && FIRST <= lo < LAST && engine.held == Grid(lo, LAST, 0)
    modifies engine, engine.tracker
    ensures engine.Valid() && engine.held == Grid(lo + 1, LAST, 0)
    ensures |engine.pending| == |old(engine.pending)| + MAX_PER_KEY
  {
    hide Inv, Grid, Group, WithoutStale;
    GridStart(lo);
    engine.StartRound(lo, 11, 100, 30);
  }

  /** The cap of 1024 is checked on arrival only: what round starts move in from the pen comes on top
      of it, up to as much again. */
  method OverfillPending(node: Node) returns (engine: ConsensusEngine)
    requires node.params.maxThreshold <= 100
    ensures engine.Valid() && |engine.pending| == 2 * PENDING_PROPOSALS_MAX
  {
    hide Inv, Grid;
    engine := Established(node);
    HoldAll(engine);
    FillPending(engine);
    for lo := FIRST to LAST
      invariant engine.Valid() && fresh(engine) && fresh(engine.tracker) && engine.held == Grid(lo, LAST, 0)
      invariant |engine.pending| == PENDING_PROPOSALS_MAX + MAX_PER_KEY * (lo - FIRST)
    {
      Release(engine, lo);
    }
  }
}
