/** The trusted validator list: who counts toward quorum, and how many are needed. */
module Unl {
  import opened Primitives

  /** 80% of the effective size, rounded up. */
  function QuorumThreshold(size: nat): (q: nat) {
    if size == 0 then 0 else (size * 80 + 99) / 100
  }

  /** The quorum is the least count that is at least 80% of the list. */
  lemma QuorumIsLeast(size: nat, count: nat)
    ensures count >= QuorumThreshold(size) <==> 100 * count >= 80 * size
  {
  }

  /** A validator list holding `n` names with at most a quarter of them disabled still needs 60% of `n`. */
  lemma QuorumSurvivesDisabling(n: nat, disabled: nat)
    requires disabled <= n / 4
    ensures 5 * QuorumThreshold(n - disabled) >= 3 * n
  {
  }

  /** A validator list as a value. */
  datatype UnlView = UnlView(trusted: set<NodeId>, negative: set<NodeId>, masters: map<NodeId, NodeId>)

  /** The validators that count. */
  function Effective(u: UnlView): (e: set<NodeId>) {
    u.trusted - u.negative
  }

  function Resolve(u: UnlView, node: NodeId): (master: NodeId) {
    if node in u.masters then u.masters[node] else node
  }

  predicate Trusts(u: UnlView, node: NodeId) {
    Resolve(u, node) in Effective(u)
  }

  class TrustedValidatorList {
    var trusted: set<NodeId>
    var negative: set<NodeId>
    var ephemeralToMaster: map<NodeId, NodeId>

    constructor (trusted: set<NodeId>)
      ensures this.trusted == trusted && negative == {} && ephemeralToMaster == map[]
    {
      this.trusted := trusted;
      negative := {};
      ephemeralToMaster := map[];
    }

    function View(): (u: UnlView)
      reads this
    {
      UnlView(trusted, negative, ephemeralToMaster)
    }

    function ResolveToMaster(node: NodeId): (master: NodeId)
      reads this
      ensures master == Resolve(View(), node)
    {
      if node in ephemeralToMaster then ephemeralToMaster[node] else node
    }

    predicate IsTrusted(node: NodeId)
      reads this
      ensures IsTrusted(node) <==> Trusts(View(), node)
    {
      var master := ResolveToMaster(node);
      master in trusted && master !in negative
    }

    /** A verified manifest binds a signing key to its master, in place of the previous one. */
    method RegisterEphemeral(master: NodeId, ephemeral: NodeId, previous: Option<NodeId>)
      modifies this`ephemeralToMaster
      ensures ResolveToMaster(ephemeral) == master && (IsTrusted(ephemeral) <==> master in Effective(View()))
      ensures forall n: NodeId :: n != ephemeral ==>
                ResolveToMaster(n) == if previous == Some(n) then n else old(ResolveToMaster(n))
    {
      if previous.Some? {
        ephemeralToMaster := ephemeralToMaster - {previous.value};
      }
      ephemeralToMaster := ephemeralToMaster[ephemeral := master];
    }

    /** A revoked signing key stands for itself again. */
    method RemoveEphemeral(ephemeral: NodeId)
      modifies this`ephemeralToMaster
      ensures ResolveToMaster(ephemeral) == ephemeral
      ensures forall n: NodeId :: n != ephemeral ==> ResolveToMaster(n) == old(ResolveToMaster(n))
    {
      ephemeralToMaster := ephemeralToMaster - {ephemeral};
    }

    /** A revoked master is trusted under no name any more. */
    method RevokeMaster(master: NodeId)
      modifies this`trusted
      ensures trusted == old(trusted) - {master}
      ensures forall n: NodeId :: IsTrusted(n) <==> old(IsTrusted(n)) && ResolveToMaster(n) != master
    {
      trusted := trusted - {master};
    }

    predicate IsEmpty()
      reads this
    {
      trusted == {}
    }

    /** A disabled validator is trusted under no name, and no longer counts toward the quorum. */
    method AddToNegative(node: NodeId)
      modifies this`negative
      ensures negative == old(negative) + {node}
      ensures forall n: NodeId :: IsTrusted(n) <==> old(IsTrusted(n)) && ResolveToMaster(n) != node
      ensures |Effective(View())| == |old(Effective(View()))| - if old(node in Effective(View())) then 1 else 0
    {
      assert trusted - (negative + {node}) == (trusted - negative) - {node};
      negative := negative + {node};
    }

    /** One that is back is trusted again under all of its names, if the list still has it. */
    method RemoveFromNegative(node: NodeId)
      modifies this`negative
      ensures negative == old(negative) - {node}
      ensures forall n: NodeId :: IsTrusted(n) <==> old(IsTrusted(n)) || (node in trusted && ResolveToMaster(n) == node)
    {
      negative := negative - {node};
    }

    /** Counts the trusted names that are not disabled, in whatever order the set yields them. */
    method EffectiveSize() returns (size: nat)
      ensures size == |Effective(View())|
    {
      var rest := trusted;
      size := 0;
      while rest != {}
        invariant rest <= trusted
        invariant size == |(trusted - negative) - rest|
        decreases rest
      {
        var n :| n in rest;
        CountStep(trusted - negative, rest, n);
        if n !in negative {
          size := size + 1;
        }
        rest := rest - {n};
      }
      assert (trusted - negative) - rest == Effective(View());
    }

    method Quorum() returns (q: nat)
      ensures q == QuorumThreshold(|Effective(View())|)
      ensures 100 * q >= 80 * |Effective(View())| && (q > 0 ==> 100 * (q - 1) < 80 * |Effective(View())|)
    {
      var size := EffectiveSize();
      q := QuorumThreshold(size);
    }
  }
}
