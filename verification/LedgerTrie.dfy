/** The ancestry trie of ledger hashes with in-place support counters.

    Nodes are owned by their parent (no node is shared), so a node is a value and the trie
    object reassigns its root. */
module LedgerTrie {
  import opened Primitives
  import opened PreferredBranch

  datatype Node = Node(hash: Hash256, tipSupport: nat, branchSupport: nat, children: map<Hash256, Node>)

  type Children = map<Hash256, Node>

  function NewNode(hash: Hash256): (n: Node) {
    Node(hash, 0, 0, map[])
  }

  // ---------------------------------------------------------------- the walks

  /** Credit `count` along `branch`, creating the nodes that are missing. */
  function InsertWalk(node: Node, branch: Path, count: nat): (r: Node)
    requires branch != []
    decreases |branch|
  {
    var head, rest := branch[0], branch[1..];
    var child := if head in node.children then node.children[head] else NewNode(head);
    var child' :=
      if rest == [] then
        child.(branchSupport := child.branchSupport + count, tipSupport := child.tipSupport + count)
      else
        InsertWalk(child, rest, count);
    node.(branchSupport := node.branchSupport + count, children := node.children[head := child'])
  }

  function PeekTipSupport(node: Node, branch: Path): (r: Option<nat>)
    decreases |branch|
  {
    if branch == [] || branch[0] !in node.children then None
    else if |branch| == 1 then Some(node.children[branch[0]].tipSupport)
    else PeekTipSupport(node.children[branch[0]], branch[1..])
  }

  function Minus(a: nat, b: nat): (r: nat) {
    if a >= b then a - b else 0
  }

  /** The children after `child` is filed under `k`, or unlinked when no support is left. */
  function Relinked(m: Children, k: Hash256, child: Node): (r: Children) {
    if child.branchSupport == 0 then m - {k} else m[k := child]
  }

  function DebitLeaf(leaf: Node, count: nat): (r: Node) {
    leaf.(branchSupport := Minus(leaf.branchSupport, count), tipSupport := Minus(leaf.tipSupport, count))
  }

  /** Debit `count` along `branch` and unlink the child whose branch support drops to zero. */
  function RemoveWalk(node: Node, branch: Path, count: nat): (r: Node)
    requires PeekTipSupport(node, branch).Some?
    decreases |branch|, 1
  {
    var child' := RemoveBelow(node, branch, count);
    node.(branchSupport := Minus(node.branchSupport, count), children := Relinked(node.children, branch[0], child'))
  }

  function RemoveBelow(node: Node, branch: Path, count: nat): (r: Node)
    requires PeekTipSupport(node, branch).Some?
    decreases |branch|, 0
  {
    var child := node.children[branch[0]];
    if |branch| == 1 then DebitLeaf(child, count) else RemoveWalk(child, branch[1..], count)
  }

  // ---------------------------------------------------------------- well-formed tries

  ghost function SumBranch(m: Children): (n: nat)
    decreases |m|
  {
    if m == map[] then 0
    else
      var k :| k in m;
      m[k].branchSupport + SumBranch(m - {k})
  }

  lemma {:induction false} SumBranchRemove(m: Children, k: Hash256)
    requires k in m
    ensures SumBranch(m) == m[k].branchSupport + SumBranch(m - {k})
    decreases |m|
  {
    var c :| c in m && SumBranch(m) == m[c].branchSupport + SumBranch(m - {c});
    if c != k {
      assert m - {c} - {k} == m - {k} - {c};
      SumBranchRemove(m - {c}, k);
      SumBranchRemove(m - {k}, c);
    }
  }

  lemma SumBranchUpdate(m: Children, k: Hash256, n: Node)
    ensures SumBranch(m[k := n]) == SumBranch(m - {k}) + n.branchSupport
  {
    SumBranchRemove(m[k := n], k);
    assert m[k := n] - {k} == m - {k};
  }

  /** Branch support is tip support plus the children's; no supportless child survives; a
      child is filed under its own hash. */
  ghost predicate WellFormed(n: Node) {
    && n.branchSupport == n.tipSupport + SumBranch(n.children)
    && forall k :: k in n.children ==>
         && n.children[k].hash == k
         && n.children[k].branchSupport > 0
         && WellFormed(n.children[k])
  }

  function NodeAt(n: Node, p: Path): (r: Option<Node>)
    decreases |p|
  {
    if p == [] then Some(n)
    else if p[0] in n.children then NodeAt(n.children[p[0]], p[1..])
    else None
  }

  function TipAt(n: Node, p: Path): (s: nat) {
    var r := NodeAt(n, p);
    if r.Some? then r.value.tipSupport else 0
  }

  function BranchAt(n: Node, p: Path): (s: nat) {
    var r := NodeAt(n, p);
    if r.Some? then r.value.branchSupport else 0
  }

  lemma SupportBelow(n: Node, p: Path)
    requires p != []
    ensures p[0] in n.children ==>
              TipAt(n, p) == TipAt(n.children[p[0]], p[1..]) && BranchAt(n, p) == BranchAt(n.children[p[0]], p[1..])
    ensures p[0] !in n.children ==> TipAt(n, p) == 0 && BranchAt(n, p) == 0
  {}

  /** A fresh node carries no support anywhere. */
  lemma NewNodeEmpty(h: Hash256, p: Path)
    ensures TipAt(NewNode(h), p) == 0 && BranchAt(NewNode(h), p) == 0
  {}

  // ---------------------------------------------------------------- insertion

  lemma RelinkWellFormed(node: Node, child: Node)
    requires WellFormed(node) && WellFormed(child)
    ensures WellFormed(Node(node.hash, node.tipSupport,
                            node.tipSupport + SumBranch(node.children - {child.hash}) + child.branchSupport,
                            Relinked(node.children, child.hash, child)))
  {
    SumBranchUpdate(node.children, child.hash, child);
  }

  lemma {:induction false} InsertWellFormed(node: Node, branch: Path, count: nat)
    requires WellFormed(node) && branch != [] && count > 0
    ensures WellFormed(InsertWalk(node, branch, count))
    ensures InsertWalk(node, branch, count).branchSupport == node.branchSupport + count
    ensures InsertWalk(node, branch, count).hash == node.hash
    decreases |branch|
  {
    var head, rest := branch[0], branch[1..];
    var child := if head in node.children then node.children[head] else NewNode(head);
    if rest != [] {
      InsertWellFormed(child, rest, count);
    }
    var child' := InsertWalk(node, branch, count).children[head];
    RelinkWellFormed(node, child');
    if head in node.children {
      SumBranchRemove(node.children, head);
    } else {
      assert node.children - {head} == node.children;
    }
  }

  lemma {:induction false} InsertSupport(node: Node, branch: Path, count: nat, p: Path)
    requires branch != []
    ensures TipAt(InsertWalk(node, branch, count), p) == TipAt(node, p) + if p == branch then count else 0
    ensures BranchAt(InsertWalk(node, branch, count), p) == BranchAt(node, p) + if p <= branch then count else 0
    decreases |branch|
  {
    var head, rest := branch[0], branch[1..];
    if p != [] && p[0] == head {
      var child := if head in node.children then node.children[head] else NewNode(head);
      var child' := InsertWalk(node, branch, count).children[head];
      SupportBelow(node, p);
      NewNodeEmpty(head, p[1..]);
      assert p == [head] + p[1..] && branch == [head] + rest;
      if rest != [] {
        InsertSupport(child, rest, count, p[1..]);
      } else if p[1..] != [] {
        SupportsOfEqualChildren(child, child', p[1..]);
      }
      SupportBelow(InsertWalk(node, branch, count), p);
    }
  }

  /** Below a node, support depends on its children only. */
  lemma SupportsOfEqualChildren(a: Node, b: Node, p: Path)
    requires p != [] && a.children == b.children
    ensures TipAt(a, p) == TipAt(b, p) && BranchAt(a, p) == BranchAt(b, p)
  {}

  // ---------------------------------------------------------------- removal

  lemma PeekIsTip(node: Node, branch: Path)
    ensures PeekTipSupport(node, branch).Some? <==> branch != [] && NodeAt(node, branch).Some?
    ensures PeekTipSupport(node, branch).Some? ==> PeekTipSupport(node, branch).value == TipAt(node, branch)
    decreases |branch|
  {
    if |branch| > 1 && branch[0] in node.children {
      PeekIsTip(node.children[branch[0]], branch[1..]);
    }
  }

  /** Tip support anywhere below a node is part of the node's branch support. */
  lemma {:induction false} TipWithinBranch(node: Node, p: Path)
    requires WellFormed(node)
    ensures TipAt(node, p) <= node.branchSupport
    decreases |p|
  {
    if p != [] && p[0] in node.children {
      TipWithinBranch(node.children[p[0]], p[1..]);
      SumBranchRemove(node.children, p[0]);
    }
  }

  /** A node whose branch support is zero has no children left. */
  lemma {:induction false} NoSupportNoChildren(node: Node)
    requires WellFormed(node) && node.branchSupport == 0
    ensures node.children == map[]
  {
    if k :| k in node.children {
      SumBranchRemove(node.children, k);
    }
  }

  lemma {:induction false} RemoveWellFormed(node: Node, branch: Path, count: nat)
    requires WellFormed(node) && PeekTipSupport(node, branch).Some? && count <= TipAt(node, branch)
    ensures WellFormed(RemoveWalk(node, branch, count))
    ensures WellFormed(RemoveBelow(node, branch, count)) && RemoveBelow(node, branch, count).hash == branch[0]
    ensures RemoveWalk(node, branch, count).branchSupport == node.branchSupport - count
    ensures RemoveWalk(node, branch, count).hash == node.hash
    decreases |branch|
  {
    PeekIsTip(node, branch);
    TipWithinBranch(node, branch);
    SumBranchRemove(node.children, branch[0]);
    if |branch| > 1 {
      PeekIsTip(node.children[branch[0]], branch[1..]);
      RemoveWellFormed(node.children[branch[0]], branch[1..], count);
    }
    RelinkWellFormed(node, RemoveBelow(node, branch, count));
  }

  /** Unlinking a child without support leaves every support as it was. */
  lemma RelinkSupport(node: Node, child: Node, p: Path)
    requires WellFormed(child) && p != []
    requires node.children == Relinked(node.children, p[0], child)
    ensures TipAt(node, p) == TipAt(child, p[1..]) && BranchAt(node, p) == BranchAt(child, p[1..])
  {
    SupportBelow(node, p);
    if child.branchSupport == 0 {
      NoSupportNoChildren(child);
      if p[1..] != [] { SupportBelow(child, p[1..]); }
    }
  }

  lemma DebitLeafSupport(leaf: Node, count: nat, p: Path)
    requires count <= leaf.tipSupport <= leaf.branchSupport
    ensures TipAt(DebitLeaf(leaf, count), p) == TipAt(leaf, p) - if p == [] then count else 0
    ensures BranchAt(DebitLeaf(leaf, count), p) == BranchAt(leaf, p) - if p == [] then count else 0
  {
    if p != [] { SupportsOfEqualChildren(leaf, DebitLeaf(leaf, count), p); }
  }

  lemma {:induction false} RemoveSupport(node: Node, branch: Path, count: nat, p: Path)
    requires WellFormed(node) && PeekTipSupport(node, branch).Some? && count <= TipAt(node, branch)
    ensures TipAt(RemoveWalk(node, branch, count), p) == TipAt(node, p) - if p == branch then count else 0
    ensures BranchAt(RemoveWalk(node, branch, count), p) == BranchAt(node, p) - if p <= branch then count else 0
    decreases |branch|
  {
    PeekIsTip(node, branch);
    TipWithinBranch(node, branch);
    var head, rest := branch[0], branch[1..];
    if p != [] && p[0] == head {
      assert p == [head] + p[1..] && branch == [head] + rest;
      SupportBelow(node, p);
      RemoveWellFormed(node, branch, count);
      RelinkSupport(RemoveWalk(node, branch, count), RemoveBelow(node, branch, count), p);
      if rest == [] {
        DebitLeafSupport(node.children[head], count, p[1..]);
      } else {
        PeekIsTip(node.children[head], rest);
        RemoveSupport(node.children[head], rest, count, p[1..]);
      }
    } else if p != [] {
      SupportBelow(node, p);
      SupportBelow(RemoveWalk(node, branch, count), p);
    }
  }

  // ---------------------------------------------------------------- canonical form

  /** Positive branch support is witnessed by a tip somewhere below. */
  lemma {:induction false} SupportHasTip(node: Node) returns (p: Path)
    requires WellFormed(node) && node.branchSupport > 0
    ensures TipAt(node, p) > 0
    decreases node
  {
    if node.tipSupport > 0 {
      p := [];
    } else {
      var k :| k in node.children;
      var q := SupportHasTip(node.children[k]);
      p := [k] + q;
      SupportBelow(node, p);
    }
  }

  lemma {:induction false} SameTipsSameKeys(a: Node, b: Node, k: Hash256)
    requires WellFormed(a) && WellFormed(b)
    requires forall p :: TipAt(a, p) == TipAt(b, p)
    requires k in a.children
    ensures k in b.children
    ensures forall p :: TipAt(a.children[k], p) == TipAt(b.children[k], p)
  {
    var q := SupportHasTip(a.children[k]);
    SupportBelow(a, [k] + q);
    SupportBelow(b, [k] + q);
    assert TipAt(b, [k] + q) > 0;
    forall p ensures TipAt(a.children[k], p) == TipAt(b.children[k], p) {
      SupportBelow(a, [k] + p);
      SupportBelow(b, [k] + p);
      assert TipAt(a, [k] + p) == TipAt(b, [k] + p);
    }
  }

  /** The canonical-form theorem: a well-formed trie is determined by its tips. */
  lemma {:induction false} Canonical(a: Node, b: Node)
    requires WellFormed(a) && WellFormed(b) && a.hash == b.hash
    requires forall p :: TipAt(a, p) == TipAt(b, p)
    ensures a == b
    decreases a
  {
    forall k | k in a.children
      ensures k in b.children && a.children[k] == b.children[k]
    {
      SameTipsSameKeys(a, b, k);
      Canonical(a.children[k], b.children[k]);
    }
    forall k | k in b.children
      ensures k in a.children
    {
      SameTipsSameKeys(b, a, k);
    }
    assert a.children == b.children;
    assert TipAt(a, []) == TipAt(b, []);
  }

  // ---------------------------------------------------------------- the trie and its votes

  /** The root of a trie that holds exactly the votes in `bag`. */
  ghost predicate Represents(root: Node, bag: Bag) {
    && WellFormed(root) && root.hash == ZERO_HASH
    && (forall p {:trigger TipAt(root, p)} :: TipAt(root, p) == bag[p])
    && (forall p {:trigger BranchAt(root, p)} :: BranchAt(root, p) == Through(bag, p))
    && [] !in bag
  }

  lemma EmptyRepresents(root: Node, bag: Bag)
    requires root == NewNode(ZERO_HASH) && bag == multiset{}
    ensures Represents(root, bag)
  {
    forall p ensures TipAt(root, p) == 0 && BranchAt(root, p) == Through(bag, p) {
      NewNodeEmpty(ZERO_HASH, p);
    }
  }

  lemma InsertRepresents(root: Node, bag: Bag, branch: Path, count: nat)
    requires Represents(root, bag) && branch != [] && count > 0
    ensures Represents(InsertWalk(root, branch, count), bag + Copies(branch, count))
  {
    InsertWellFormed(root, branch, count);
    var root' := InsertWalk(root, branch, count);
    var bag' := bag + Copies(branch, count);
    forall p ensures TipAt(root', p) == bag'[p] && BranchAt(root', p) == Through(bag', p) {
      InsertSupport(root, branch, count, p);
      ThroughAddCopies(bag, branch, count, p);
    }
  }

  lemma RemoveRepresents(root: Node, bag: Bag, branch: Path, count: nat)
    requires Represents(root, bag) && branch != [] && 0 < count <= bag[branch]
    ensures PeekTipSupport(root, branch) == Some(bag[branch])
    ensures Represents(RemoveWalk(root, branch, count), bag - Copies(branch, count))
  {
    PeekIsTip(root, branch);
    assert TipAt(root, branch) == bag[branch];
    RemoveWellFormed(root, branch, count);
    var root' := RemoveWalk(root, branch, count);
    var bag' := bag - Copies(branch, count);
    forall p ensures TipAt(root', p) == bag'[p] && BranchAt(root', p) == Through(bag', p) {
      RemoveSupport(root, branch, count, p);
      ThroughRemoveCopies(bag, branch, count, p);
      assert TipAt(root, p) == bag[p] && BranchAt(root, p) == Through(bag, p);
    }
  }

  /** Equal bags of surviving branches give equal tries, whatever the order of the
      insertions and removals that led there. */
  lemma RepresentationUnique(a: Node, b: Node, bag: Bag)
    requires Represents(a, bag) && Represents(b, bag)
    ensures a == b
  {
    forall p ensures TipAt(a, p) == TipAt(b, p) {
      assert TipAt(a, p) == bag[p] && TipAt(b, p) == bag[p];
    }
    Canonical(a, b);
  }

  /** Removing what was just inserted restores the very same trie, pruning included. */
  lemma RemoveUndoesInsert(root: Node, bag: Bag, branch: Path, count: nat)
    requires Represents(root, bag) && branch != [] && count > 0
    ensures PeekTipSupport(InsertWalk(root, branch, count), branch).Some?
    ensures RemoveWalk(InsertWalk(root, branch, count), branch, count) == root
  {
    InsertRepresents(root, bag, branch, count);
    var bag' := bag + Copies(branch, count);
    RemoveRepresents(InsertWalk(root, branch, count), bag', branch, count);
    assert bag' - Copies(branch, count) == bag;
    RepresentationUnique(RemoveWalk(InsertWalk(root, branch, count), branch, count), root, bag);
  }

  // ---------------------------------------------------------------- runs

  datatype TrieOp = Insert(branch: Path, count: nat) | Remove(branch: Path, count: nat)

  /** One call on the trie, with the guards of the public operations. */
  function Apply(root: Node, op: TrieOp): (r: Node) {
    match op
    case Insert(branch, count) => ApplyInsert(root, branch, count)
    case Remove(branch, count) => ApplyRemove(root, branch, count)
  }

  function ApplyInsert(root: Node, branch: Path, count: nat): (r: Node) {
    if branch == [] || count == 0 then root else InsertWalk(root, branch, count)
  }

  function ApplyRemove(root: Node, branch: Path, count: nat): (r: Node) {
    var peek := PeekTipSupport(root, branch);
    if branch == [] || count == 0 || peek.None? || peek.value == 0 then root
    else RemoveWalk(root, branch, if count < peek.value then count else peek.value)
  }

  /** The same call on the bag of surviving branches; multiset difference clamps at zero. */
  ghost function ApplyToBag(bag: Bag, op: TrieOp): (r: Bag) {
    if op.branch == [] then bag
    else match op
      case Insert(branch, count) => bag + Copies(branch, count)
      case Remove(branch, count) => bag - Copies(branch, count)
  }

  function RunTrie(ops: seq<TrieOp>): (root: Node) {
    if ops == [] then NewNode(ZERO_HASH) else Apply(RunTrie(ops[..|ops| - 1]), ops[|ops| - 1])
  }

  ghost function SurvivingBranches(ops: seq<TrieOp>): (bag: Bag) {
    if ops == [] then multiset{} else ApplyToBag(SurvivingBranches(ops[..|ops| - 1]), ops[|ops| - 1])
  }

  lemma ApplyInsertRepresents(root: Node, bag: Bag, branch: Path, count: nat)
    requires Represents(root, bag) && branch != []
    ensures Represents(ApplyInsert(root, branch, count), bag + Copies(branch, count))
  {
    if count == 0 {
      assert bag + Copies(branch, count) == bag;
    } else {
      InsertRepresents(root, bag, branch, count);
    }
  }

  lemma ApplyRemoveRepresents(root: Node, bag: Bag, branch: Path, count: nat)
    requires Represents(root, bag) && branch != []
    ensures Represents(ApplyRemove(root, branch, count), bag - Copies(branch, count))
  {
    PeekIsTip(root, branch);
    assert TipAt(root, branch) == bag[branch];
    if count == 0 || bag[branch] == 0 {
      assert bag - Copies(branch, count) == bag;
    } else {
      var actual := if count < bag[branch] then count else bag[branch];
      RemoveRepresents(root, bag, branch, actual);
      assert bag - Copies(branch, actual) == bag - Copies(branch, count);
    }
  }

  /** After any run of inserts and clamped removes the trie is well formed and holds exactly
      the branches that survive. */
  lemma {:induction false} RunRepresents(ops: seq<TrieOp>)
    ensures Represents(RunTrie(ops), SurvivingBranches(ops))
    decreases |ops|
  {
    if ops == [] {
      EmptyRepresents(RunTrie(ops), SurvivingBranches(ops));
    } else {
      RunRepresents(ops[..|ops| - 1]);
      var root, bag, op := RunTrie(ops[..|ops| - 1]), SurvivingBranches(ops[..|ops| - 1]), ops[|ops| - 1];
      if op.branch != [] {
        match op
        case Insert(branch, count) => ApplyInsertRepresents(root, bag, branch, count);
        case Remove(branch, count) => ApplyRemoveRepresents(root, bag, branch, count);
      }
    }
  }

  /** Two runs that leave the same branches leave the same trie, node for node. */
  lemma RunsAgree(ops: seq<TrieOp>, others: seq<TrieOp>)
    requires SurvivingBranches(ops) == SurvivingBranches(others)
    ensures RunTrie(ops) == RunTrie(others)
  {
    RunRepresents(ops);
    RunRepresents(others);
    RepresentationUnique(RunTrie(ops), RunTrie(others), SurvivingBranches(ops));
  }

  // ---------------------------------------------------------------- the preferred walk

  /** The order the walk picks children by. */
  predicate Outranks(a: Node, b: Node) {
    a.branchSupport > b.branchSupport || (a.branchSupport == b.branchSupport && a.hash > b.hash)
  }

  /** The child that outranks its siblings, found in whatever order they are visited. */
  method BestChild(children: Children) returns (best: Option<Node>)
    requires forall k :: k in children ==> children[k].hash == k
    ensures best.None? <==> children == map[]
    ensures best.Some? ==> best.value.hash in children && children[best.value.hash] == best.value
    ensures best.Some? ==> forall k :: k in children && k != best.value.hash ==> Outranks(best.value, children[k])
  {
    best := None;
    var rest := children.Keys;
    while rest != {}
      invariant rest <= children.Keys
      invariant best.None? <==> rest == children.Keys
      invariant best.Some? ==> best.value.hash in children && children[best.value.hash] == best.value
      invariant best.Some? ==>
                  forall k :: k in children && k !in rest && k != best.value.hash ==> Outranks(best.value, children[k])
      invariant best.Some? ==> best.value.hash !in rest
      decreases rest
    {
      var k :| k in rest;
      var child := children[k];
      if best.None? || Outranks(child, best.value) {
        best := Some(child);
      }
      rest := rest - {k};
    }
    assert children == map[] <==> children.Keys == {};
  }

  /** Support at a child equals support one step further down the path. */
  lemma {:induction false} SupportStep(root: Node, p: Path, h: Hash256)
    requires NodeAt(root, p).Some?
    ensures var n := NodeAt(root, p).value;
            NodeAt(root, p + [h]) == if h in n.children then Some(n.children[h]) else None
    decreases |p|
  {
    if p != [] {
      assert (p + [h])[1..] == p[1..] + [h];
      SupportStep(root.children[p[0]], p[1..], h);
    }
  }

  lemma {:induction false} WellFormedBelow(root: Node, p: Path)
    requires WellFormed(root) && NodeAt(root, p).Some?
    ensures WellFormed(NodeAt(root, p).value)
    decreases |p|
  {
    if p != [] {
      WellFormedBelow(root.children[p[0]], p[1..]);
    }
  }

  /** What the counters of a node say about the votes. */
  lemma ChildSupport(root: Node, bag: Bag, p: Path, h: Hash256)
    requires Represents(root, bag) && NodeAt(root, p).Some?
    ensures var n := NodeAt(root, p).value;
            && WellFormed(n)
            && n.tipSupport == bag[p]
            && Through(bag, p + [h]) == if h in n.children then n.children[h].branchSupport else 0
  {
    WellFormedBelow(root, p);
    SupportStep(root, p, h);
    assert TipAt(root, p) == bag[p];
    assert BranchAt(root, p + [h]) == Through(bag, p + [h]);
  }

  /** The best child leads after `p` in the sense of the votes. */
  lemma BestLeads(root: Node, bag: Bag, p: Path, best: Node)
    requires Represents(root, bag) && NodeAt(root, p).Some?
    requires var m := NodeAt(root, p).value.children;
             && best.hash in m && m[best.hash] == best
             && forall k :: k in m && k != best.hash ==> Outranks(best, m[k])
    ensures Leads(bag, p, best.hash)
    ensures Through(bag, p + [best.hash]) == best.branchSupport
    ensures NodeAt(root, p + [best.hash]) == Some(best)
    ensures NodeAt(root, p).value.tipSupport == bag[p]
  {
    SupportStep(root, p, best.hash);
    ChildSupport(root, bag, p, best.hash);
    forall g: Hash256
      ensures Through(bag, p + [g]) < Through(bag, p + [best.hash])
              || (Through(bag, p + [g]) == Through(bag, p + [best.hash]) && g <= best.hash)
    {
      ChildSupport(root, bag, p, g);
    }
  }

  lemma NoChildrenSettled(root: Node, bag: Bag, p: Path)
    requires Represents(root, bag) && NodeAt(root, p).Some?
    requires NodeAt(root, p).value.children == map[]
    ensures Settled(bag, p)
  {
    forall h: Hash256 ensures Through(bag, p + [h]) <= bag[p] {
      ChildSupport(root, bag, p, h);
    }
  }

  lemma LeaderSettles(bag: Bag, p: Path, h: Hash256)
    requires Leads(bag, p, h) && Through(bag, p + [h]) <= bag[p]
    ensures Settled(bag, p)
  {
    forall g: Hash256 ensures Through(bag, p + [g]) <= bag[p] {
      assert Through(bag, p + [g]) <= Through(bag, p + [h]);
    }
  }

  lemma AdvanceExtends(bag: Bag, path: Path, h: Hash256)
    requires forall i {:trigger path[..i]} :: 0 <= i < |path| ==> Advances(bag, path[..i], path[i])
    requires Advances(bag, path, h)
    ensures var q := path + [h];
            forall i {:trigger q[..i]} :: 0 <= i < |q| ==> Advances(bag, q[..i], q[i])
  {
    var q := path + [h];
    forall i | 0 <= i < |q| ensures Advances(bag, q[..i], q[i]) {
      if i < |path| {
        assert q[..i] == path[..i];
      } else {
        assert q[..i] == path;
      }
    }
  }

  lemma {:induction false} OccurringHasSupport(root: Node, p: Path)
    requires WellFormed(root) && p != [] && NodeAt(root, p).Some?
    ensures BranchAt(root, p) > 0
    decreases |p|
  {
    if |p| > 1 {
      OccurringHasSupport(root.children[p[0]], p[1..]);
    }
  }

  /** A path to some node filed under `hash`. */
  predicate EndsIn(p: Path, hash: Hash256) {
    p != [] && p[|p| - 1] == hash
  }

  /** A path to `hash` on which it has not occurred before. */
  predicate FirstIn(p: Path, hash: Hash256) {
    EndsIn(p, hash) && hash !in p[..|p| - 1]
  }

  lemma FirstBelow(node: Node, k: Hash256, hash: Hash256, path: Path)
    requires k in node.children && k != hash && FirstIn(path, hash)
    ensures FirstIn([k] + path, hash) && NodeAt(node, [k] + path) == NodeAt(node.children[k], path)
  {
    var p := [k] + path;
    assert p[1..] == path;
    assert p[..|p| - 1] == [k] + path[..|path| - 1];
  }

  lemma NoneBelow(node: Node, k: Hash256, hash: Hash256)
    requires k in node.children && k != hash
    requires forall p :: EndsIn(p, hash) ==> NodeAt(node.children[k], p).None?
    ensures forall p :: EndsIn(p, hash) && p[0] == k ==> NodeAt(node, p).None?
  {
    forall p | EndsIn(p, hash) && p[0] == k ensures NodeAt(node, p).None? {
      assert p[1..] != [] && EndsIn(p[1..], hash);
    }
  }

  lemma LeadBelow(node: Node, lead: Path, hash: Hash256)
    requires FirstIn(lead, hash) && NodeAt(node, lead).Some?
    ensures lead[0] in node.children && (lead[0] == hash <==> |lead| == 1)
    ensures lead[0] != hash ==> FirstIn(lead[1..], hash) && NodeAt(node.children[lead[0]], lead[1..]).Some?
    ensures lead == [lead[0]] + lead[1..]
  {
    if |lead| > 1 {
      assert lead[0] in lead[..|lead| - 1];
      assert lead[1..][..|lead| - 2] == lead[..|lead| - 1][1..];
    }
  }

  /** The depth-first search for a hash. `lead` stands for the order of the child maps: the children
      along it come first, the others in any order. Every first occurrence is what some order finds. */
  method FindNode(node: Node, hash: Hash256, lead: Path) returns (found: Option<Node>, ghost path: Path)
    requires WellFormed(node)
    ensures found.Some? ==> FirstIn(path, hash) && NodeAt(node, path) == found
    ensures found.None? ==> forall p :: EndsIn(p, hash) ==> NodeAt(node, p).None?
    ensures FirstIn(lead, hash) && NodeAt(node, lead).Some? ==> found.Some? && path == lead
    decreases node
  {
    if FirstIn(lead, hash) && NodeAt(node, lead).Some? {
      LeadBelow(node, lead, hash);
    }
    hide NodeAt, FirstIn;
    var rest := node.children.Keys;
    while rest != {}
      invariant rest <= node.children.Keys
      invariant FirstIn(lead, hash) && NodeAt(node, lead).Some? ==> rest == node.children.Keys
      invariant forall p :: EndsIn(p, hash) && p[0] !in rest ==> NodeAt(node, p).None?
      decreases rest
    {
      var k;
      if lead != [] && lead[0] in rest {
        k := lead[0];
      } else {
        k :| k in rest;
      }
      var child := node.children[k];
      if child.hash == hash {
        path := [k];
        return Some(child), path;
      }
      found, path := FindNode(child, hash, if lead == [] then [] else lead[1..]);
      if found.Some? {
        FirstBelow(node, k, hash, path);
        path := [k] + path;
        return;
      }
      NoneBelow(node, k, hash);
      rest := rest - {k};
    }
    return None, [];
  }

  class LedgerTrie {
    var root: Node

    /** The multiset of branches whose support survives in the trie. */
    ghost var Votes: Bag

    ghost predicate Valid()
      reads this
    {
      Represents(root, Votes)
    }

    constructor ()
      ensures Valid() && Votes == multiset{}
    {
      root := NewNode(ZERO_HASH);
      Votes := multiset{};
      new;
      EmptyRepresents(root, Votes);
    }

    method Insert(branch: Path, count: nat)
      requires Valid()
      modifies this
      ensures Valid()
      ensures root == ApplyInsert(old(root), branch, count)
      ensures Votes == old(Votes) + (if branch == [] then multiset{} else Copies(branch, count))
    {
      if branch != [] {
        ApplyInsertRepresents(root, Votes, branch, count);
        Votes := Votes + Copies(branch, count);
      }
      if branch == [] || count == 0 {
        return;
      }
      root := InsertWalk(root, branch, count);
    }

    /** `removed` says whether the branch had a vote; the debit is clamped to its votes. */
    method Remove(branch: Path, count: nat) returns (removed: bool)
      requires Valid()
      modifies this
      ensures Valid()
      ensures removed <==> count > 0 && branch in old(Votes)
      ensures root == ApplyRemove(old(root), branch, count)
      ensures Votes == old(Votes) - Copies(branch, count)
    {
      if branch == [] || count == 0 {
        assert Votes - Copies(branch, count) == Votes;
        return false;
      }
      PeekIsTip(root, branch);
      assert TipAt(root, branch) == Votes[branch];
      ApplyRemoveRepresents(root, Votes, branch, count);
      Votes := Votes - Copies(branch, count);
      var peek := PeekTipSupport(root, branch);
      if peek.None? || peek.value == 0 {
        return false;
      }
      root := RemoveWalk(root, branch, if count < peek.value then count else peek.value);
      return true;
    }

    method IsEmpty() returns (empty: bool)
      requires Valid()
      ensures empty <==> Votes == multiset{}
    {
      ThroughRoot(Votes);
      assert BranchAt(root, []) == Through(Votes, []);
      empty := root.branchSupport == 0;
    }

    /** Votes that end exactly at some occurrence of `hash`; zero when it does not occur. */
    method TipSupport(hash: Hash256, lead: Path) returns (support: nat, ghost path: Path)
      requires Valid()
      ensures support == Votes[path]
      ensures if path == [] then forall p :: EndsIn(p, hash) ==> Through(Votes, p) == 0
              else FirstIn(path, hash) && Through(Votes, path) > 0
      ensures FirstIn(lead, hash) && Through(Votes, lead) > 0 ==> path == lead
    {
      assert BranchAt(root, lead) == Through(Votes, lead);
      var found;
      found, path := FindNode(root, hash, lead);
      if found.Some? {
        support := found.value.tipSupport;
        assert TipAt(root, path) == Votes[path];
        assert BranchAt(root, path) == Through(Votes, path);
        OccurringHasSupport(root, path);
      } else {
        support := 0;
        path := [];
        forall p | EndsIn(p, hash) ensures Through(Votes, p) == 0 {
          assert BranchAt(root, p) == Through(Votes, p);
        }
      }
    }

    /** The greedy walk. `path` is the route it took. */
    method GetPreferred() returns (preferred: Option<Hash256>, ghost path: Path)
      requires Valid()
      ensures IsPreferredPath(Votes, path)
      ensures preferred == TipOf(path)
      ensures preferred.None? <==> Votes == multiset{}
    {
      path := [];
      preferred := None;
      var empty := IsEmpty();
      var curr := root;
      if empty {
        forall h: Hash256 ensures Through(Votes, [] + [h]) <= Votes[[]] {
          ThroughAntitone(Votes, [], [] + [h]);
        }
        return;
      }
      while true
        invariant NodeAt(root, path) == Some(curr) && WellFormed(curr)
        invariant forall i {:trigger path[..i]} :: 0 <= i < |path| ==> Advances(Votes, path[..i], path[i])
        invariant preferred == TipOf(path)
        decreases curr
      {
        var best := BestChild(curr.children);
        if best.None? {
          NoChildrenSettled(root, Votes, path);
          break;
        }
        BestLeads(root, Votes, path, best.value);
        if curr.tipSupport >= best.value.branchSupport {
          LeaderSettles(Votes, path, best.value.hash);
          break;
        }
        AdvanceExtends(Votes, path, best.value.hash);
        preferred := Some(best.value.hash);
        path := path + [best.value.hash];
        curr := best.value;
      }
      PreferredEmptyIffNoVotes(Votes, path);
    }
  }
}
