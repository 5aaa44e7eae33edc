/** The latest validation of every trusted validator, indexed by a ledger trie. */
module ValidationsTrie {
  import opened Primitives
  import opened PreferredBranch
  import LT = LedgerTrie

  datatype Validation = Validation(nodeId: NodeId, ledgerHash: Hash256, ledgerSeq: u32, signTime: u32)

  /** A validator's latest validation and the branch that was credited for it. */
  datatype Entry = Entry(validation: Validation, branch: Path)

  type Latest = map<NodeId, Entry>

  /** What the aggregator stands for: who is trusted and what each of them last validated. */
  datatype State = State(trusted: set<NodeId>, latest: Latest)

  datatype Memo = Memo(seqNo: u32, generation: u64, hash: Option<Hash256>)

  // ---------------------------------------------------------------- the votes of a latest map

  ghost function BagOf(latest: Latest): (bag: Bag)
    decreases |latest|
  {
    if latest == map[] then multiset{}
    else
      var n :| n in latest;
      BagOf(latest - {n}) + multiset{latest[n].branch}
  }

  lemma {:induction false} BagOfRemove(latest: Latest, n: NodeId)
    requires n in latest
    ensures BagOf(latest) == BagOf(latest - {n}) + multiset{latest[n].branch}
    decreases |latest|
  {
    var c :| c in latest && BagOf(latest) == BagOf(latest - {c}) + multiset{latest[c].branch};
    if c != n {
      assert latest - {c} - {n} == latest - {n} - {c};
      BagOfRemove(latest - {c}, n);
      BagOfRemove(latest - {n}, c);
    }
  }

  /** Filing an entry for a validator credits exactly its branch, in place of the old one. */
  lemma BagOfUpdate(latest: Latest, n: NodeId, e: Entry)
    ensures BagOf(latest[n := e]) == BagOf(latest - {n}) + Copies(e.branch, 1)
    ensures n !in latest ==> latest - {n} == latest
  {
    hide BagOf;
    BagOfRemove(latest[n := e], n);
    assert latest[n := e] - {n} == latest - {n};
    assert Copies(e.branch, 1) == multiset{e.branch};
  }

  /** Taking one validator out takes exactly its branch out. */
  lemma BagOfDrop(latest: Latest, n: NodeId)
    requires n in latest
    ensures latest[n].branch in BagOf(latest)
    ensures BagOf(latest - {n}) == BagOf(latest) - Copies(latest[n].branch, 1)
  {
    BagOfRemove(latest, n);
    assert Copies(latest[n].branch, 1) == multiset{latest[n].branch};
  }

  function VotersFor(latest: Latest, b: Path): (voters: set<NodeId>) {
    set n | n in latest && latest[n].branch == b
  }

  lemma VotersForDrop(latest: Latest, c: NodeId, b: Path)
    requires c in latest
    ensures |VotersFor(latest, b)| == |VotersFor(latest - {c}, b)| + if latest[c].branch == b then 1 else 0
  {
    var all, rest := VotersFor(latest, b), VotersFor(latest - {c}, b);
    if latest[c].branch == b {
      assert all == rest + {c};
    } else {
      assert all == rest;
    }
  }

  /** A branch's multiplicity in the bag is the number of validators voting for it. */
  lemma {:induction false} BagOfCounts(latest: Latest, b: Path)
    ensures BagOf(latest)[b] == |VotersFor(latest, b)|
    decreases |latest|
  {
    hide VotersFor;
    if latest == map[] {
      assert VotersFor(latest, b) == {} by { EmptyVoters(b, latest); }
    } else {
      var c :| c in latest;
      BagOfRemove(latest, c);
      BagOfCounts(latest - {c}, b);
      VotersForDrop(latest, c, b);
    }
  }

  lemma EmptyVoters(b: Path, latest: Latest)
    requires latest == map[]
    ensures VotersFor(latest, b) == {}
  {}

  predicate IsFresh(e: Entry, seqNo: u32) {
    e.validation.ledgerSeq >= seqNo
  }

  /** The entries that count at anchor `seqNo`. */
  function Fresh(latest: Latest, seqNo: u32): (r: Latest) {
    map n | n in latest && IsFresh(latest[n], seqNo) :: latest[n]
  }

  /** `r` is the preferred tip of exactly the latest entries with `ledgerSeq >= seqNo`. */
  ghost predicate IsAnswer(latest: Latest, seqNo: u32, r: Option<Hash256>) {
    exists path :: IsPreferredPath(BagOf(Fresh(latest, seqNo)), path) && r == TipOf(path)
  }

  /** Only one answer is right. */
  lemma AnswerUnique(latest: Latest, seqNo: u32, r: Option<Hash256>, s: Option<Hash256>)
    requires IsAnswer(latest, seqNo, r) && IsAnswer(latest, seqNo, s)
    ensures r == s
  {
    var bag := BagOf(Fresh(latest, seqNo));
    var a :| IsPreferredPath(bag, a) && r == TipOf(a);
    var b :| IsPreferredPath(bag, b) && s == TipOf(b);
    PreferredPathUnique(bag, a, b);
  }

  // ---------------------------------------------------------------- the operations on states

  /** The newer of two validations of one validator: by sequence, then by signing time, and
      never a second vote for the same ledger. */
  predicate Supersedes(v: Validation, prev: Validation) {
    && v.ledgerHash != prev.ledgerHash
    && (v.ledgerSeq > prev.ledgerSeq || (v.ledgerSeq == prev.ledgerSeq && v.signTime > prev.signTime))
  }

  predicate Accepts(s: State, v: Validation) {
    v.nodeId in s.trusted && (v.nodeId in s.latest ==> Supersedes(v, s.latest[v.nodeId].validation))
  }

  function AfterAddTrusted(s: State, n: NodeId): (r: State) {
    s.(trusted := s.trusted + {n})
  }

  function AfterRemoveTrusted(s: State, n: NodeId): (r: State) {
    State(s.trusted - {n}, s.latest - {n})
  }

  function AfterAdd(s: State, v: Validation, parents: Path): (r: State) {
    if Accepts(s, v) then s.(latest := s.latest[v.nodeId := Entry(v, parents + [v.ledgerHash])]) else s
  }

  function AfterPrune(s: State, seqNo: u32): (r: State) {
    s.(latest := Fresh(s.latest, seqNo))
  }

  /** Only trusted validators have entries, and each entry's branch ends at its own ledger. */
  ghost predicate Consistent(s: State) {
    forall n :: n in s.latest ==>
      && n in s.trusted
      && s.latest[n].validation.nodeId == n
      && LT.EndsIn(s.latest[n].branch, s.latest[n].validation.ledgerHash)
  }

  lemma RemovalConsistent(s: State, n: NodeId)
    requires Consistent(s)
    ensures Consistent(AfterRemoveTrusted(s, n))
  {}

  function StaleNodes(latest: Latest, seqNo: u32): (stale: set<NodeId>) {
    set n | n in latest && !IsFresh(latest[n], seqNo)
  }

  /** The entries left while the stale validators in `rest` still wait for eviction. */
  function KeptDuring(latest: Latest, seqNo: u32, rest: set<NodeId>): (r: Latest) {
    map n | n in latest && (n in rest || IsFresh(latest[n], seqNo)) :: latest[n]
  }

  lemma KeptDuringStep(latest: Latest, seqNo: u32, rest: set<NodeId>, n: NodeId)
    requires n in rest && rest <= StaleNodes(latest, seqNo)
    ensures n in KeptDuring(latest, seqNo, rest)
    ensures KeptDuring(latest, seqNo, rest - {n}) == KeptDuring(latest, seqNo, rest) - {n}
  {}

  lemma KeptDuringEnds(latest: Latest, seqNo: u32)
    ensures KeptDuring(latest, seqNo, StaleNodes(latest, seqNo)) == latest
    ensures KeptDuring(latest, seqNo, {}) == Fresh(latest, seqNo)
    ensures |Fresh(latest, seqNo)| == |latest| - |StaleNodes(latest, seqNo)|
  {
    var stale := StaleNodes(latest, seqNo);
    assert Fresh(latest, seqNo).Keys == latest.Keys - stale;
  }

  /** The fresh entries of the validators not in `rest`. */
  function FreshExcept(latest: Latest, seqNo: u32, rest: set<NodeId>): (r: Latest) {
    map n | n in latest && n !in rest && IsFresh(latest[n], seqNo) :: latest[n]
  }

  lemma FreshExceptEnds(latest: Latest, seqNo: u32)
    ensures BagOf(FreshExcept(latest, seqNo, latest.Keys)) == multiset{}
    ensures FreshExcept(latest, seqNo, {}) == Fresh(latest, seqNo)
  {
    assert FreshExcept(latest, seqNo, latest.Keys) == map[];
  }

  lemma FreshExceptStep(latest: Latest, seqNo: u32, rest: set<NodeId>, n: NodeId)
    requires n in latest && n in rest
    ensures BagOf(FreshExcept(latest, seqNo, rest - {n}))
         == if IsFresh(latest[n], seqNo)
            then BagOf(FreshExcept(latest, seqNo, rest)) + Copies(latest[n].branch, 1)
            else BagOf(FreshExcept(latest, seqNo, rest))
  {
    var m := FreshExcept(latest, seqNo, rest);
    if IsFresh(latest[n], seqNo) {
      assert FreshExcept(latest, seqNo, rest - {n}) == m[n := latest[n]];
      BagOfUpdate(m, n, latest[n]);
    } else {
      assert FreshExcept(latest, seqNo, rest - {n}) == m;
    }
  }

  lemma BranchesReach(s: State)
    requires Consistent(s)
    ensures forall n :: n in s.latest ==> s.latest[n].branch != []
  {}

  lemma PruneConsistent(s: State, seqNo: u32)
    requires Consistent(s)
    ensures Consistent(AfterPrune(s, seqNo))
  {}

  /** Pruning at `cut` changes no answer at any anchor from `cut` up. */
  lemma PruneKeepsAnswers(s: State, cut: u32, seqNo: u32, r: Option<Hash256>)
    requires cut <= seqNo
    ensures IsAnswer(AfterPrune(s, cut).latest, seqNo, r) <==> IsAnswer(s.latest, seqNo, r)
  {
    assert Fresh(Fresh(s.latest, cut), seqNo) == Fresh(s.latest, seqNo);
  }

  /** A validator's vote only moves forward: an accepted validation is for another ledger and
      strictly later, and no other validator's entry moves. */
  lemma AddMovesForward(s: State, v: Validation, parents: Path, n: NodeId)
    requires Consistent(s)
    ensures Consistent(AfterAdd(s, v, parents))
    ensures n in s.latest ==> n in AfterAdd(s, v, parents).latest
    ensures n in s.latest ==>
              var before, after := s.latest[n], AfterAdd(s, v, parents).latest[n];
              after == before || (n == v.nodeId && after.validation == v && Supersedes(v, before.validation))
    ensures n !in s.latest && n in AfterAdd(s, v, parents).latest ==> n == v.nodeId && n in s.trusted
  {
    var b := parents + [v.ledgerHash];
    assert b[|b| - 1] == v.ledgerHash;
  }

  // ---------------------------------------------------------------- the aggregator

  class ValidationsTrie {
    var trie: LT.LedgerTrie
    var latest: Latest
    var trusted: set<NodeId>
    var generation: u64
    var preferredCache: Option<Memo>

    ghost function View(): (s: State)
      reads this
    {
      State(trusted, latest)
    }

    ghost predicate Valid()
      reads this, trie
    {
      && trie.Valid()
      && trie.Votes == BagOf(latest)
      && Consistent(View())
      && (preferredCache.Some? ==>
            && preferredCache.value.generation == generation
            && IsAnswer(latest, preferredCache.value.seqNo, preferredCache.value.hash))
    }

    constructor ()
      ensures Valid() && fresh(trie)
      ensures View() == State({}, map[])
    {
      trie := new LT.LedgerTrie();
      latest := map[];
      trusted := {};
      generation := 0;
      preferredCache := None;
    }

    /** Bump the mutation counter, which wraps, and drop the memo. */
    method InvalidateCache()
      modifies this`generation, this`preferredCache
      ensures preferredCache.None?
      ensures generation == (old(generation) + 1) % (U64_MAX + 1)
    {
      generation := (generation + 1) % (U64_MAX + 1);
      preferredCache := None;
    }

    method AddTrusted(node: NodeId)
      requires Valid()
      modifies this`trusted
      ensures Valid()
      ensures View() == AfterAddTrusted(old(View()), node)
    {
      trusted := trusted + {node};
    }

    /** Drop a validator's entry and the vote it cast in the trie. */
    method Evict(node: NodeId)
      requires node in latest
      requires trie.Valid() && trie.Votes == BagOf(latest)
      modifies this`latest, trie
      ensures latest == old(latest) - {node}
      ensures trie.Valid() && trie.Votes == BagOf(latest)
    {
      hide LT.Represents, LT.ApplyRemove, BagOf, Copies;
      BagOfDrop(latest, node);
      var branch := latest[node].branch;
      latest := latest - {node};
      var _ := trie.Remove(branch, 1);
    }

    method RemoveTrusted(node: NodeId)
      requires Valid()
      modifies this, trie
      ensures Valid() && trie == old(trie)
      ensures View() == AfterRemoveTrusted(old(View()), node)
    {
      hide LT.Represents, BagOf, Consistent, IsAnswer;
      RemovalConsistent(View(), node);
      trusted := trusted - {node};
      if node in latest {
        Evict(node);
        InvalidateCache();
      } else {
        assert latest - {node} == latest;
      }
    }

    /** Whether a validation counts: from a trusted node, for another ledger than the vote on
        file, and later than it. */
    method Admits(validation: Validation) returns (admitted: bool)
      ensures admitted <==> Accepts(View(), validation)
    {
      var node := validation.nodeId;
      if node !in trusted {
        return false;
      }
      if node in latest {
        var prev := latest[node].validation;
        if prev.ledgerHash == validation.ledgerHash {
          return false;
        }
        if validation.ledgerSeq < prev.ledgerSeq {
          return false;
        }
        if validation.ledgerSeq == prev.ledgerSeq && validation.signTime <= prev.signTime {
          return false;
        }
      }
      return true;
    }

    method AddWithParents(validation: Validation, parents: Path) returns (changed: bool)
      requires Valid()
      modifies this, trie
      ensures Valid() && trie == old(trie)
      ensures View() == AfterAdd(old(View()), validation, parents)
      ensures changed <==> Accepts(old(View()), validation)
      ensures changed ==>
                && validation.nodeId in latest && latest[validation.nodeId].validation == validation
                && latest[validation.nodeId].branch == parents + [validation.ledgerHash]
    {
      hide LT.Represents, LT.ApplyInsert, LT.ApplyRemove, BagOf, Copies, Consistent, IsAnswer;
      changed := Admits(validation);
      if !changed {
        return;
      }
      var node := validation.nodeId;
      var branch := parents + [validation.ledgerHash];
      AddMovesForward(View(), validation, parents, node);
      BagOfUpdate(latest, node, Entry(validation, branch));
      if node in latest {
        Evict(node);
      }
      trie.Insert(branch, 1);
      assert old(latest)[node := Entry(validation, branch)] == latest[node := Entry(validation, branch)];
      latest := latest[node := Entry(validation, branch)];
      InvalidateCache();
    }

    /** The preferred ledger at anchor `currentSeq`: from the persistent trie when nothing is
        stale, else from the memo, else from a trie rebuilt over the fresh entries. */
    method GetPreferred(currentSeq: u32) returns (preferred: Option<Hash256>)
      requires Valid()
      modifies this`preferredCache
      ensures Valid() && View() == old(View())
      ensures IsAnswer(latest, currentSeq, preferred)
    {
      ghost var path;
      if forall n :: n in latest ==> IsFresh(latest[n], currentSeq) {
        assert Fresh(latest, currentSeq) == latest;
        preferred, path := trie.GetPreferred();
        return;
      }
      if preferredCache.Some? && preferredCache.value.seqNo == currentSeq
         && preferredCache.value.generation == generation
      {
        return preferredCache.value.hash;
      }
      var filtered := Rebuild(currentSeq);
      preferred, path := filtered.GetPreferred();
      preferredCache := Some(Memo(currentSeq, generation, preferred));
    }

    /** A trie over the fresh entries, inserted in whatever order. */
    method Rebuild(currentSeq: u32) returns (filtered: LT.LedgerTrie)
      requires Valid()
      ensures fresh(filtered) && filtered.Valid()
      ensures filtered.Votes == BagOf(Fresh(latest, currentSeq))
    {
      FreshExceptEnds(latest, currentSeq);
      BranchesReach(View());
      hide LT.Represents, LT.ApplyInsert, BagOf, Copies, Consistent, IsAnswer, FreshExcept, Fresh;
      filtered := new LT.LedgerTrie();
      var rest := latest.Keys;
      while rest != {}
        invariant rest <= latest.Keys
        invariant filtered.Valid() && fresh(filtered)
        invariant filtered.Votes == BagOf(FreshExcept(latest, currentSeq, rest))
        decreases rest
      {
        var n :| n in rest;
        FreshExceptStep(latest, currentSeq, rest, n);
        if IsFresh(latest[n], currentSeq) {
          filtered.Insert(latest[n].branch, 1);
        }
        rest := rest - {n};
      }
    }

    method EvictStale(currentSeq: u32) returns (evicted: nat)
      requires trie.Valid() && trie.Votes == BagOf(latest)
      modifies this`latest, trie
      ensures trie.Valid() && trie.Votes == BagOf(latest)
      ensures latest == Fresh(old(latest), currentSeq)
      ensures evicted == |old(latest)| - |latest| && (evicted == 0 ==> latest == old(latest))
    {
      hide LT.Represents, BagOf, Fresh, StaleNodes, KeptDuring;
      ghost var before := latest;
      KeptDuringEnds(before, currentSeq);
      var stale := StaleNodes(latest, currentSeq);
      evicted := |stale|;
      var rest := stale;
      while rest != {}
        invariant rest <= stale
        invariant latest == KeptDuring(before, currentSeq, rest)
        invariant trie.Valid() && trie.Votes == BagOf(latest)
        decreases rest
      {
        var n :| n in rest;
        KeptDuringStep(before, currentSeq, rest, n);
        Evict(n);
        rest := rest - {n};
      }
    }

    method PruneBelow(currentSeq: u32) returns (evicted: nat)
      requires Valid()
      modifies this, trie
      ensures Valid() && trie == old(trie)
      ensures View() == AfterPrune(old(View()), currentSeq)
      ensures evicted == |old(latest)| - |latest|
    {
      hide LT.Represents, BagOf, Consistent, IsAnswer, Fresh;
      PruneConsistent(View(), currentSeq);
      evicted := EvictStale(currentSeq);
      if evicted > 0 {
        InvalidateCache();
      }
    }

    /** Votes ending at one occurrence of `hash`. */
    method CountFor(hash: Hash256, lead: Path) returns (support: nat)
      requires Valid()
      ensures support <= |Validating(latest, hash)|
      ensures OneAncestry(latest, hash) ==> support == |Validating(latest, hash)|
      ensures Occurs(latest, hash, lead) ==> support == BagOf(latest)[lead]
    {
      ghost var path;
      support, path := trie.TipSupport(hash, lead);
      hide BagOf, Consistent, OneAncestry, PreferredBranch.Through, Validating;
      if path == [] {
        NothingOccurs(View(), hash);
      } else {
        FoundOccurs(latest, hash, path);
        OccurrenceVotes(View(), hash, path);
      }
      if Occurs(latest, hash, lead) { OccursIsFirst(latest, hash, lead); }
    }
  }

  /** The validators whose latest validation is for `hash`. */
  function Validating(latest: Latest, hash: Hash256): (r: set<NodeId>) {
    set n | n in latest && latest[n].validation.ledgerHash == hash
  }

  /** A branch up to the first occurrence of `hash` in it. */
  function CutAfter(branch: Path, hash: Hash256): (p: Path)
    requires hash in branch
  {
    if branch[0] == hash then [hash] else [branch[0]] + CutAfter(branch[1..], hash)
  }

  /** A path that some validator's branch takes to its first `hash`. */
  ghost predicate Occurs(latest: Latest, hash: Hash256, p: Path) {
    exists m :: m in latest && hash in latest[m].branch && p == CutAfter(latest[m].branch, hash)
  }

  /** Every validator of `hash` is on the path every branch takes to it. */
  ghost predicate OneAncestry(latest: Latest, hash: Hash256) {
    forall n, m :: n in Validating(latest, hash) && m in latest && hash in latest[m].branch ==>
      latest[n].branch == CutAfter(latest[m].branch, hash)
  }

  lemma {:induction false} CutIsFirst(branch: Path, hash: Hash256)
    requires hash in branch
    ensures LT.FirstIn(CutAfter(branch, hash), hash) && CutAfter(branch, hash) <= branch
    decreases |branch|
  {
    if branch[0] != hash {
      CutIsFirst(branch[1..], hash);
      var p := CutAfter(branch[1..], hash);
      assert ([branch[0]] + p)[..|p|] == [branch[0]] + p[..|p| - 1];
      assert branch == [branch[0]] + branch[1..];
    }
  }

  lemma {:induction false} FirstIsCut(branch: Path, hash: Hash256, p: Path)
    requires LT.FirstIn(p, hash) && p <= branch
    ensures hash in branch && p == CutAfter(branch, hash)
    decreases |p|
  {
    assert branch[|p| - 1] == hash;
    if |p| > 1 {
      assert p[0] in p[..|p| - 1];
      assert p[1..][..|p| - 2] == p[..|p| - 1][1..];
      FirstIsCut(branch[1..], hash, p[1..]);
      assert p == [p[0]] + p[1..];
    }
  }

  lemma OccursIsFirst(latest: Latest, hash: Hash256, p: Path)
    requires Occurs(latest, hash, p)
    ensures LT.FirstIn(p, hash) && Through(BagOf(latest), p) > 0
  {
    hide BagOf, PreferredBranch.Through;
    var m :| m in latest && hash in latest[m].branch && p == CutAfter(latest[m].branch, hash);
    CutIsFirst(latest[m].branch, hash);
    BagOfDrop(latest, m);
    ThroughPositive(BagOf(latest), latest[m].branch, p);
  }

  lemma FoundOccurs(latest: Latest, hash: Hash256, p: Path)
    requires LT.FirstIn(p, hash) && Through(BagOf(latest), p) > 0
    ensures Occurs(latest, hash, p)
  {
    hide BagOf, PreferredBranch.Through;
    var m := VoterThrough(latest, p);
    FirstIsCut(latest[m].branch, hash, p);
  }

  lemma NothingOccurs(s: State, hash: Hash256)
    requires Consistent(s) && forall p :: LT.EndsIn(p, hash) ==> Through(BagOf(s.latest), p) == 0
    ensures Validating(s.latest, hash) == {} && forall p :: !Occurs(s.latest, hash, p)
    ensures BagOf(s.latest)[[]] == 0
  {
    hide BagOf, PreferredBranch.Through;
    forall n | n in s.latest ensures n !in Validating(s.latest, hash) {
      BagOfDrop(s.latest, n);
      ThroughPositive(BagOf(s.latest), s.latest[n].branch, s.latest[n].branch);
    }
    forall p ensures !Occurs(s.latest, hash, p) {
      if Occurs(s.latest, hash, p) { OccursIsFirst(s.latest, hash, p); }
    }
    BagOfCounts(s.latest, []);
    assert VotersFor(s.latest, []) == {};
  }

  /** The votes at an occurrence are at most those for `hash`, and all of them exactly when every
      validator of `hash` is on that path. */
  lemma OccurrenceVotes(s: State, hash: Hash256, p: Path)
    requires Consistent(s) && Occurs(s.latest, hash, p)
    ensures BagOf(s.latest)[p] <= |Validating(s.latest, hash)|
    ensures BagOf(s.latest)[p] == |Validating(s.latest, hash)| <==>
            forall n :: n in Validating(s.latest, hash) ==> s.latest[n].branch == p
    ensures OneAncestry(s.latest, hash) ==> BagOf(s.latest)[p] == |Validating(s.latest, hash)|
  {
    hide BagOf, VotersFor;
    OccursIsFirst(s.latest, hash, p);
    BagOfCounts(s.latest, p);
    VotersWithin(s.latest, p, Validating(s.latest, hash));
  }

  /** The count is right in every order of the child maps exactly when every validator of `hash` is
      on the path that every stored branch takes to it. */
  lemma CountRightIff(s: State, hash: Hash256)
    requires Consistent(s)
    ensures (forall p :: Occurs(s.latest, hash, p) ==> BagOf(s.latest)[p] == |Validating(s.latest, hash)|)
       <==> OneAncestry(s.latest, hash)
  {
    hide BagOf, Consistent;
    forall p | Occurs(s.latest, hash, p)
      ensures BagOf(s.latest)[p] == |Validating(s.latest, hash)| <==>
              forall n :: n in Validating(s.latest, hash) ==> s.latest[n].branch == p
    {
      OccurrenceVotes(s, hash, p);
    }
    if forall p :: Occurs(s.latest, hash, p) ==> BagOf(s.latest)[p] == |Validating(s.latest, hash)| {
      forall n, m | n in Validating(s.latest, hash) && m in s.latest && hash in s.latest[m].branch
        ensures s.latest[n].branch == CutAfter(s.latest[m].branch, hash)
      {
        assert Occurs(s.latest, hash, CutAfter(s.latest[m].branch, hash));
      }
    } else {
      var p :| Occurs(s.latest, hash, p) && BagOf(s.latest)[p] != |Validating(s.latest, hash)|;
      OccurrenceVotes(s, hash, p);
    }
  }

  /** The failing case: two validators of one ledger along two ancestries count one, in any order. */
  lemma TwoAncestriesUndercount(v: Validation, w: Validation, p: Path)
    requires v.ledgerHash == 7 && w.ledgerHash == 7
    ensures var latest := map[1 := Entry(v, [7]), 2 := Entry(w, [5, 7])];
            |Validating(latest, 7)| == 2 && BagOf(latest)[p] <= 1
  {
    var latest := map[1 := Entry(v, [7]), 2 := Entry(w, [5, 7])];
    assert Validating(latest, 7) == {1, 2};
    BagOfCounts(latest, p);
    var voters := VotersFor(latest, p);
    assert voters <= {1, 2} && !(1 in voters && 2 in voters);
    SubsetSize(voters, if 1 in voters then {1} else {2});
  }

  lemma VotersWithin(latest: Latest, path: Path, all: set<NodeId>)
    requires forall n :: n in latest && latest[n].branch == path ==> n in all
    requires all <= latest.Keys
    ensures |VotersFor(latest, path)| <= |all|
    ensures (forall n :: n in all ==> latest[n].branch == path) <==> |VotersFor(latest, path)| == |all|
  {
    var here := VotersFor(latest, path);
    SubsetSize(here, all);
    if forall n :: n in all ==> latest[n].branch == path {
      assert here == all;
    }
  }

  /** Positive support is some validator's vote. */
  lemma {:induction false} VoterThrough(latest: Latest, p: Path) returns (n: NodeId)
    requires Through(BagOf(latest), p) > 0
    ensures n in latest && p <= latest[n].branch
    decreases |latest|
  {
    var c :| c in latest;
    BagOfRemove(latest, c);
    if p <= latest[c].branch {
      n := c;
    } else {
      ThroughAdd(BagOf(latest - {c}), latest[c].branch, p);
      n := VoterThrough(latest - {c}, p);
    }
  }

  // ---------------------------------------------------------------- whole runs

  datatype Op =
    | Trust(node: NodeId)
    | Distrust(node: NodeId)
    | Vote(validation: Validation, parents: Path)
    | Prune(seqNo: u32)
    | Query(seqNo: u32)

  function Step(s: State, op: Op): (r: State) {
    match op
    case Trust(n) => AfterAddTrusted(s, n)
    case Distrust(n) => AfterRemoveTrusted(s, n)
    case Vote(v, parents) => AfterAdd(s, v, parents)
    case Prune(seqNo) => AfterPrune(s, seqNo)
    case Query(_) => s
  }

  /** Who is trusted and what they last validated after a run, with no trie and no memo. */
  function StateAfter(ops: seq<Op>): (s: State) {
    if ops == [] then State({}, map[]) else Step(StateAfter(ops[..|ops| - 1]), ops[|ops| - 1])
  }

  /** Whatever run of trust changes, votes, prunes and queries is replayed on the aggregator,
      every query gives the preferred tip of exactly the entries that count at that point. */
  method Replay(ops: seq<Op>) returns (answers: seq<Option<Hash256>>)
    ensures |answers| == |ops|
    ensures forall i :: 0 <= i < |ops| && ops[i].Query? ==>
              IsAnswer(StateAfter(ops[..i]).latest, ops[i].seqNo, answers[i])
  {
    hide IsAnswer, LT.Represents, BagOf, Consistent;
    var agg := new ValidationsTrie();
    answers := [];
    for i := 0 to |ops|
      invariant agg.Valid() && fresh(agg) && fresh(agg.trie)
      invariant agg.View() == StateAfter(ops[..i])
      invariant |answers| == i
      invariant forall j :: 0 <= j < i && ops[j].Query? ==>
                  IsAnswer(StateAfter(ops[..j]).latest, ops[j].seqNo, answers[j])
    {
      assert ops[..i + 1][..i] == ops[..i];
      var answer := None;
      match ops[i] {
        case Trust(n) => agg.AddTrusted(n);
        case Distrust(n) => agg.RemoveTrusted(n);
        case Vote(v, parents) => var _ := agg.AddWithParents(v, parents);
        case Prune(seqNo) => var _ := agg.PruneBelow(seqNo);
        case Query(seqNo) => answer := agg.GetPreferred(seqNo);
      }
      answers := answers + [answer];
    }
  }

  predicate NotOlder(v: Validation, w: Validation) {
    v.ledgerSeq > w.ledgerSeq || (v.ledgerSeq == w.ledgerSeq && v.signTime >= w.signTime)
  }

  /** `op` does not take away a vote of `n` at sequence `seqNo`. */
  predicate Keeps(op: Op, n: NodeId, seqNo: u32) {
    op != Distrust(n) && (op.Prune? ==> op.seqNo <= seqNo)
  }

  lemma RunConsistent(ops: seq<Op>)
    ensures Consistent(StateAfter(ops))
    decreases |ops|
  {
    if ops != [] {
      var last := |ops| - 1;
      RunConsistent(ops[..last]);
      if ops[last].Vote? {
        AddMovesForward(StateAfter(ops[..last]), ops[last].validation, ops[last].parents, 0);
      }
    }
  }

  /** A replayed older validation never displaces a vote: as long as nothing drops it, what is
      on file for a validator only moves forward in (sequence, signing time). */
  lemma {:induction false} VoteNeverRegresses(ops: seq<Op>, k: nat, n: NodeId)
    requires k <= |ops| && n in StateAfter(ops[..k]).latest
    requires forall j :: k <= j < |ops| ==> Keeps(ops[j], n, StateAfter(ops[..k]).latest[n].validation.ledgerSeq)
    ensures n in StateAfter(ops).latest
    ensures NotOlder(StateAfter(ops).latest[n].validation, StateAfter(ops[..k]).latest[n].validation)
    decreases |ops|
  {
    if k == |ops| {
      assert ops[..k] == ops;
    } else {
      var last := |ops| - 1;
      assert ops[..last][..k] == ops[..k];
      VoteNeverRegresses(ops[..last], k, n);
      RunConsistent(ops[..last]);
      assert Keeps(ops[last], n, StateAfter(ops[..k]).latest[n].validation.ledgerSeq);
      if ops[last].Vote? {
        AddMovesForward(StateAfter(ops[..last]), ops[last].validation, ops[last].parents, n);
      }
    }
  }
}
