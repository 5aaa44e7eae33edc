/** The preferred branch, defined on a bag of votes and without any trie.

    A vote is a branch: the path of ledger hashes from an anchor to the ledger that is
    voted for. The preferred path starts at the root and repeatedly extends to the next
    hash that most votes pass through (the higher hash on a tie), for as long as that hash
    carries strictly more votes than end exactly where the path stands. */
module PreferredBranch {
  import opened Primitives

  type Path = seq<Hash256>
  type Bag = multiset<Path>

  /** How many votes have `p` as a prefix. */
  ghost function Through(bag: Bag, p: Path): (n: nat)
    decreases |bag|
  {
    if bag == multiset{} then 0
    else
      var b :| b in bag;
      (if p <= b then 1 else 0) + Through(bag - multiset{b}, p)
  }

  /** The choice made inside Through does not matter: any vote can be taken out first. */
  lemma {:induction false} ThroughRemove(bag: Bag, b: Path, p: Path)
    requires b in bag
    ensures Through(bag, p) == (if p <= b then 1 else 0) + Through(bag - multiset{b}, p)
    decreases |bag|
  {
    var c :| c in bag && Through(bag, p) == (if p <= c then 1 else 0) + Through(bag - multiset{c}, p);
    if c != b {
      var rest := bag - multiset{b} - multiset{c};
      assert bag - multiset{c} - multiset{b} == rest;
      ThroughRemove(bag - multiset{c}, b, p);
      ThroughRemove(bag - multiset{b}, c, p);
    }
  }

  lemma ThroughAdd(bag: Bag, b: Path, p: Path)
    ensures Through(bag + multiset{b}, p) == (if p <= b then 1 else 0) + Through(bag, p)
  {
    ThroughRemove(bag + multiset{b}, b, p);
    assert bag + multiset{b} - multiset{b} == bag;
  }

  /** `k` votes for the same branch. */
  ghost function Copies(b: Path, k: nat): (bag: Bag) {
    multiset{}[b := k]
  }

  lemma {:induction false} ThroughAddCopies(bag: Bag, b: Path, k: nat, p: Path)
    ensures Through(bag + Copies(b, k), p) == (if p <= b then k else 0) + Through(bag, p)
    decreases k
  {
    if k == 0 {
      assert bag + Copies(b, 0) == bag;
    } else {
      assert bag + Copies(b, k) == bag + Copies(b, k - 1) + multiset{b};
      ThroughAdd(bag + Copies(b, k - 1), b, p);
      ThroughAddCopies(bag, b, k - 1, p);
    }
  }

  lemma ThroughRemoveCopies(bag: Bag, b: Path, k: nat, p: Path)
    requires k <= bag[b]
    ensures Through(bag - Copies(b, k), p) == Through(bag, p) - (if p <= b then k else 0)
  {
    assert bag - Copies(b, k) + Copies(b, k) == bag;
    ThroughAddCopies(bag - Copies(b, k), b, k, p);
  }

  /** Two prefixes of one path are prefixes of each other, one way or the other. */
  lemma PrefixesComparable(b: Path, p: Path, q: Path)
    ensures p <= b && q <= b ==> p <= q || q <= p
  {
    assert p <= b ==> p == b[..|p|];
    assert q <= b ==> q == b[..|q|];
  }

  /** Disjoint prefixes share no vote, and neither exceeds the whole bag. */
  lemma {:induction false} ThroughDisjoint(bag: Bag, p: Path, q: Path)
    requires !(p <= q) && !(q <= p)
    ensures Through(bag, p) + Through(bag, q) <= |bag|
    decreases |bag|
  {
    if bag != multiset{} {
      var b :| b in bag;
      ThroughRemove(bag, b, p);
      ThroughRemove(bag, b, q);
      ThroughDisjoint(bag - multiset{b}, p, q);
      PrefixesComparable(b, p, q);
    }
  }

  /** Votes ending at `p` and votes going further than `p` are different votes. */
  lemma {:induction false} TipAndThroughDisjoint(bag: Bag, p: Path, h: Hash256)
    ensures bag[p] + Through(bag, p + [h]) <= |bag|
    decreases |bag|
  {
    if bag != multiset{} {
      var b :| b in bag;
      ThroughRemove(bag, b, p + [h]);
      TipAndThroughDisjoint(bag - multiset{b}, p, h);
    }
  }

  /** A longer prefix is passed by no more votes. */
  lemma {:induction false} ThroughAntitone(bag: Bag, p: Path, q: Path)
    requires p <= q
    ensures Through(bag, q) <= Through(bag, p)
    decreases |bag|
  {
    if bag != multiset{} {
      var b :| b in bag;
      ThroughRemove(bag, b, p);
      ThroughRemove(bag, b, q);
      ThroughAntitone(bag - multiset{b}, p, q);
    }
  }

  lemma {:induction false} ThroughPositive(bag: Bag, b: Path, p: Path)
    requires b in bag && p <= b
    ensures Through(bag, p) > 0
  {
    ThroughRemove(bag, b, p);
  }

  lemma {:induction false} ThroughRoot(bag: Bag)
    ensures Through(bag, []) == |bag|
    decreases |bag|
  {
    if bag != multiset{} {
      var b :| b in bag;
      ThroughRemove(bag, b, []);
      ThroughRoot(bag - multiset{b});
    }
  }

  /** `h` is the next hash after `p` that most votes pass through, the highest on a tie. */
  ghost predicate Leads(bag: Bag, p: Path, h: Hash256) {
    && Through(bag, p + [h]) > 0
    && forall g: Hash256 {:trigger Through(bag, p + [g])} ::
         Through(bag, p + [g]) < Through(bag, p + [h])
         || (Through(bag, p + [g]) == Through(bag, p + [h]) && g <= h)
  }

  /** Extending `p` by `h` is a step of the preferred walk. */
  ghost predicate Advances(bag: Bag, p: Path, h: Hash256) {
    Leads(bag, p, h) && bag[p] < Through(bag, p + [h])
  }

  /** No next hash carries more votes than end at `p`. */
  ghost predicate Settled(bag: Bag, p: Path) {
    forall h: Hash256 {:trigger Through(bag, p + [h])} :: Through(bag, p + [h]) <= bag[p]
  }

  ghost predicate IsPreferredPath(bag: Bag, path: Path) {
    && (forall i {:trigger path[..i]} :: 0 <= i < |path| ==> Advances(bag, path[..i], path[i]))
    && Settled(bag, path)
  }

  /** The hash that a path stands for: its tip, or nothing at the root. */
  function TipOf(path: Path): (r: Option<Hash256>) {
    if path == [] then None else Some(path[|path| - 1])
  }

  /** A settled path cannot be a step of another preferred path. */
  lemma SettledDoesNotAdvance(bag: Bag, a: Path, b: Path, n: nat)
    requires IsPreferredPath(bag, a) && IsPreferredPath(bag, b)
    requires n <= |a| && n <= |b| && a[..n] == b[..n]
    ensures n == |b| ==> n == |a|
  {
    assert n == |b| ==> b == b[..n];
    assert n < |a| ==> Advances(bag, a[..n], a[n]);
    assert n < |a| ==> Through(bag, a[..n] + [a[n]]) > bag[a[..n]];
  }

  lemma {:induction false} PathsAgree(bag: Bag, a: Path, b: Path, n: nat)
    requires IsPreferredPath(bag, a) && IsPreferredPath(bag, b)
    requires n <= |a| && n <= |b| && a[..n] == b[..n]
    ensures a == b
    decreases |a| - n
  {
    SettledDoesNotAdvance(bag, a, b, n);
    SettledDoesNotAdvance(bag, b, a, n);
    if n < |a| {
      assert Advances(bag, a[..n], a[n]) && Advances(bag, b[..n], b[n]);
      assert Through(bag, a[..n] + [a[n]]) > 0 && Through(bag, a[..n] + [b[n]]) > 0;
      assert a[..n + 1] == a[..n] + [a[n]] && b[..n + 1] == b[..n] + [b[n]];
      PathsAgree(bag, a, b, n + 1);
    } else {
      assert a == a[..n] && b == b[..n];
    }
  }

  /** At most one path is preferred, so the preferred tip is a function of the bag alone. */
  lemma PreferredPathUnique(bag: Bag, a: Path, b: Path)
    requires IsPreferredPath(bag, a) && IsPreferredPath(bag, b)
    ensures a == b
  {
    PathsAgree(bag, a, b, 0);
  }

  /** The preferred path is the empty one exactly when nobody votes. */
  lemma {:induction false} PreferredEmptyIffNoVotes(bag: Bag, path: Path)
    requires IsPreferredPath(bag, path)
    requires [] !in bag
    ensures path == [] <==> bag == multiset{}
    ensures TipOf(path) == None <==> bag == multiset{}
  {
    if bag != multiset{} {
      var b :| b in bag;
      var h := b[0];
      ThroughPositive(bag, b, [h]);
      assert [] + [h] == [h];
      assert Settled(bag, path) && path == [] ==> Through(bag, path + [h]) <= bag[path];
    }
    assert path != [] ==> Advances(bag, path[..0], path[0]);
  }

  /** Through a majority prefix, the next hash beats its siblings and the votes that stop short. */
  lemma {:induction false} MajorityStep(bag: Bag, q: Path, h: Hash256, g: Hash256)
    requires 2 * Through(bag, q + [h]) > |bag|
    ensures bag[q] < Through(bag, q + [h])
    ensures g != h ==> Through(bag, q + [g]) < Through(bag, q + [h])
  {
    TipAndThroughDisjoint(bag, q, h);
    assert (q + [h])[|q|] == h && (q + [g])[|q|] == g;
    if g != h {
      ThroughDisjoint(bag, q + [h], q + [g]);
    }
  }

  lemma {:induction false} MajorityAlong(bag: Bag, path: Path, p: Path, n: nat)
    requires IsPreferredPath(bag, path)
    requires 2 * Through(bag, p) > |bag|
    requires n <= |p| && n <= |path| && p[..n] == path[..n]
    ensures p <= path
    decreases |p| - n
  {
    if n < |p| {
      var q, h := p[..n], p[n];
      assert p[..n + 1] == q + [h];
      ThroughAntitone(bag, q + [h], p);
      MajorityStep(bag, q, h, if n < |path| then path[n] else h);
      assert n == |path| ==> path == q;
      assert n < |path| ==> Advances(bag, path[..n], path[n]);
      assert n < |path| ==> Through(bag, q + [h]) <= Through(bag, q + [path[n]]);
      assert n < |path| && path[n] == h;
      assert path[..n + 1] == q + [h];
      MajorityAlong(bag, path, p, n + 1);
    }
  }

  /** A prefix that carries a strict majority of all votes is on the preferred path:
      the preferred tip is that ledger or one of its descendants. */
  lemma MajorityPrefixPreferred(bag: Bag, path: Path, p: Path)
    requires IsPreferredPath(bag, path) && 2 * Through(bag, p) > |bag|
    ensures p <= path
  {
    MajorityAlong(bag, path, p, 0);
  }

  /** A ledger that a strict majority of all votes is for is the preferred one. */
  lemma MajorityTipPreferred(bag: Bag, path: Path, b: Path)
    requires IsPreferredPath(bag, path) && 2 * bag[b] > |bag|
    ensures path == b
  {
    TipIsThrough(bag, b);
    MajorityPrefixPreferred(bag, path, b);
    if |path| > |b| {
      assert path[..|b|] == b;
      assert Advances(bag, path[..|b|], path[|b|]);
      TipAndThroughDisjoint(bag, b, path[|b|]);
    }
  }

  lemma {:induction false} TipIsThrough(bag: Bag, b: Path)
    ensures bag[b] <= Through(bag, b)
    decreases |bag|
  {
    if bag != multiset{} {
      var c :| c in bag;
      ThroughRemove(bag, c, b);
      TipIsThrough(bag - multiset{c}, b);
    }
  }
}
