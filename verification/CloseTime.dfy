/** Close-time rounding, the vote on a close-time bucket, and moving our own time onto it. */
module CloseTime {
  import opened Primitives
  import opened SortedIds
  import opened ProposalTracker

  /** Nearest multiple of the resolution. */
  function RoundCloseTime(t: u32, resolution: u32): (r: u32) {
    if resolution == 0 then t
    else
      var raised: u32 := SaturatingAdd(t, resolution / 2);
      FloorBelow(raised, resolution);
      raised / resolution * resolution
  }

  lemma FloorBelow(x: nat, m: nat)
    requires m > 0
    ensures x / m * m <= x < x / m * m + m
  {
    assert x == x / m * m + x % m;
  }

  /** Zero means no opinion; anything else is rounded and lifted above the parent's close time. */
  function EffCloseTime(t: u32, resolution: u32, prior: u32): (r: u32) {
    if t == 0 then 0
    else
      var rounded, least := RoundCloseTime(t, resolution), SaturatingAdd(prior, 1);
      if rounded > least then rounded else least
  }

  /** Anyone alone closes at the rounded time, or exactly one after the parent where that is not later. */
  lemma EffIsLifted(t: u32, resolution: u32, prior: u32)
    requires t != 0 && prior < U32_MAX
    ensures var r := EffCloseTime(t, resolution, prior);
            && r > prior && r >= RoundCloseTime(t, resolution)
            && (r == RoundCloseTime(t, resolution) || r == prior + 1)
            && (r == RoundCloseTime(t, resolution) <==> RoundCloseTime(t, resolution) > prior)
    ensures EffCloseTime(0, resolution, prior) == 0
  {
    hide RoundCloseTime;
  }

  lemma RoundIdempotent(t: u32, resolution: u32)
    ensures RoundCloseTime(RoundCloseTime(t, resolution), resolution) == RoundCloseTime(t, resolution)
  {
    if resolution > 0 {
      var q := SaturatingAdd(t, resolution / 2) / resolution;
      var raised := SaturatingAdd(q * resolution, resolution / 2);
      FloorBelow(U32_MAX, resolution);
      FloorBelow(SaturatingAdd(t, resolution / 2), resolution);
      DivModUnique(raised, resolution, q, raised - q * resolution);
    }
  }

  /** A rounded time is the representable multiple of the resolution nearest to the time. */
  lemma RoundIsNearest(t: u32, resolution: u32, g: u32)
    requires resolution > 0
    ensures RoundCloseTime(t, resolution) % resolution == 0
    ensures g % resolution == 0 ==> AbsDiff(RoundCloseTime(t, resolution), t) <= AbsDiff(g, t)
  {
    var x := SaturatingAdd(t, resolution / 2);
    var q, p := x / resolution, g / resolution;
    RoundIs(t, resolution);
    hide RoundCloseTime;
    FloorBelow(x, resolution);
    MultipleHasNoRemainder(q, resolution);
    MultiplesApart(p, q, resolution);
    assert g == p * resolution + g % resolution;
    if g % resolution == 0 { NoneNearer(t, resolution, q * resolution, p * resolution); }
  }

  lemma MultiplesApart(p: nat, q: nat, m: nat)
    ensures p == q || p * m + m <= q * m || q * m + m <= p * m
  {
    if p < q {
      MultiplyBounds(p + 1, q, m, m);
    } else if p > q {
      MultiplyBounds(q + 1, p, m, m);
    }
  }

  /** Half way between two multiples the later one is taken. */
  lemma RoundTiesUp(t: u32, resolution: u32, g: u32)
    requires resolution > 0 && g % resolution == 0 && AbsDiff(g, t) == AbsDiff(RoundCloseTime(t, resolution), t)
    ensures g <= RoundCloseTime(t, resolution)
  {
    var x := SaturatingAdd(t, resolution / 2);
    var q, p := x / resolution, g / resolution;
    RoundIs(t, resolution);
    hide RoundCloseTime;
    FloorBelow(x, resolution);
    WholeMultiple(g, resolution);
    LaterMultiple(t, resolution, q, p, RoundCloseTime(t, resolution), g);
  }

  lemma LaterMultiple(t: u32, resolution: u32, q: nat, p: nat, r: u32, g: u32)
    requires resolution > 0 && r <= SaturatingAdd(t, resolution / 2) < r + resolution
    requires r == q * resolution && g == p * resolution && AbsDiff(g, t) == AbsDiff(r, t)
    ensures g <= r
  {
    MultiplesApart(p, q, resolution);
    LaterTaken(t, resolution, r, g);
  }

  lemma WholeMultiple(g: nat, m: nat)
    requires m > 0 && g % m == 0
    ensures g == g / m * m
  {
  }

  lemma LaterTaken(t: u32, resolution: u32, r: u32, g: u32)
    requires resolution > 0 && r <= SaturatingAdd(t, resolution / 2) < r + resolution
    requires (g == r || g + resolution <= r || r + resolution <= g) && AbsDiff(g, t) == AbsDiff(r, t)
    ensures g <= r
  {
  }

  lemma NoneNearer(t: u32, resolution: u32, r: u32, g: u32)
    requires r <= SaturatingAdd(t, resolution / 2) < r + resolution
    requires g == r || g + resolution <= r || r + resolution <= g
    ensures AbsDiff(r, t) <= AbsDiff(g, t)
  {
  }

  lemma RoundIs(t: u32, resolution: u32)
    requires resolution > 0
    ensures RoundCloseTime(t, resolution) == SaturatingAdd(t, resolution / 2) / resolution * resolution
  {
  }

  lemma MultipleHasNoRemainder(q: nat, m: nat)
    requires m > 0
    ensures q * m % m == 0
  {
    DivModUnique(q * m, m, q, 0);
    assert q * m == q * m / m * m + q * m % m;
  }

  // ---------------------------------------------------------------- votes

  /** A vote counts when it is an opinion and rounds above the parent's close time. */
  predicate Counts(t: u32, resolution: u32, prior: u32) {
    t != 0 && RoundCloseTime(t, resolution) >= SaturatingAdd(prior, 1)
  }

  function Vote(t: u32, resolution: u32, prior: u32): (v: multiset<u32>) {
    if Counts(t, resolution, prior) then multiset{RoundCloseTime(t, resolution)} else multiset{}
  }

  /** The buckets voted for. */
  function Buckets(times: seq<u32>, resolution: u32, prior: u32): (v: multiset<u32>) {
    if times == [] then multiset{}
    else Buckets(times[..|times| - 1], resolution, prior) + Vote(times[|times| - 1], resolution, prior)
  }

  lemma {:induction false} BucketsConcat(a: seq<u32>, b: seq<u32>, resolution: u32, prior: u32)
    ensures Buckets(a + b, resolution, prior) == Buckets(a, resolution, prior) + Buckets(b, resolution, prior)
    decreases |b|
  {
    if b == [] {
      assert a + b == a;
    } else {
      assert (a + b)[..|a + b| - 1] == a + b[..|b| - 1];
      BucketsConcat(a, b[..|b| - 1], resolution, prior);
    }
  }

  lemma BucketsOne(t: u32, resolution: u32, prior: u32)
    ensures Buckets([t], resolution, prior) == Vote(t, resolution, prior)
  {
    assert [t][..0] == [];
  }

  lemma TakeOut(times: seq<u32>, x: u32) returns (left: seq<u32>, right: seq<u32>)
    requires x in times
    ensures times == left + [x] + right
    ensures multiset(left + right) == multiset(times) - multiset{x}
  {
    var i :| 0 <= i < |times| && times[i] == x;
    left, right := times[..i], times[i + 1..];
    assert times == left + [x] + right;
    assert multiset(times) == multiset(left) + multiset{x} + multiset(right);
  }

  lemma BucketsTakeOut(left: seq<u32>, x: u32, right: seq<u32>, resolution: u32, prior: u32)
    ensures Buckets(left + [x] + right, resolution, prior)
            == Buckets(left + right, resolution, prior) + Buckets([x], resolution, prior)
  {
    hide Buckets;
    BucketsConcat(left, right, resolution, prior);
    BucketsConcat(left + [x], right, resolution, prior);
    BucketsConcat(left, [x], resolution, prior);
  }

  /** The buckets depend only on which times were voted, not on who voted or in what order. */
  lemma {:induction false} BucketsOfBag(a: seq<u32>, b: seq<u32>, resolution: u32, prior: u32)
    requires multiset(a) == multiset(b)
    ensures Buckets(a, resolution, prior) == Buckets(b, resolution, prior)
    decreases |a|
  {
    hide Buckets;
    if a == [] {
      assert |b| == |multiset(b)|;
    } else {
      var rest, x := a[..|a| - 1], a[|a| - 1];
      assert a == rest + [x];
      assert x in multiset(b);
      var left, right := TakeOut(b, x);
      BucketsOfBag(rest, left + right, resolution, prior);
      BucketsConcat(rest, [x], resolution, prior);
      BucketsTakeOut(left, x, right, resolution, prior);
    }
  }

  lemma {:induction false} BucketsSurvive(times: seq<u32>, resolution: u32, prior: u32)
    ensures |Buckets(times, resolution, prior)| <= |times|
    ensures forall b :: b in Buckets(times, resolution, prior) ==>
              b != 0 && b >= SaturatingAdd(prior, 1) && RoundCloseTime(b, resolution) == b
    decreases |times|
  {
    if times != [] {
      var t := times[|times| - 1];
      BucketsSurvive(times[..|times| - 1], resolution, prior);
      RoundIdempotent(t, resolution);
      hide RoundCloseTime;
    }
  }

  /** No other bucket has more votes, and none with as many is later. */
  ghost predicate IsBest(votes: multiset<u32>, b: u32) {
    && b in votes
    && forall c :: c in votes ==> votes[c] < votes[b] || (votes[c] == votes[b] && c <= b)
  }

  lemma TwoBuckets(votes: multiset<u32>, b: u32, c: u32)
    requires b != c
    ensures votes[b] + votes[c] <= |votes|
  {
    var rest := votes[b := 0];
    assert |rest| == |votes| - votes[b];
    assert |rest[c := 0]| == |rest| - rest[c];
  }

  // ---------------------------------------------------------------- the agreed close time

  /** The reference outcome: a strict majority of the counted votes decides; with votes but no
      majority there is no agreement and no opinion; alone, or with no vote counted, our own time stands. */
  ghost predicate Outcome(our: u32, peers: seq<u32>, resolution: u32, prior: u32, t: u32, agreed: bool) {
    var votes := Buckets([our] + peers, resolution, prior);
    if peers == [] || votes == multiset{} then agreed && t == EffCloseTime(our, resolution, prior)
    else if agreed then exists b :: 2 * votes[b] > |votes| && t == b
    else t == 0 && forall b :: 2 * votes[b] <= |votes|
  }

  lemma OutcomeUnique(our: u32, peers: seq<u32>, resolution: u32, prior: u32, t: u32, agreed: bool, t': u32,
                      agreed': bool)
    requires Outcome(our, peers, resolution, prior, t, agreed) && Outcome(our, peers, resolution, prior, t', agreed')
    ensures t == t' && agreed == agreed'
  {
    var votes := Buckets([our] + peers, resolution, prior);
    if t != t' { TwoBuckets(votes, t, t'); }
  }

  /** Engines with a peer, the same settings and the same votes reach the same outcome, whoever cast
      which vote, as long as one vote counts. */
  lemma OutcomeOfBag(our: u32, peers: seq<u32>, our': u32, peers': seq<u32>, resolution: u32, prior: u32,
                     t: u32, agreed: bool, t': u32, agreed': bool)
    requires peers != [] && peers' != [] && multiset([our] + peers) == multiset([our'] + peers')
    requires exists x :: x in [our] + peers && Counts(x, resolution, prior)
    requires Outcome(our, peers, resolution, prior, t, agreed) && Outcome(our', peers', resolution, prior, t', agreed')
    ensures t == t' && agreed == agreed'
  {
    hide Counts, EffCloseTime;
    var votes := Buckets([our] + peers, resolution, prior);
    BucketsOfBag([our] + peers, [our'] + peers', resolution, prior);
    SomeVoteCounts([our] + peers, resolution, prior);
    if t != t' { TwoBuckets(votes, t, t'); }
  }

  lemma {:induction false} SomeVoteCounts(times: seq<u32>, resolution: u32, prior: u32)
    ensures Buckets(times, resolution, prior) != multiset{} <==> exists x :: x in times && Counts(x, resolution, prior)
    decreases |times|
  {
    if times != [] {
      var rest, last := times[..|times| - 1], times[|times| - 1];
      SomeVoteCounts(rest, resolution, prior);
      assert times == rest + [last];
      assert Counts(last, resolution, prior) ==> RoundCloseTime(last, resolution) in Buckets(times, resolution, prior);
      assert Buckets(rest, resolution, prior) <= Buckets(times, resolution, prior);
      assert !Counts(last, resolution, prior) ==> Buckets(times, resolution, prior) == Buckets(rest, resolution, prior);
    }
  }

  /** The outcome lies after the parent exactly when the votes decide it: alone, or with no vote
      counted, when we have an opinion; otherwise when one bucket has a strict majority. */
  lemma OutcomeAfterPriorIff(our: u32, peers: seq<u32>, resolution: u32, prior: u32, t: u32, agreed: bool)
    requires Outcome(our, peers, resolution, prior, t, agreed) && prior < U32_MAX
    ensures var votes := Buckets([our] + peers, resolution, prior);
            t > prior <==> if peers == [] || votes == multiset{} then our != 0 else exists b :: 2 * votes[b] > |votes|
  {
    var votes := Buckets([our] + peers, resolution, prior);
    BucketsSurvive([our] + peers, resolution, prior);
    hide Buckets, RoundCloseTime;
    if peers != [] && votes != multiset{} {
      if agreed {
        assert t in votes;
      }
    }
  }

  /** The failing case: our time and one peer's in different buckets close at zero. */
  lemma SplitVoteClosesAtZero(t: u32, agreed: bool)
    requires Outcome(100, [200], 10, 50, t, agreed)
    ensures t == 0 && !agreed
  {
    FirstVote(100, [200], 10, 50);
    BucketsOne(200, 10, 50);
    assert RoundCloseTime(100, 10) == 100 && RoundCloseTime(200, 10) == 200;
    hide Buckets, RoundCloseTime;
    assert Buckets([100] + [200], 10, 50) == multiset{100, 200};
  }

  // ---------------------------------------------------------------- tallying

  /** The peers' close times in the order of an enumeration. */
  function TimesIn(order: seq<NodeId>, peers: map<NodeId, Proposal>): (ts: seq<u32>)
    requires forall n :: n in order ==> n in peers
  {
    seq(|order|, i requires 0 <= i < |order| => assert order[i] in order; peers[order[i]].closeTime)
  }

  function CountIn(votes: map<u32, nat>, b: u32): (n: nat) {
    if b in votes then votes[b] else 0
  }

  /** The vote counts as a map. */
  ghost predicate Tallies(votes: map<u32, nat>, bag: multiset<u32>) {
    (forall b :: CountIn(votes, b) == bag[b]) && forall b :: b in votes ==> votes[b] > 0
  }

  method CastVote(votes: map<u32, nat>, t: u32, resolution: u32, prior: u32, ghost bag: multiset<u32>)
    returns (after: map<u32, nat>)
    requires Tallies(votes, bag)
    ensures Tallies(after, bag + Vote(t, resolution, prior))
  {
    after := votes;
    if t != 0 {
      var rounded := RoundCloseTime(t, resolution);
      if rounded >= SaturatingAdd(prior, 1) {
        after := votes[rounded := CountIn(votes, rounded) + 1];
      }
    }
  }

  method TallyCloseTimes(our: u32, peers: map<NodeId, Proposal>, resolution: u32, prior: u32)
    returns (votes: map<u32, nat>, ghost order: seq<NodeId>)
    ensures Enumerates(order, peers.Keys)
    ensures Tallies(votes, Buckets([our] + TimesIn(order, peers), resolution, prior))
  {
    BucketsOne(our, resolution, prior);
    hide Buckets, Vote;
    votes := CastVote(map[], our, resolution, prior, multiset{});
    order := [];
    var rest := peers.Keys;
    assert [our] + TimesIn(order, peers) == [our];
    while rest != {}
      invariant rest <= peers.Keys && Enumerates(order, peers.Keys - rest)
      invariant Tallies(votes, Buckets([our] + TimesIn(order, peers), resolution, prior))
      decreases rest
    {
      var n :| n in rest;
      ghost var times := TimesIn(order, peers);
      votes := CastVote(votes, peers[n].closeTime, resolution, prior, Buckets([our] + times, resolution, prior));
      EnumerateMore(order, peers.Keys - rest, n);
      rest := rest - {n};
      order := order + [n];
      assert peers.Keys - rest == peers.Keys - (rest + {n}) + {n};
      assert [our] + TimesIn(order, peers) == [our] + times + [peers[n].closeTime];
      BucketsConcat([our] + times, [peers[n].closeTime], resolution, prior);
      BucketsOne(peers[n].closeTime, resolution, prior);
    }
    assert peers.Keys - rest == peers.Keys;
  }

  /** Most votes; on a tie the later bucket. */
  method BestBucket(votes: map<u32, nat>, ghost bag: multiset<u32>) returns (bucket: u32, count: nat)
    requires Tallies(votes, bag)
    ensures count == bag[bucket]
    ensures bag != multiset{} ==> IsBest(bag, bucket)
  {
    bucket, count := 0, 0;
    var rest := votes.Keys;
    while rest != {}
      invariant rest <= votes.Keys
      invariant if rest == votes.Keys then bucket == 0 && count == 0 else bucket in votes && count == votes[bucket]
      invariant forall b :: b in votes && b !in rest ==> votes[b] < count || (votes[b] == count && b <= bucket)
      decreases rest
    {
      var b :| b in rest;
      if votes[b] > count || (votes[b] == count && b > bucket) {
        bucket, count := b, votes[b];
      }
      rest := rest - {b};
    }
    assert forall b :: b in bag <==> b in votes by {
      assert forall b :: b in votes ==> CountIn(votes, b) == bag[b];
      assert forall b :: b !in votes ==> CountIn(votes, b) == bag[b];
    }
    assert votes.Keys == {} ==> CountIn(votes, 0) == 0;
    assert CountIn(votes, bucket) == bag[bucket];
    assert forall b :: b in votes ==> votes[b] == CountIn(votes, b);
  }

  method SumVotes(votes: map<u32, nat>, ghost bag: multiset<u32>) returns (total: nat)
    requires Tallies(votes, bag)
    ensures total == |bag|
  {
    total := 0;
    var rest := votes.Keys;
    ghost var left := bag;
    assert forall b :: b in votes ==> CountIn(votes, b) == votes[b];
    while rest != {}
      invariant rest <= votes.Keys
      invariant total + |left| == |bag|
      invariant forall b :: left[b] == if b in rest then votes[b] else 0
      decreases rest
    {
      var b :| b in rest;
      total := total + votes[b];
      left := left[b := 0];
      rest := rest - {b};
    }
    assert left == multiset{};
  }

  lemma TallyEmptyIff(votes: map<u32, nat>, bag: multiset<u32>)
    requires Tallies(votes, bag)
    ensures votes == map[] <==> bag == multiset{}
  {
    assert forall b :: b in votes ==> CountIn(votes, b) == bag[b];
    if votes == map[] {
      forall b ensures bag[b] == 0 {
        assert CountIn(votes, b) == bag[b];
      }
      assert bag == multiset{};
    }
  }

  /** The reference outcome over the peers' positions. */
  ghost predicate OutcomeFor(our: u32, peers: map<NodeId, Proposal>, resolution: u32, prior: u32, t: u32,
                             agreed: bool) {
    exists order :: Enumerates(order, peers.Keys) && Outcome(our, TimesIn(order, peers), resolution, prior, t, agreed)
  }

  /** The engine's close time is the reference outcome. */
  method EffectiveCloseTime(our: Option<u32>, peers: map<NodeId, Proposal>, resolution: u32, prior: u32)
    returns (t: u32, agreed: bool)
    ensures our.None? ==> t == 0 && agreed
    ensures our.Some? ==> OutcomeFor(our.value, peers, resolution, prior, t, agreed)
  {
    if our.None? {
      return 0, true;
    }
    ghost var order := [];
    if |peers| == 0 {
      assert peers.Keys == {};
      assert Enumerates(order, peers.Keys);
      return EffCloseTime(our.value, resolution, prior), true;
    }
    hide Buckets, EffCloseTime, RoundCloseTime, Enumerates, Tallies;
    var votes;
    votes, order := TallyCloseTimes(our.value, peers, resolution, prior);
    ghost var bag := Buckets([our.value] + TimesIn(order, peers), resolution, prior);
    EnumerationSize(order, peers.Keys);
    TallyEmptyIff(votes, bag);
    if votes == map[] {
      return EffCloseTime(our.value, resolution, prior), true;
    }
    var bucket, count := BestBucket(votes, bag);
    var total := SumVotes(votes, bag);
    if count * 2 <= total {
      NoOpinion(resolution, prior);
      return EffCloseTime(0, resolution, prior), false;
    }
    BucketStands([our.value] + TimesIn(order, peers), bucket, resolution, prior);
    return EffCloseTime(bucket, resolution, prior), true;
  }

  lemma NoOpinion(resolution: u32, prior: u32)
    ensures EffCloseTime(0, resolution, prior) == 0
  {
  }

  /** A bucket that was voted for needs no lifting. */
  lemma BucketStands(times: seq<u32>, b: u32, resolution: u32, prior: u32)
    requires b in Buckets(times, resolution, prior)
    ensures EffCloseTime(b, resolution, prior) == b
  {
    BucketsSurvive(times, resolution, prior);
    hide RoundCloseTime, Buckets;
  }

  // ---------------------------------------------------------------- moving our own time

  /** We move to a best bucket that a strict majority of all voters, counted or not, is in; with one
      peer and a validator list a tie is enough. */
  ghost predicate AlignsTo(our: u32, peers: seq<u32>, resolution: u32, prior: u32, listed: bool, b: u32) {
    var votes, total := Buckets([our] + peers, resolution, prior), |peers| + 1;
    && IsBest(votes, b)
    && (2 * votes[b] > total || (2 * votes[b] == total && total == 2 && listed))
  }

  ghost predicate AlignedIn(order: seq<NodeId>, our: u32, peers: map<NodeId, Proposal>, resolution: u32, prior: u32,
                            listed: bool, t: u32)
    requires forall n :: n in order ==> n in peers
  {
    if peers != map[] && exists b :: AlignsTo(our, TimesIn(order, peers), resolution, prior, listed, b)
    then AlignsTo(our, TimesIn(order, peers), resolution, prior, listed, t) else t == our
  }

  /** Our time after alignment: the bucket there is to move to, or where it was. */
  ghost predicate AlignedFor(our: u32, peers: map<NodeId, Proposal>, resolution: u32, prior: u32, listed: bool,
                             t: u32) {
    exists order :: Enumerates(order, peers.Keys) && AlignedIn(order, our, peers, resolution, prior, listed, t)
  }

  method AlignCloseTime(our: u32, peers: map<NodeId, Proposal>, resolution: u32, prior: u32, listed: bool)
    returns (t: u32, changed: bool)
    ensures changed <==> t != our
    ensures AlignedFor(our, peers, resolution, prior, listed, t)
  {
    ghost var order := [];
    if |peers| == 0 {
      assert peers.Keys == {};
      assert Enumerates(order, peers.Keys) && AlignedIn(order, our, peers, resolution, prior, listed, our);
      return our, false;
    }
    hide Buckets, Enumerates, Tallies;
    var votes;
    votes, order := TallyCloseTimes(our, peers, resolution, prior);
    ghost var bag := Buckets([our] + TimesIn(order, peers), resolution, prior);
    EnumerationSize(order, peers.Keys);
    TallyEmptyIff(votes, bag);
    if votes == map[] {
      assert AlignedIn(order, our, peers, resolution, prior, listed, our);
      return our, false;
    }
    var total := |peers| + 1;
    var bucket, count := BestBucket(votes, bag);
    var tieAllowed := total == 2 && listed;
    if count * 2 < total || (!tieAllowed && count * 2 == total) {
      assert AlignedIn(order, our, peers, resolution, prior, listed, our);
      return our, false;
    }
    assert AlignsTo(our, TimesIn(order, peers), resolution, prior, listed, bucket);
    assert AlignedIn(order, our, peers, resolution, prior, listed, bucket);
    return bucket, bucket != our;
  }

  lemma FirstVote(our: u32, peers: seq<u32>, resolution: u32, prior: u32)
    ensures Buckets([our] + peers, resolution, prior)
            == Vote(our, resolution, prior) + Buckets(peers, resolution, prior)
  {
    BucketsConcat([our], peers, resolution, prior);
    BucketsOne(our, resolution, prior);
  }

  /** Aligning again changes nothing. */
  lemma AlignIsIdempotent(our: u32, peers: seq<u32>, resolution: u32, prior: u32, listed: bool, b: u32)
    requires AlignsTo(our, peers, resolution, prior, listed, b)
    ensures Vote(b, resolution, prior) == multiset{b}
    ensures exists c :: AlignsTo(b, peers, resolution, prior, listed, c)
    ensures forall c :: AlignsTo(b, peers, resolution, prior, listed, c) ==> c == b
  {
    FirstVote(our, peers, resolution, prior);
    FirstVote(b, peers, resolution, prior);
    BucketsSurvive([our] + peers, resolution, prior);
    hide Buckets, RoundCloseTime;
    var votes, after := Buckets([our] + peers, resolution, prior), Buckets([b] + peers, resolution, prior);
    assert after == multiset{b} + Buckets(peers, resolution, prior);
    assert after[b] >= votes[b];
    forall c | c in after ensures after[c] < after[b] || (after[c] == after[b] && c <= b) {
      assert c != b ==> after[c] <= votes[c] && c in votes;
    }
    assert 2 * after[b] >= 2 * votes[b];
    assert AlignsTo(b, peers, resolution, prior, listed, b);
  }

  lemma TotalVotes(our: u32, peers: seq<u32>, resolution: u32, prior: u32)
    ensures |Buckets([our] + peers, resolution, prior)| <= |peers| + 1
  {
    BucketsSurvive([our] + peers, resolution, prior);
  }

  /** After a strict majority has moved us the round agrees on that bucket. */
  lemma AlignedMajorityAgrees(our: u32, peers: seq<u32>, resolution: u32, prior: u32, b: u32, t: u32, agreed: bool)
    requires peers != [] && AlignsTo(our, peers, resolution, prior, false, b)
    requires Outcome(b, peers, resolution, prior, t, agreed)
    ensures agreed && t == b
  {
    FirstVote(our, peers, resolution, prior);
    FirstVote(b, peers, resolution, prior);
    AlignIsIdempotent(our, peers, resolution, prior, false, b);
    TotalVotes(b, peers, resolution, prior);
    hide Buckets, RoundCloseTime, IsBest;
    var votes := Buckets([b] + peers, resolution, prior);
    assert 2 * votes[b] > |votes|;
    if t != b { TwoBuckets(votes, b, t); }
  }

  /** Two validators that see each other's time move to the same bucket, the later one. */
  lemma TwoValidatorsMeet(a: u32, b: u32, resolution: u32, prior: u32, x: u32, y: u32)
    requires Counts(a, resolution, prior) && Counts(b, resolution, prior)
    requires AlignsTo(a, [b], resolution, prior, true, x) && AlignsTo(b, [a], resolution, prior, true, y)
    ensures x == y
    ensures x == if RoundCloseTime(a, resolution) >= RoundCloseTime(b, resolution) then RoundCloseTime(a, resolution)
            else RoundCloseTime(b, resolution)
  {
    FirstVote(a, [b], resolution, prior);
    FirstVote(b, [a], resolution, prior);
    BucketsOne(a, resolution, prior);
    BucketsOne(b, resolution, prior);
    hide Buckets, RoundCloseTime;
    var ra, rb := RoundCloseTime(a, resolution), RoundCloseTime(b, resolution);
    assert Buckets([a] + [b], resolution, prior) == multiset{ra, rb};
    assert Buckets([b] + [a], resolution, prior) == multiset{ra, rb};
    assert ra in multiset{ra, rb} && rb in multiset{ra, rb};
  }

  /** And they do move: with two validators the alignment always has a target once both times count. */
  lemma TwoValidatorsMove(a: u32, b: u32, resolution: u32, prior: u32)
    requires Counts(a, resolution, prior) && Counts(b, resolution, prior)
    ensures exists x :: AlignsTo(a, [b], resolution, prior, true, x)
  {
    FirstVote(a, [b], resolution, prior);
    BucketsOne(b, resolution, prior);
    hide Buckets, RoundCloseTime;
    var ra, rb := RoundCloseTime(a, resolution), RoundCloseTime(b, resolution);
    var x := if ra >= rb then ra else rb;
    assert Buckets([a] + [b], resolution, prior) == multiset{ra, rb};
    assert AlignsTo(a, [b], resolution, prior, true, x);
  }
}
