/** The amendment vote of a flag ledger, and what it guarantees over runs of flag ledgers. */
module AmendmentVoting {
  import opened Primitives
  import opened AmendmentTable
  import opened SortedIds

  const MAJORITY_THRESHOLD: nat := 80

  datatype Action =
    | GotMajority(id: Hash256, closeTime: u32)
    | LostMajority(id: Hash256)
    | Activate(id: Hash256)

  /** One flag ledger: how many validators are trusted, how many vote for what, and its close time. */
  datatype Tally = Tally(trusted: nat, votes: map<Hash256, nat>, closeTime: u32)

  function VoteCount(t: Tally, id: Hash256): (n: nat) {
    if id in t.votes then t.votes[id] else 0
  }

  function Threshold(trusted: nat): (n: nat) {
    var share := trusted * MAJORITY_THRESHOLD / 100;
    if share < 1 then 1 else share
  }

  /** More than 80% of the trusted validators, or all of one. */
  predicate Passes(t: Tally, id: Hash256) {
    if t.trusted == 1 then VoteCount(t, id) >= Threshold(t.trusted) else VoteCount(t, id) > Threshold(t.trusted)
  }

  /** The share a majority asks for: strictly more than four fifths, or the one vote there is. */
  lemma PassesIff(t: Tally, id: Hash256)
    requires t.trusted > 0
    ensures Passes(t, id) <==> if t.trusted == 1 then VoteCount(t, id) >= 1 else 5 * VoteCount(t, id) > 4 * t.trusted
  {
  }

  // ---------------------------------------------------------------- one tally

  predicate HasMajorityIn(state: States, id: Hash256) {
    id in state && state[id].majoritySince.Some?
  }

  predicate EnabledIn(state: States, id: Hash256) {
    id in state && state[id].enabled
  }

  /** The amendments a tally looks at: those we vote for and those anybody votes for. */
  function TrackedIds(state: States, t: Tally): (ids: set<Hash256>) {
    (set id | id in state && state[id].supported && !state[id].enabled) + t.votes.Keys
  }

  function MajorityActions(state: States, t: Tally, id: Hash256): (a: seq<Action>) {
    if EnabledIn(state, id) then []
    else if Passes(t, id) then (if HasMajorityIn(state, id) then [] else [GotMajority(id, t.closeTime)])
    else if HasMajorityIn(state, id) then [LostMajority(id)]
    else []
  }

  function AfterLook(s: AmendmentState, t: Tally, id: Hash256): (r: AmendmentState) {
    if s.enabled then s
    else if Passes(t, id) then (if s.majoritySince.None? then s.(majoritySince := Some(t.closeTime)) else s)
    else s.(majoritySince := None)
  }

  function ActivateAll(ids: seq<Hash256>): (a: seq<Action>) {
    seq(|ids|, i requires 0 <= i < |ids| => Activate(ids[i]))
  }

  function MajorityAll(state: States, t: Tally, ids: seq<Hash256>): (a: seq<Action>) {
    if ids == [] then []
    else MajorityAll(state, t, ids[..|ids| - 1]) + MajorityActions(state, t, ids[|ids| - 1])
  }

  /** The states after a tally. */
  function AfterTally(state: States, majorityTime: u32, t: Tally): (r: States) {
    if t.trusted == 0 then state
    else
      var mid := Activated(state, majorityTime, t.closeTime);
      map id | id in mid :: if id in TrackedIds(mid, t) then AfterLook(mid[id], t, id) else mid[id]
  }

  /** A tally emits the activations in id order and then the majority changes in id order. */
  ghost predicate Emits(state: States, majorityTime: u32, t: Tally, actions: seq<Action>) {
    if t.trusted == 0 then actions == []
    else
      var mid := Activated(state, majorityTime, t.closeTime);
      exists a: seq<Hash256>, b: seq<Hash256> ::
        && Lists(a, Maturing(state, majorityTime, t.closeTime)) && Lists(b, TrackedIds(mid, t))
        && actions == ActivateAll(a) + MajorityAll(mid, t, b)
  }

  /** The look at one amendment that is not enabled. */
  method LookAt(table: AmendmentTable, t: Tally, id: Hash256) returns (change: seq<Action>)
    requires !EnabledIn(table.state, id)
    modifies table
    ensures change == MajorityActions(old(table.state), t, id)
    ensures table.state == if id in old(table.state) then old(table.state)[id := AfterLook(old(table.state)[id], t, id)]
            else old(table.state)
  {
    var had := table.HasMajority(id);
    if Passes(t, id) {
      table.SetMajority(id, t.closeTime);
      return if had then [] else [GotMajority(id, t.closeTime)];
    }
    if had {
      table.ClearMajority(id);
      return [LostMajority(id)];
    }
    return [];
  }

  /** The look at an amendment depends on its own state only, and leaves an enabled one alone. */
  lemma LooksAlike(state: States, other: States, t: Tally, id: Hash256)
    requires (id in state <==> id in other) && (id in state ==> state[id] == other[id])
    ensures MajorityActions(state, t, id) == MajorityActions(other, t, id)
    ensures EnabledIn(state, id) ==> MajorityActions(state, t, id) == [] && AfterLook(state[id], t, id) == state[id]
  {
  }

  /** One round of the look at tracked amendments, in id order. */
  method LookAtAll(table: AmendmentTable, t: Tally, ids: seq<Hash256>) returns (actions: seq<Action>)
    requires StrictlyIncreasing(ids)
    modifies table
    ensures actions == MajorityAll(old(table.state), t, ids)
    ensures table.state == map id | id in old(table.state) ::
              if id in ids then AfterLook(old(table.state)[id], t, id) else old(table.state)[id]
  {
    hide MajorityActions, AfterLook, Passes;
    ghost var mid := table.state;
    actions := [];
    for i := 0 to |ids|
      invariant table.state.Keys == mid.Keys
      invariant forall id :: id in mid ==>
                  table.state[id] == if id in ids[..i] then AfterLook(mid[id], t, id) else mid[id]
      invariant actions == MajorityAll(mid, t, ids[..i])
    {
      var id := ids[i];
      assert id !in ids[..i];
      assert ids[..i + 1][..i] == ids[..i];
      assert forall x :: x in ids[..i + 1] <==> x in ids[..i] || x == id;
      LooksAlike(mid, table.state, t, id);
      if !table.IsEnabled(id) {
        var change := LookAt(table, t, id);
        actions := actions + change;
      }
    }
    assert ids[..|ids|] == ids;
  }

  method TallyVotes(table: AmendmentTable, t: Tally) returns (actions: seq<Action>)
    modifies table
    ensures table.state == AfterTally(old(table.state), table.majorityTime, t)
    ensures Emits(old(table.state), table.majorityTime, t, actions)
  {
    if t.trusted == 0 {
      return [];
    }
    ghost var before := table.state;
    var activated := table.CheckActivations(t.closeTime);
    ghost var mid := table.state;
    var tracked := SortIds(table.GetVotes() + t.votes.Keys);
    assert table.GetVotes() + t.votes.Keys == TrackedIds(mid, t);
    var changes := LookAtAll(table, t, tracked);
    actions := ActivateAll(activated) + changes;
    assert Lists(activated, Maturing(before, table.majorityTime, t.closeTime)) && Lists(tracked, TrackedIds(mid, t));
  }

  // ---------------------------------------------------------------- one amendment at a time

  /** What a tally does to one registered amendment. */
  function StepState(s: AmendmentState, majorityTime: u32, t: Tally, id: Hash256): (r: AmendmentState) {
    if t.trusted == 0 then s
    else if Matures(s, majorityTime, t.closeTime) then s.(enabled := true)
    else if Tracks(s, t, id) then AfterLook(s, t, id)
    else s
  }

  predicate Tracks(s: AmendmentState, t: Tally, id: Hash256) {
    s.supported || id in t.votes
  }

  /** What it emits about it. */
  function StepActions(s: AmendmentState, majorityTime: u32, t: Tally, id: Hash256): (a: seq<Action>) {
    if t.trusted == 0 || s.enabled then []
    else if Matures(s, majorityTime, t.closeTime) then [Activate(id)]
    else if !Tracks(s, t, id) then []
    else if Passes(t, id) then (if s.majoritySince.Some? then [] else [GotMajority(id, t.closeTime)])
    else if s.majoritySince.Some? then [LostMajority(id)]
    else []
  }

  /** The actions about one amendment, in order. */
  function About(actions: seq<Action>, id: Hash256): (r: seq<Action>) {
    if actions == [] then []
    else
      var last := actions[|actions| - 1];
      About(actions[..|actions| - 1], id) + if last.id == id then [last] else []
  }

  lemma {:induction false} AboutConcat(a: seq<Action>, b: seq<Action>, id: Hash256)
    ensures About(a + b, id) == About(a, id) + About(b, id)
    decreases |b|
  {
    if b == [] {
      assert a + b == a;
    } else {
      assert (a + b)[..|a + b| - 1] == a + b[..|b| - 1];
      AboutConcat(a, b[..|b| - 1], id);
    }
  }

  lemma {:induction false} AboutActivations(ids: seq<Hash256>, id: Hash256)
    requires StrictlyIncreasing(ids)
    ensures About(ActivateAll(ids), id) == if id in ids then [Activate(id)] else []
    decreases |ids|
  {
    if ids != [] {
      var rest, last := ids[..|ids| - 1], ids[|ids| - 1];
      AboutActivations(rest, id);
      assert ActivateAll(ids)[..|ids| - 1] == ActivateAll(rest);
      assert ids == rest + [last];
    }
  }

  lemma MajorityAllStep(state: States, t: Tally, ids: seq<Hash256>)
    requires ids != []
    ensures MajorityAll(state, t, ids)
         == MajorityAll(state, t, ids[..|ids| - 1]) + MajorityActions(state, t, ids[|ids| - 1])
  {
  }

  lemma {:induction false} AboutMajorities(state: States, t: Tally, ids: seq<Hash256>, id: Hash256)
    requires StrictlyIncreasing(ids)
    ensures About(MajorityAll(state, t, ids), id) == if id in ids then MajorityActions(state, t, id) else []
    decreases |ids|
  {
    if ids != [] {
      var rest, last := ids[..|ids| - 1], ids[|ids| - 1];
      var before, own := MajorityAll(state, t, rest), MajorityActions(state, t, last);
      MajorityAllStep(state, t, ids);
      assert ids == rest + [last];
      hide MajorityActions, MajorityAll, About;
      AtMostOneAction(state, t, last);
      AboutMajorities(state, t, rest, id);
      AboutConcat(before, own, id);
      AboutOne(own, last, id);
    }
  }

  lemma AtMostOneAction(state: States, t: Tally, id: Hash256)
    ensures |MajorityActions(state, t, id)| <= 1
    ensures forall k :: 0 <= k < |MajorityActions(state, t, id)| ==> MajorityActions(state, t, id)[k].id == id
  {
  }

  lemma AboutOne(a: seq<Action>, x: Hash256, id: Hash256)
    requires |a| <= 1 && forall k :: 0 <= k < |a| ==> a[k].id == x
    ensures About(a, id) == if x == id then a else []
  {
    if |a| == 1 {
      assert a[..0] == [] && a == [a[0]];
    }
  }

  /** Only activations, and only changes of majority, each in the order of ids. */
  predicate Activations(actions: seq<Action>) {
    && (forall k :: 0 <= k < |actions| ==> actions[k].Activate?)
    && (forall j, k :: 0 <= j < k < |actions| ==> actions[j].id < actions[k].id)
  }

  predicate MajorityChanges(actions: seq<Action>) {
    && (forall k :: 0 <= k < |actions| ==> !actions[k].Activate?)
    && (forall j, k :: 0 <= j < k < |actions| ==> actions[j].id < actions[k].id)
  }

  /** What a tally emits are first the activations and then the changes of majority. */
  lemma TallyOrder(state: States, majorityTime: u32, t: Tally, actions: seq<Action>) returns (k: nat)
    requires Emits(state, majorityTime, t, actions)
    ensures k <= |actions| && Activations(actions[..k]) && MajorityChanges(actions[k..])
  {
    if t.trusted == 0 {
      k := 0;
    } else {
      var mid := Activated(state, majorityTime, t.closeTime);
      var a: seq<Hash256>, b: seq<Hash256> :|
        Lists(a, Maturing(state, majorityTime, t.closeTime)) && Lists(b, TrackedIds(mid, t))
        && actions == ActivateAll(a) + MajorityAll(mid, t, b);
      k := |a|;
      assert actions[..k] == ActivateAll(a) && actions[k..] == MajorityAll(mid, t, b);
      MajorityAllInOrder(mid, t, b);
    }
  }

  lemma {:induction false} MajorityAllInOrder(state: States, t: Tally, ids: seq<Hash256>)
    requires StrictlyIncreasing(ids)
    ensures MajorityChanges(MajorityAll(state, t, ids))
    ensures forall k :: 0 <= k < |MajorityAll(state, t, ids)| ==> MajorityAll(state, t, ids)[k].id in ids
    decreases |ids|
  {
    if ids != [] {
      var rest, last := ids[..|ids| - 1], ids[|ids| - 1];
      MajorityAllInOrder(state, t, rest);
      AtMostOneAction(state, t, last);
      assert ids == rest + [last];
      assert forall id :: id in rest ==> id < last;
      var before, own := MajorityAll(state, t, rest), MajorityActions(state, t, last);
      assert forall k :: 0 <= k < |own| ==> !own[k].Activate?;
      hide MajorityActions;
    }
  }

  /** The whole tally, seen from one registered amendment. */
  lemma TallySeenFrom(state: States, majorityTime: u32, t: Tally, actions: seq<Action>, id: Hash256)
    requires id in state && Emits(state, majorityTime, t, actions)
    ensures id in AfterTally(state, majorityTime, t)
    ensures AfterTally(state, majorityTime, t)[id] == StepState(state[id], majorityTime, t, id)
    ensures About(actions, id) == StepActions(state[id], majorityTime, t, id)
  {
    hide MajorityAll, ActivateAll, Passes;
    if t.trusted > 0 {
      var mid := Activated(state, majorityTime, t.closeTime);
      var a: seq<Hash256>, b: seq<Hash256> :|
        Lists(a, Maturing(state, majorityTime, t.closeTime)) && Lists(b, TrackedIds(mid, t))
        && actions == ActivateAll(a) + MajorityAll(mid, t, b);
      AboutConcat(ActivateAll(a), MajorityAll(mid, t, b), id);
      AboutActivations(a, id);
      AboutMajorities(mid, t, b, id);
    }
  }

  /** An amendment nobody registered stores nothing, so its majority is announced at every tally. */
  lemma UnregisteredRepeats(state: States, majorityTime: u32, t: Tally, actions: seq<Action>, id: Hash256)
    requires id !in state && Emits(state, majorityTime, t, actions)
    ensures id !in AfterTally(state, majorityTime, t)
    ensures About(actions, id) == if t.trusted > 0 && id in t.votes && Passes(t, id) then [GotMajority(id, t.closeTime)]
            else []
  {
    if t.trusted > 0 {
      var mid := Activated(state, majorityTime, t.closeTime);
      var a: seq<Hash256>, b: seq<Hash256> :|
        Lists(a, Maturing(state, majorityTime, t.closeTime)) && Lists(b, TrackedIds(mid, t))
        && actions == ActivateAll(a) + MajorityAll(mid, t, b);
      AboutConcat(ActivateAll(a), MajorityAll(mid, t, b), id);
      AboutActivations(a, id);
      AboutMajorities(mid, t, b, id);
    }
  }

  // ---------------------------------------------------------------- runs

  /** A registered amendment's state before tally `i` of a run. */
  function StateAt(s: AmendmentState, majorityTime: u32, run: seq<Tally>, id: Hash256, i: nat): (r: AmendmentState)
    requires i <= |run|
  {
    if i == 0 then s else StepState(StateAt(s, majorityTime, run, id, i - 1), majorityTime, run[i - 1], id)
  }

  /** What tally `i` emits about it. */
  function ActionsAt(s: AmendmentState, majorityTime: u32, run: seq<Tally>, id: Hash256, i: nat): (a: seq<Action>)
    requires i < |run|
  {
    StepActions(StateAt(s, majorityTime, run, id, i), majorityTime, run[i], id)
  }

  /** Fresh in the table: not enabled, no majority. */
  predicate Fresh(s: AmendmentState) {
    !s.enabled && s.majoritySince.None?
  }

  /** Tally `i` announced the majority that is on record before tally `j`, and nothing was
      announced in between. */
  ghost predicate MajorityFrom(s: AmendmentState, mt: u32, run: seq<Tally>, id: Hash256, i: nat, j: nat)
    requires i < j <= |run|
  {
    && ActionsAt(s, mt, run, id, i) == [GotMajority(id, run[i].closeTime)]
    && run[i].trusted > 0 && Passes(run[i], id)
    && forall k :: i < k < j ==>
         && ActionsAt(s, mt, run, id, k) == []
         && (run[k].trusted > 0 ==> (Passes(run[k], id) <==> Tracks(StateAt(s, mt, run, id, k), run[k], id)))
  }

  lemma {:induction false} SupportKept(s: AmendmentState, mt: u32, run: seq<Tally>, id: Hash256, i: nat)
    requires i <= |run|
    ensures StateAt(s, mt, run, id, i).supported == s.supported
    decreases i
  {
    if i > 0 { SupportKept(s, mt, run, id, i - 1); }
  }

  /** A majority on record was announced, and every counted tally since then either passed or did
      not look at the amendment. */
  lemma {:induction false} MajorityOnRecord(s: AmendmentState, mt: u32, run: seq<Tally>, id: Hash256, j: nat)
    returns (i: nat)
    requires Fresh(s) && j <= |run|
    requires !StateAt(s, mt, run, id, j).enabled && StateAt(s, mt, run, id, j).majoritySince.Some?
    ensures i < j && MajorityFrom(s, mt, run, id, i, j)
    ensures StateAt(s, mt, run, id, j).majoritySince == Some(run[i].closeTime)
    decreases j
  {
    var prev := StateAt(s, mt, run, id, j - 1);
    MajorityStep(prev, mt, run[j - 1], id);
    hide StepState, StepActions, Passes, Tracks;
    if prev.majoritySince.None? {
      i := j - 1;
    } else {
      i := MajorityOnRecord(s, mt, run, id, j - 1);
    }
  }

  /** One step that ends with a majority on record either announced it or left it alone. */
  lemma MajorityStep(s: AmendmentState, mt: u32, t: Tally, id: Hash256)
    requires !StepState(s, mt, t, id).enabled && StepState(s, mt, t, id).majoritySince.Some?
    ensures !s.enabled
    ensures s.majoritySince.None? ==>
              && StepActions(s, mt, t, id) == [GotMajority(id, t.closeTime)] && t.trusted > 0 && Passes(t, id)
              && StepState(s, mt, t, id).majoritySince == Some(t.closeTime)
    ensures s.majoritySince.Some? ==>
              && StepActions(s, mt, t, id) == [] && StepState(s, mt, t, id).majoritySince == s.majoritySince
              && (t.trusted > 0 ==> (Passes(t, id) <==> Tracks(s, t, id)))
  {
  }

  /** Nothing is announced about an enabled amendment. */
  lemma {:induction false} EnabledStays(s: AmendmentState, mt: u32, run: seq<Tally>, id: Hash256, i: nat, j: nat)
    requires i <= j <= |run| && StateAt(s, mt, run, id, i).enabled
    ensures StateAt(s, mt, run, id, j).enabled
    decreases j
  {
    if i < j { EnabledStays(s, mt, run, id, i, j - 1); }
  }

  /** Got and Lost alternate, first half: a loss answers the gain before it. */
  lemma LostAnswersGot(s: AmendmentState, mt: u32, run: seq<Tally>, id: Hash256, j: nat) returns (i: nat)
    requires Fresh(s) && j < |run| && ActionsAt(s, mt, run, id, j) == [LostMajority(id)]
    ensures i < j && MajorityFrom(s, mt, run, id, i, j)
    ensures run[j].trusted > 0 && !Passes(run[j], id)
  {
    i := MajorityOnRecord(s, mt, run, id, j);
  }

  /** Second half: between two gains there is a loss. */
  lemma {:induction false} GotNeedsLostBetween(s: AmendmentState, mt: u32, run: seq<Tally>, id: Hash256, i: nat, j: nat)
    returns (k: nat)
    requires Fresh(s) && i < j < |run|
    requires ActionsAt(s, mt, run, id, i) == [GotMajority(id, run[i].closeTime)]
    requires ActionsAt(s, mt, run, id, j) == [GotMajority(id, run[j].closeTime)]
    ensures i < k < j && ActionsAt(s, mt, run, id, k) == [LostMajority(id)]
  {
    k := FirstLoss(s, mt, run, id, i + 1, j);
  }

  lemma {:induction false} FirstLoss(s: AmendmentState, mt: u32, run: seq<Tally>, id: Hash256, i: nat, j: nat)
    returns (k: nat)
    requires i <= j < |run|
    requires StateAt(s, mt, run, id, i).majoritySince.Some?
    requires StateAt(s, mt, run, id, j).majoritySince.None? && !StateAt(s, mt, run, id, j).enabled
    ensures i <= k < j && ActionsAt(s, mt, run, id, k) == [LostMajority(id)]
    decreases j - i
  {
    if StateAt(s, mt, run, id, i).enabled { EnabledStays(s, mt, run, id, i, j); }
    if StateAt(s, mt, run, id, i + 1).majoritySince.None? {
      k := i;
    } else {
      k := FirstLoss(s, mt, run, id, i + 1, j);
    }
  }

  /** Activation at tally `j`: the majority was announced at some tally `i`, held for the whole
      window by close time, nothing else was announced in between, every counted tally in between
      that looked at the amendment passed, and nothing is announced afterwards. */
  lemma ActivationHistory(s: AmendmentState, mt: u32, run: seq<Tally>, id: Hash256, j: nat) returns (i: nat)
    requires Fresh(s) && j < |run| && ActionsAt(s, mt, run, id, j) == [Activate(id)]
    ensures i < j && MajorityFrom(s, mt, run, id, i, j)
    ensures SaturatingSub(run[j].closeTime, run[i].closeTime) >= mt
    ensures forall k :: j < k < |run| ==> ActionsAt(s, mt, run, id, k) == []
  {
    i := MajorityOnRecord(s, mt, run, id, j);
    forall k | j < k < |run| ensures ActionsAt(s, mt, run, id, k) == [] {
      EnabledStays(s, mt, run, id, j + 1, k);
    }
  }

  // ---------------------------------------------------------------- counting votes

  function Occurrences(list: seq<Hash256>, id: Hash256): (n: nat) {
    multiset(list)[id]
  }

  function TotalOccurrences(lists: seq<seq<Hash256>>, id: Hash256): (n: nat) {
    if lists == [] then 0 else TotalOccurrences(lists[..|lists| - 1], id) + Occurrences(lists[|lists| - 1], id)
  }

  /** How many validators name an amendment. */
  function Voters(lists: seq<seq<Hash256>>, id: Hash256): (n: nat) {
    if lists == [] then 0 else Voters(lists[..|lists| - 1], id) + if id in lists[|lists| - 1] then 1 else 0
  }

  method CountVotes(lists: seq<seq<Hash256>>) returns (counts: map<Hash256, nat>)
    ensures forall id :: (if id in counts then counts[id] else 0) == TotalOccurrences(lists, id)
    ensures forall id :: id in counts ==> counts[id] > 0
  {
    counts := map[];
    for i := 0 to |lists|
      invariant forall id :: (if id in counts then counts[id] else 0) == TotalOccurrences(lists[..i], id)
      invariant forall id :: id in counts ==> counts[id] > 0
    {
      var list := lists[i];
      assert lists[..i + 1][..i] == lists[..i];
      for j := 0 to |list|
        invariant forall id :: (if id in counts then counts[id] else 0)
                               == TotalOccurrences(lists[..i], id) + Occurrences(list[..j], id)
        invariant forall id :: id in counts ==> counts[id] > 0
      {
        assert list[..j + 1] == list[..j] + [list[j]];
        var id := list[j];
        counts := counts[id := (if id in counts then counts[id] else 0) + 1];
      }
      assert list[..|list|] == list;
    }
    assert lists[..|lists|] == lists;
  }

  /** The count is the number of validators exactly when no validator names the amendment twice. */
  lemma {:induction false} CountIsVotersIff(lists: seq<seq<Hash256>>, id: Hash256)
    ensures TotalOccurrences(lists, id) >= Voters(lists, id)
    ensures TotalOccurrences(lists, id) == Voters(lists, id)
       <==> forall k :: 0 <= k < |lists| ==> Occurrences(lists[k], id) <= 1
    decreases |lists|
  {
    if lists != [] {
      var rest, last := lists[..|lists| - 1], lists[|lists| - 1];
      CountIsVotersIff(rest, id);
      assert forall k :: 0 <= k < |rest| ==> rest[k] == lists[k];
      assert id in last <==> Occurrences(last, id) > 0;
      if TotalOccurrences(rest, id) == Voters(rest, id) && Occurrences(last, id) <= 1 {
        assert forall k :: 0 <= k < |lists| ==> Occurrences(lists[k], id) <= 1;
      }
      if forall k :: 0 <= k < |lists| ==> Occurrences(lists[k], id) <= 1 {
        assert forall k :: 0 <= k < |rest| ==> Occurrences(rest[k], id) <= 1;
      }
    }
  }
}
