/** What the flag-ledger tally guarantees about every registered amendment over every run of tallies. */
module AmendmentRuns {
  import opened Primitives
  import opened AmendmentTable
  import opened AmendmentVoting

  /** The table before tally `i` of a run. */
  function TableAt(table: States, mt: u32, run: seq<Tally>, i: nat): (r: States)
    requires i <= |run|
  {
    if i == 0 then table else AfterTally(TableAt(table, mt, run, i - 1), mt, run[i - 1])
  }

  /** What the tallies of a run emit. */
  ghost predicate EmittedBy(table: States, mt: u32, run: seq<Tally>, outs: seq<seq<Action>>) {
    |outs| <= |run| && forall i :: 0 <= i < |outs| ==> Emits(TableAt(table, mt, run, i), mt, run[i], outs[i])
  }

  /** One tally after another on one table. */
  method RunTallies(table: AmendmentTable, run: seq<Tally>) returns (outs: seq<seq<Action>>)
    modifies table
    ensures table.state == TableAt(old(table.state), table.majorityTime, run, |run|)
    ensures |outs| == |run| && EmittedBy(old(table.state), table.majorityTime, run, outs)
  {
    hide Emits, AfterTally;
    outs := [];
    for i := 0 to |run|
      invariant table.state == TableAt(old(table.state), table.majorityTime, run, i)
      invariant |outs| == i && EmittedBy(old(table.state), table.majorityTime, run, outs)
    {
      var actions := TallyVotes(table, run[i]);
      outs := outs + [actions];
    }
  }

  /** A run of tallies, seen from one registered amendment, is the run of that amendment alone. */
  lemma {:induction false} RunSeenFrom(table: States, mt: u32, run: seq<Tally>, outs: seq<seq<Action>>, id: Hash256,
                                       i: nat)
    requires id in table && EmittedBy(table, mt, run, outs) && i <= |outs|
    ensures id in TableAt(table, mt, run, i) && TableAt(table, mt, run, i)[id] == StateAt(table[id], mt, run, id, i)
    ensures i < |outs| ==> About(outs[i], id) == ActionsAt(table[id], mt, run, id, i)
    decreases i
  {
    hide Emits, AfterTally, About, StepState, StepActions;
    if i > 0 {
      RunSeenFrom(table, mt, run, outs, id, i - 1);
      TallySeenFrom(TableAt(table, mt, run, i - 1), mt, run[i - 1], outs[i - 1], id);
    }
    if i < |outs| {
      TallySeenFrom(TableAt(table, mt, run, i), mt, run[i], outs[i], id);
    }
  }

  lemma AllSeenFrom(table: States, mt: u32, run: seq<Tally>, outs: seq<seq<Action>>, id: Hash256)
    requires id in table && EmittedBy(table, mt, run, outs) && |outs| == |run|
    ensures forall i :: 0 <= i < |run| ==> About(outs[i], id) == ActionsAt(table[id], mt, run, id, i)
  {
    hide EmittedBy, About, ActionsAt;
    forall i | 0 <= i < |run| ensures About(outs[i], id) == ActionsAt(table[id], mt, run, id, i) {
      RunSeenFrom(table, mt, run, outs, id, i);
    }
  }

  /** A full run of tallies from a table in which the amendment is neither enabled nor in majority. */
  ghost predicate RunOf(table: States, mt: u32, run: seq<Tally>, outs: seq<seq<Action>>, id: Hash256) {
    id in table && Fresh(table[id]) && |outs| == |run| && EmittedBy(table, mt, run, outs)
  }

  /** Whether a tally looks at an amendment: it counts at all, and we support it or somebody votes for it. */
  predicate LooksAt(s: AmendmentState, t: Tally, id: Hash256) {
    t.trusted > 0 && Tracks(s, t, id)
  }

  /** Tally `i` announced a majority, nothing was announced up to tally `j`, and of the counted
      tallies in between exactly those that looked at the amendment were above the threshold. */
  ghost predicate Stands(table: States, run: seq<Tally>, outs: seq<seq<Action>>, id: Hash256, i: nat, j: nat)
    requires id in table && i < j <= |run| && |outs| == |run|
  {
    && About(outs[i], id) == [GotMajority(id, run[i].closeTime)] && run[i].trusted > 0 && Passes(run[i], id)
    && (forall k :: i < k < j ==> About(outs[k], id) == [])
    && (forall k :: i < k < j && run[k].trusted > 0 ==> (Passes(run[k], id) <==> LooksAt(table[id], run[k], id)))
  }

  lemma StandsFrom(table: States, mt: u32, run: seq<Tally>, outs: seq<seq<Action>>, id: Hash256, i: nat, j: nat)
    requires RunOf(table, mt, run, outs, id) && i < j <= |run| && MajorityFrom(table[id], mt, run, id, i, j)
    ensures Stands(table, run, outs, id, i, j)
  {
    AllSeenFrom(table, mt, run, outs, id);
    hide EmittedBy, About, ActionsAt, Passes;
    forall k | i < k < j && run[k].trusted > 0 ensures Passes(run[k], id) <==> LooksAt(table[id], run[k], id) {
      SupportKept(table[id], mt, run, id, k);
    }
  }

  /** Gains and losses alternate, first half: over every run a loss answers a gain with nothing between. */
  lemma LossAnswersGain(table: States, mt: u32, run: seq<Tally>, outs: seq<seq<Action>>, id: Hash256, j: nat)
    returns (i: nat)
    requires RunOf(table, mt, run, outs, id) && j < |run| && About(outs[j], id) == [LostMajority(id)]
    ensures i < j && Stands(table, run, outs, id, i, j) && run[j].trusted > 0 && !Passes(run[j], id)
  {
    RunSeenFrom(table, mt, run, outs, id, j);
    i := LostAnswersGot(table[id], mt, run, id, j);
    StandsFrom(table, mt, run, outs, id, i, j);
  }

  /** Second half: between two gains there is a loss. */
  lemma GainNeedsLoss(table: States, mt: u32, run: seq<Tally>, outs: seq<seq<Action>>, id: Hash256, i: nat, j: nat)
    returns (k: nat)
    requires RunOf(table, mt, run, outs, id) && i < j < |run|
    requires About(outs[i], id) == [GotMajority(id, run[i].closeTime)]
    requires About(outs[j], id) == [GotMajority(id, run[j].closeTime)]
    ensures i < k < j && About(outs[k], id) == [LostMajority(id)]
  {
    hide EmittedBy, About, ActionsAt;
    AllSeenFrom(table, mt, run, outs, id);
    k := GotNeedsLostBetween(table[id], mt, run, id, i, j);
  }

  /** Over every run an activation follows an announced majority that stood for the whole window by
      close time, and nothing is announced about the amendment afterwards. */
  lemma Activation(table: States, mt: u32, run: seq<Tally>, outs: seq<seq<Action>>, id: Hash256, j: nat)
    returns (i: nat)
    requires RunOf(table, mt, run, outs, id) && j < |run| && About(outs[j], id) == [Activate(id)]
    ensures i < j && Stands(table, run, outs, id, i, j)
    ensures SaturatingSub(run[j].closeTime, run[i].closeTime) >= mt
    ensures forall k :: j < k < |run| ==> About(outs[k], id) == []
  {
    RunSeenFrom(table, mt, run, outs, id, j);
    i := ActivationHistory(table[id], mt, run, id, j);
    StandsFrom(table, mt, run, outs, id, i, j);
    hide EmittedBy, About, ActionsAt;
    AllSeenFrom(table, mt, run, outs, id);
  }

  // ---------------------------------------------------------------- announcements decide announcements

  /** The last thing announced about an amendment before tally `j`. */
  function LastAbout(outs: seq<seq<Action>>, id: Hash256, j: nat): (last: Option<Action>)
    requires j <= |outs|
  {
    if j == 0 then None
    else
      var about := About(outs[j - 1], id);
      if about == [] then LastAbout(outs, id, j - 1) else Some(about[|about| - 1])
  }

  /** The close time of the majority that stands. */
  function Since(last: Option<Action>): (c: Option<u32>) {
    if last.Some? && last.value.GotMajority? then Some(last.value.closeTime) else None
  }

  /** The reference: what a tally announces, from the last announcement and the votes alone. */
  function Announces(last: Option<Action>, supported: bool, mt: u32, t: Tally, id: Hash256): (a: seq<Action>) {
    var votes := if id in t.votes then t.votes[id] else 0;
    var enough := if t.trusted == 1 then votes >= 1 else 5 * votes > 4 * t.trusted;
    if t.trusted == 0 || last == Some(Activate(id)) then []
    else if Since(last).Some? && (mt == 0 || Since(last).value + mt <= t.closeTime) then [Activate(id)]
    else if !supported && id !in t.votes then []
    else if enough && Since(last).None? then [GotMajority(id, t.closeTime)]
    else if !enough && Since(last).Some? then [LostMajority(id)]
    else []
  }

  /** The state on record is what was last announced. */
  predicate OnRecord(s: AmendmentState, last: Option<Action>, id: Hash256) {
    && (s.enabled <==> last == Some(Activate(id)))
    && (!s.enabled ==> s.majoritySince == Since(last))
  }

  /** One tally announces what the reference does, and puts it on record. */
  lemma StepAnnounces(s: AmendmentState, last: Option<Action>, mt: u32, t: Tally, id: Hash256)
    requires OnRecord(s, last, id)
    ensures StepActions(s, mt, t, id) == Announces(last, s.supported, mt, t, id)
    ensures var a := StepActions(s, mt, t, id);
            OnRecord(StepState(s, mt, t, id), if a == [] then last else Some(a[|a| - 1]), id)
  {
    if t.trusted > 0 { PassesIff(t, id); }
    hide Passes;
  }

  lemma {:induction false} AnnouncedState(table: States, mt: u32, run: seq<Tally>, outs: seq<seq<Action>>, id: Hash256,
                                          j: nat)
    requires RunOf(table, mt, run, outs, id) && j <= |run|
    ensures OnRecord(StateAt(table[id], mt, run, id, j), LastAbout(outs, id, j), id)
    decreases j
  {
    hide EmittedBy, About, StepActions, StepState;
    if j > 0 {
      hide OnRecord;
      AnnouncedState(table, mt, run, outs, id, j - 1);
      RunSeenFrom(table, mt, run, outs, id, j - 1);
      StepAnnounces(StateAt(table[id], mt, run, id, j - 1), LastAbout(outs, id, j - 1), mt, run[j - 1], id);
    }
  }

  /** Over every run of tallies on a whole table, what is announced about a registered amendment is what
      the reference announces: nothing but earlier announcements and the votes decides it. */
  lemma RunAnnounces(table: States, mt: u32, run: seq<Tally>, outs: seq<seq<Action>>, id: Hash256, j: nat)
    requires RunOf(table, mt, run, outs, id) && j < |run|
    ensures About(outs[j], id) == Announces(LastAbout(outs, id, j), table[id].supported, mt, run[j], id)
  {
    AnnouncedState(table, mt, run, outs, id, j);
    RunSeenFrom(table, mt, run, outs, id, j);
    SupportKept(table[id], mt, run, id, j);
    hide About, OnRecord, StepActions, StepState;
    StepAnnounces(StateAt(table[id], mt, run, id, j), LastAbout(outs, id, j), mt, run[j], id);
  }

  /** For an amendment we support, every counted tally of that window was above the threshold. */
  lemma SupportedActivation(table: States, mt: u32, run: seq<Tally>, outs: seq<seq<Action>>, id: Hash256, j: nat)
    returns (i: nat)
    requires RunOf(table, mt, run, outs, id) && table[id].supported && j < |run| && About(outs[j], id) == [Activate(id)]
    ensures i < j && Stands(table, run, outs, id, i, j) && SaturatingSub(run[j].closeTime, run[i].closeTime) >= mt
    ensures forall k :: i <= k < j && run[k].trusted > 0 ==> Passes(run[k], id)
  {
    hide Passes, About, EmittedBy;
    i := Activation(table, mt, run, outs, id, j);
    forall k | i <= k < j && run[k].trusted > 0 ensures Passes(run[k], id) {
    }
  }

  /** For one we do not support, that holds exactly when every counted tally of the window mentions it. */
  lemma UnsupportedActivationIff(table: States, mt: u32, run: seq<Tally>, outs: seq<seq<Action>>, id: Hash256, j: nat)
    returns (i: nat)
    requires RunOf(table, mt, run, outs, id) && !table[id].supported && j < |run|
             && About(outs[j], id) == [Activate(id)]
    ensures i < j && Stands(table, run, outs, id, i, j)
    ensures (forall k :: i <= k < j && run[k].trusted > 0 ==> Passes(run[k], id))
       <==> (forall k :: i <= k < j && run[k].trusted > 0 ==> id in run[k].votes)
  {
    hide Passes, About, EmittedBy;
    i := Activation(table, mt, run, outs, id, j);
    GainIsMentioned(table, mt, run, outs, id, i);
    forall k | i <= k < j && run[k].trusted > 0 ensures Passes(run[k], id) <==> id in run[k].votes {
    }
  }

  lemma GainIsMentioned(table: States, mt: u32, run: seq<Tally>, outs: seq<seq<Action>>, id: Hash256, i: nat)
    requires RunOf(table, mt, run, outs, id) && i < |run| && !table[id].supported
    requires About(outs[i], id) == [GotMajority(id, run[i].closeTime)]
    ensures id in run[i].votes
  {
    RunSeenFrom(table, mt, run, outs, id, i);
    SupportKept(table[id], mt, run, id, i);
  }

  /** The failing case, through the tally itself: nine of ten votes once, silence, activation. */
  method SilentMajorityActivates(table: AmendmentTable, id: Hash256) returns (outs: seq<seq<Action>>)
    requires table.state == map[id := AmendmentState(false, false, None)] && table.majorityTime == 100
    modifies table
    ensures |outs| == 3 && id in table.state && table.state[id].enabled
    ensures About(outs[0], id) == [GotMajority(id, 1000)] && About(outs[1], id) == []
            && About(outs[2], id) == [Activate(id)]
  {
    var run := [Tally(10, map[id := 9], 1000), Tally(10, map[], 1050), Tally(10, map[], 1100)];
    ghost var before := table.state;
    outs := RunTallies(table, run);
    AllSeenFrom(before, 100, run, outs, id);
    SilentRun(id, before[id], run);
    hide About, Emits;
    RunSeenFrom(before, 100, run, outs, id, 3);
  }

  lemma SilentRun(id: Hash256, s: AmendmentState, run: seq<Tally>)
    requires s == AmendmentState(false, false, None)
    requires run == [Tally(10, map[id := 9], 1000), Tally(10, map[], 1050), Tally(10, map[], 1100)]
    ensures ActionsAt(s, 100, run, id, 0) == [GotMajority(id, 1000)] && ActionsAt(s, 100, run, id, 1) == []
    ensures ActionsAt(s, 100, run, id, 2) == [Activate(id)] && StateAt(s, 100, run, id, 3).enabled
  {
    assert StateAt(s, 100, run, id, 1) == s.(majoritySince := Some(1000));
    assert StateAt(s, 100, run, id, 2) == s.(majoritySince := Some(1000));
  }

  /** An amendment nobody registered is announced again: once a ledger for as long as it passes. */
  lemma UnregisteredAnnouncedTwice(id: Hash256, mt: u32, outs: seq<seq<Action>>)
    requires |outs| == 2 && EmittedBy(map[], mt, [Tally(10, map[id := 9], 1000), Tally(10, map[id := 9], 2000)], outs)
    ensures About(outs[0], id) == [GotMajority(id, 1000)] && About(outs[1], id) == [GotMajority(id, 2000)]
  {
    var run := [Tally(10, map[id := 9], 1000), Tally(10, map[id := 9], 2000)];
    hide Emits, About;
    assert TableAt(map[], mt, run, 0) == map[];
    UnregisteredRepeats(map[], mt, run[0], outs[0], id);
    assert id !in TableAt(map[], mt, run, 1);
    UnregisteredRepeats(TableAt(map[], mt, run, 1), mt, run[1], outs[1], id);
  }

  /** One validator that names an amendment twice counts as two. */
  lemma NamedTwiceCountsTwice(id: Hash256)
    ensures TotalOccurrences([[id, id]], id) == 2 && Voters([[id, id]], id) == 1
  {
    assert [[id, id]][..0] == [];
    assert multiset([id, id]) == multiset{id, id};
  }
}
