/** Validators that miss more than half of a flag window are taken out of the quorum, and put back. */
module NegativeUnl {
  import opened Primitives
  import opened SortedIds
  import opened Unl

  const FLAG_LEDGER_INTERVAL: nat := 256

  type Key = string

  datatype Change = Change(validatorKey: Key, disable: bool, ledgerSeq: u32)

  predicate IsFlagLedger(ledgerSeq: u32) {
    ledgerSeq > 0 && ledgerSeq % FLAG_LEDGER_INTERVAL == 0
  }

  /** Of any 256 ledgers in a row from the first on, exactly one is a flag ledger. */
  lemma OneFlagLedgerIn256(first: u32)
    requires 0 < first <= U32_MAX - 255
    ensures !IsFlagLedger(0)
    ensures exists f: u32 :: first <= f <= first + 255 && IsFlagLedger(f)
    ensures forall f: u32, g: u32 {:trigger IsFlagLedger(f), IsFlagLedger(g)} ::
              IsFlagLedger(f) && IsFlagLedger(g) && first <= f <= g <= first + 255 ==> f == g
  {
    var f := (first + 255) / 256 * 256;
    assert IsFlagLedger(f);
  }

  /** A quarter of the trusted set, rounded down. */
  function MaxDisabled(trusted: nat): (m: nat) {
    ((trusted as real) * 0.25).Floor
  }

  lemma MaxDisabledIsQuarter(n: nat)
    ensures MaxDisabled(n) == n / 4
  {
    assert n as real * 0.25 == (n / 4) as real + (n % 4) as real * 0.25;
  }

  lemma WithinQuarter(k: nat, n: nat)
    ensures k <= MaxDisabled(n) <==> 4 * k <= n
    ensures k < MaxDisabled(n) <==> 4 * k + 4 <= n
  {
    MaxDisabledIsQuarter(n);
    hide MaxDisabled;
  }

  function Received(window: map<NodeId, nat>, node: NodeId): (r: nat) {
    if node in window then window[node] else 0
  }

  /** The share of the window's ledgers a validator validated; the quotient of two 32-bit counts
      never rounds onto one half, so reals decide the comparison as floating point does. */
  function Ratio(window: map<NodeId, nat>, ledgers: nat, node: NodeId): (r: real) {
    if ledgers == 0 then 0.0 else Received(window, node) as real / ledgers as real
  }

  predicate Reliable(window: map<NodeId, nat>, ledgers: nat, node: NodeId) {
    Ratio(window, ledgers, node) > 0.5
  }

  /** Reliable means more than half of the ledgers, in whole numbers. */
  lemma ReliableIsMajority(window: map<NodeId, nat>, ledgers: nat, node: NodeId)
    requires ledgers > 0
    ensures Reliable(window, ledgers, node) <==> 2 * Received(window, node) > ledgers
  {
    AboveHalf(Received(window, node) as real, ledgers as real, Ratio(window, ledgers, node));
  }

  lemma AboveHalf(r: real, l: real, q: real)
    requires l > 0.0 && q == r / l
    ensures q > 0.5 <==> r > 0.5 * l
  {
    assert r == q * l;
    HalfTimes(q, l);
  }

  lemma HalfTimes(q: real, l: real)
    requires l > 0.0
    ensures q > 0.5 <==> q * l > 0.5 * l
  {
    assert q * l - 0.5 * l == (q - 0.5) * l;
    if q > 0.5 {
      assert (q - 0.5) * l > 0.0;
    } else {
      assert (0.5 - q) * l >= 0.0;
    }
  }

  // ---------------------------------------------------------------- what an evaluation may do

  /** Disabled validators that come back: trusted, reliable, with a known key. */
  function Recovered(disabled: set<NodeId>, trusted: set<NodeId>, keys: map<NodeId, Key>,
                     window: map<NodeId, nat>, ledgers: nat): (s: set<NodeId>) {
    set n | n in disabled && n in trusted && n in keys && Reliable(window, ledgers, n)
  }

  /** Validators that may be disabled: trusted, not reliable, with a known key. */
  function Failing(trusted: set<NodeId>, keys: map<NodeId, Key>, window: map<NodeId, nat>,
                   ledgers: nat): (s: set<NodeId>) {
    set n | n in trusted && n in keys && !Reliable(window, ledgers, n)
  }

  function Announce(s: seq<NodeId>, keys: map<NodeId, Key>, disable: bool, ledgerSeq: u32): (c: seq<Change>)
    requires forall n :: n in s ==> n in keys
  {
    seq(|s|, i requires 0 <= i < |s| => assert s[i] in s; Change(keys[s[i]], disable, ledgerSeq))
  }

  lemma AnnounceMore(s: seq<NodeId>, n: NodeId, keys: map<NodeId, Key>, disable: bool, ledgerSeq: u32)
    requires forall m :: m in s ==> m in keys
    requires n in keys
    ensures Announce(s + [n], keys, disable, ledgerSeq)
            == Announce(s, keys, disable, ledgerSeq) + [Change(keys[n], disable, ledgerSeq)]
  {
  }

  lemma Announced(s: seq<NodeId>, keys: map<NodeId, Key>, disable: bool, ledgerSeq: u32)
    requires forall n :: n in s ==> n in keys
    ensures |Announce(s, keys, disable, ledgerSeq)| == |s|
    ensures forall n :: n in s ==> Change(keys[n], disable, ledgerSeq) in Announce(s, keys, disable, ledgerSeq)
  {
    forall n | n in s ensures Change(keys[n], disable, ledgerSeq) in Announce(s, keys, disable, ledgerSeq) {
      var i :| 0 <= i < |s| && s[i] == n;
      assert Announce(s, keys, disable, ledgerSeq)[i] == Change(keys[n], disable, ledgerSeq);
    }
  }

  /** Everything a window's evaluation promises: who comes back, who goes, that the cap is never
      exceeded by going, and that it is the only reason a failing validator stays. */
  ghost predicate Evaluated(before: set<NodeId>, after: set<NodeId>, trusted: set<NodeId>, keys: map<NodeId, Key>,
                            window: map<NodeId, nat>, ledgers: nat) {
    var back := Recovered(before, trusted, keys, window, ledgers);
    var gone := after - before;
    && after == (before - back) + gone
    && gone <= Failing(trusted, keys, window, ledgers)
    && (gone != {} ==> |after| <= MaxDisabled(|trusted|))
    && (|after| < MaxDisabled(|trusted|) ==> Failing(trusted, keys, window, ledgers) <= after)
  }

  /** What an evaluation means, in whole numbers. */
  ghost predicate Judged(before: set<NodeId>, after: set<NodeId>, trusted: set<NodeId>, keys: map<NodeId, Key>,
                         window: map<NodeId, nat>, ledgers: nat) {
    && (forall n :: n in before ==>
          (n !in after <==> n in trusted && n in keys && 2 * Received(window, n) > ledgers))
    && (forall n :: n in after && n !in before ==> n in trusted && n in keys && 2 * Received(window, n) <= ledgers)
    && (!(after <= before) ==> 4 * |after| <= |trusted|)
    && (4 * |after| + 4 <= |trusted| ==>
          forall n :: n in trusted && n in keys && 2 * Received(window, n) <= ledgers ==> n in after)
  }

  /** A disabled validator comes back exactly when it is in the list, its key is known and it validated
      more than half of the window; only one that did not can go, and it stays only for want of room. */
  lemma EvaluatedIsJudged(before: set<NodeId>, after: set<NodeId>, trusted: set<NodeId>, keys: map<NodeId, Key>,
                          window: map<NodeId, nat>, ledgers: nat)
    requires ledgers > 0 && Evaluated(before, after, trusted, keys, window, ledgers)
    ensures Judged(before, after, trusted, keys, window, ledgers)
  {
    WhoIsJudged(before, trusted, keys, window, ledgers);
    BackAndGone(before, after, trusted, keys, window, ledgers);
    hide Evaluated, Recovered, Failing, Received;
  }

  lemma BackAndGone(before: set<NodeId>, after: set<NodeId>, trusted: set<NodeId>, keys: map<NodeId, Key>,
                    window: map<NodeId, nat>, ledgers: nat)
    requires Evaluated(before, after, trusted, keys, window, ledgers)
    ensures var back := Recovered(before, trusted, keys, window, ledgers);
            var failing := Failing(trusted, keys, window, ledgers);
            && (forall n :: n in before ==> (n !in after <==> n in back))
            && (forall n :: n in after && n !in before ==> n in failing)
            && (!(after <= before) ==> 4 * |after| <= |trusted|)
            && (4 * |after| + 4 <= |trusted| ==> failing <= after)
  {
    WithinQuarter(|after|, |trusted|);
    hide Recovered, Failing, MaxDisabled;
    assert !(after <= before) ==> after - before != {};
  }

  lemma WhoIsJudged(before: set<NodeId>, trusted: set<NodeId>, keys: map<NodeId, Key>, window: map<NodeId, nat>,
                    ledgers: nat)
    requires ledgers > 0
    ensures forall n :: n in Recovered(before, trusted, keys, window, ledgers) <==>
              n in before && n in trusted && n in keys && 2 * Received(window, n) > ledgers
    ensures forall n :: n in Failing(trusted, keys, window, ledgers) <==>
              n in trusted && n in keys && 2 * Received(window, n) <= ledgers
  {
    forall n ensures Reliable(window, ledgers, n) <==> 2 * Received(window, n) > ledgers {
      ReliableIsMajority(window, ledgers, n);
    }
    hide Reliable, Received;
  }

  lemma PhasesEvaluate(before: set<NodeId>, mid: set<NodeId>, after: set<NodeId>, trusted: set<NodeId>,
                       keys: map<NodeId, Key>, window: map<NodeId, nat>, ledgers: nat)
    requires mid == before - Recovered(before, trusted, keys, window, ledgers) && mid <= after
    requires after - mid <= Failing(trusted, keys, window, ledgers)
    requires after != mid ==> |after| <= MaxDisabled(|trusted|)
    requires |after| < MaxDisabled(|trusted|) ==> Failing(trusted, keys, window, ledgers) <= after
    ensures before - after == before - mid && after - before == after - mid
    ensures Evaluated(before, after, trusted, keys, window, ledgers)
  {
    var back, failing := Recovered(before, trusted, keys, window, ledgers), Failing(trusted, keys, window, ledgers);
    FailingStay(before, trusted, keys, window, ledgers);
    hide MaxDisabled, Recovered, Failing;
    assert after - mid <= failing;
    assert before - after == before - mid;
    assert after - before == after - mid;
  }

  lemma FailingStay(before: set<NodeId>, trusted: set<NodeId>, keys: map<NodeId, Key>, window: map<NodeId, nat>,
                    ledgers: nat)
    ensures Failing(trusted, keys, window, ledgers) !! Recovered(before, trusted, keys, window, ledgers)
  {
    hide Reliable;
  }

  class NegativeUnlTracker {
    var ledgersInWindow: nat
    var currentWindow: map<NodeId, nat>
    var previousWindow: map<NodeId, nat>
    var nodeToKey: map<NodeId, Key>
    var disabled: set<NodeId>

    constructor ()
      ensures ledgersInWindow == 0 && currentWindow == map[] && previousWindow == map[]
      ensures nodeToKey == map[] && disabled == {}
    {
      ledgersInWindow, currentWindow, previousWindow, nodeToKey, disabled := 0, map[], map[], map[], {};
    }

    method RegisterValidator(node: NodeId, key: Key)
      modifies this`nodeToKey
      ensures nodeToKey == old(nodeToKey)[node := key]
    {
      nodeToKey := nodeToKey[node := key];
    }

    method OnLedgerClose()
      modifies this`ledgersInWindow
      ensures ledgersInWindow == old(ledgersInWindow) + 1
    {
      ledgersInWindow := ledgersInWindow + 1;
    }

    method RecordValidation(node: NodeId)
      modifies this`currentWindow
      ensures forall n :: Received(currentWindow, n) == Received(old(currentWindow), n) + if n == node then 1 else 0
    {
      currentWindow := currentWindow[node := Received(currentWindow, node) + 1];
    }

    method RotateWindow()
      modifies this`ledgersInWindow, this`currentWindow, this`previousWindow
      ensures ledgersInWindow == 0 && currentWindow == map[] && previousWindow == old(currentWindow)
    {
      previousWindow := currentWindow;
      currentWindow := map[];
      ledgersInWindow := 0;
    }

    /** Phase 1: reliable validators come back. */
    method ReEnable(trusted: set<NodeId>, ledgerSeq: u32) returns (changes: seq<Change>, ghost order: seq<NodeId>)
      modifies this`disabled
      ensures disabled == old(disabled) - Recovered(old(disabled), trusted, nodeToKey, currentWindow, ledgersInWindow)
      ensures ledgersInWindow > 0 ==>
                forall n :: n in old(disabled) ==>
                  (n !in disabled <==>
                     n in trusted && n in nodeToKey && 2 * Received(currentWindow, n) > ledgersInWindow)
      ensures Enumerates(order, old(disabled) - disabled)
      ensures (forall n :: n in order ==> n in nodeToKey) && changes == Announce(order, nodeToKey, false, ledgerSeq)
    {
      ghost var before := disabled;
      var rest := disabled;
      changes, order := [], [];
      while rest != {}
        invariant rest <= before
        invariant disabled == before - (Recovered(before, trusted, nodeToKey, currentWindow, ledgersInWindow) - rest)
        invariant Enumerates(order, before - disabled)
        invariant forall n :: n in order ==> n in nodeToKey
        invariant changes == Announce(order, nodeToKey, false, ledgerSeq)
        decreases rest
      {
        var n :| n in rest;
        rest := rest - {n};
        if n in trusted && Ratio(currentWindow, ledgersInWindow, n) > 0.5 && n in nodeToKey {
          EnumerateMore(order, before - disabled, n);
          AnnounceMore(order, n, nodeToKey, false, ledgerSeq);
          changes := changes + [Change(nodeToKey[n], false, ledgerSeq)];
          disabled := disabled - {n};
          order := order + [n];
          assert before - disabled == before - (disabled + {n}) + {n};
        }
      }
      if ledgersInWindow > 0 {
        forall n | n in before {
          ReliableIsMajority(currentWindow, ledgersInWindow, n);
        }
      }
    }

    /** Phase 2: failing validators go, while there is room. */
    method Disable(trusted: set<NodeId>, ledgerSeq: u32) returns (changes: seq<Change>, ghost order: seq<NodeId>)
      modifies this`disabled
      ensures old(disabled) <= disabled
      ensures disabled - old(disabled) <= Failing(trusted, nodeToKey, currentWindow, ledgersInWindow)
      ensures disabled != old(disabled) ==> |disabled| <= MaxDisabled(|trusted|)
      ensures |disabled| < MaxDisabled(|trusted|) ==>
              Failing(trusted, nodeToKey, currentWindow, ledgersInWindow) <= disabled
      ensures Enumerates(order, disabled - old(disabled))
      ensures (forall n :: n in order ==> n in nodeToKey) && changes == Announce(order, nodeToKey, true, ledgerSeq)
    {
      ghost var before := disabled;
      ghost var failing := Failing(trusted, nodeToKey, currentWindow, ledgersInWindow);
      var limit := MaxDisabled(|trusted|);
      var rest := trusted;
      changes, order := [], [];
      while rest != {}
        invariant rest <= trusted
        invariant before <= disabled && disabled - before <= failing
        invariant disabled != before ==> |disabled| <= limit
        invariant failing - rest <= disabled
        invariant Enumerates(order, disabled - before)
        invariant forall n :: n in order ==> n in nodeToKey
        invariant changes == Announce(order, nodeToKey, true, ledgerSeq)
        decreases rest
      {
        var n :| n in rest;
        if n !in disabled {
          if |disabled| >= limit {
            break;
          }
          if Ratio(currentWindow, ledgersInWindow, n) <= 0.5 && n in nodeToKey {
            EnumerateMore(order, disabled - before, n);
            AnnounceMore(order, n, nodeToKey, true, ledgerSeq);
            assert (disabled + {n}) - before == (disabled - before) + {n};
            changes := changes + [Change(nodeToKey[n], true, ledgerSeq)];
            disabled := disabled + {n};
            order := order + [n];
          }
        }
        rest := rest - {n};
      }
    }

    method Evaluate(trusted: set<NodeId>, ledgerSeq: u32)
      returns (changes: seq<Change>, ghost back: seq<NodeId>, ghost gone: seq<NodeId>)
      modifies this
      ensures nodeToKey == old(nodeToKey)
      ensures ledgersInWindow == 0 && currentWindow == map[] && previousWindow == old(currentWindow)
      ensures if old(ledgersInWindow) == 0 then disabled == old(disabled)
              else Evaluated(old(disabled), disabled, trusted, nodeToKey, old(currentWindow), old(ledgersInWindow))
      ensures old(ledgersInWindow) > 0 ==>
                Judged(old(disabled), disabled, trusted, nodeToKey, old(currentWindow), old(ledgersInWindow))
      ensures Enumerates(back, old(disabled) - disabled) && Enumerates(gone, disabled - old(disabled))
      ensures (forall n :: n in back || n in gone ==> n in nodeToKey)
      ensures changes == Announce(back, nodeToKey, false, ledgerSeq) + Announce(gone, nodeToKey, true, ledgerSeq)
      ensures forall n :: n in back ==> Change(nodeToKey[n], false, ledgerSeq) in changes
      ensures forall n :: n in gone ==> Change(nodeToKey[n], true, ledgerSeq) in changes
      ensures |changes| == |old(disabled) - disabled| + |disabled - old(disabled)|
    {
      if ledgersInWindow == 0 {
        RotateWindow();
        return [], [], [];
      }
      hide Evaluated, Judged, Recovered, Failing, Enumerates, Announce, MaxDisabled;
      var up, down;
      ghost var before := disabled;
      up, back := ReEnable(trusted, ledgerSeq);
      ghost var mid := disabled;
      down, gone := Disable(trusted, ledgerSeq);
      PhasesEvaluate(before, mid, disabled, trusted, nodeToKey, currentWindow, ledgersInWindow);
      EvaluatedIsJudged(before, disabled, trusted, nodeToKey, currentWindow, ledgersInWindow);
      Announced(back, nodeToKey, false, ledgerSeq);
      Announced(gone, nodeToKey, true, ledgerSeq);
      EnumerationSize(back, before - disabled);
      EnumerationSize(gone, disabled - before);
      RotateWindow();
      changes := up + down;
    }
  }

  // ---------------------------------------------------------------- the validator list follows

  /** At a flag ledger: evaluate, then copy the disabled set into the validator list. */
  method EvaluateNegativeUnl(unl: TrustedValidatorList, tracker: NegativeUnlTracker, ledgerSeq: u32)
    returns (changes: seq<Change>, ghost back: seq<NodeId>, ghost gone: seq<NodeId>)
    modifies unl, tracker
    ensures unl.trusted == old(unl.trusted) && unl.ephemeralToMaster == old(unl.ephemeralToMaster)
    ensures tracker.nodeToKey == old(tracker.nodeToKey)
    ensures !IsFlagLedger(ledgerSeq) ==> changes == [] && unchanged(unl) && unchanged(tracker)
    ensures IsFlagLedger(ledgerSeq) ==>
              && unl.negative == tracker.disabled
              && (if old(tracker.ledgersInWindow) == 0 then tracker.disabled == old(tracker.disabled)
                  else Evaluated(old(tracker.disabled), tracker.disabled, unl.trusted, tracker.nodeToKey,
                                 old(tracker.currentWindow), old(tracker.ledgersInWindow)))
              && (old(tracker.ledgersInWindow) > 0 ==>
                    Judged(old(tracker.disabled), tracker.disabled, unl.trusted, tracker.nodeToKey,
                           old(tracker.currentWindow), old(tracker.ledgersInWindow)))
              && tracker.ledgersInWindow == 0 && tracker.currentWindow == map[]
    ensures Enumerates(back, old(tracker.disabled) - tracker.disabled)
    ensures Enumerates(gone, tracker.disabled - old(tracker.disabled))
    ensures forall n :: n in back || n in gone ==> n in tracker.nodeToKey
    ensures changes
            == Announce(back, tracker.nodeToKey, false, ledgerSeq) + Announce(gone, tracker.nodeToKey, true, ledgerSeq)
  {
    if !IsFlagLedger(ledgerSeq) {
      return [], [], [];
    }
    changes, back, gone := tracker.Evaluate(unl.trusted, ledgerSeq);
    Synchronize(unl, tracker.disabled);
  }

  method Synchronize(unl: TrustedValidatorList, disabled: set<NodeId>)
    modifies unl`negative
    ensures unl.negative == disabled
  {
    ghost var before := unl.negative;
    var rest := disabled;
    while rest != {}
      invariant rest <= disabled
      invariant unl.negative == before + (disabled - rest)
      decreases rest
    {
      var n :| n in rest;
      if n !in unl.negative {
        unl.AddToNegative(n);
      }
      rest := rest - {n};
    }
    rest := unl.negative;
    ghost var merged := unl.negative;
    while rest != {}
      invariant rest <= merged && disabled <= merged
      invariant unl.negative == disabled + rest
      decreases rest
    {
      var n :| n in rest;
      if n !in disabled {
        unl.RemoveFromNegative(n);
      }
      rest := rest - {n};
    }
  }

  // ---------------------------------------------------------------- every run of flag ledgers

  /** What one flag ledger sees: the list of that moment, the known keys and the window. */
  datatype Window = Window(trusted: set<NodeId>, keys: map<NodeId, Key>, received: map<NodeId, nat>, ledgers: nat)

  ghost predicate Step(before: set<NodeId>, after: set<NodeId>, w: Window) {
    if w.ledgers == 0 then after == before
    else Evaluated(before, after, w.trusted, w.keys, w.received, w.ledgers)
  }

  /** The trusted validators that stay disabled through a window. */
  function Unrecovered(before: set<NodeId>, w: Window): (s: set<NodeId>) {
    var disabled := before * w.trusted;
    if w.ledgers == 0 then disabled else disabled - Recovered(before, w.trusted, w.keys, w.received, w.ledgers)
  }

  /** A quorum of at least 60% of the full list. */
  predicate QuorumHolds(trusted: set<NodeId>, disabled: set<NodeId>) {
    5 * QuorumThreshold(|trusted - disabled|) >= 3 * |trusted|
  }

  /** How many disabled members of a list of `n` leave it such a quorum. */
  predicate FewEnough(disabled: nat, n: nat) {
    4 * disabled + (2 * n) % 5 <= n + 4
  }

  lemma FewEnoughIff(disabled: nat, n: nat)
    requires disabled <= n
    ensures 5 * QuorumThreshold(n - disabled) >= 3 * n <==> FewEnough(disabled, n)
    ensures disabled <= n / 4 ==> FewEnough(disabled, n)
  {
    var r := (2 * n) % 5;
    var c := (3 * n + r) / 5;
    assert 5 * c == 3 * n + r;
    hide QuorumThreshold;
    if c > 0 { QuorumIsLeast(n - disabled, c - 1); }
  }

  /** One step never leaves the cap, whatever came before. */
  lemma StepWithinCap(before: set<NodeId>, after: set<NodeId>, w: Window)
    requires Step(before, after, w)
    ensures after <= before + w.trusted
    ensures after <= before || |after| <= |w.trusted| / 4
    ensures |before| <= |w.trusted| / 4 ==> |after| <= |w.trusted| / 4
  {
    MaxDisabledIsQuarter(|w.trusted|);
    if after <= before { SubsetSize(after, before); }
  }

  /** What is disabled in the list after a window: what did not recover, or some more within the cap. */
  lemma DisabledInList(before: set<NodeId>, after: set<NodeId>, w: Window)
    requires Step(before, after, w)
    ensures Unrecovered(before, w) <= after * w.trusted
    ensures after * w.trusted == Unrecovered(before, w) || |after * w.trusted| <= |w.trusted| / 4
  {
    MaxDisabledIsQuarter(|w.trusted|);
    hide Reliable;
    SubsetSize(after * w.trusted, after);
    if w.ledgers > 0 && after - before == {} {
      assert after * w.trusted == Unrecovered(before, w);
    }
  }

  /** After a flag ledger the quorum is at least 60% of the list exactly when few enough of its
      disabled members failed to recover in the window. */
  lemma StepQuorumIff(before: set<NodeId>, after: set<NodeId>, w: Window)
    requires Step(before, after, w)
    ensures QuorumHolds(w.trusted, after) <==> FewEnough(|Unrecovered(before, w)|, |w.trusted|)
  {
    var n, kept, now := |w.trusted|, Unrecovered(before, w), after * w.trusted;
    hide Step;
    DisabledInList(before, after, w);
    SubsetSize(kept, now);
    SubsetSize(now, w.trusted);
    ChangeQuorumIff(after, w.trusted);
    FewEnoughIff(|now|, n);
    FewEnoughIff(|kept|, n);
  }

  /** The disabled sets along a run in which every flag ledger has its own list. */
  ghost predicate IsRun(sets: seq<set<NodeId>>, windows: seq<Window>) {
    && |sets| == |windows| + 1 && sets[0] == {}
    && forall i :: 0 <= i < |windows| ==> Step(sets[i], sets[i + 1], windows[i])
  }

  /** A list change is harmless while at most a quarter of the new list is disabled already. */
  predicate HarmlessChange(disabled: set<NodeId>, trusted: set<NodeId>) {
    |disabled * trusted| <= |trusted| / 4
  }

  /** Right after a list change the quorum is at least 60% exactly when few enough of the new list are
      disabled. */
  lemma ChangeQuorumIff(disabled: set<NodeId>, trusted: set<NodeId>)
    ensures QuorumHolds(trusted, disabled) <==> FewEnough(|disabled * trusted|, |trusted|)
    ensures HarmlessChange(disabled, trusted) ==> QuorumHolds(trusted, disabled)
  {
    var now := disabled * trusted;
    SubsetSize(now, trusted);
    assert trusted - disabled == trusted - now && trusted == (trusted - now) + now;
    FewEnoughIff(|now|, |trusted|);
  }

  /** Over every run the quorum after a flag ledger is at least 60% of its list whenever the list was
      harmless to the disabled set it found, and exactly when few enough of it failed to recover. */
  lemma RunQuorumIff(sets: seq<set<NodeId>>, windows: seq<Window>, i: nat)
    requires IsRun(sets, windows) && i < |windows|
    ensures QuorumHolds(windows[i].trusted, sets[i + 1])
       <==> FewEnough(|Unrecovered(sets[i], windows[i])|, |windows[i].trusted|)
    ensures HarmlessChange(sets[i], windows[i].trusted) ==> QuorumHolds(windows[i].trusted, sets[i + 1])
    ensures HarmlessChange(sets[i], windows[i].trusted) ==> HarmlessChange(sets[i + 1], windows[i].trusted)
  {
    var w := windows[i];
    assert Step(sets[i], sets[i + 1], w);
    StepQuorumIff(sets[i], sets[i + 1], w);
    DisabledInList(sets[i], sets[i + 1], w);
    SubsetSize(Unrecovered(sets[i], w), sets[i] * w.trusted);
    SubsetSize(sets[i] * w.trusted, w.trusted);
    FewEnoughIff(|Unrecovered(sets[i], w)|, |w.trusted|);
  }

  /** Over every run each flag ledger with a window judges every validator by it. */
  lemma RunJudges(sets: seq<set<NodeId>>, windows: seq<Window>, i: nat)
    requires IsRun(sets, windows) && i < |windows| && windows[i].ledgers > 0
    ensures Judged(sets[i], sets[i + 1], windows[i].trusted, windows[i].keys, windows[i].received, windows[i].ledgers)
  {
    hide Evaluated, Judged;
    assert Step(sets[i], sets[i + 1], windows[i]);
    EvaluatedIsJudged(sets[i], sets[i + 1], windows[i].trusted, windows[i].keys, windows[i].received,
      windows[i].ledgers);
  }

  /** While the list does not change at all, at most a quarter of it is ever disabled, only trusted
      validators are, and the quorum never falls below 60% of the full list. */
  lemma {:induction false} RunKeepsQuorum(sets: seq<set<NodeId>>, trusted: set<NodeId>, windows: seq<Window>, i: nat)
    requires IsRun(sets, windows) && i < |sets| && forall k :: 0 <= k < |windows| ==> windows[k].trusted == trusted
    ensures sets[i] <= trusted && |sets[i]| <= |trusted| / 4 && QuorumHolds(trusted, sets[i])
    decreases i
  {
    hide Step, QuorumHolds;
    if i > 0 {
      RunKeepsQuorum(sets, trusted, windows, i - 1);
      StepWithinCap(sets[i - 1], sets[i], windows[i - 1]);
    }
    assert sets[i] * trusted == sets[i];
    ChangeQuorumIff(sets[i], trusted);
  }

  /** Validators that left the list while disabled stay disabled as long as they stay away. */
  lemma {:induction false} DepartedStayDisabled(sets: seq<set<NodeId>>, windows: seq<Window>, n: NodeId, i: nat, j: nat)
    requires IsRun(sets, windows) && i <= j < |sets| && n in sets[i]
    requires forall k :: i <= k < j ==> n !in windows[k].trusted
    ensures n in sets[j]
    decreases j
  {
    if i < j {
      DepartedStayDisabled(sets, windows, n, i, j - 1);
      assert Step(sets[j - 1], sets[j], windows[j - 1]);
    }
  }

  /** The failing case, as a run: two silent validators of eight are disabled, the list shrinks to them
      and one other, and after another silent window its quorum is a single vote. */
  lemma ShrunkListLosesQuorum(keys: map<NodeId, Key>)
    requires 1 in keys && 2 in keys
    ensures var all, left := {1, 2, 3, 4, 5, 6, 7, 8}, {1, 2, 3};
            var heard := map[3 := 1, 4 := 1, 5 := 1, 6 := 1, 7 := 1, 8 := 1];
            && IsRun([{}, {1, 2}, {1, 2}], [Window(all, keys, heard, 1), Window(left, keys, map[], 1)])
            && QuorumHolds(all, {1, 2}) && !QuorumHolds(left, {1, 2}) && !HarmlessChange({1, 2}, left)
            && QuorumThreshold(|left - {1, 2}|) == 1
  {
    var all, left := {1, 2, 3, 4, 5, 6, 7, 8}, {1, 2, 3};
    var heard := map[3 := 1, 4 := 1, 5 := 1, 6 := 1, 7 := 1, 8 := 1];
    FirstSilence(all, keys, heard);
    SecondSilence(left, keys);
    var sets, windows := [{}, {1, 2}, {1, 2}], [Window(all, keys, heard, 1), Window(left, keys, map[], 1)];
    hide Step, QuorumThreshold;
    assert sets[1] == {1, 2} && sets[2] == {1, 2};
    assert IsRun(sets, windows);
    Sizes(all, left);
  }

  lemma Sizes(all: set<NodeId>, left: set<NodeId>)
    requires all == {1, 2, 3, 4, 5, 6, 7, 8} && left == {1, 2, 3}
    ensures QuorumHolds(all, {1, 2}) && !QuorumHolds(left, {1, 2}) && !HarmlessChange({1, 2}, left)
    ensures QuorumThreshold(|left - {1, 2}|) == 1
  {
    assert all - {1, 2} == {3, 4, 5, 6, 7, 8} && left - {1, 2} == {3} && {1, 2} * left == {1, 2};
    assert |all| == 8 && |left| == 3;
  }

  lemma FirstSilence(all: set<NodeId>, keys: map<NodeId, Key>, heard: map<NodeId, nat>)
    requires all == {1, 2, 3, 4, 5, 6, 7, 8} && 1 in keys && 2 in keys
    requires heard == map[3 := 1, 4 := 1, 5 := 1, 6 := 1, 7 := 1, 8 := 1]
    ensures Step({}, {1, 2}, Window(all, keys, heard, 1))
  {
    MaxDisabledIsQuarter(8);
    assert |all| == 8;
    forall n ensures Reliable(heard, 1, n) <==> n in heard { ReliableIsMajority(heard, 1, n); }
    hide Reliable, MaxDisabled;
    assert Recovered({}, all, keys, heard, 1) == {};
    assert {1, 2} - {} == {1, 2};
  }

  lemma SecondSilence(left: set<NodeId>, keys: map<NodeId, Key>)
    requires left == {1, 2, 3}
    ensures Step({1, 2}, {1, 2}, Window(left, keys, map[], 1))
  {
    MaxDisabledIsQuarter(3);
    assert |left| == 3;
    forall n ensures !Reliable(map[], 1, n) { ReliableIsMajority(map[], 1, n); }
    hide Reliable, MaxDisabled;
    assert Recovered({1, 2}, left, keys, map[], 1) == {};
    assert {1, 2} - {1, 2} == {};
  }
}
