# Consensus, amounts and amendments of rxrpl, modelled and proved in Dafny

The project models the parts of rxrpl (an XRP Ledger node written in Rust) whose correctness is
hardest to see from the code, and proves for all inputs, all reachable states or all runs what they
promise.

* **Preferred branch.** `LedgerTrie` keeps in-place support counters over ledger ancestries.
  `PreferredBranch` defines the preferred branch on a plain multiset of ancestries, without any trie.
  The trie is proved canonical for the multiset of surviving branches, and `ValidationsTrie` (fast
  path, generation-stamped memo, rebuild) is proved to answer every query of every run as the plain
  definition does over exactly the latest fresh validations. `ValidationRuns` traces every vote on file
  to the step of the run that cast it, and says what a majority of validators decides.
* **Consensus rounds.** `ProposalTracker`, `HoldingPen`, `Disputes`, `CloseTime`, `Unl`,
  `NegativeUnl` and `Quorum` are the parts; `RoundState` and `Convergence` say what each step does to
  a round and what it keeps; `EngineRuns` states the theorems over every run, and `Origins` traces every
  position to the proposal it came from; `Engine` is the
  imperative engine, each method proved to be such a step; `BufferLimits` drives it to the limit of
  its buffers and `ListChanges` through a change of the validator list. Time, the answers of the
  network adapter and the iteration order of hash maps are inputs or nondeterministic.
* **Decimal arithmetic.** `Decimal` gives mantissa and exponent a value in the reals. `Iou`,
  `IouMulDiv`, `IouDirected`, `IouHalfEven`, `Drops`, `NegativeDrops`, `CoarseDrops`, `NumberRounding`, `Number`, `Quality` and
  `DecimalText` prove
  truncation, error bounds, directed rounding, nearest-even rounding, exact drop ceilings, correctly
  rounded products, order-preserving packing and the text round trip against that value.
* **Amendment voting.** `AmendmentTable` and `AmendmentVoting` model the flag-ledger tally, and
  `AmendmentRuns` proves its history properties over every run of tallies on a table.

`dafny verify dfyconfig.toml` checks everything. Classes stand where the source updates fields in
place, loops where it loops; each is proved against a specification function or relation, and the
lemmas are about those.

## Where the code falls short of what it says

Each of these is proved: the exact condition under which the code does what it says, and an input
for which it does not. The second lemma named is the input.

* The per-ledger cap of the proposal tracker is sixteen peers. With ourselves that is seventeen
  votes, so a list of more than 21 effective validators (20 where a node does not count itself) never
  passes the quorum test and every accepted round is one that ran out of time; any smaller list can
  pass (`Quorum.ReachableQuorums`, both directions; `Convergence.LargeListsOnlyTimeOut`). The comment
  says the cap is well above a typical list.
* The hard cap of 1024 buffered proposals is only checked on arrival; a round start moves held
  proposals in on top of it (`EngineRuns.RunWithinCapIff`, `BufferLimits.OverfillPending`). The buffer
  alone can reach 2048, and both buffers together never exceed that.
* Without a close-time majority the code closes at zero, not one second after the parent as its
  comment says (`CloseTime.OutcomeAfterPriorIff`, `ListChanges.SplitVotePollClosesAtZero`). The input
  is two nodes without a validator list; with a list two of them move to one bucket first.
* A passed quorum test does not settle the close time: positions of validators that left the list
  during the round keep voting on it, and when one of them is too old to count the others can outvote
  us without moving us first (`Convergence.AcceptedAtOurBucketIff`, `ListChanges.DepartedPeersDecide`;
  `ListChanges.RevokedValidatorsDecide` is a run of the engine that gets there).
* Names that resolve to one validator count once each, and two quorums may then share nobody
  (`Quorum.CountIsValidatorsIff`, `Quorum.SharedMasterSplitsQuorums`).
* When the trusted list shrinks under disabled validators the quorum can fall below 60% of it
  (`NegativeUnl.RunQuorumIff`, `NegativeUnl.ShrunkListLosesQuorum`).
* Rounding up can fall below the exact value (`IouDirected.CanonicalizeRoundCases`,
  `IouDirected.RoundUpCanFallBelow`).
* Half-even division can miss a representable quotient (`IouHalfEven.DivideRoundEvenExactIff`,
  `IouHalfEven.DivideRoundEvenCanMissExact`).
* A positive product in drops can come out negative or as a single drop
  (`Drops.StrictUpIsExact`, `Drops.PositiveProductTurnsNegative`), and the legacy rule can differ from
  the strict one by a drop either way or by nearly everything (`Drops.LegacyAgainstStrict`,
  `Drops.LegacyWithinOneDropIff`; `Drops.LegacyAddsADrop`, `Drops.LegacyLosesADrop`,
  `Drops.LegacyWraps`).
* Rounding a packed rate to a tick can leave the sixteen digits, so that the rate is not the one of the
  amount it decodes to, and at the largest exponent decodes to none
  (`Quality.RoundQualityCanonicalIff`, `Quality.RoundQualityLeavesTheRange`).
* A product beyond u64 in units of ten drops or more comes out as a single drop of the wrong sign
  (`CoarseDrops.CoarseProductIsExact` and `CoarseDrops.CoarseNegativeIsExact`,
  `CoarseDrops.HugeProductIsMinusOne`).
* Rounded down, a negative product in drops can stay above its exact value
  (`NegativeDrops.NegativeDownIsExact`, `NegativeDrops.RoundDownStaysAbove`).
* At the large scale rounding past the largest i64 steps three units up
  (`NumberRounding.LargeIsCorrectIff`, `Number.CarryStepsThreeUnits`).
* An amendment we do not support can activate after its votes stopped
  (`AmendmentRuns.UnsupportedActivationIff`, `AmendmentRuns.SilentMajorityActivates`); an amendment
  named twice by one validator counts twice (`AmendmentVoting.CountIsVotersIff`,
  `AmendmentRuns.NamedTwiceCountsTwice`); an unregistered one is announced at every tally that passes
  (`AmendmentVoting.UnregisteredRepeats`, `AmendmentRuns.UnregisteredAnnouncedTwice`).
* The count of validators for a hash is too small where they reached it along different ancestries
  (`ValidationsTrie.CountRightIff`, `ValidationsTrie.TwoAncestriesUndercount`).

## Model

| member | source | states |
|---|---|---|
| PreferredBranch.PreferredPathUnique | crates/consensus/src/ledger_trie.rs:213-275 | a multiset of branches has one preferred path, so the answer depends on nothing else, in particular not on the order children are visited |
| PreferredBranch.PreferredEmptyIffNoVotes | crates/consensus/src/ledger_trie.rs:233-275 | the preferred path is empty exactly when there are no votes |
| PreferredBranch.MajorityPrefixPreferred | crates/consensus/src/ledger_trie.rs:213-275 | a ledger that a strict majority of all votes passes through lies on the preferred path |
| PreferredBranch.MajorityTipPreferred | crates/consensus/src/ledger_trie.rs:213-275 | a ledger that a strict majority of all votes is for is the preferred one |
| LedgerTrie.InsertWellFormed | crates/consensus/src/ledger_trie.rs:95-121 | inserting keeps every node's branch support equal to its tip support plus its children's, with no node of zero support, and raises the total by the count |
| LedgerTrie.InsertSupport | crates/consensus/src/ledger_trie.rs:95-121 | inserting raises tip support at exactly the branch and branch support at exactly its prefixes |
| LedgerTrie.PeekIsTip | crates/consensus/src/ledger_trie.rs:146-154 | the peek finds a node exactly when the path leads to one, and returns its tip support |
| LedgerTrie.RemoveWellFormed | crates/consensus/src/ledger_trie.rs:131-178 | removing keeps the support sums and prunes every node whose support reaches zero |
| LedgerTrie.RemoveSupport | crates/consensus/src/ledger_trie.rs:131-178 | removing lowers tip support at exactly the branch and branch support at exactly its prefixes |
| LedgerTrie.Canonical | crates/consensus/src/ledger_trie.rs:20-60 | two well-formed tries with the same tip supports are the same trie |
| LedgerTrie.InsertRepresents | crates/consensus/src/ledger_trie.rs:95-121 | inserting adds that many copies of the branch to the multiset the trie represents |
| LedgerTrie.RemoveRepresents | crates/consensus/src/ledger_trie.rs:131-178 | removing takes that many copies out of it |
| LedgerTrie.RepresentationUnique | crates/consensus/src/ledger_trie.rs:20-60 | equal multisets of branches have equal tries |
| LedgerTrie.RemoveUndoesInsert | crates/consensus/src/ledger_trie.rs:95-178 | removing what was just inserted restores the trie exactly, pruning included |
| LedgerTrie.RunRepresents | crates/consensus/src/ledger_trie.rs:95-178 | after any run of inserts and clamped removes the trie represents exactly the surviving branches |
| LedgerTrie.RunsAgree | crates/consensus/src/ledger_trie.rs:95-178 | runs that leave the same surviving branches leave the same trie, in any order |
| LedgerTrie.BestChild | crates/consensus/src/ledger_trie.rs:240-262 | the loop over children in any order finds the one that outranks all others: more branch support, then the larger hash |
| LedgerTrie.FindNode | crates/consensus/src/ledger_trie.rs:196-206 | the depth-first search finds a first occurrence of the hash if there is any, and every first occurrence is what some order of the child maps finds |
| LedgerTrie.LedgerTrie.Insert | crates/consensus/src/ledger_trie.rs:95-121 | the multiset of votes grows by count copies of the branch, and the trie stays the trie of that multiset |
| LedgerTrie.LedgerTrie.Remove | crates/consensus/src/ledger_trie.rs:131-178 | the multiset loses up to count copies; the result says whether anything was removed |
| LedgerTrie.LedgerTrie.IsEmpty | crates/consensus/src/ledger_trie.rs:209-211 | empty exactly when no votes are left |
| LedgerTrie.LedgerTrie.TipSupport | crates/consensus/src/ledger_trie.rs:182-206 | the votes that end at a first occurrence of the hash, which one depending on the order of the child maps; none is missed |
| LedgerTrie.LedgerTrie.GetPreferred | crates/consensus/src/ledger_trie.rs:233-275 | the greedy walk returns the tip of the preferred path of the votes, and nothing exactly when there are none |
| ValidationsTrie.BagOfCounts | crates/consensus/src/validations_trie.rs:40-80 | a branch's multiplicity is the number of validators whose latest validation is on it |
| ValidationsTrie.AnswerUnique | crates/consensus/src/validations_trie.rs:201-234 | the reference answer at an anchor is unique |
| ValidationsTrie.PruneKeepsAnswers | crates/consensus/src/validations_trie.rs:236-261 | pruning at a cut changes no answer at any anchor from the cut up |
| ValidationsTrie.AddMovesForward | crates/consensus/src/validations_trie.rs:153-189 | an accepted validation is strictly later and for another ledger, only its validator's entry moves, and only trusted validators get one |
| ValidationsTrie.ValidationsTrie.InvalidateCache | crates/consensus/src/validations_trie.rs:103-108 | the memo is dropped and the generation advances with 64-bit wrap-around |
| ValidationsTrie.ValidationsTrie.AddTrusted | crates/consensus/src/validations_trie.rs:112-114 | only the trusted set grows; index and memo stay right |
| ValidationsTrie.ValidationsTrie.RemoveTrusted | crates/consensus/src/validations_trie.rs:120-126 | the validator and its vote are gone from table, trie and memo alike |
| ValidationsTrie.ValidationsTrie.Admits | crates/consensus/src/validations_trie.rs:153-172 | admitted exactly when trusted and superseding the stored validation |
| ValidationsTrie.ValidationsTrie.AddWithParents | crates/consensus/src/validations_trie.rs:153-189 | an admitted validation is on file with the branch its parents lead to, the trie swaps the one vote, and the result says whether anything changed |
| ValidationsTrie.ValidationsTrie.GetPreferred | crates/consensus/src/validations_trie.rs:201-234 | fast path, memo and rebuild all return the reference answer over exactly the entries at or above the anchor, and change nothing observable |
| ValidationsTrie.ValidationsTrie.Rebuild | crates/consensus/src/validations_trie.rs:218-230 | the filtered trie holds exactly the fresh votes, in any iteration order |
| ValidationsTrie.ValidationsTrie.PruneBelow | crates/consensus/src/validations_trie.rs:244-261 | exactly the entries below the anchor go, from table and trie, and are counted |
| ValidationsTrie.ValidationsTrie.CountFor | crates/consensus/src/validations_trie.rs:272-274 | never more than the validators whose latest validation is for the hash, all of them when they are on one ancestry, and for each path to the hash some order of the child maps counts just the votes on it |
| ValidationsTrie.OccurrenceVotes | crates/consensus/src/validations_trie.rs:264-274 | the votes on a path to the hash are all of its validators exactly when each of them is on that path |
| ValidationsTrie.CountRightIff | crates/consensus/src/validations_trie.rs:264-274 | the count is right in every order of the child maps exactly when every validator of the hash is on the path that every stored branch takes to it |
| ValidationsTrie.TwoAncestriesUndercount | crates/consensus/src/validations_trie.rs:264-274 | two validators of one ledger along two ancestries, of which any order counts at most one |
| ValidationsTrie.Replay | crates/consensus/src/validations_trie.rs:112-261 | in every run of trust changes, validations, prunes and queries, each query's answer is the reference answer over the table of that moment |
| ValidationsTrie.RunConsistent | crates/consensus/src/validations_trie.rs:112-261 | in every run each stored branch ends at its validation's ledger and belongs to a trusted validator |
| ValidationsTrie.VoteNeverRegresses | crates/consensus/src/validations_trie.rs:153-189 | over any stretch of a run that does not evict a validator, its stored validation never gets older |
| ValidationRuns.TrustedIff | crates/consensus/src/validations_trie.rs:112-126 | after any run the trusted are those whose last trust change added them |
| ValidationRuns.VoteComesFrom | crates/consensus/src/validations_trie.rs:153-189 | over every run each entry on file is the vote of some step, cast while its validator was trusted, with the parents of that step as its ancestry, and neither distrusted nor pruned since |
| ValidationRuns.VoteIsTaken | crates/consensus/src/validations_trie.rs:153-189 | a trusted validator's vote for another ledger than the one on file is never lost: until it is distrusted or pruned, what is on file is that vote or a later one |
| ValidationRuns.MajorityOfValidatorsDecides | crates/consensus/src/validations_trie.rs:201-234 | where more than half of the validators at or above the anchor pass through a ledger, the answer is the tip of a preferred path through it |
| ValidationRuns.MajorityLedgerIsAnswer | crates/consensus/src/validations_trie.rs:201-234 | where more than half of them vote for one ledger on one ancestry, that ledger is the answer |
| ProposalTracker.TrackKeeps | crates/consensus/src/proposal_tracker.rs:106-141 | tracking keeps at most 64 parents, at most 16 peers a parent, keys matching their proposals and an order that lists exactly the parents in use |
| ProposalTracker.TrackAdvances | crates/consensus/src/proposal_tracker.rs:106-141 | a stored proposal is only replaced by the offered one with a higher sequence, and only leaves with the oldest parent when a 65th arrives |
| ProposalTracker.ClearKeeps | crates/consensus/src/proposal_tracker.rs:167-170 | clearing a parent keeps the caps and the order |
| ProposalTracker.EntriesBounded | crates/consensus/src/proposal_tracker.rs:106-141 | at most 1024 proposals are ever held |
| ProposalTracker.RunKeeps | crates/consensus/src/proposal_tracker.rs:106-141 | every run of proposals keeps both caps |
| ProposalTracker.RunHoldsOffered | crates/consensus/src/proposal_tracker.rs:106-141 | after any run everything held was offered |
| ProposalTracker.RunIsNewest | crates/consensus/src/proposal_tracker.rs:106-141 | over every run that stays within the caps the tracker is the plain reference: each peer and parent hold the first proposal with the highest sequence, none missing |
| ProposalTracker.ProposalTracker.CountFor | crates/consensus/src/proposal_tracker.rs:149-154 | the number of peers tracked on a parent |
| ProposalTracker.ProposalTracker.Track | crates/consensus/src/proposal_tracker.rs:106-141 | accepted exactly on a strict advance or where there is room, with first-in-first-out eviction; duplicates and stale sequences, and only those, are counted as dropped |
| ProposalTracker.ProposalTracker.ClearFor | crates/consensus/src/proposal_tracker.rs:167-170 | everything on the parent goes and nothing else |
| HoldingPen.Hold | crates/consensus/src/engine.rs:758-781 | the proposal joins its group in place of the peer's old one, the oldest leaving at sixteen; beyond 64 groups one with the lowest sequence leaves |
| HoldingPen.HoldKeepsTidy | crates/consensus/src/engine.rs:758-781 | both caps hold, each group has one proposal a peer on its own parent, and no other group changes unless it is the one that leaves |
| HoldingPen.QueuedIff | crates/consensus/src/engine.rs:758-771 | a group of sixteen loses its first proposal, the peer's earlier one gives way, the others stay and the new one is last |
| HoldingPen.VictimIsOldest | crates/consensus/src/engine.rs:772-781 | the group that leaves holds a proposal no later than any that stays |
| HoldingPen.WithoutStaleTidy | crates/consensus/src/engine.rs:747-751 | dropping stale proposals keeps that and leaves nothing more than five ledgers behind |
| HoldingPen.KeptIff | crates/consensus/src/engine.rs:747-751 | kept are exactly the proposals at most five ledgers behind |
| HoldingPen.TotalBounded | crates/consensus/src/engine.rs:758-781 | the proposals held number at most sixteen times the groups |
| Disputes.NewTxSet | crates/consensus/src/types.rs:262-286 | ids in increasing order without repetition, hashed over that order |
| Disputes.TxSetUnique | crates/consensus/src/types.rs:262-286 | sets of the same ids have the same list and hash, whatever order or repetition they were built from |
| Disputes.ShouldIncludeIsShare | crates/consensus/src/types.rs:350-359 | the rounded-down percentage clears a threshold exactly when the true share does |
| Disputes.YaysAfterVote | crates/consensus/src/types.rs:315-345 | a vote counts once and for what it says, in place of the peer's earlier one, and nothing is counted before the first |
| Disputes.VoteMovesItsWay | crates/consensus/src/types.rs:315-358 | one more yes never takes a transaction out, and a no never brings one in |
| Disputes.AvalancheShares | crates/consensus/src/engine.rs:1595-1602 | a disputed transaction needs a half of all positions, then 65%, 70% and 95% |
| Disputes.AvalancheTightens | crates/consensus/src/engine.rs:1595-1602 | what is kept at a later round's threshold would have been kept at an earlier one's |
| Disputes.RecordSame | crates/consensus/src/engine.rs:1034-1042 | a peer with our set says yes to every disputed transaction we have, and nothing else changes |
| Disputes.RecordMissing | crates/consensus/src/engine.rs:1058-1067 | a dispute and a no from the peer for each transaction of ours it lacks |
| Disputes.RecordExtra | crates/consensus/src/engine.rs:1069-1078 | a dispute and a yes for each transaction of its own we lack |
| Disputes.RecordShared | crates/consensus/src/engine.rs:1080-1087 | a yes for each shared transaction that is disputed |
| Disputes.RecordPeer | crates/consensus/src/engine.rs:1057-1087 | together: a dispute per difference, a vote wherever either side has the transaction, nothing about what both lack |
| Disputes.CreateDisputes | crates/consensus/src/engine.rs:1027-1089 | every peer with a known set is recorded once, in some order |
| Disputes.RecordingKeepsOurVotes | crates/consensus/src/engine.rs:1027-1089 | in any order, every dispute keeps saying whether our set has its transaction, and none disappears |
| Disputes.RecordedVotes | crates/consensus/src/engine.rs:1027-1089 | in any order, a peer with our hash says yes to what we have, one whose set was acquired votes its own way where it differs and yes where it shares a dispute, and nobody else's votes change |
| Disputes.ResolveDisputes | crates/consensus/src/engine.rs:1323-1344 | in any order of disputes the new set flips exactly those whose tally disagrees with our vote |
| CloseTime.RoundIdempotent | crates/consensus/src/engine.rs:1605-1610 | a rounded time rounds to itself, saturation included |
| CloseTime.RoundIsNearest | crates/consensus/src/engine.rs:1605-1610 | the multiple of the resolution nearest to the time among those that fit 32 bits |
| CloseTime.RoundTiesUp | crates/consensus/src/engine.rs:1605-1610 | half way between two multiples the later one is taken |
| CloseTime.EffIsLifted | crates/consensus/src/engine.rs:1622-1634 | the rounded time where it lies after the parent, exactly one after the parent where it does not, and zero for no opinion |
| CloseTime.BucketsOfBag | crates/consensus/src/engine.rs:1127-1147 | the counted votes depend only on which times were voted |
| CloseTime.BucketsSurvive | crates/consensus/src/engine.rs:1116-1147 | every counted bucket is nonzero, rounds to itself and lies after the parent; there are no more than voters |
| CloseTime.SomeVoteCounts | crates/consensus/src/engine.rs:1127-1153 | no bucket is counted exactly when every vote is filtered out |
| CloseTime.TallyCloseTimes | crates/consensus/src/engine.rs:1127-1147 | the vote map equals the multiset of filtered, rounded votes of ourselves and every peer, in any order |
| CloseTime.BestBucket | crates/consensus/src/engine.rs:1160-1167 | most votes, the later bucket on a tie |
| CloseTime.SumVotes | crates/consensus/src/engine.rs:1180 | the surviving votes |
| CloseTime.EffectiveCloseTime | crates/consensus/src/engine.rs:1104-1188 | the outcome is a strict majority of surviving votes, no opinion without one, and our own effective time when alone or when no vote survives |
| CloseTime.OutcomeUnique | crates/consensus/src/engine.rs:1104-1188 | the outcome is unique |
| CloseTime.OutcomeOfBag | crates/consensus/src/engine.rs:1104-1188 | nodes with a peer, equal settings and the same votes reach the same time and flag, whoever cast which vote, once one vote survives |
| CloseTime.OutcomeAfterPriorIff | crates/consensus/src/engine.rs:1104-1188 | below the 32-bit maximum the time exceeds the parent exactly when one bucket has a strict majority of the counted votes, or we have an opinion where no peer or no vote counts |
| CloseTime.SplitVoteClosesAtZero | crates/consensus/src/engine.rs:1168-1183 | our time and one peer in different buckets close at zero without agreement |
| CloseTime.AlignCloseTime | crates/consensus/src/engine.rs:1201-1281 | our time moves to the best bucket exactly when a strict majority of all voters is in it, or a tie of two under a validator list |
| CloseTime.AlignIsIdempotent | crates/consensus/src/engine.rs:1201-1281 | aligning again finds the same bucket |
| CloseTime.AlignedMajorityAgrees | crates/consensus/src/engine.rs:1104-1281 | once a strict majority has moved us the round agrees on that bucket |
| CloseTime.TwoValidatorsMeet | crates/consensus/src/engine.rs:1260-1269 | two validators that see each other move to the same bucket, the later one |
| CloseTime.TwoValidatorsMove | crates/consensus/src/engine.rs:1260-1269 | and with two counted times there always is a bucket to move to |
| Quorum.MajorityMoves | crates/consensus/src/engine.rs:1201-1281 | a strict majority of all positions for a bucket moves us there whoever is in it, and without one we stay unless there are two of us and a list |
| Unl.QuorumIsLeast | crates/consensus/src/unl.rs:150-156 | the quorum is the least count that is at least 80% of the list |
| Unl.QuorumSurvivesDisabling | crates/consensus/src/unl.rs:150-156 | with at most a quarter disabled the quorum is at least 60% of the full list |
| Unl.TrustedValidatorList.RegisterEphemeral | crates/consensus/src/unl.rs:174-190 | a signing key is trusted exactly when its new master is listed and not disabled, the replaced key stands for itself again, and no other name changes |
| Unl.TrustedValidatorList.RemoveEphemeral | crates/consensus/src/unl.rs:193-196 | the key stands for itself again and no other name changes |
| Unl.TrustedValidatorList.RevokeMaster | crates/consensus/src/unl.rs:199-204 | the master is trusted under none of its names, everybody else as before |
| Unl.TrustedValidatorList.AddToNegative | crates/consensus/src/unl.rs:80-95 | a disabled validator is trusted under no name and leaves the effective list one smaller |
| Unl.TrustedValidatorList.RemoveFromNegative | crates/consensus/src/unl.rs:85-87 | one that is back is trusted under all its names if the list still has it |
| Unl.TrustedValidatorList.IsTrusted | crates/consensus/src/unl.rs:63-66 | trusted exactly when the master is listed and not disabled |
| Unl.TrustedValidatorList.EffectiveSize | crates/consensus/src/unl.rs:90-95 | the count over the set in any order is the size of listed minus disabled |
| Unl.TrustedValidatorList.Quorum | crates/consensus/src/unl.rs:150-156 | at least 80% of the effective list, and one less is not |
| NegativeUnl.MaxDisabledIsQuarter | crates/consensus/src/negative_unl.rs:216-218 | the cap is a quarter of the list, rounded down |
| NegativeUnl.ReliableIsMajority | crates/consensus/src/negative_unl.rs:179-189 | reliable means strictly more than half of the window's ledgers |
| NegativeUnl.OneFlagLedgerIn256 | crates/consensus/src/negative_unl.rs:103-105 | of any 256 ledgers in a row exactly one is a flag ledger |
| NegativeUnl.NegativeUnlTracker.RecordValidation | crates/consensus/src/negative_unl.rs:83-88 | one more validation for that validator and no other |
| NegativeUnl.NegativeUnlTracker.ReEnable | crates/consensus/src/negative_unl.rs:130-150 | a disabled validator comes back exactly when it is in the list, its key is known and it validated more than half of the window, each announced once, in any order |
| NegativeUnl.NegativeUnlTracker.Disable | crates/consensus/src/negative_unl.rs:152-175 | only unreliable trusted validators with a key go, never beyond the cap, and none stays while there is room |
| NegativeUnl.NegativeUnlTracker.Evaluate | crates/consensus/src/negative_unl.rs:115-176 | both phases together in any iteration order: who comes back, who goes and who stays for want of room, in whole numbers, with one announcement for each that came or went |
| NegativeUnl.EvaluatedIsJudged | crates/consensus/src/negative_unl.rs:115-176 | a disabled validator comes back exactly when listed, known and above half; only a listed, known one at most at half goes, within a quarter; below the quarter every such one has gone |
| NegativeUnl.RunJudges | crates/consensus/src/negative_unl.rs:115-176 | that holds at every flag ledger of every run |
| NegativeUnl.EvaluateNegativeUnl | crates/consensus/src/engine.rs:355-379 | at a flag ledger the list's negative set becomes the tracker's disabled set; elsewhere nothing happens |
| NegativeUnl.Synchronize | crates/consensus/src/engine.rs:363-376 | the two loops leave exactly the disabled set |
| NegativeUnl.StepWithinCap | crates/consensus/src/negative_unl.rs:115-176 | a window only adds trusted validators and only within the cap |
| NegativeUnl.FewEnoughIff | crates/consensus/src/unl.rs:150-156 | how many disabled members leave a list of n a quorum of 60%, in closed form |
| NegativeUnl.DisabledInList | crates/consensus/src/negative_unl.rs:115-176 | disabled in the list afterwards are those that did not recover, or some more within a quarter |
| NegativeUnl.StepQuorumIff | crates/consensus/src/negative_unl.rs:115-176 | after a flag ledger the quorum is at least 60% of its list exactly when few enough disabled members failed to recover |
| NegativeUnl.ChangeQuorumIff | crates/consensus/src/unl.rs:90-156 | right after a list change the quorum is at least 60% exactly when few enough of the new list are disabled, and always when at most a quarter is |
| NegativeUnl.RunQuorumIff | crates/consensus/src/negative_unl.rs:115-218 | over every run in which each flag ledger has its own list: the exact condition after each, and the bound whenever at most a quarter of the list it finds is disabled |
| NegativeUnl.RunKeepsQuorum | crates/consensus/src/negative_unl.rs:115-218 | over every run with one list, from nothing disabled, at most a quarter of the list is ever disabled, all of it trusted, and the quorum never falls below 60% of the full list |
| NegativeUnl.DepartedStayDisabled | crates/consensus/src/negative_unl.rs:130-136 | a validator that left the list while disabled stays disabled as long as it stays away |
| NegativeUnl.ShrunkListLosesQuorum | crates/consensus/src/negative_unl.rs:115-176 | a run from nothing disabled: two silent validators of eight, a list that shrinks to them and one other, and a quorum of one |
| Quorum.CountIsValidatorsIff | crates/consensus/src/unl.rs:63-72 | what the quorum test counts is the number of validators exactly when no two names, our own included, resolve to one |
| Quorum.BucketVotes | crates/consensus/src/engine.rs:1127-1147 | a bucket has as many votes as peers counted in it, and all buckets together as many as peers counted at all |
| Quorum.OurBucketDecides | crates/consensus/src/engine.rs:1104-1188 | whatever the peers are, we close at our own bucket after the parent exactly when, with ourselves, it has more counted votes than all others together |
| Quorum.QuorumAgreesOnCloseTime | crates/consensus/src/engine.rs:1404-1477 | a quorum of distinct effective validators implies close-time agreement on exactly the shared bucket, when it lies after the parent |
| Quorum.QuorumsShareValidators | crates/consensus/src/engine.rs:1440-1477 | two nodes with one list that both pass the quorum test counted at least twice the quorum minus the list in common, hence at least 60% of it |
| Quorum.ForkNeedsEquivocation | crates/consensus/src/engine.rs:1440-1477 | two nodes of one list pass the quorum test on different transactions or buckets only if at least 60% of the list showed them different positions |
| Quorum.SharedMasterSplitsQuorums | crates/consensus/src/engine.rs:1443-1470 | where three names resolve to one validator, two quorums of a list of five share nobody |
| Quorum.CapLimitsQuorum | crates/consensus/src/proposal_tracker.rs:117-126 | with the tracker's sixteen positions the quorum test passes only for at most 21 effective validators, 20 where we do not count ourselves |
| Quorum.ReachableQuorums | crates/consensus/src/proposal_tracker.rs:117-126 | for every list, and wherever we stand in it, some sixteen positions of distinct validators other than us pass the quorum test exactly up to that size |
| RoundState.PeerFacts | crates/consensus/src/engine.rs:1004-1023 | positions stand under their own names on our parent ledger and number at most sixteen |
| RoundState.BuffersBounded | crates/consensus/src/engine.rs:736-935 | pending and held proposals together never exceed 2048 |
| RoundState.StartKeeps | crates/consensus/src/engine.rs:697-754 | a round start keeps the invariant, leaves an empty tracker and puts what was held behind what was buffered |
| RoundState.OneParent | crates/consensus/src/engine.rs:719-722 | a tracker that serves one parent never evicts |
| RoundState.ProposalKeeps | crates/consensus/src/engine.rs:897-1024 | a proposal keeps the invariant, moves positions only forward and gives only trusted peers one |
| RoundState.ReplayKeeps | crates/consensus/src/engine.rs:833-841 | replaying a buffer does too |
| RoundState.ReplayIsRun | crates/consensus/src/engine.rs:833-841 | after the replay the tracker holds what a run over the eligible proposals leaves, whatever else was buffered |
| RoundState.ReplayedPositionsAreNewest | crates/consensus/src/engine.rs:786-844 | each peer's position is its newest eligible buffered proposal, and every eligible peer has one, within the caps |
| Convergence.ConvergeKeeps | crates/consensus/src/engine.rs:1303-1513 | a poll keeps the invariant |
| Convergence.SettlementFollowsTallies | crates/consensus/src/engine.rs:1323-1367 | after every poll a disputed transaction is in our set exactly when its tally clears the round's threshold, and the rest is untouched |
| Convergence.YesKeepsTransaction | crates/consensus/src/engine.rs:1323-1367 | of two polls that differ in one vote, the one in which the peer says yes keeps the transaction if the other does, and nothing else differs |
| Convergence.PollKeepsVotes | crates/consensus/src/engine.rs:1323-1367 | a poll keeps every peer's vote and brings our own up to date |
| Convergence.ThresholdRises | crates/consensus/src/params.rs:77-80 | the share asked without a list rises by the step each round up to the top |
| Convergence.StandardThresholds | crates/consensus/src/params.rs:37-80 | 50, 60, 70 and then 80 with the standard settings |
| Convergence.PollAcceptsIff | crates/consensus/src/engine.rs:1404-1513 | accepted exactly when 80% of the effective list agree, or without a list the round's share of all positions, and the minimum time is over; or, without agreement, when the rounds are used up and a listed node has heard from somebody |
| Convergence.LonelyNodeWaits | crates/consensus/src/engine.rs:1484-1513 | a listed node that heard from nobody closes exactly when it is the only effective member, and otherwise stays in the round |
| Convergence.ChangedPositionSupersedes | crates/consensus/src/engine.rs:1303-1400 | whatever a poll changes about our position carries the next sequence, so exactly the changed positions are taken by a tracker that has our last one |
| Convergence.AcceptedAtOurBucketIff | crates/consensus/src/engine.rs:1303-1531 | an accepted poll closes with agreement at the bucket of our position exactly when, with ourselves, it has more counted votes than all others together, whoever the peers are |
| Convergence.QuorumAcceptanceCloses | crates/consensus/src/engine.rs:1303-1531 | a poll accepted by quorum over distinct trusted peers closes with agreement at our bucket |
| Convergence.AcceptedPollsAgree | crates/consensus/src/engine.rs:1303-1531 | two polls accepted by quorum of one list close on the same transactions and bucket unless at least 60% of the list showed the two nodes different positions |
| ListChanges.SplitVotePollClosesAtZero | crates/consensus/src/engine.rs:1303-1531 | without a list, one peer with our set and another bucket: our time stays, the poll is accepted and closes at zero with the no-consensus flag |
| ListChanges.DepartedPeersDecide | crates/consensus/src/engine.rs:1303-1531 | two departed peers in a later bucket and one too old to count: our time stays, the quorum test passes and the ledger closes at their bucket |
| Convergence.LargeListsOnlyTimeOut | crates/consensus/src/engine.rs:1440-1513 | beyond 21 effective validators, or 20 where we do not count ourselves, a poll accepts exactly when the round is out of time |
| EngineRuns.InitialFits | crates/consensus/src/engine.rs:230-281 | a new engine satisfies the invariant |
| EngineRuns.OpenedFits | crates/consensus/src/engine.rs:786-831 | closing an open round satisfies it, and until then the tracker is empty |
| EngineRuns.StepKeeps | crates/consensus/src/engine.rs:697-1566 | every operation keeps the invariant, advances positions except at a round start, and under one list keeps all positions trusted |
| EngineRuns.RunFits | crates/consensus/src/engine.rs:697-1566 | every state of every run satisfies the invariant, whatever the validator list does |
| EngineRuns.ReachableStates | crates/consensus/src/engine.rs:697-1566 | in every reachable state positions build on the parent and are exactly the tracker's entries, our position names our set, every dispute knows our set, and the buffers hold at most 2048 |
| EngineRuns.PositionsAdvance | crates/consensus/src/engine.rs:1001-1022 | between two round starts a peer's stored sequence only rises |
| EngineRuns.TrustedSinceOpen | crates/consensus/src/engine.rs:936-940 | while the list is what it was when the round was open, only trusted peers have a position, whatever it was before |
| EngineRuns.QuorumRoundsAgree | crates/consensus/src/engine.rs:1303-1531 | in every run a round accepted by a quorum of distinct validators closes with agreement at our bucket, if the list did not change since the round was open |
| EngineRuns.RoundWithinTicks | crates/consensus/src/engine.rs:1479-1513 | over every run the round number counts no more than the round intervals since the round began |
| EngineRuns.TimeoutTakesAllRounds | crates/consensus/src/engine.rs:1479-1513 | a poll accepted without agreement comes after as many round intervals as there are rounds |
| Origins.PositionTakenIff | crates/consensus/src/engine.rs:897-1024 | a proposal becomes its sender's position exactly when the sender is trusted, its time is within thirty seconds, it is on our parent and sequence, and it is newer or finds one of sixteen places; nobody else's position moves |
| Origins.DeliveredBefore | crates/consensus/src/engine.rs:736-1024 | over every run every buffered, held or filed proposal was delivered at an earlier step |
| Origins.PositionComesFrom | crates/consensus/src/engine.rs:736-1024 | over every run a position was delivered at some step and filed in this round at a step when its sender was trusted and its time within thirty seconds |
| EngineRuns.StepWithinCapIff | crates/consensus/src/engine.rs:697-935 | each operation leaves at most 1024 proposals in the buffer exactly when it found room, at a round start for what it moves in as well |
| EngineRuns.RunWithinCapIff | crates/consensus/src/engine.rs:697-935 | the buffer stays within 1024 over a whole run exactly when every round start finds room for what it moves in |
| Engine.ConsensusEngine.constructor | crates/consensus/src/engine.rs:230-281 | the initial state |
| Engine.ConsensusEngine.StartRound | crates/consensus/src/engine.rs:697-754 | positions, disputes and the old tracker entries are gone, held proposals on the new parent move to the buffer, stale ones are dropped, the buffer is kept |
| Engine.ConsensusEngine.Gate | crates/consensus/src/engine.rs:916-924 | listed where there is a list, and within thirty seconds; only stale proposals are counted |
| Engine.ConsensusEngine.Buffer | crates/consensus/src/engine.rs:910-935 | outside Establish a proposal that passes joins the buffer while it has room |
| Engine.ConsensusEngine.Park | crates/consensus/src/engine.rs:972-984 | a proposal on another parent is noted and held |
| Engine.ConsensusEngine.Admit | crates/consensus/src/engine.rs:1001-1024 | the tracker decides; an accepted proposal becomes the peer's position and the disputes are recorded |
| Engine.ConsensusEngine.Place | crates/consensus/src/engine.rs:963-1024 | held, out of sequence, not newer, or taken |
| Engine.ConsensusEngine.Consider | crates/consensus/src/engine.rs:936-1024 | the same behind the two gates |
| Engine.ConsensusEngine.PeerProposal | crates/consensus/src/engine.rs:897-1024 | exactly the step of the round, and the invariant |
| Engine.ConsensusEngine.Replay | crates/consensus/src/engine.rs:838-841 | the buffered proposals one after another |
| Engine.ConsensusEngine.CloseLedger | crates/consensus/src/engine.rs:786-844 | refused outside Open; otherwise our position and set are in place, the phase is Establish and the buffer has been replayed against our close time |
| Engine.ConsensusEngine.AlignWithPeers | crates/consensus/src/engine.rs:1201-1281 | only our close time moves, to where alignment says |
| Engine.ConsensusEngine.SettleDisputes | crates/consensus/src/engine.rs:1322-1367 | without a flip nothing changes; otherwise our set is rebuilt from the tallies, our position names it with the next sequence and every dispute is brought up to date |
| Engine.ConsensusEngine.Reposition | crates/consensus/src/engine.rs:1308-1388 | our sequence rises by one exactly when the set changed, the close time moved or a refresh is due |
| Engine.ConsensusEngine.CountSameSet | crates/consensus/src/engine.rs:1417-1422 | the peers that propose our set, counted in any order |
| Engine.ConsensusEngine.CountAgreeing | crates/consensus/src/engine.rs:1443-1447 | the trusted peers that share our set and our close-time bucket, counted in any order |
| Engine.ConsensusEngine.SelfCounts | crates/consensus/src/engine.rs:1461-1467 | a node counts itself exactly when told so, or when one of its two names resolves to a listed validator that is not disabled |
| Engine.ConsensusEngine.CheckAgreement | crates/consensus/src/engine.rs:1390-1477 | by exact shares: without a list our set's share of all positions reaches the round's threshold, with one the agreeing validators are at least 80% of the effective list |
| Engine.ConsensusEngine.Decide | crates/consensus/src/engine.rs:1414-1513 | accepted exactly on agreement after the minimum time or, without agreement, when out of rounds with a peer or no list; the round counter follows |
| Engine.ConsensusEngine.Accept | crates/consensus/src/engine.rs:1517-1531 | the accepted time and flag are the close-time outcome |
| Engine.ConsensusEngine.PollRound | crates/consensus/src/engine.rs:1303-1513 | one poll is exactly alignment, settlement, position and decision |
| Engine.ConsensusEngine.Converge | crates/consensus/src/engine.rs:1303-1513 | nothing outside Establish, otherwise one poll, and the invariant; accepted in time under a list, it has 80% of the effective list, itself counted only where it is a member |
| BufferLimits.OverfillPending | crates/consensus/src/engine.rs:736-754 | a run of the engine that leaves 2048 proposals in the buffer, as many as the bound on both buffers allows |
| ListChanges.RevokedValidatorsDecide | crates/consensus/src/engine.rs:1303-1531 | a run of the engine: three validators propose, their keys are revoked, and the next poll is accepted by the quorum that is left at the bucket of the three |
| Iou.FromPartsTruncates | crates/amount/src/iou.rs:69-164 | for any mantissa and exponent: exact truncation toward zero to sixteen digits, an error exactly from 10^96 up, zero exactly below 10^-81 |
| Iou.FromPartsFloors | crates/amount/src/iou.rs:129-164 | truncating a floor is truncating the value itself |
| Iou.TruncationUnique | crates/amount/src/iou.rs:129-164 | a value has one sixteen-digit truncation |
| Iou.TruncationMonotone | crates/amount/src/iou.rs:129-164 | truncation preserves order and overflow |
| Iou.Normalize | crates/amount/src/iou.rs:129-164 | the scaling loops compute it |
| Iou.RaiseMantissa | crates/amount/src/iou.rs:136-142 | scaling up keeps the value |
| IouMulDiv.MultiplyWithinOneUlp | crates/amount/src/iou.rs:167-208 | the product within one unit in the last place, exact whenever it is representable, with the right sign |
| IouMulDiv.DivideWithinOneUlp | crates/amount/src/iou.rs:216-283 | the quotient within one unit in the last place, exact whenever it is representable, with the right sign; an error for a zero divisor |
| IouMulDiv.MultiplyRoundsUpIff | crates/amount/src/iou.rs:167-208 | the product is cut by one digit, rounding up exactly from three, or by two, exactly from 93 |
| IouMulDiv.DivideRoundsUpIff | crates/amount/src/iou.rs:216-283 | the quotient is cut by one digit, rounding up exactly from five, or by two, exactly from 95 |
| IouMulDiv.MultiplyMonotone | crates/amount/src/iou.rs:167-208 | a larger factor never gives a smaller product nor undoes an overflow |
| IouMulDiv.MultiplyCommutes | crates/amount/src/iou.rs:167-208 | factors commute |
| IouDirected.CanonicalizeRoundInPlace | crates/amount/src/iou.rs:689-699 | the in-place loop and its bias |
| IouDirected.CanonicalizeRoundCases | crates/amount/src/iou.rs:689-699 | never more than nine tenths of a unit above, and below exactly when the raw value exceeds ten times the largest mantissa with last two digits 01 to 09 |
| IouDirected.AwayExponent | crates/amount/src/iou.rs:689-699 | rounding up reaches an exponent exactly when the exact magnitude is beyond every sixteen-digit value under it |
| IouDirected.MulRoundDirected | crates/amount/src/iou.rs:329-387 | toward zero never above and less than one unit below; away from zero above by less than one unit, below by less than a tenth and only in the described case; overflow exactly beyond the largest amount, and at or below the largest value under the exponent range exactly the smallest amount for a positive and zero for a negative result |
| IouDirected.DivRoundDirected | crates/amount/src/iou.rs:390-447 | the same for quotients, zero counting as positive; an error for a zero divisor |
| IouDirected.MulRoundUpNotBelowDown | crates/amount/src/iou.rs:329-387 | rounding up is never below rounding down |
| IouDirected.DivRoundUpNotBelowDown | crates/amount/src/iou.rs:390-447 | the same for quotients |
| IouDirected.RoundUpCanFallBelow | crates/amount/src/iou.rs:689-699 | a product rounded up that lies below the exact one |
| IouHalfEven.CountDigitsOver | crates/amount/src/iou.rs:289-323 | the loop counts the digits beyond sixteen |
| IouHalfEven.NearestEvenUnique | crates/amount/src/iou.rs:289-323 | a value has one nearest-even neighbour |
| IouHalfEven.RoundHalfEvenNearest | crates/amount/src/iou.rs:289-323 | the result is the nearest sixteen-digit value, ties to even |
| IouHalfEven.AddRoundIsNearest | crates/amount/src/iou.rs:631-681 | the sum of any two amounts is the exact sum rounded to nearest even, the early return for far exponents included |
| IouHalfEven.DivideRoundEvenWithinOneUlp | crates/amount/src/iou.rs:232-283 | within one unit in the last place, with the right sign |
| IouHalfEven.DivideRoundEvenRange | crates/amount/src/iou.rs:232-283 | it overflows from 10^96 up and only near it, and vanishes only below 10^-81 |
| IouHalfEven.DivideRoundEvenExactIff | crates/amount/src/iou.rs:232-323 | for operands of any signs, a representable quotient is hit exactly unless the dividend's mantissa is smaller and the quotient's is odd |
| IouHalfEven.DivideRoundEvenCanMissExact | crates/amount/src/iou.rs:232-323 | a representable quotient that is missed |
| Drops.CanonicalizeDropsRoundStrict | crates/amount/src/amount.rs:367-387 | the loop drops digits and remembers a lost one |
| Drops.CanonicalizeDropsRound | crates/amount/src/amount.rs:341-361 | the legacy loop and its fixed bias |
| Drops.ScaleDownToDrops | crates/amount/src/amount.rs:313-327 | the scaling loop |
| Drops.StrictIsCeiling | crates/amount/src/amount.rs:367-387 | for every 64-bit count, rounding up is the exact ceiling, except that a count within nine of the top wraps to nothing when one digit is to drop |
| Drops.ScaleIsFloor | crates/amount/src/amount.rs:313-327 | scaling down is the exact floor |
| Drops.LegacyAgainstCeiling | crates/amount/src/amount.rs:341-361 | for every 64-bit count, the legacy rule is the ceiling except one above for an exact value one or two digits deep, one below for a small remainder three or more digits deep, and nothing where its addition wraps |
| Drops.StrictUpIsExact | crates/amount/src/amount.rs:183-276 | rounded up, a positive product is an error exactly when its raw count is beyond 64 bits, and otherwise the exact ceiling in drops unless the cast to a signed count or the last addition spoils it, in exactly two described cases |
| Drops.StrictDownIsExact | crates/amount/src/amount.rs:183-276 | rounded down, likewise the exact floor unless the cast spoils it |
| NegativeDrops.NegativeUpIsExact | crates/amount/src/amount.rs:183-387 | rounded up, a negative product is an error exactly beyond u64, and otherwise minus the exact floor unless the count is beyond 2^63 |
| NegativeDrops.NegativeDownIsExact | crates/amount/src/amount.rs:183-387 | rounded down strictly it is minus the exact ceiling unless the count wraps, is beyond 2^63, or loses digits that start with a zero |
| NegativeDrops.NegativeLegacyDown | crates/amount/src/amount.rs:183-387 | the same for the legacy rule, with its own exceptions |
| NegativeDrops.RoundDownStaysAbove | crates/amount/src/amount.rs:183-387 | a negative product that is rounded down to more than itself |
| NegativeDrops.ZeroProductDrops | crates/amount/src/amount.rs:183-387 | a zero operand gives one drop when rounded up from operands neither of which is negative, and otherwise none |
| CoarseDrops.CoarseProductIsExact | crates/amount/src/amount.rs:183-387 | a positive product counted in units of ten drops or more is within one unit on the side asked for exactly when it fits an i64, and minus one drop once it saturates |
| CoarseDrops.CoarseNegativeIsExact | crates/amount/src/amount.rs:183-387 | a negative one likewise up to 2^63, and one drop once it saturates |
| CoarseDrops.HugeProductIsMinusOne | crates/amount/src/amount.rs:183-387 | a positive product of 10^30 drops comes out as minus one |
| Drops.PositiveProductTurnsNegative | crates/amount/src/amount.rs:271-275 | a positive product whose drop count comes out negative |
| Drops.LegacyAgainstStrict | crates/amount/src/amount.rs:145-276 | the exact difference of the legacy product from the strict one for every raw count, none when rounding down |
| Drops.LegacyWithinOneDropIff | crates/amount/src/amount.rs:145-276 | it is at most one drop unless one digit is to drop from exactly the tenth count below 2^64 |
| Drops.LegacyAddsADrop | crates/amount/src/amount.rs:341-361 | 10^15 drops times one, a drop too many |
| Drops.LegacyLosesADrop | crates/amount/src/amount.rs:341-361 | a product a hundredth above a whole count, a drop too few |
| Drops.LegacyWraps | crates/amount/src/amount.rs:341-361 | a product of 1.8 * 10^18 drops that comes out as one |
| NumberRounding.RoundsUpFrom | crates/amount/src/number.rs:162-192 | deciding by the dropped digits rounds the exact value to the unit in every mode |
| NumberRounding.RoundsUpIsCorrect | crates/amount/src/number.rs:162-192 | at the small scale that is correct rounding to sixteen digits |
| NumberRounding.SmallRounded | crates/amount/src/number.rs:207-222 | a carry out of sixteen digits still gives the correctly rounded value |
| NumberRounding.LargeUnitUnique | crates/amount/src/number.rs:238-271 | a value has one unit of the large scale, the least at which its whole part fits an i64 |
| NumberRounding.LargeRoundUp | crates/amount/src/number.rs:207-222 | at the large scale the guard rounds to that unit, and where this would leave i64 goes three units up |
| NumberRounding.LargeIsCorrectIff | crates/amount/src/number.rs:207-222 | so the large scale rounds to its unit exactly unless the rounding carries out of i64 |
| NumberRounding.UnderflowBound | crates/amount/src/number.rs:258-263 | normalization gives zero only below the least number of the scale |
| Number.Guard.Push | crates/amount/src/number.rs:143-148 | sixteen nibbles and a sticky bit stand for the whole dropped tail |
| Number.Guard.DropDigit | crates/amount/src/number.rs:155-159 | mantissa and tail together keep the exact value |
| Number.Guard.Round | crates/amount/src/number.rs:162-192 | above, below or at half, decided as the full tail would |
| Number.Guard.DoRoundUp | crates/amount/src/number.rs:207-222 | rounding with a carry out of the top digit recurs at most once |
| Number.DropExcess | crates/amount/src/number.rs:238-271 | dropping digits until the mantissa fits loses nothing |
| Number.NormalizeRaised | crates/amount/src/number.rs:250-270 | a mantissa raised as far as possible becomes the number rounded at its scale |
| Number.DoNormalize | crates/amount/src/number.rs:238-271 | at both scales any mantissa and exponent become the number rounded at the scale, canonical ones come out as they are |
| Number.RoundGuarded | crates/amount/src/number.rs:195-222 | rounding by the guard and bringing into range gives the rounded number of the exact value the digits came from |
| Number.RoundProduct | crates/amount/src/number.rs:356-378 | at both scales a product of any length is rounded once, although it is rounded and then normalized |
| Number.Mul | crates/amount/src/number.rs:356-378 | for any two numbers at both scales the exact product, rounded in all four modes to sixteen digits or to the digits that fit an i64; zero only for a zero factor or below the least number |
| Number.CarryStepsThreeUnits | crates/amount/src/number.rs:207-222 | a product that goes three units up at the large scale |
| NumberRounding.CorrectRoundingUnique | crates/amount/src/number.rs:162-192 | a value has one correct rounding in each mode |
| NumberRounding.LargeRoundingUnique | crates/amount/src/number.rs:162-222 | and one rounding of the large scale |
| Number.FromIou | crates/amount/src/number.rs:511-518 | the same value at either scale |
| Number.ToIou | crates/amount/src/number.rs:521-554 | the correctly rounded amount, zero at underflow and also at overflow |
| Number.RoundTrip | crates/amount/src/number.rs:511-554 | every amount comes back unchanged at both scales and in every mode |
| Quality.CmpIsOrder | crates/amount/src/iou.rs:720-761 | comparison is exactly the order of denoted values, and equal values are equal amounts |
| Quality.PackRoundTrip | crates/amount/src/quality.rs:28-68 | unpacking a packed rate gives it back |
| Quality.PackKeepsOrder | crates/amount/src/quality.rs:28-51 | packed rates compare as the rates do, both ways |
| Quality.BetterIsLower | crates/amount/src/quality.rs:134-143 | better means a lower rate, and a zero quality is worse than any |
| Quality.OfferRateDecodes | crates/amount/src/quality.rs:28-68 | a packed offer rate decodes to the quotient within one unit in the last place |
| Quality.EvenOfferRateDecodes | crates/amount/src/quality.rs:28-50 | the rate rounded half to even decodes to within one unit in the last place of the true price |
| Quality.OfferRateRange | crates/amount/src/quality.rs:28-50 | a worthless offer has rate zero, any other only when the price is below 10^-81, and an error only when it is at the top of the range |
| Quality.TicksArePowers | crates/amount/src/quality.rs:71-91 | the table of moduli is the powers of ten |
| Quality.RoundQualityIsLeast | crates/amount/src/quality.rs:71-101 | the least rate on the grid that is not below the input, among all rates |
| Quality.RoundQualityCanonicalIff | crates/amount/src/quality.rs:71-100 | the rounded rate is canonical exactly when the mantissa is at least one tick below 10^16, and otherwise has mantissa 10^16 |
| Quality.RoundedAmountIsLeast | crates/amount/src/quality.rs:71-100 | it decodes to the least amount on the grid that is not below the rate, over all amounts, carry or not, and to none exactly when the carry leaves the exponent range |
| Quality.RoundQualityLeavesTheRange | crates/amount/src/quality.rs:94-99 | 9.999999999999999 at five digits packs as 10^16 at the old exponent, which is not the packing of ten; at exponent 80 it decodes to an overflow |
| Quality.RoundQualityIdempotent | crates/amount/src/quality.rs:71-101 | rounding twice changes nothing |
| Quality.RoundQualityMonotone | crates/amount/src/quality.rs:71-101 | rounding keeps order |
| DecimalText.ParseTruncates | crates/amount/src/iou.rs:510-538 | any well-formed decimal of any length parses to its exact value truncated toward zero, anything else is an error |
| DecimalText.PlainTextParses | crates/amount/src/iou.rs:510-538 | blanks, at most one sign and digits with a point anywhere are read as written and truncated to sixteen digits |
| DecimalText.PrintedValue | crates/amount/src/iou.rs:542-568 | the printed digits and point stand for exactly the amount |
| DecimalText.PrintParseRoundTrip | crates/amount/src/iou.rs:510-568 | parsing what was printed gives every normalized amount back |
| SortedIds.ListingUnique | crates/amendment/src/voting.rs:109-115 | a set of ids has one increasing list, so what is emitted does not depend on hash maps |
| SortedIds.SortIds | crates/amendment/src/voting.rs:114-115 | the increasing list of a set |
| AmendmentTable.AmendmentTable.CheckActivations | crates/amendment/src/table.rs:116-132 | exactly the amendments whose majority has lasted the window are enabled, in increasing order |
| AmendmentVoting.LookAt | crates/amendment/src/voting.rs:123-149 | gained, lost or unchanged, for one amendment |
| AmendmentVoting.LookAtAll | crates/amendment/src/voting.rs:117-149 | every tracked amendment once, each seen as it was before the loop |
| AmendmentVoting.TallyVotes | crates/amendment/src/voting.rs:61-150 | activations in id order, then majority changes in id order, and the table after both; nothing without trusted validators |
| AmendmentVoting.PassesIff | crates/amendment/src/voting.rs:75-127 | a majority is strictly more than four fifths of the trusted, or the one vote there is |
| AmendmentVoting.TallyOrder | crates/amendment/src/voting.rs:84-146 | a tally emits the activations in the order of ids and then the changes of majority in the order of ids |
| AmendmentVoting.TallySeenFrom | crates/amendment/src/voting.rs:61-150 | what a tally does to and says about one registered amendment depends on its own state and votes only |
| AmendmentVoting.UnregisteredRepeats | crates/amendment/src/voting.rs:133-143 | an unregistered amendment above the threshold is announced at every tally |
| AmendmentRuns.RunTallies | crates/amendment/src/voting.rs:61-150 | one tally after another on one table: the table after each and what each emits |
| AmendmentRuns.RunSeenFrom | crates/amendment/src/voting.rs:61-150 | a run of tallies on a whole table, seen from one registered amendment, is the run of that amendment alone |
| AmendmentRuns.RunAnnounces | crates/amendment/src/voting.rs:61-146 | over every run on a whole table, what is announced about a registered amendment is what a reference announces from its last announcement and the votes alone |
| AmendmentRuns.LossAnswersGain | crates/amendment/src/voting.rs:117-149 | over every run of tallies a loss answers a gain with nothing in between |
| AmendmentRuns.GainNeedsLoss | crates/amendment/src/voting.rs:117-149 | and between two gains there is a loss |
| AmendmentVoting.MajorityStep | crates/amendment/src/voting.rs:117-149 | a tally that ends with a majority on record either announced it at its close time or left it alone, passing whenever it looked |
| AmendmentRuns.Activation | crates/amendment/src/voting.rs:61-150 | over every run of tallies an activation follows an announced majority that stood for the whole window by close time, with nothing in between and nothing after |
| AmendmentRuns.SupportedActivation | crates/amendment/src/voting.rs:61-150 | for an amendment we support every counted tally of that window was above the threshold |
| AmendmentRuns.UnsupportedActivationIff | crates/amendment/src/voting.rs:95-107 | for one we do not, that holds exactly when every counted tally of the window mentions it |
| AmendmentRuns.SilentMajorityActivates | crates/amendment/src/voting.rs:95-107 | nine of ten votes once, then silence, then activation, through the tally itself |
| AmendmentRuns.UnregisteredAnnouncedTwice | crates/amendment/src/voting.rs:133-143 | an unregistered amendment announced at two tallies running |
| AmendmentVoting.CountVotes | crates/amendment/src/voting.rs:155-163 | the nested loops count every mention |
| AmendmentVoting.CountIsVotersIff | crates/amendment/src/voting.rs:151-163 | the count is the number of validators exactly when none names the amendment twice |
| AmendmentRuns.NamedTwiceCountsTwice | crates/amendment/src/voting.rs:155-163 | one validator that counts as two |

## Left out

- Hashing, signatures, key derivation and the hash tree of a transaction set: hashes are compared and ordered only, and the root of a set is any function of its sorted ids.
- Wall clock, atomics, tracing and the memo's lock: elapsed-time tests, the current time and the iteration order of hash maps are inputs or nondeterministic, counters are naturals.
- Network adapter: the transaction sets it yields to a peer's hash are inputs; proposing, publishing and sharing have no effect in the model, and the validation built at acceptance is not modelled.
- Transaction blobs: they are only carried to serve sets to peers.
- Close-time resolution cadence: the resolution of a round is an input of its start.
- Wrong-chain detection from proposal votes and the preferred branch, and the latest-peer hints: queries over state that is modelled.
- Exact dispute tallies and which set wins: the code leaves votes on transactions that both sides now lack in place, and what is proved says so.
- 32-bit support counters of the trie, 32-bit proposal sequences, round thresholds and the stale-ledger sum are unbounded numbers here.
- 32-bit exponents of amounts are unbounded integers here; the range checks are the code's. Integer additions and negations that could overflow wrap, as they do in an optimized build.
- Number.ToIou: overflow gives zero as in the code, which has no error path there.
- Number.DoNormalize: the flag for digits dropped by an earlier step is not modelled, since no operation covered here sets it.
- Number addition, division, roots, powers and conversions to drops: sign handling and Newton steps that add length without new kinds of properties.
- IouAmount's truncating `add` and `mul_ratio`: the first is superseded by `add_round`, the second has no clean directional bound.
- Amount rounding to IOU targets, `multiply` and `divide` of mixed amounts: the same bounds as the amounts they are built from.
- Guard digits and packed qualities are arithmetic on base ten and base 2^56 instead of shifts and masks.
- mark_disabled and mark_enabled of the negative list, list expirations and validator-list updates: they set fields that are arbitrary here.
- Fee voting, pseudo-transaction encoding, ledgers, skip lists, pruning of storage, codecs, CLI, RPC, storage and simulator: input and output, or easier members.
