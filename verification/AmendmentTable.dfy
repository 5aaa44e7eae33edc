/** Amendment voting: which amendments have majority, since when, and when they activate. */
module AmendmentTable {
  import opened Primitives
  import opened SortedIds

  /** Voting state of one amendment. */
  datatype AmendmentState = AmendmentState(enabled: bool, supported: bool, majoritySince: Option<u32>)

  type States = map<Hash256, AmendmentState>

  // ---------------------------------------------------------------- the table

  predicate Matures(s: AmendmentState, majorityTime: u32, closeTime: u32) {
    !s.enabled && s.majoritySince.Some? && SaturatingSub(closeTime, s.majoritySince.value) >= majorityTime
  }

  /** The amendments that reach activation at a close time. */
  function Maturing(state: States, majorityTime: u32, closeTime: u32): (ids: set<Hash256>) {
    set id | id in state && Matures(state[id], majorityTime, closeTime)
  }

  /** The states after those amendments are enabled. */
  function Activated(state: States, majorityTime: u32, closeTime: u32): (r: States) {
    map id | id in state ::
      if Matures(state[id], majorityTime, closeTime) then state[id].(enabled := true) else state[id]
  }

  function WithMajority(state: States, id: Hash256, closeTime: u32): (r: States) {
    if id in state && state[id].majoritySince.None? then state[id := state[id].(majoritySince := Some(closeTime))]
    else state
  }

  function WithoutMajority(state: States, id: Hash256): (r: States) {
    if id in state then state[id := state[id].(majoritySince := None)] else state
  }

  class AmendmentTable {
    const majorityTime: u32
    var state: States

    constructor (features: States, majorityTime: u32)
      ensures state == features && this.majorityTime == majorityTime
    {
      state := features;
      this.majorityTime := majorityTime;
    }

    predicate IsEnabled(id: Hash256)
      reads this
    {
      id in state && state[id].enabled
    }

    predicate HasMajority(id: Hash256)
      reads this
    {
      id in state && state[id].majoritySince.Some?
    }

    method SetMajority(id: Hash256, closeTime: u32)
      modifies this
      ensures state == WithMajority(old(state), id, closeTime)
    {
      if id in state && state[id].majoritySince.None? {
        state := state[id := state[id].(majoritySince := Some(closeTime))];
      }
    }

    method ClearMajority(id: Hash256)
      modifies this
      ensures state == WithoutMajority(old(state), id)
    {
      if id in state {
        state := state[id := state[id].(majoritySince := None)];
      }
    }

    /** Enable what has held majority long enough, visiting the table in whatever order. */
    method CheckActivations(closeTime: u32) returns (activated: seq<Hash256>)
      modifies this
      ensures state == Activated(old(state), majorityTime, closeTime)
      ensures Lists(activated, Maturing(old(state), majorityTime, closeTime))
    {
      ghost var before := state;
      var rest := state.Keys;
      var ids := {};
      while rest != {}
        invariant state.Keys == before.Keys && rest <= before.Keys
        invariant forall id :: id in rest ==> state[id] == before[id]
        invariant forall id :: id in before && id !in rest ==>
                    state[id] == Activated(before, majorityTime, closeTime)[id]
        invariant forall id :: id in ids <==>
                    id in before && id !in rest && Matures(before[id], majorityTime, closeTime)
        decreases rest
      {
        var id :| id in rest;
        var s := state[id];
        if !s.enabled {
          if s.majoritySince.Some? && SaturatingSub(closeTime, s.majoritySince.value) >= majorityTime {
            state := state[id := s.(enabled := true)];
            ids := ids + {id};
          }
        }
        rest := rest - {id};
      }
      assert state == Activated(before, majorityTime, closeTime);
      assert ids == Maturing(before, majorityTime, closeTime);
      activated := SortIds(ids);
    }

    /** The amendments this validator votes for. */
    function GetVotes(): (ids: set<Hash256>)
      reads this
    {
      set id | id in state && state[id].supported && !state[id].enabled
    }
  }
}
