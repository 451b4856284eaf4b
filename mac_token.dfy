/**
 * The token-passing medium-access protocol
 * (mac/src/my_protocol/TokenBasedProtocol.java). A node without an id
 * claims the next free one by announcing it; it owns the id once its
 * announcement succeeds. Nodes with ids take turns as sender, SLOTS_PER_SENDER
 * successful slots at a time or until the medium falls idle.
 */
module TokenBased {
  import opened MacFramework

  const SLOTS_PER_SENDER: int := 6

  /** The five fields of the protocol object. */
  datatype TokenState = TokenState(ids: set<int>, candidateId: int, senderSlots: int, senderId: int, id: int)

  /**
   * A candidate id is only ever pending while the node has no id, the node's
   * own id is among the known ids, and the sender id is positive (so Java's
   * remainder and the mathematical one agree on it).
   */
  predicate TokenInv(s: TokenState)
  {
    && (s.candidateId != 0 ==> s.id == 0)
    && (s.id != 0 ==> s.id in s.ids)
    && s.senderId >= 1
  }

  function InitialState(): (s: TokenState)
    ensures TokenInv(s)
  {
    TokenState({}, 0, 0, 1, 0)
  }

  /** One call of TimeslotAvailable: the new fields and the answer. */
  function TokenStep(s: TokenState, slot: Slot): (TokenState, TransmissionInfo)
    requires TokenInv(s)
  {
    var success := slot.previousState == Succes;
    var slots := if success && slot.controlInfo == s.senderId then s.senderSlots + 1 else s.senderSlots;
    var ids := if success then s.ids + {slot.controlInfo} else s.ids;
    var id := if success && s.candidateId != 0 && s.candidateId == slot.controlInfo then s.candidateId else s.id;
    if id == 0 then
      if slot.coin then (TokenState(ids, |ids| + 1, slots, s.senderId, id), TransmissionInfo(NoData, |ids| + 1))
      else (TokenState(ids, 0, slots, s.senderId, id), TransmissionInfo(Silent, 0))
    else
      var rotate := slots >= SLOTS_PER_SENDER || slot.previousState == Idle;
      var senderId := if rotate then s.senderId % |ids| + 1 else s.senderId;
      var senderSlots := if rotate then 0 else slots;
      var info := if slot.queueLength != 0 && id == senderId then TransmissionInfo(Data, id) else TransmissionInfo(Silent, 0);
      (TokenState(ids, 0, senderSlots, senderId, id), info)
  }

  /** Every slot keeps the invariant. */
  lemma StepKeepsInv(s: TokenState, slot: Slot)
    requires TokenInv(s)
    ensures TokenInv(TokenStep(s, slot).0)
  {
  }

  /**
   * The id: once nonzero it never changes; a zero id is replaced only by
   * the pending candidate, when the previous slot succeeded carrying it. A
   * candidate is pending after the slot only when the node still has no id
   * and won the coin.
   */
  lemma StepId(s: TokenState, slot: Slot)
    requires TokenInv(s)
    ensures var (t, _) := TokenStep(s, slot);
      && (s.id != 0 ==> t.id == s.id)
      && (t.id != s.id ==> s.id == 0 && slot.previousState == Succes && t.id == s.candidateId == slot.controlInfo)
      && (t.candidateId != 0 <==> t.id == 0 && slot.coin)
  {
  }

  /** The known ids only grow: a successful slot adds its control value. */
  lemma StepIds(s: TokenState, slot: Slot)
    requires TokenInv(s)
    ensures TokenStep(s, slot).0.ids == s.ids + (if slot.previousState == Succes then {slot.controlInfo} else {})
  {
  }

  /** A node without an id never sends data: it announces the next free id or keeps silent. */
  lemma StepUnassigned(s: TokenState, slot: Slot)
    requires TokenInv(s)
    ensures var (t, info) := TokenStep(s, slot);
      t.id == 0 ==>
        && info.kind != Data
        && (slot.coin ==> info == TransmissionInfo(NoData, |t.ids| + 1))
        && (!slot.coin ==> info == TransmissionInfo(Silent, 0))
  {
  }

  /**
   * The turn: a node with an id hands the turn on after SLOTS_PER_SENDER
   * slots of the current sender or an idle slot, and the new sender is one
   * of the known ids 1..|ids|; otherwise the sender stays.
   */
  lemma StepRotation(s: TokenState, slot: Slot)
    requires TokenInv(s)
    ensures var (t, _) := TokenStep(s, slot);
      var slots := if slot.previousState == Succes && slot.controlInfo == s.senderId then s.senderSlots + 1 else s.senderSlots;
      t.id != 0 ==>
        if slots >= SLOTS_PER_SENDER || slot.previousState == Idle then
          t.senderSlots == 0 && 1 <= t.senderId <= |t.ids| && t.senderId == s.senderId % |t.ids| + 1
        else
          t.senderSlots == slots && t.senderId == s.senderId
  {
  }

  /** Data goes out exactly when the node has an id, has packets queued and holds the turn; it carries the id. */
  lemma StepData(s: TokenState, slot: Slot)
    requires TokenInv(s)
    ensures var (t, info) := TokenStep(s, slot);
      && (info.kind == Data <==> t.id != 0 && slot.queueLength != 0 && t.id == t.senderId)
      && (info.kind == Data ==> info.controlInfo == t.id)
  {
  }

  /** The state after a sequence of slots. */
  function Run(s: TokenState, slots: seq<Slot>): (t: TokenState)
    requires TokenInv(s)
    ensures TokenInv(t)
    decreases |slots|
  {
    if slots == [] then s
    else
      StepKeepsInv(s, slots[0]);
      Run(TokenStep(s, slots[0]).0, slots[1..])
  }

  /** Over any sequence of slots, an id once held is kept and the known ids only grow. */
  lemma {:induction false} RunKeepsId(s: TokenState, slots: seq<Slot>)
    requires TokenInv(s)
    ensures s.id != 0 ==> Run(s, slots).id == s.id
    ensures s.ids <= Run(s, slots).ids
    decreases |slots|
  {
    if slots != [] {
      StepId(s, slots[0]);
      StepIds(s, slots[0]);
      RunKeepsId(TokenStep(s, slots[0]).0, slots[1..]);
    }
  }

  class TokenBasedProtocol {
    var ids: set<int>
    /** The id this node announced in the last slot, 0 when none. */
    var candidateId: int
    /** Successful slots of the current sender. */
    var senderSlots: int
    /** The id whose turn it is. */
    var senderId: int
    /** This node's id, 0 until it has one. */
    var id: int

    function State(): TokenState
      reads this
    {
      TokenState(ids, candidateId, senderSlots, senderId, id)
    }

    ghost predicate Valid()
      reads this
    {
      TokenInv(State())
    }

    constructor ()
      ensures Valid() && State() == InitialState()
    {
      ids, candidateId, senderSlots, senderId, id := {}, 0, 0, 1, 0;
    }

    /** TimeslotAvailable, with the random draw given as the slot's coin. */
    method TimeslotAvailable(previousState: MediumState, controlInfo: int, queueLength: int, coin: bool)
      returns (info: TransmissionInfo)
      requires Valid()
      modifies this
      ensures Valid()
      ensures (State(), info) == TokenStep(old(State()), Slot(previousState, controlInfo, queueLength, coin))
    {
      if previousState == Succes {
        if controlInfo == senderId {
          senderSlots := senderSlots + 1;
        }
        ids := ids + {controlInfo};
        if candidateId != 0 && candidateId == controlInfo {
          id := candidateId;
        }
      }
      candidateId := 0;
      if id == 0 {
        if coin {
          candidateId := |ids| + 1;
          return TransmissionInfo(NoData, candidateId);
        } else {
          return TransmissionInfo(Silent, 0);
        }
      }
      if senderSlots >= SLOTS_PER_SENDER || previousState == Idle {
        senderId := senderId % |ids| + 1;
        senderSlots := 0;
      }
      info := if queueLength != 0 && id == senderId then TransmissionInfo(Data, id) else TransmissionInfo(Silent, 0);
    }
  }
}
