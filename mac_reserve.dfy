/**
 * The reservation medium-access protocol
 * (mac/src/my_protocol/ReserveToSendProtocol.java). Ids are claimed as in the
 * token protocol, but control values travel as decimal text: a one-character
 * value is an id, and a longer one is a reservation whose first character is
 * the sender and whose remaining characters count the extra turns it keeps.
 */
module ReserveToSend {
  import opened Wrappers
  import opened Decimal
  import opened MacFramework

  const PACKET_LIMIT: int := 6
  const RECOVERY_PACKET_NUMBER: int := 6

  /** The five fields of the protocol object. */
  datatype ReserveState = ReserveState(ids: set<int>, sequentTurns: int, candidateId: int, senderId: int, id: int)

  /** A slot either answers or ends in Integer.parseInt's NumberFormatException. */
  datatype Outcome = Transmit(info: TransmissionInfo) | NumberFormatError

  /**
   * A candidate is pending only while the node has no id, the node's own id
   * is a known one-digit id, the sender id is positive and the count of
   * extra turns is not negative.
   */
  predicate ReserveInv(s: ReserveState)
  {
    && (s.candidateId != 0 ==> s.id == 0)
    && (s.id != 0 ==> s.id in s.ids && 1 <= s.id <= 9)
    && s.senderId >= 1
    && s.sequentTurns >= 0
  }

  function InitialState(): (s: ReserveState)
    ensures ReserveInv(s)
  {
    ReserveState({}, 0, 0, 1, 0)
  }

  /** The control value asking for extra turns: the node's id followed by the number of turns, read as one number. */
  function Reservation(id: int): Option<int>
  {
    ParseInt(IntToString(id) + IntToString(RECOVERY_PACKET_NUMBER))
  }

  /** For a one-digit id the reservation is the two-digit number id, 6. */
  lemma ReservationValue(id: int)
    requires 1 <= id <= 9
    ensures Reservation(id) == Some(10 * id + RECOVERY_PACKET_NUMBER)
  {
    var s := IntToString(id) + IntToString(RECOVERY_PACKET_NUMBER);
    assert s == Digits(10 * id + RECOVERY_PACKET_NUMBER);
    ParseIntDigits(10 * id + RECOVERY_PACKET_NUMBER);
  }

  /**
   * The start of a slot: a successful one-character control value is a
   * known id from now on, and the node's own when it was its candidate.
   */
  function Hear(s: ReserveState, slot: Slot): ReserveState
  {
    var ci := slot.controlInfo;
    if slot.previousState == Succes && |IntToString(ci)| == 1 then
      s.(ids := s.ids + {ci}, id := if s.candidateId != 0 && s.candidateId == ci then s.candidateId else s.id)
    else s
  }

  /** One call of TimeslotAvailable: the new fields and the outcome. */
  function ReserveStep(s: ReserveState, slot: Slot): (ReserveState, Outcome)
    requires ReserveInv(s)
  {
    var h := Hear(s, slot);
    if h.id == 0 then
      if slot.coin then (h.(candidateId := |h.ids| + 1), Transmit(TransmissionInfo(NoData, |h.ids| + 1)))
      else (h.(candidateId := 0), Transmit(TransmissionInfo(Silent, 0)))
    else
      TurnStep(h.(candidateId := 0), slot.previousState, slot.controlInfo, slot.queueLength)
  }

  /**
   * The rest of a slot for a node with an id: read the extra turns from a
   * successful reservation, pass the turn on when none are left, then
   * reserve, send or keep silent.
   */
  function TurnStep(s: ReserveState, previousState: MediumState, controlInfo: int, queueLength: int): (ReserveState, Outcome)
    requires |s.ids| >= 1
  {
    var text := IntToString(controlInfo);
    var turns := TurnsHeard(s, previousState, controlInfo);
    if turns.None? then (s, NumberFormatError)
    else
      var t := turns.value;
      var first := if t == 0 then ParseInt(text[..1]) else Some(0);
      if first.None? then (s.(sequentTurns := t), NumberFormatError)
      else
        var lastId := if previousState != Idle then first.value else s.senderId;
        var senderId := if t == 0 then lastId % |s.ids| + 1 else s.senderId;
        SendStep(s.(sequentTurns := t, senderId := senderId), queueLength)
  }

  /**
   * The extra turns once the slot's control value is read: the characters
   * after the first of a successful value of two or more characters, parsed
   * (None when that throws), and otherwise the turns held so far.
   */
  function TurnsHeard(s: ReserveState, previousState: MediumState, controlInfo: int): (r: Option<int>)
    ensures previousState != Succes || |IntToString(controlInfo)| == 1 ==> r == Some(s.sequentTurns)
  {
    var text := IntToString(controlInfo);
    if previousState == Succes && |text| >= 2 then ParseInt(text[1..]) else Some(s.sequentTurns)
  }

  /** The end of a slot: reserve extra turns, send data or keep silent, spending one extra turn. */
  function SendStep(s: ReserveState, queueLength: int): (ReserveState, Outcome)
  {
    if queueLength > PACKET_LIMIT && s.id == s.senderId && s.sequentTurns == 0 && |s.ids| != 1 then
      var r := Reservation(s.id);
      if r.None? then (s, NumberFormatError)
      else (s, Transmit(TransmissionInfo(NoData, r.value)))
    else
      var info := if queueLength != 0 && s.id == s.senderId then TransmissionInfo(Data, s.id) else TransmissionInfo(Silent, 0);
      (s.(sequentTurns := if s.sequentTurns != 0 then s.sequentTurns - 1 else s.sequentTurns), Transmit(info))
  }

  /** Parsing a string of digits never gives a negative number. */
  lemma ParseDigitsNonNegative(s: string)
    requires |s| <= 1 || AllDigits(s)
    ensures ParseInt(s).Some? ==> ParseInt(s).value >= 0
  {
  }

  /** Parsing the first character of a digit string gives that digit's value. */
  lemma FirstDigit(d: string)
    requires |d| >= 1 && AllDigits(d)
    ensures ParseInt(d[..1]) == Some(DigitValue(d[0]))
  {
    var c := d[..1];
    assert c == [d[0]] && AllDigits(c);
    assert c[..0] == [];
    assert ValueOf(c) == 10 * ValueOf([]) + DigitValue(d[0]);
  }

  /** Every slot keeps the invariant. */
  lemma StepKeepsInv(s: ReserveState, slot: Slot)
    requires ReserveInv(s)
    ensures ReserveInv(ReserveStep(s, slot).0)
  {
    var text := IntToString(slot.controlInfo);
    if |text| >= 2 {
      ParseDigitsNonNegative(text[1..]);
    }
    ParseDigitsNonNegative(text[..1]);
  }

  /**
   * The ids: a successful slot adds its control value exactly when that is
   * one decimal character, that is a value 0..9; the node adopts an id only
   * from such a value, and once it has one it keeps it.
   */
  lemma StepIds(s: ReserveState, slot: Slot)
    requires ReserveInv(s)
    ensures var (t, _) := ReserveStep(s, slot);
      var oneDigit := slot.previousState == Succes && 0 <= slot.controlInfo <= 9;
      && t.ids == s.ids + (if oneDigit then {slot.controlInfo} else {})
      && (t.id != s.id ==> s.id == 0 && oneDigit && t.id == slot.controlInfo == s.candidateId)
      && (s.id != 0 ==> t.id == s.id)
  {
    var h := Hear(s, slot);
    if h.id != 0 {
      TurnKeepsIds(h.(candidateId := 0), slot.previousState, slot.controlInfo, slot.queueLength);
    }
  }

  /** After the id check, a slot changes neither the known ids nor the node's id. */
  lemma TurnKeepsIds(s: ReserveState, previousState: MediumState, controlInfo: int, queueLength: int)
    requires |s.ids| >= 1
    ensures var t := TurnStep(s, previousState, controlInfo, queueLength).0;
      t.ids == s.ids && t.id == s.id
  {
  }

  /** A node without an id never sends data: it announces the next free id or keeps silent. */
  lemma StepUnassigned(s: ReserveState, slot: Slot)
    requires ReserveInv(s)
    ensures var (t, out) := ReserveStep(s, slot);
      t.id == 0 ==>
        && (slot.coin ==> out == Transmit(TransmissionInfo(NoData, |t.ids| + 1)) && t.candidateId == |t.ids| + 1)
        && (!slot.coin ==> out == Transmit(TransmissionInfo(Silent, 0)) && t.candidateId == 0)
  {
  }

  /**
   * A successful control value of two or more characters is read as a
   * reservation: the extra turns become the number its characters after the
   * first spell (the digits of a positive value after its first one, the
   * magnitude of a negative one); the slot then spends one of them unless
   * none is left, and while any are left the sender stays.
   */
  lemma StepReservationHeard(s: ReserveState, slot: Slot)
    requires ReserveInv(s) && s.id != 0
    requires slot.previousState == Succes && |IntToString(slot.controlInfo)| >= 2
    requires ParseInt(IntToString(slot.controlInfo)[1..]).Some?
    ensures var (t, out) := ReserveStep(s, slot);
      var turns := ParseInt(IntToString(slot.controlInfo)[1..]).value;
      && out.Transmit?
      && (slot.controlInfo < 0 ==> turns == -slot.controlInfo)
      && (slot.controlInfo >= 0 ==> turns == ValueOf(Digits(slot.controlInfo)[1..]))
      && (turns != 0 ==> t.sequentTurns == turns - 1 && t.senderId == s.senderId)
      && (turns == 0 ==> t.sequentTurns == 0)
  {
    var ci := slot.controlInfo;
    var text := IntToString(ci);
    if ci < 0 {
      assert text[1..] == Digits(-ci);
      ValueOfDigits(-ci);
      assert ParseInt(text[1..]) == Some(-ci);
    } else {
      var d := Digits(ci);
      assert text == d;
      ValueOfDigits(ci);
      ValueOfDropFirst(d);
      assert AllDigits(d[1..]) && |d[1..]| >= 1;
      assert ParseInt(d[1..]) == Some(ValueOf(d[1..]));
      FirstDigit(d);
    }
    ReservationValue(s.id);
  }

  /**
   * The turn passes exactly when the extra turns read from the slot are 0:
   * the next sender follows the first digit of the control value, or the
   * current sender after an idle slot; otherwise the sender stays.
   */
  lemma StepRotation(s: ReserveState, slot: Slot)
    requires ReserveInv(s)
    ensures var (t, out) := ReserveStep(s, slot);
      var ci := slot.controlInfo;
      var turns := TurnsHeard(s, slot.previousState, ci);
      out.Transmit? && t.id != 0 ==>
        && turns.Some?
        && (turns == Some(0) ==>
              && ci >= 0
              && var lastId := if slot.previousState != Idle then DigitValue(IntToString(ci)[0]) else s.senderId;
                 t.senderId == lastId % |t.ids| + 1 && 1 <= t.senderId <= |t.ids|)
        && (turns != Some(0) ==> t.senderId == s.senderId)
  {
    var ci := slot.controlInfo;
    var text := IntToString(ci);
    var h := Hear(s, slot);
    if h.id != 0 && TurnsHeard(h, slot.previousState, ci) == Some(0) {
      if ci < 0 {
        assert text[..1] == "-";
        assert ParseInt(text[..1]).None?;
      } else {
        FirstDigit(Digits(ci));
      }
    }
  }

  /**
   * A reservation goes out exactly when the node has more than PACKET_LIMIT
   * packets queued, holds the turn, no extra turns were read and it is not
   * the only known node; it is the id followed by the digit 6.
   */
  lemma StepReserve(s: ReserveState, slot: Slot)
    requires ReserveInv(s)
    ensures var (t, out) := ReserveStep(s, slot);
      var turns := TurnsHeard(s, slot.previousState, slot.controlInfo);
      out.Transmit? && t.id != 0 ==>
        && (out.info.kind == NoData <==>
              slot.queueLength > PACKET_LIMIT && t.id == t.senderId && turns == Some(0) && |t.ids| != 1)
        && (out.info.kind == NoData ==>
              t.sequentTurns == 0 && out.info.controlInfo == 10 * t.id + RECOVERY_PACKET_NUMBER)
  {
    var h := Hear(s, slot);
    if h.id != 0 {
      var text := IntToString(slot.controlInfo);
      var turns := TurnsHeard(h, slot.previousState, slot.controlInfo);
      if turns.Some? {
        var first := if turns.value == 0 then ParseInt(text[..1]) else Some(0);
        if first.Some? {
          var lastId := if slot.previousState != Idle then first.value else h.senderId;
          var senderId := if turns.value == 0 then lastId % |h.ids| + 1 else h.senderId;
          SendReserve(h.(candidateId := 0, sequentTurns := turns.value, senderId := senderId), slot.queueLength);
        }
      }
    }
  }

  /**
   * The end of a slot sends a reservation exactly when the node has more than
   * PACKET_LIMIT packets queued, holds the turn, has no extra turns and is
   * not the only known node.
   */
  lemma SendReserve(s: ReserveState, queueLength: int)
    requires 1 <= s.id <= 9
    ensures var (t, out) := SendStep(s, queueLength);
      && out.Transmit?
      && (out.info.kind == NoData <==>
            queueLength > PACKET_LIMIT && s.id == s.senderId && s.sequentTurns == 0 && |s.ids| != 1)
      && (out.info.kind == NoData ==>
            t == s && out.info.controlInfo == 10 * s.id + RECOVERY_PACKET_NUMBER)
  {
    ReservationValue(s.id);
  }

  /** Data goes out only when the node has packets queued and holds the turn; it carries the id. */
  lemma StepData(s: ReserveState, slot: Slot)
    requires ReserveInv(s)
    ensures var (t, out) := ReserveStep(s, slot);
      out.Transmit? && out.info.kind == Data ==>
        slot.queueLength != 0 && t.id != 0 && t.id == t.senderId && out.info.controlInfo == t.id
  {
  }

  /** The extra turns never grow on their own: a slot that hears no reservation spends one, if any is left. */
  lemma StepTurns(s: ReserveState, slot: Slot)
    requires ReserveInv(s) && s.id != 0
    requires !(slot.previousState == Succes && !(0 <= slot.controlInfo <= 9))
    ensures var (t, out) := ReserveStep(s, slot);
      && t.sequentTurns >= 0
      && (s.sequentTurns != 0 ==> out.Transmit? && t.sequentTurns == s.sequentTurns - 1)
  {
  }

  /** The state after a sequence of slots, stopping at an exception. */
  function Run(s: ReserveState, slots: seq<Slot>): (t: ReserveState)
    requires ReserveInv(s)
    ensures ReserveInv(t)
    decreases |slots|
  {
    if slots == [] then s
    else
      StepKeepsInv(s, slots[0]);
      var (next, out) := ReserveStep(s, slots[0]);
      if out.NumberFormatError? then next else Run(next, slots[1..])
  }

  /** Over any sequence of slots, an id once held is kept and the known ids only grow. */
  lemma {:induction false} RunKeepsId(s: ReserveState, slots: seq<Slot>)
    requires ReserveInv(s)
    ensures s.id != 0 ==> Run(s, slots).id == s.id
    ensures s.ids <= Run(s, slots).ids
    decreases |slots|
  {
    if slots != [] {
      StepIds(s, slots[0]);
      StepKeepsInv(s, slots[0]);
      RunKeepsId(ReserveStep(s, slots[0]).0, slots[1..]);
    }
  }

  class ReserveToSendProtocol {
    var ids: set<int>
    /** Extra turns the current sender still holds. */
    var sequentTurns: int
    var candidateId: int
    var senderId: int
    var id: int

    function State(): ReserveState
      reads this
    {
      ReserveState(ids, sequentTurns, candidateId, senderId, id)
    }

    ghost predicate Valid()
      reads this
    {
      ReserveInv(State())
    }

    constructor ()
      ensures Valid() && State() == InitialState()
    {
      ids, sequentTurns, candidateId, senderId, id := {}, 0, 0, 1, 0;
    }

    /**
     * TimeslotAvailable, with the random draw given as the slot's coin and
     * RECOVERY_PERCENT at 0.0, so a reservation always asks for
     * RECOVERY_PACKET_NUMBER turns. A failed Integer.parseInt ends the call
     * with the fields as they stand at that point.
     */
    method TimeslotAvailable(previousState: MediumState, controlInfo: int, queueLength: int, coin: bool)
      returns (out: Outcome)
      requires Valid()
      modifies this
      ensures Valid()
      ensures (State(), out) == ReserveStep(old(State()), Slot(previousState, controlInfo, queueLength, coin))
    {
      StepKeepsInv(State(), Slot(previousState, controlInfo, queueLength, coin));
      if previousState == Succes {
        if |IntToString(controlInfo)| == 1 {
          ids := ids + {controlInfo};
          if candidateId != 0 && candidateId == controlInfo {
            id := candidateId;
          }
        }
      }
      candidateId := 0;
      if id == 0 {
        if coin {
          candidateId := |ids| + 1;
          return Transmit(TransmissionInfo(NoData, candidateId));
        } else {
          return Transmit(TransmissionInfo(Silent, 0));
        }
      }
      out := TakeTurn(previousState, controlInfo, queueLength);
    }

    /** The part of TimeslotAvailable after the id check. */
    method TakeTurn(previousState: MediumState, controlInfo: int, queueLength: int) returns (out: Outcome)
      requires |ids| >= 1
      modifies this
      ensures (State(), out) == TurnStep(old(State()), previousState, controlInfo, queueLength)
    {
      var text := IntToString(controlInfo);
      if previousState == Succes && |text| >= 2 {
        var turns := ParseInt(text[1..]);
        if turns.None? {
          return NumberFormatError;
        }
        sequentTurns := turns.value;
      }
      if sequentTurns == 0 {
        var first := ParseInt(text[..1]);
        if first.None? {
          return NumberFormatError;
        }
        var lastId := if previousState != Idle then first.value else senderId;
        senderId := lastId % |ids| + 1;
      }
      out := Send(queueLength);
    }

    /** The reservation and the data decision at the end of TimeslotAvailable. */
    method Send(queueLength: int) returns (out: Outcome)
      modifies this
      ensures (State(), out) == SendStep(old(State()), queueLength)
    {
      if queueLength > PACKET_LIMIT && id == senderId && sequentTurns == 0 && |ids| != 1 {
        var message := IntToString(id) + IntToString(RECOVERY_PACKET_NUMBER);
        var reservation := ParseInt(message);
        if reservation.None? {
          return NumberFormatError;
        }
        return Transmit(TransmissionInfo(NoData, reservation.value));
      }
      if sequentTurns != 0 {
        sequentTurns := sequentTurns - 1;
      }
      out := Transmit(if queueLength != 0 && id == senderId then TransmissionInfo(Data, id) else TransmissionInfo(Silent, 0));
    }
  }
}
