/**
 * The slot interface both medium-access protocols implement: each time slot
 * the node learns what happened on the medium in the previous slot and the
 * control value sent with it, and answers what it transmits now.
 */
module MacFramework {

  /** What the medium did in the previous slot. */
  datatype MediumState = Idle | Succes | Collision

  datatype TransmissionType = Silent | Data | NoData

  /** The node's answer: what it transmits, with a control value. */
  datatype TransmissionInfo = TransmissionInfo(kind: TransmissionType, controlInfo: int)

  /**
   * The inputs of one slot. The coin is the outcome of the protocol's
   * random draw (Math.random() below its threshold).
   */
  datatype Slot = Slot(previousState: MediumState, controlInfo: int, queueLength: int, coin: bool)
}
