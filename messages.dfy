/**
 * The outbound command frame (RequestMessage), the inbound telemetry frame
 * (ResponseMessage), the stabilization bitfield, and the byte codec whose
 * bodies live in a header outside this model.
 */
module Messages {
  import opened Wrappers
  import opened Numeric

  /** The SHORE_STABILIZE_*_BIT flags of the stabilization bitfield. */
  datatype StabilizationBit = DepthBit | YawBit | LagBit | ImuBit

  /**
   * setStabilizationState: sets (enabled) or clears one flag of the bitfield
   * and leaves every other flag as it was. The bitfield is modelled as the set
   * of flags whose bit is 1.
   */
  function SetStabilizationState(flags: set<StabilizationBit>, bit: StabilizationBit, enabled: bool): (r: set<StabilizationBit>)
    ensures bit in r <==> enabled
    ensures forall b :: b != bit ==> (b in r <==> b in flags)
  {
    if enabled then flags + {bit} else flags - {bit}
  }

  /** Setting a flag twice to the same value is the same as setting it once. */
  lemma SetStabilizationStateIdempotent(flags: set<StabilizationBit>, bit: StabilizationBit, enabled: bool)
    ensures SetStabilizationState(SetStabilizationState(flags, bit, enabled), bit, enabled)
         == SetStabilizationState(flags, bit, enabled)
  {
  }

  /**
   * The fields of the outbound command frame that the bridge writes. Fields the
   * bridge never writes are constant and folded into the codec.
   */
  datatype RequestMessage = RequestMessage(
    march: int16,
    lag: int16,
    lagError: int16,
    depth: int16,
    yaw: int16,
    stabilization: set<StabilizationBit>,
    dev: seq<int>)

  /** The decoded inbound telemetry frame. */
  datatype ResponseMessage = ResponseMessage(depth: real, yaw: real)

  /**
   * The frame codec: RequestMessage::length, ResponseMessage::length,
   * RequestMessage::formVector and ResponseMessage::parseVector. A None from
   * parseVector stands for its `ok == false` result; nothing else is assumed
   * about parseVector.
   */
  datatype Codec = Codec(
    requestLength: nat,
    responseLength: nat,
    formVector: RequestMessage -> seq<uint8>,
    parseVector: seq<uint8> -> Option<ResponseMessage>)
  {
    /** formVector always yields at least RequestMessage::length bytes. */
    ghost predicate Valid() {
      forall m :: |formVector(m)| >= requestLength
    }
  }
}
