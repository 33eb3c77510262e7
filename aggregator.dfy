/**
 * The bridge state shared by both variants, and the parts of the command
 * aggregator, the timer and the frame copy that the two variants have in
 * common.
 */
module Aggregator {
  import opened Wrappers
  import opened Numeric
  import opened Messages

  /** A service reply: the success flag and, on rejection, the reason. */
  datatype Response = Response(success: bool, message: string)

  /** The reply of an accepted call; its message is left empty. */
  const Accept := Response(true, "")

  /**
   * Every field a callback reads or writes: the outbound frame, the last
   * decoded telemetry, the three stabilization switches, the readiness flag,
   * the two republished readings and the outbound byte buffer.
   */
  datatype State = State(
    request: RequestMessage,
    response: ResponseMessage,
    depthStabilizationEnabled: bool,
    yawStabilizationEnabled: bool,
    lagStabilizationEnabled: bool,
    isReady: bool,
    depthMessage: int,
    yawMessage: int,
    output: seq<uint8>)

  /** A service callback's new state and reply. */
  datatype Outcome = Outcome(state: State, response: Response)

  /** What one timer tick publishes: the frame bytes and the two readings. */
  datatype Publication = Publication(frame: seq<uint8>, depth: int, yaw: int)

  /** A timer tick's new state and what it publishes, if anything. */
  datatype TimerResult = TimerResult(state: State, published: Option<Publication>)

  /**
   * The march/lag update both variants share: with lag stabilization on, march
   * and lag are zeroed and the requested lag becomes lag_error; otherwise march
   * and lag come from the request and lag_error keeps its value. Nothing else
   * changes.
   */
  function SetHorizontal(s: State, march: real, lag: real): (r: State)
    ensures s.lagStabilizationEnabled ==>
      r.request.march == 0 && r.request.lag == 0 && r.request.lagError == Int16OfFloat(lag)
    ensures !s.lagStabilizationEnabled ==>
      r.request.march == Int16OfFloat(march) && r.request.lag == Int16OfFloat(lag)
      && r.request.lagError == s.request.lagError
    ensures r == s.(request := s.request.(march := r.request.march, lag := r.request.lag, lagError := r.request.lagError))
  {
    if s.lagStabilizationEnabled then
      s.(request := s.request.(march := 0, lag := 0, lagError := Int16OfFloat(lag)))
    else
      s.(request := s.request.(march := Int16OfFloat(march), lag := Int16OfFloat(lag)))
  }

  /**
   * imuCallback: sets or clears the IMU flag and nothing else of the frame;
   * always accepted, so the bridge becomes ready.
   */
  function Imu(s: State, enabled: bool): (r: Outcome)
    ensures r.response == Accept && r.state.isReady
    ensures ImuBit in r.state.request.stabilization <==> enabled
    ensures forall b :: b != ImuBit ==> (b in r.state.request.stabilization <==> b in s.request.stabilization)
    ensures r.state == s.(request := s.request.(stabilization := r.state.request.stabilization), isReady := true)
  {
    var flags := SetStabilizationState(s.request.stabilization, ImuBit, enabled);
    Outcome(s.(request := s.request.(stabilization := flags), isReady := true), Accept)
  }

  /**
   * The mode switch both variants end their stabilization callback with: the
   * depth, yaw and lag flags and the three switches take the requested values,
   * the IMU flag is kept; always accepted.
   */
  function SetModes(s: State, depth: bool, yaw: bool, lag: bool): (r: Outcome)
    ensures r.response == Accept && r.state.isReady
    ensures r.state.depthStabilizationEnabled == depth
    ensures r.state.yawStabilizationEnabled == yaw
    ensures r.state.lagStabilizationEnabled == lag
    ensures DepthBit in r.state.request.stabilization <==> depth
    ensures YawBit in r.state.request.stabilization <==> yaw
    ensures LagBit in r.state.request.stabilization <==> lag
    ensures ImuBit in r.state.request.stabilization <==> ImuBit in s.request.stabilization
    ensures r.state == s.(request := s.request.(stabilization := r.state.request.stabilization),
                          depthStabilizationEnabled := depth, yawStabilizationEnabled := yaw,
                          lagStabilizationEnabled := lag, isReady := true)
  {
    var f0 := SetStabilizationState(s.request.stabilization, DepthBit, depth);
    var f1 := SetStabilizationState(f0, YawBit, yaw);
    var f2 := SetStabilizationState(f1, LagBit, lag);
    Outcome(s.(request := s.request.(stabilization := f2),
               depthStabilizationEnabled := depth, yawStabilizationEnabled := yaw,
               lagStabilizationEnabled := lag, isReady := true), Accept)
  }

  /**
   * deviceActionCallback: writes one slot of dev[] and nothing else of the
   * frame; always accepted. The source does no bounds check, so the index must
   * be in range.
   */
  function DeviceAction(s: State, device: nat, value: int): (r: Outcome)
    requires device < |s.request.dev|
    ensures r.response == Accept && r.state.isReady
    ensures |r.state.request.dev| == |s.request.dev| && r.state.request.dev[device] == value
    ensures forall i :: 0 <= i < |s.request.dev| && i != device ==> r.state.request.dev[i] == s.request.dev[i]
    ensures r.state == s.(request := s.request.(dev := r.state.request.dev), isReady := true)
  {
    Outcome(s.(request := s.request.(dev := s.request.dev[device := value]), isReady := true), Accept)
  }

  /**
   * timerCallback: while not ready nothing is published and nothing changes;
   * once ready the output buffer holds exactly the first RequestMessage::length
   * bytes of the encoded frame, and those bytes are published with the last
   * depth and yaw readings.
   */
  function Timer(c: Codec, s: State): (r: TimerResult)
    requires c.Valid()
    ensures r.published.Some? <==> s.isReady
    ensures !s.isReady ==> r.state == s
    ensures s.isReady ==>
      var p := r.published.value;
      |p.frame| == c.requestLength && p.frame == c.formVector(s.request)[..c.requestLength]
      && p.depth == s.depthMessage && p.yaw == s.yawMessage
      && r.state == s.(output := p.frame)
  {
    if s.isReady then
      var frame := c.formVector(s.request)[..c.requestLength];
      TimerResult(s.(output := frame), Some(Publication(frame, s.depthMessage, s.yawMessage)))
    else
      TimerResult(s, None)
  }

  /** The byte-by-byte copy loop of both the input and the timer callback. */
  method CopyPrefix(src: seq<uint8>, n: nat) returns (dst: seq<uint8>)
    requires n <= |src|
    ensures dst == src[..n]
  {
    dst := [];
    for i := 0 to n
      invariant dst == src[..i]
    {
      dst := dst + [src[i]];
    }
  }
}
