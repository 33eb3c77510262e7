/**
 * The newer bridge (communication/stingray_communication, a nodelet): one
 * horizontal-move service that carries march, lag and yaw, depth taken as
 * given, the current telemetry latched as setpoint when the stabilization
 * mode changes, telemetry republished as received.
 */
module HardwareBridgeNodelet {
  import opened Wrappers
  import opened Numeric
  import opened Messages
  import opened Aggregator

  /**
   * horizontalMoveCallback: the lag-stabilization rule is applied first and
   * unconditionally; then, while yaw stabilization is off, the call is rejected
   * with "Yaw stabilization is not enabled", keeping the march/lag change but
   * leaving yaw and readiness as they were; otherwise yaw takes the request cut
   * to int16 and the bridge becomes ready.
   */
  function HorizontalMove(s: State, march: real, lag: real, yaw: int): (r: Outcome)
    ensures r.response.success <==> s.yawStabilizationEnabled
    ensures !s.yawStabilizationEnabled ==>
      r.state == SetHorizontal(s, march, lag) && r.response.message == "Yaw stabilization is not enabled"
    ensures s.yawStabilizationEnabled ==>
      r.response == Accept && r.state.isReady
      && (r.state.request.yaw as int - yaw) % 0x1_0000 == 0
      && (-0x8000 <= yaw < 0x8000 ==> r.state.request.yaw as int == yaw)
      && r.state == SetHorizontal(s, march, lag).(request := r.state.request, isReady := true)
      && r.state.request == SetHorizontal(s, march, lag).request.(yaw := r.state.request.yaw)
  {
    var moved := SetHorizontal(s, march, lag);
    if !moved.yawStabilizationEnabled then
      Outcome(moved, Response(false, "Yaw stabilization is not enabled"))
    else
      Outcome(moved.(request := moved.request.(yaw := Wrap16(yaw)), isReady := true), Accept)
  }

  /**
   * depthCallback: rejected with "Depth stabilization is not enabled" and no
   * change while depth stabilization is off; otherwise only the depth field
   * changes, to the request cut to int16 (no scaling, no sign change), and the
   * bridge becomes ready.
   */
  function Depth(s: State, value: int): (r: Outcome)
    ensures r.response.success <==> s.depthStabilizationEnabled
    ensures !s.depthStabilizationEnabled ==>
      r.state == s && r.response.message == "Depth stabilization is not enabled"
    ensures s.depthStabilizationEnabled ==>
      r.response == Accept && r.state.isReady
      && (r.state.request.depth as int - value) % 0x1_0000 == 0
      && (-0x8000 <= value < 0x8000 ==> r.state.request.depth as int == value)
      && r.state == s.(request := s.request.(depth := r.state.request.depth), isReady := true)
  {
    if !s.depthStabilizationEnabled then
      Outcome(s, Response(false, "Depth stabilization is not enabled"))
    else
      Outcome(s.(request := s.request.(depth := Wrap16(value)), isReady := true), Accept)
  }

  /**
   * stabilizationCallback: the last telemetry yaw and depth become the frame's
   * yaw and depth setpoints, then the three modes are set; always accepted.
   */
  function Stabilization(s: State, depth: bool, yaw: bool, lag: bool): (r: Outcome)
    ensures r.response == Accept && r.state.isReady
    ensures r.state.request.yaw == Int16OfFloat(s.response.yaw)
    ensures r.state.request.depth == Int16OfFloat(s.response.depth)
    ensures r.state.(request := r.state.request.(yaw := s.request.yaw, depth := s.request.depth))
         == SetModes(s, depth, yaw, lag).state
  {
    var latched := s.(request := s.request.(yaw := Int16OfFloat(s.response.yaw), depth := Int16OfFloat(s.response.depth)));
    SetModes(latched, depth, yaw, lag)
  }

  /**
   * inputMessage_callback: the first ResponseMessage::length bytes are parsed;
   * a failed parse changes nothing, a successful one replaces the telemetry and
   * both readings (truncated, no unit conversion) and nothing else.
   */
  function Input(c: Codec, s: State, bytes: seq<uint8>): (r: State)
    requires |bytes| >= c.responseLength
    ensures c.parseVector(bytes[..c.responseLength]).None? ==> r == s
    ensures c.parseVector(bytes[..c.responseLength]).Some? ==>
      var m := c.parseVector(bytes[..c.responseLength]).value;
      r == s.(response := m, depthMessage := TruncToInt(m.depth), yawMessage := TruncToInt(m.yaw))
  {
    match c.parseVector(bytes[..c.responseLength])
    case None => s
    case Some(m) => s.(response := m, depthMessage := TruncToInt(m.depth), yawMessage := TruncToInt(m.yaw))
  }

  /** The service calls of this variant. */
  datatype Command =
    | SetHorizontalMove(march: real, lag: real, yaw: int)
    | SetDepth(value: int)
    | SetImuEnabled(enabled: bool)
    | SetStabilization(depthStabilization: bool, yawStabilization: bool, lagStabilization: bool)
    | SetDevice(device: nat, value: int)

  /** The events the bridge reacts to: a service call, a raw input frame, a timer tick. */
  datatype Event = Call(command: Command) | Receive(bytes: seq<uint8>) | TimerTick

  /** An event the source can handle: an in-range device, a full input frame. */
  predicate Admissible(c: Codec, devices: nat, e: Event) {
    match e
    case Call(cmd) => cmd.SetDevice? ==> cmd.device < devices
    case Receive(bytes) => |bytes| >= c.responseLength
    case TimerTick => true
  }

  ghost predicate AllAdmissible(c: Codec, devices: nat, evs: seq<Event>) {
    forall i :: 0 <= i < |evs| ==> Admissible(c, devices, evs[i])
  }

  /**
   * One service call. Every call keeps the number of device slots, and the
   * bridge is ready afterwards exactly when it was before or the call was
   * accepted.
   */
  function Dispatch(s: State, cmd: Command): (r: Outcome)
    requires cmd.SetDevice? ==> cmd.device < |s.request.dev|
    ensures |r.state.request.dev| == |s.request.dev|
    ensures r.state.isReady == (s.isReady || r.response.success)
    ensures r.state.output == s.output
  {
    match cmd
    case SetHorizontalMove(march, lag, yaw) => HorizontalMove(s, march, lag, yaw)
    case SetDepth(value) => Depth(s, value)
    case SetImuEnabled(enabled) => Imu(s, enabled)
    case SetStabilization(depth, yaw, lag) => Stabilization(s, depth, yaw, lag)
    case SetDevice(device, value) => DeviceAction(s, device, value)
  }

  function Step(c: Codec, s: State, e: Event): (r: State)
    requires c.Valid() && Admissible(c, |s.request.dev|, e)
    ensures |r.request.dev| == |s.request.dev|
    ensures r.isReady == (s.isReady || (e.Call? && Dispatch(s, e.command).response.success))
  {
    match e
    case Call(cmd) => Dispatch(s, cmd).state
    case Receive(bytes) => Input(c, s, bytes)
    case TimerTick => Timer(c, s).state
  }

  /** What an event publishes: only a timer tick publishes anything. */
  function Emitted(c: Codec, s: State, e: Event): Option<Publication>
    requires c.Valid()
  {
    if e.TimerTick? then Timer(c, s).published else None
  }

  /** The state after handling the events in order, one at a time. */
  function Run(c: Codec, s: State, evs: seq<Event>): (r: State)
    requires c.Valid() && AllAdmissible(c, |s.request.dev|, evs)
    ensures |r.request.dev| == |s.request.dev|
    decreases |evs|
  {
    if evs == [] then s
    else
      var prefix := evs[..|evs| - 1];
      Step(c, Run(c, s, prefix), evs[|evs| - 1])
  }

  /** What each event of the run published. */
  function Outputs(c: Codec, s: State, evs: seq<Event>): (r: seq<Option<Publication>>)
    requires c.Valid() && AllAdmissible(c, |s.request.dev|, evs)
    ensures |r| == |evs|
    decreases |evs|
  {
    if evs == [] then []
    else
      var prefix := evs[..|evs| - 1];
      Outputs(c, s, prefix) + [Emitted(c, Run(c, s, prefix), evs[|evs| - 1])]
  }

  lemma PrefixAdmissible(c: Codec, devices: nat, evs: seq<Event>, k: nat)
    requires k <= |evs| && AllAdmissible(c, devices, evs)
    ensures AllAdmissible(c, devices, evs[..k])
  {
  }

  /** Whether the i-th event of the run is a service call that was accepted. */
  ghost predicate AcceptedAt(c: Codec, s: State, evs: seq<Event>, i: nat)
    requires c.Valid() && AllAdmissible(c, |s.request.dev|, evs) && i < |evs|
  {
    PrefixAdmissible(c, |s.request.dev|, evs, i);
    evs[i].Call? && Dispatch(Run(c, s, evs[..i]), evs[i].command).response.success
  }

  /** Run on a prefix one event longer is one more step. */
  lemma RunSnoc(c: Codec, s: State, evs: seq<Event>, k: nat)
    requires c.Valid() && AllAdmissible(c, |s.request.dev|, evs) && k < |evs|
    ensures Run(c, s, evs[..k + 1]) == Step(c, Run(c, s, evs[..k]), evs[k])
  {
    assert evs[..k + 1][..k] == evs[..k];
  }

  /** Whether a call was accepted does not depend on the events after it. */
  lemma AcceptedAtPrefix(c: Codec, s: State, evs: seq<Event>, k: nat, j: nat)
    requires c.Valid() && AllAdmissible(c, |s.request.dev|, evs) && j < k <= |evs|
    ensures AcceptedAt(c, s, evs[..k], j) == AcceptedAt(c, s, evs, j)
  {
    assert evs[..k][..j] == evs[..j];
  }

  /** The last event of a run leaves the bridge ready exactly when it was ready or that event is an accepted call. */
  lemma ReadyAfterLast(c: Codec, s: State, evs: seq<Event>)
    requires c.Valid() && AllAdmissible(c, |s.request.dev|, evs) && evs != []
    ensures Run(c, s, evs).isReady == (Run(c, s, evs[..|evs| - 1]).isReady || AcceptedAt(c, s, evs, |evs| - 1))
  {
  }

  /** Readiness is never withdrawn: once ready after i events, ready after every later j. */
  lemma {:induction false} ReadyIsMonotone(c: Codec, s: State, evs: seq<Event>, i: nat, j: nat)
    requires c.Valid() && AllAdmissible(c, |s.request.dev|, evs) && i <= j <= |evs|
    requires Run(c, s, evs[..i]).isReady
    ensures Run(c, s, evs[..j]).isReady
    decreases j
  {
    if j > i {
      ReadyIsMonotone(c, s, evs, i, j - 1);
      RunSnoc(c, s, evs, j - 1);
    }
  }

  /** An accepted call leaves the bridge ready. */
  lemma AcceptedMakesReady(c: Codec, s: State, evs: seq<Event>, i: nat)
    requires c.Valid() && AllAdmissible(c, |s.request.dev|, evs) && i < |evs|
    requires AcceptedAt(c, s, evs, i)
    ensures Run(c, s, evs[..i + 1]).isReady
  {
    RunSnoc(c, s, evs, i);
  }

  /** A bridge that was not ready and is ready after a run owes it to an accepted call of the run. */
  lemma {:induction false} ReadyHasCause(c: Codec, s: State, evs: seq<Event>)
    requires c.Valid() && AllAdmissible(c, |s.request.dev|, evs)
    requires !s.isReady && Run(c, s, evs).isReady
    ensures exists i :: 0 <= i < |evs| && AcceptedAt(c, s, evs, i)
    decreases |evs|
  {
    var n := |evs| - 1;
    ReadyAfterLast(c, s, evs);
    if !AcceptedAt(c, s, evs, n) {
      PrefixAdmissible(c, |s.request.dev|, evs, n);
      ReadyHasCause(c, s, evs[..n]);
      var i :| 0 <= i < n && AcceptedAt(c, s, evs[..n], i);
      AcceptedAtPrefix(c, s, evs, n, i);
    }
  }

  /**
   * After a run the bridge is ready exactly when it was ready at the start or
   * some service call of the run was accepted.
   */
  lemma ReadyIffAccepted(c: Codec, s: State, evs: seq<Event>)
    requires c.Valid() && AllAdmissible(c, |s.request.dev|, evs)
    ensures Run(c, s, evs).isReady <==> s.isReady || exists i :: 0 <= i < |evs| && AcceptedAt(c, s, evs, i)
  {
    if s.isReady {
      ReadyFromStart(c, s, evs);
    } else if Run(c, s, evs).isReady {
      ReadyHasCause(c, s, evs);
    }
    if i :| 0 <= i < |evs| && AcceptedAt(c, s, evs, i) {
      ReadyFromAccepted(c, s, evs, i);
    }
  }

  /** A bridge that is ready stays ready through any run. */
  lemma {:induction false} ReadyFromStart(c: Codec, s: State, evs: seq<Event>)
    requires c.Valid() && AllAdmissible(c, |s.request.dev|, evs)
    requires s.isReady
    ensures Run(c, s, evs).isReady
  {
    assert evs[..|evs|] == evs;
    assert evs[..0] == [];
    ReadyIsMonotone(c, s, evs, 0, |evs|);
  }

  /** An accepted call anywhere in a run leaves the bridge ready at its end. */
  lemma ReadyFromAccepted(c: Codec, s: State, evs: seq<Event>, i: nat)
    requires c.Valid() && AllAdmissible(c, |s.request.dev|, evs) && i < |evs|
    requires AcceptedAt(c, s, evs, i)
    ensures Run(c, s, evs).isReady
  {
    assert evs[..|evs|] == evs;
    AcceptedMakesReady(c, s, evs, i);
    ReadyIsMonotone(c, s, evs, i + 1, |evs|);
  }

  /** The i-th output is what the i-th event emits from the state the run has reached. */
  lemma {:induction false} OutputAt(c: Codec, s: State, evs: seq<Event>, i: nat)
    requires c.Valid() && AllAdmissible(c, |s.request.dev|, evs) && i < |evs|
    ensures Outputs(c, s, evs)[i] == Emitted(c, Run(c, s, evs[..i]), evs[i])
    decreases |evs|
  {
    var n := |evs| - 1;
    if i < n {
      PrefixAdmissible(c, |s.request.dev|, evs, n);
      OutputAt(c, s, evs[..n], i);
      assert evs[..n][..i] == evs[..i];
    }
  }

  /**
   * The i-th event publishes exactly when it is a timer tick and the bridge is
   * ready; what it publishes is the first RequestMessage::length bytes of the
   * encoded frame as it stands at that moment.
   */
  lemma TransmitsOnlyWhenReady(c: Codec, s: State, evs: seq<Event>, i: nat)
    requires c.Valid() && AllAdmissible(c, |s.request.dev|, evs) && i < |evs|
    ensures Outputs(c, s, evs)[i].Some? <==> evs[i].TimerTick? && Run(c, s, evs[..i]).isReady
    ensures Outputs(c, s, evs)[i].Some? ==>
      Outputs(c, s, evs)[i].value.frame == c.formVector(Run(c, s, evs[..i]).request)[..c.requestLength]
  {
    OutputAt(c, s, evs, i);
  }

  /** From a bridge that is not ready, nothing is published before the first accepted call. */
  lemma SilentUntilAccepted(c: Codec, s: State, evs: seq<Event>, i: nat)
    requires c.Valid() && AllAdmissible(c, |s.request.dev|, evs) && i < |evs|
    requires !s.isReady
    requires forall j :: 0 <= j < i ==> !AcceptedAt(c, s, evs, j)
    ensures Outputs(c, s, evs)[i] == None
  {
    TransmitsOnlyWhenReady(c, s, evs, i);
    PrefixAdmissible(c, |s.request.dev|, evs, i);
    ReadyIffAccepted(c, s, evs[..i]);
    forall j | 0 <= j < i ensures AcceptedAt(c, s, evs[..i], j) == AcceptedAt(c, s, evs, j) {
      AcceptedAtPrefix(c, s, evs, i, j);
    }
  }

  /** A horizontal-move call and an IMU call give the same state in either order. */
  lemma HorizontalMoveImuCommute(s: State, march: real, lag: real, yaw: int, enabled: bool)
    ensures Imu(HorizontalMove(s, march, lag, yaw).state, enabled).state
         == HorizontalMove(Imu(s, enabled).state, march, lag, yaw).state
  {
  }

  /**
   * Switching depth stabilization on latches the current telemetry depth as
   * setpoint; a depth call that follows replaces it with the requested value.
   */
  lemma DepthOverridesLatchedSetpoint(s: State, yaw: bool, lag: bool, value: int)
    requires -32768.0 < s.response.depth < 32768.0
    requires -0x8000 <= value < 0x8000
    ensures Stabilization(s, true, yaw, lag).state.request.depth as int == TruncToInt(s.response.depth)
    ensures Depth(Stabilization(s, true, yaw, lag).state, value).response.success
    ensures Depth(Stabilization(s, true, yaw, lag).state, value).state.request.depth as int == value
  {
  }

  /**
   * The newer bridge object, with the same fields as the older one. Each
   * callback is tied to the function above that specifies it.
   */
  class Bridge {
    const codec: Codec
    var requestMessage: RequestMessage
    var responseMessage: ResponseMessage
    var depthStabilizationEnabled: bool
    var yawStabilizationEnabled: bool
    var lagStabilizationEnabled: bool
    var isReady: bool
    var depthMessage: int
    var yawMessage: int
    var outputData: seq<uint8>

    /** The object's fields as one value. */
    function Model(): State
      reads this
    {
      State(requestMessage, responseMessage, depthStabilizationEnabled, yawStabilizationEnabled,
            lagStabilizationEnabled, isReady, depthMessage, yawMessage, outputData)
    }

    /** A bridge that has received no command yet: not ready, every stabilization off. */
    constructor (codec: Codec, request: RequestMessage, response: ResponseMessage)
      ensures this.codec == codec
      ensures Model() == State(request, response, false, false, false, false, 0, 0, [])
    {
      this.codec := codec;
      requestMessage := request;
      responseMessage := response;
      depthStabilizationEnabled := false;
      yawStabilizationEnabled := false;
      lagStabilizationEnabled := false;
      isReady := false;
      depthMessage := 0;
      yawMessage := 0;
      outputData := [];
    }

    method InputMessageCallback(msg: seq<uint8>)
      requires |msg| >= codec.responseLength
      modifies this
      ensures Model() == Input(codec, old(Model()), msg)
    {
      var receivedVector := CopyPrefix(msg, codec.responseLength);
      var parsed := codec.parseVector(receivedVector);
      if parsed.Some? {
        responseMessage := parsed.value;
        depthMessage := TruncToInt(responseMessage.depth);
        yawMessage := TruncToInt(responseMessage.yaw);
      }
    }

    method HorizontalMoveCallback(march: real, lag: real, yaw: int) returns (response: Response)
      modifies this
      ensures Model() == HorizontalMove(old(Model()), march, lag, yaw).state
      ensures response == HorizontalMove(old(Model()), march, lag, yaw).response
    {
      if lagStabilizationEnabled {
        requestMessage := requestMessage.(march := 0);
        requestMessage := requestMessage.(lag := 0);
        requestMessage := requestMessage.(lagError := Int16OfFloat(lag));
      } else {
        requestMessage := requestMessage.(march := Int16OfFloat(march));
        requestMessage := requestMessage.(lag := Int16OfFloat(lag));
      }
      if !yawStabilizationEnabled {
        response := Response(false, "Yaw stabilization is not enabled");
        return;
      }
      requestMessage := requestMessage.(yaw := Wrap16(yaw));
      isReady := true;
      response := Accept;
    }

    method DepthCallback(value: int) returns (response: Response)
      modifies this
      ensures Model() == Depth(old(Model()), value).state
      ensures response == Depth(old(Model()), value).response
    {
      if !depthStabilizationEnabled {
        response := Response(false, "Depth stabilization is not enabled");
        return;
      }
      requestMessage := requestMessage.(depth := Wrap16(value));
      isReady := true;
      response := Accept;
    }

    method ImuCallback(enabled: bool) returns (response: Response)
      modifies this
      ensures Model() == Imu(old(Model()), enabled).state
      ensures response == Imu(old(Model()), enabled).response
    {
      requestMessage := requestMessage.(stabilization := SetStabilizationState(requestMessage.stabilization, ImuBit, enabled));
      isReady := true;
      response := Accept;
    }

    method StabilizationCallback(depthStabilization: bool, yawStabilization: bool, lagStabilization: bool)
      returns (response: Response)
      modifies this
      ensures Model() == Stabilization(old(Model()), depthStabilization, yawStabilization, lagStabilization).state
      ensures response == Stabilization(old(Model()), depthStabilization, yawStabilization, lagStabilization).response
    {
      requestMessage := requestMessage.(yaw := Int16OfFloat(responseMessage.yaw));
      requestMessage := requestMessage.(depth := Int16OfFloat(responseMessage.depth));
      requestMessage := requestMessage.(stabilization := SetStabilizationState(requestMessage.stabilization, DepthBit, depthStabilization));
      requestMessage := requestMessage.(stabilization := SetStabilizationState(requestMessage.stabilization, YawBit, yawStabilization));
      requestMessage := requestMessage.(stabilization := SetStabilizationState(requestMessage.stabilization, LagBit, lagStabilization));
      depthStabilizationEnabled := depthStabilization;
      yawStabilizationEnabled := yawStabilization;
      lagStabilizationEnabled := lagStabilization;
      isReady := true;
      response := Accept;
    }

    method DeviceActionCallback(device: nat, value: int) returns (response: Response)
      requires device < |requestMessage.dev|
      modifies this
      ensures Model() == DeviceAction(old(Model()), device, value).state
      ensures response == DeviceAction(old(Model()), device, value).response
    {
      requestMessage := requestMessage.(dev := requestMessage.dev[device := value]);
      isReady := true;
      response := Accept;
    }

    method TimerCallback() returns (published: Option<Publication>)
      requires codec.Valid()
      modifies this`outputData
      ensures Model() == Timer(codec, old(Model())).state
      ensures published == Timer(codec, old(Model())).published
    {
      if isReady {
        var outputVector := codec.formVector(requestMessage);
        outputData := CopyPrefix(outputVector, codec.requestLength);
        published := Some(Publication(outputData, depthMessage, yawMessage));
      } else {
        published := None;
      }
    }
  }
}
