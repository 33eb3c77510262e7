# Stingray hardware bridge: command aggregator and readiness gate

This project models the core of the Stingray underwater vehicle's hardware
bridge. The bridge collects commands from several ROS services into one
outbound command frame (`RequestMessage`). A timer sends that frame to the
motion controller, but only once the bridge is *ready*. The bridge also decodes
the controller's telemetry frame (`ResponseMessage`) and republishes the depth
and yaw readings.

The repository has two near-duplicate variants, and each is modelled as its own
class with its own contracts:

- `HardwareBridge` (`src/control/stingray_communication/src/hardware_bridge.cpp`)
  has separate lag-and-march, depth and yaw services. It sends the depth
  setpoint as `-(int16)(value*100)`. It republishes telemetry in centimetres,
  with the depth as an absolute value.
- `HardwareBridgeNodelet` (`src/communication/stingray_communication/src/hardware_bridge_nodelet.cpp`)
  has one horizontal-move service that also carries the yaw. It sends the depth
  as `(int16)value`. When the stabilization mode changes, it latches the current
  telemetry yaw and depth into the frame. It republishes telemetry unscaled.

Module layout:

- `Numeric` holds the `uint8` and `int16` types and the C++ conversions: an
  int16 cast wraps modulo 2^16, and a float-to-int conversion truncates toward
  zero.
- `Messages` holds the frame fields the bridge writes, the stabilization
  bitfield with `SetStabilizationState`, and the codec.
- `Aggregator` holds the shared state value and the callbacks that are the same
  in both variants: IMU, device action, the lag-stabilization rule of the
  horizontal update, the mode switch, the timer, and the byte-copy loop.
- `HardwareBridge` and `HardwareBridgeNodelet` each hold that variant's
  callbacks as pure functions, a trace semantics (`Run`, `Outputs`) with the
  readiness and gating lemmas, and a class `Bridge`. The class has the C++
  object's fields, and each of its callback methods is proved equal to the
  function that specifies it (`Model() == F(old(Model()), …)`).

Modelling conventions:

- The codec is a parameter of the bridge (`Messages.Codec`). It consists of
  `RequestMessage::length`, `ResponseMessage::length`, `formVector` and
  `parseVector`. The one fact assumed about it is that `formVector` yields at
  least `RequestMessage::length` bytes (`Codec.Valid`). `parseVector` is
  unconstrained: its `None` result stands for the source's `ok == false`, and
  `Some(m)` for `ok == true` with the decoded telemetry `m`.
- The bitfield is modelled as the set of flags whose bit is 1, because the bit
  positions are defined in a header that is not part of this model.
- Floating-point values are modelled as reals.
- ROS callbacks are modelled as sequential method calls.
- The trace semantics (`Event`, `Step`, `Run`, `Outputs`) and the readiness
  and gating lemmas are written once per variant. They are built on each
  variant's own `Dispatch` and `Input`, which differ, just as the two C++ files
  repeat the same structure around different callbacks.

Facts about the code that the model reproduces:

- A rejected horizontal-move call in the nodelet still applies the lag rule to
  march, lag and lag_error, because the callback writes them before it checks yaw
  stabilization (hardware_bridge_nodelet.cpp:69-88).
- `deviceActionCallback` does no bounds check, so an in-range index is a
  precondition (hardware_bridge.cpp:146, hardware_bridge_nodelet.cpp:154).
- Only the nodelet latches the telemetry yaw and depth into the frame on a
  stabilization-mode change (hardware_bridge_nodelet.cpp:130-133). The older
  variant leaves the frame's depth and yaw alone.

## Model

| member | source | states |
|---|---|---|
| Numeric.Wrap16 | src/communication/stingray_communication/src/hardware_bridge_nodelet.cpp:107 | the int16 cast yields the value congruent to the input modulo 2^16, and in-range values pass through unchanged |
| Numeric.Wrap16Unique | src/communication/stingray_communication/src/hardware_bridge_nodelet.cpp:107 | no other int16 value is congruent to the input, so those two facts fix the cast's result |
| Numeric.TruncToInt | src/communication/stingray_communication/src/hardware_bridge_nodelet.cpp:54-57 | the float-to-int conversion truncates toward zero: the result is within 1 of the input, on the zero side |
| Numeric.Int16OfFloat | src/control/stingray_communication/src/hardware_bridge.cpp:72-75 | `static_cast<int16_t>` of a float truncates, and when the truncated value is in the int16 range the result is exactly that value |
| Messages.SetStabilizationState | src/control/stingray_communication/src/hardware_bridge.cpp:129-133 | the named flag afterwards equals the requested value, and every other flag is unchanged |
| Messages.SetStabilizationStateIdempotent | src/control/stingray_communication/src/hardware_bridge.cpp:129-133 | setting a flag twice to the same value equals setting it once |
| Aggregator.SetHorizontal | src/control/stingray_communication/src/hardware_bridge.cpp:69-76 | with lag stabilization on, march and lag are 0 and lag_error is the requested lag; otherwise march and lag are the request and lag_error is kept; nothing else changes |
| Aggregator.Imu | src/control/stingray_communication/src/hardware_bridge.cpp:115-124 | always accepted and sets ready; the IMU bit equals the request; the other bits and every other field are unchanged |
| Aggregator.SetModes | src/control/stingray_communication/src/hardware_bridge.cpp:128-140 | always accepted and sets ready; the three switches and the depth/yaw/lag bits equal the request; the IMU bit and all other fields are unchanged |
| Aggregator.DeviceAction | src/control/stingray_communication/src/hardware_bridge.cpp:143-151 | requires an in-range index (the source does no bounds check); `dev[device]` becomes the value, every other slot and field is unchanged, the call is accepted and sets ready |
| Aggregator.Timer | src/control/stingray_communication/src/hardware_bridge.cpp:156-173 | publishes exactly when ready; when not ready nothing changes; when ready the buffer and the published frame are the first `RequestMessage::length` bytes of `formVector`, published with the last depth and yaw readings |
| Aggregator.CopyPrefix | src/control/stingray_communication/src/hardware_bridge.cpp:20-23 | the push_back loop yields exactly the first n bytes of its source |
| HardwareBridge.LagAndMarch | src/control/stingray_communication/src/hardware_bridge.cpp:66-81 | always accepted and sets ready; apart from readiness the change is exactly the lag-stabilization rule |
| HardwareBridge.DepthSetpoint | src/control/stingray_communication/src/hardware_bridge.cpp:91 | `-(int16)(value*100)` is congruent to -100·value modulo 2^16, and equals -100·value whenever -327 ≤ value ≤ 327 |
| HardwareBridge.Depth | src/control/stingray_communication/src/hardware_bridge.cpp:83-97 | accepted iff depth stabilization is on; a rejection carries "Depth stabilization is not enabled" and changes nothing; an acceptance changes only depth (to the setpoint) and readiness |
| HardwareBridge.Yaw | src/control/stingray_communication/src/hardware_bridge.cpp:99-113 | accepted iff yaw stabilization is on; a rejection carries "Yaw stabilization is not enabled" and changes nothing; an acceptance changes only yaw (the request cut to int16) and readiness |
| HardwareBridge.Stabilization | src/control/stingray_communication/src/hardware_bridge.cpp:126-141 | always accepted and sets ready; the three switches and the depth/yaw/lag bits equal the request and the IMU bit is kept; nothing else of the frame changes, depth and yaw included, and the telemetry, the two readings and the output buffer are left as they were |
| HardwareBridge.DepthCentimetres | src/control/stingray_communication/src/hardware_bridge.cpp:27 | the republished depth is the absolute depth ×100 rounded down to a whole number |
| HardwareBridge.YawCentidegrees | src/control/stingray_communication/src/hardware_bridge.cpp:29 | the republished yaw is the yaw ×100 truncated toward zero |
| HardwareBridge.Input | src/control/stingray_communication/src/hardware_bridge.cpp:19-33 | only the first `ResponseMessage::length` bytes are parsed; a failed parse changes nothing; a successful one replaces the telemetry and both readings and nothing else |
| HardwareBridge.Dispatch | src/control/stingray_communication/src/hardware_bridge.cpp:66-151 | every service call keeps the device-slot count and the output buffer, and leaves the bridge ready iff it was ready or the call was accepted |
| HardwareBridge.Step | src/control/stingray_communication/src/hardware_bridge.cpp:19-173 | an event makes the bridge ready only when it is an accepted call |
| HardwareBridge.Run | src/control/stingray_communication/src/hardware_bridge.cpp:19-173 | any sequence of events keeps the number of device slots |
| HardwareBridge.Outputs | src/control/stingray_communication/src/hardware_bridge.cpp:156-173 | a run yields one output entry per event |
| HardwareBridge.ReadyAfterLast | src/control/stingray_communication/src/hardware_bridge.cpp:78-80 | the last event leaves the bridge ready iff it was ready before or that event is an accepted call |
| HardwareBridge.ReadyIsMonotone | src/control/stingray_communication/src/hardware_bridge.cpp:78-80 | `isReady` is never withdrawn: ready after i events implies ready after every later j |
| HardwareBridge.AcceptedMakesReady | src/control/stingray_communication/src/hardware_bridge.cpp:94-95 | an accepted call leaves the bridge ready |
| HardwareBridge.ReadyHasCause | src/control/stingray_communication/src/hardware_bridge.cpp:85-89 | a bridge that starts not ready and ends ready went through an accepted call; rejections never make it ready |
| HardwareBridge.ReadyFromStart | src/control/stingray_communication/src/hardware_bridge.cpp:78 | a bridge that is ready stays ready through any run |
| HardwareBridge.ReadyFromAccepted | src/control/stingray_communication/src/hardware_bridge.cpp:110-111 | an accepted call anywhere in a run leaves the bridge ready at its end |
| HardwareBridge.ReadyIffAccepted | src/control/stingray_communication/src/hardware_bridge.cpp:78-150 | after a run the bridge is ready iff it was ready at the start or some call of the run was accepted |
| HardwareBridge.TransmitsOnlyWhenReady | src/control/stingray_communication/src/hardware_bridge.cpp:156-171 | the i-th event publishes iff it is a timer tick and the bridge is ready at that point; what it publishes is the prefix of `formVector` of the current frame |
| HardwareBridge.SilentUntilAccepted | src/control/stingray_communication/src/hardware_bridge.cpp:158-171 | from a bridge that is not ready, nothing is published before the first accepted call, whatever the number of ticks |
| HardwareBridge.LagAndMarchImuCommute | src/control/stingray_communication/src/hardware_bridge.cpp:66-124 | a lag-and-march call and an IMU call give the same state in either order |
| HardwareBridge.Bridge.InputMessageCallback | src/control/stingray_communication/src/hardware_bridge.cpp:19-33 | copies exactly `ResponseMessage::length` bytes, parses them, and leaves the object in the state `Input` gives |
| HardwareBridge.Bridge.LagAndMarchCallback | src/control/stingray_communication/src/hardware_bridge.cpp:66-81 | new fields and reply are those of `LagAndMarch` |
| HardwareBridge.Bridge.DepthCallback | src/control/stingray_communication/src/hardware_bridge.cpp:83-97 | new fields and reply are those of `Depth` |
| HardwareBridge.Bridge.YawCallback | src/control/stingray_communication/src/hardware_bridge.cpp:99-113 | new fields and reply are those of `Yaw` |
| HardwareBridge.Bridge.ImuCallback | src/control/stingray_communication/src/hardware_bridge.cpp:115-124 | new fields and reply are those of `Imu` |
| HardwareBridge.Bridge.StabilizationCallback | src/control/stingray_communication/src/hardware_bridge.cpp:126-141 | new fields and reply are those of `Stabilization` |
| HardwareBridge.Bridge.DeviceActionCallback | src/control/stingray_communication/src/hardware_bridge.cpp:143-151 | requires an in-range index; new fields and reply are those of `DeviceAction` |
| HardwareBridge.Bridge.TimerCallback | src/control/stingray_communication/src/hardware_bridge.cpp:156-173 | changes only the output buffer, and its buffer and publication are those of `Timer` |
| HardwareBridgeNodelet.HorizontalMove | src/communication/stingray_communication/src/hardware_bridge_nodelet.cpp:65-95 | the lag rule is always applied first; accepted iff yaw stabilization is on; a rejection carries "Yaw stabilization is not enabled" and keeps the march/lag change but leaves yaw and readiness alone; an acceptance also sets yaw (the request cut to int16) and ready |
| HardwareBridgeNodelet.Depth | src/communication/stingray_communication/src/hardware_bridge_nodelet.cpp:97-113 | accepted iff depth stabilization is on; a rejection carries "Depth stabilization is not enabled" and changes nothing; an acceptance changes only depth and readiness, and depth is the request itself when it fits int16 |
| HardwareBridgeNodelet.Stabilization | src/communication/stingray_communication/src/hardware_bridge_nodelet.cpp:127-148 | always accepted and sets ready; the frame's yaw and depth become the last telemetry yaw and depth cut to int16; apart from those two fields the result is the mode switch |
| HardwareBridgeNodelet.Input | src/communication/stingray_communication/src/hardware_bridge_nodelet.cpp:43-63 | only the first `ResponseMessage::length` bytes are parsed; a failed parse changes nothing; a successful one replaces the telemetry and both readings (truncated, unscaled) and nothing else |
| HardwareBridgeNodelet.Dispatch | src/communication/stingray_communication/src/hardware_bridge_nodelet.cpp:65-159 | every service call keeps the device-slot count and the output buffer, and leaves the bridge ready iff it was ready or the call was accepted |
| HardwareBridgeNodelet.Step | src/communication/stingray_communication/src/hardware_bridge_nodelet.cpp:43-184 | an event makes the bridge ready only when it is an accepted call |
| HardwareBridgeNodelet.Run | src/communication/stingray_communication/src/hardware_bridge_nodelet.cpp:43-184 | any sequence of events keeps the number of device slots |
| HardwareBridgeNodelet.Outputs | src/communication/stingray_communication/src/hardware_bridge_nodelet.cpp:164-184 | a run yields one output entry per event |
| HardwareBridgeNodelet.ReadyAfterLast | src/communication/stingray_communication/src/hardware_bridge_nodelet.cpp:92-93 | the last event leaves the bridge ready iff it was ready before or that event is an accepted call |
| HardwareBridgeNodelet.ReadyIsMonotone | src/communication/stingray_communication/src/hardware_bridge_nodelet.cpp:92 | `isReady` is never withdrawn: ready after i events implies ready after every later j |
| HardwareBridgeNodelet.AcceptedMakesReady | src/communication/stingray_communication/src/hardware_bridge_nodelet.cpp:110-111 | an accepted call leaves the bridge ready |
| HardwareBridgeNodelet.ReadyHasCause | src/communication/stingray_communication/src/hardware_bridge_nodelet.cpp:83-88 | a bridge that starts not ready and ends ready went through an accepted call; a rejected horizontal move or depth call never makes it ready |
| HardwareBridgeNodelet.ReadyFromStart | src/communication/stingray_communication/src/hardware_bridge_nodelet.cpp:145 | a bridge that is ready stays ready through any run |
| HardwareBridgeNodelet.ReadyFromAccepted | src/communication/stingray_communication/src/hardware_bridge_nodelet.cpp:156-157 | an accepted call anywhere in a run leaves the bridge ready at its end |
| HardwareBridgeNodelet.ReadyIffAccepted | src/communication/stingray_communication/src/hardware_bridge_nodelet.cpp:92-158 | after a run the bridge is ready iff it was ready at the start or some call of the run was accepted |
| HardwareBridgeNodelet.TransmitsOnlyWhenReady | src/communication/stingray_communication/src/hardware_bridge_nodelet.cpp:164-184 | the i-th event publishes iff it is a timer tick and the bridge is ready at that point; what it publishes is the prefix of `formVector` of the current frame |
| HardwareBridgeNodelet.SilentUntilAccepted | src/communication/stingray_communication/src/hardware_bridge_nodelet.cpp:167-183 | from a bridge that is not ready, nothing is published before the first accepted call, whatever the number of ticks |
| HardwareBridgeNodelet.HorizontalMoveImuCommute | src/communication/stingray_communication/src/hardware_bridge_nodelet.cpp:65-125 | a horizontal-move call and an IMU call give the same state in either order |
| HardwareBridgeNodelet.DepthOverridesLatchedSetpoint | src/communication/stingray_communication/src/hardware_bridge_nodelet.cpp:100-143 | switching depth stabilization on latches the telemetry depth as setpoint, and a depth call that follows is accepted and replaces it with the requested value |
| HardwareBridgeNodelet.Bridge.InputMessageCallback | src/communication/stingray_communication/src/hardware_bridge_nodelet.cpp:43-63 | copies exactly `ResponseMessage::length` bytes, parses them, and leaves the object in the state `Input` gives |
| HardwareBridgeNodelet.Bridge.HorizontalMoveCallback | src/communication/stingray_communication/src/hardware_bridge_nodelet.cpp:65-95 | new fields and reply are those of `HorizontalMove`, including the partial update before the early return |
| HardwareBridgeNodelet.Bridge.DepthCallback | src/communication/stingray_communication/src/hardware_bridge_nodelet.cpp:97-113 | new fields and reply are those of `Depth` |
| HardwareBridgeNodelet.Bridge.ImuCallback | src/communication/stingray_communication/src/hardware_bridge_nodelet.cpp:115-125 | new fields and reply are those of `Imu` |
| HardwareBridgeNodelet.Bridge.StabilizationCallback | src/communication/stingray_communication/src/hardware_bridge_nodelet.cpp:127-148 | new fields and reply are those of `Stabilization` |
| HardwareBridgeNodelet.Bridge.DeviceActionCallback | src/communication/stingray_communication/src/hardware_bridge_nodelet.cpp:150-159 | requires an in-range index; new fields and reply are those of `DeviceAction` |
| HardwareBridgeNodelet.Bridge.TimerCallback | src/communication/stingray_communication/src/hardware_bridge_nodelet.cpp:164-184 | changes only the output buffer, and its buffer and publication are those of `Timer` |

## Left out

- ROS plumbing is not modelled: `onInit`, the ROS2 constructor and the unrelated `main` in `hardware_bridge.cpp`, publishers, subscribers, services, the `outputMessage` layout set-up and `PLUGINLIB_EXPORT_CLASS`. This is message-bus wiring. Publishing is modelled as the value `TimerCallback` returns.
- Loading the JSON configuration (topic and service names) is file I/O and is not modelled.
- Logging is not modelled.
- The timer's period (0.05 s and 0.1 s) is not modelled. A tick is an event.
- Callbacks may run concurrently under ROS. They are modelled as sequential calls.
- The bodies of `formVector` and `parseVector` are not modelled. They and the checksum algorithm are defined in headers that are not part of this model. As a result, the encode/decode round trip and checksum soundness cannot be stated.
- Messages.SetStabilizationState: the helper's body is in a header that is not part of this model. The model assumes that the four `SHORE_STABILIZE_*_BIT` flags are distinct single bits and that the helper sets or clears only its own bit. The "other bits unchanged" guarantees of `Aggregator.Imu`, `Aggregator.SetModes` and the stabilization callbacks rest on that assumption.
- Numeric.Int16OfFloat: a float outside the int16 range has undefined behaviour in C++. The model wraps it.
- Numeric.TruncToInt: real arithmetic stands in for float arithmetic. Float rounding of `depth * 100.0f` and out-of-range conversion are not captured.
- HardwareBridge.DepthSetpoint: `value * 100` may overflow int32, which is undefined behaviour. The model computes it unbounded. Its low 16 bits, the only ones kept, equal those of a wrapping int32 product.
- HardwareBridge.DepthCentimetres: `std::abs` of `INT_MIN` is undefined behaviour and is not captured.
- The C++ types of the frame's `march`, `lag`, `lag_error`, `depth` and `yaw` fields are not visible. The model takes each to be int16_t, reading the explicit `static_cast<int16_t>` writes as writes of a field of that width. Every write into these fields goes through a cut to int16. This includes the second cut in HardwareBridge.DepthSetpoint, where hardware_bridge.cpp:91 assigns the promoted `int` value `-(int16_t)(…)`, and the float latch at hardware_bridge_nodelet.cpp:131-133. If a field were wider, some results would differ: for a scaled depth of -32768, for instance, the source would store +32768 where the model stores -32768.
- The input callbacks copy `msg->data[i]` for every `i` below `ResponseMessage::length` with no length check (hardware_bridge.cpp:21-22, hardware_bridge_nodelet.cpp:46-48). A message at least that long is therefore a precondition of `InputMessageCallback`, `Input` and the `Receive` case of `Admissible`, not a rejection path.
- The C++ type of the `dev[]` slots is not visible. The model stores the request value unchanged.
- The header's initial field values are not visible. The constructors take the initial frame and telemetry as parameters, and start not ready, with every stabilization switch off and both readings 0.
- `parseVector` writes into `responseMessage` in place. The model assumes a failed parse leaves `responseMessage` unchanged, because the header that would show otherwise is not part of this model.
- `src/missions/stingray_tfsm/scripts/stingray_tfsm/core/pure_fsm.py` is not modelled. It wraps an external state-machine library and reads files.
- `src/missions/stingray_tfsm/scripts/stingray_tfsm/submachines/reach_submachine.py` is not modelled. It is mission scripting built on timing and vision events.
