# Verification of the network model

This project models the network model of the DSE network repository and proves what its step function guarantees.
The network model sits between a channel of physical signals and a bus of CAN frames. In every step it copies the
signals in, decodes the frames from the bus, marshals received values to the signals and signals to message buffers,
packs the buffers, applies message functions (counters, checksums), sends the messages that are due or have changed,
and copies the signals out. The project also covers what that pipeline stands on: the FNV-1a hash of the change
detection, the generated bit packing of the example message library, the struct layout that the network generator
computes, and its signal patch.

Objects that the program updates in place are classes here (`Net.Message`, `Net.Network`, `Schedule.Scheduler`,
`Model.NetworkModel`, the messages of `Stub`), with byte arrays as buffers and payloads. Each of their methods is proved
equal to a function on values (`Net.State`, `Model.ModelState`); the guarantees are lemmas about these functions, so
that they hold of the methods.

| file | models |
|---|---|
| `Bytes.dfy`, `Arithmetic.dfy` | bytes, little-endian members of a buffer, division |
| `Fnv.dfy` | the hash of the change detection |
| `Network.dfy` | messages, signals, marshal items, the network object |
| `MarshalList.dfy` | building the marshal list and the signal names |
| `Engine.dfy`, `Marshalling.dfy` | marshalling in both directions and packing; what they achieve per item |
| `Encoder.dfy`, `Reception.dfy` | frames in and out; what receiving does to each message |
| `Functions.dfy`, `Crc.dfy` | applying message functions; the checksum and counter functions |
| `Schedule.dfy` | the cyclic scheduler and its closed form |
| `Model.dfy` | `model_create` and `model_step` |
| `Pipeline.dfy` | what holds at step boundaries, what is sent, no echo, silence |
| `Runs.dfy`, `WakeUp.dfy` | whole runs: the invariant, exact periodicity, unchanged frames, and what is written while the network is off |
| `Clock.dfy`, `Cadence.dfy` | tick arithmetic, for steps of whole milliseconds, of fractions of one, and of any constant length |
| `Delivery.dfy` | from the channel of one model over the bus to that of another |
| `Stub.dfy`, `Codecs.dfy` | bit packing and signal codecs of the example message library |
| `Doubles.dfy` | IEEE 754 rounding, as far as these codecs depend on it |
| `Layout.dfy`, `Agreement.dfy` | struct layout in the generator, and that it serves the marshaller |
| `Patch.dfy` | the in-place signal patch |
| `Example.dfy`, `Echo.dfy`, `ZeroHash.dfy`, `MuxExample.dfy`, `Cases.dfy` | concrete networks: one that meets all hypotheses, one whose frames are echoed, one that is due and not sent, one with a container; closed runs |

## Main results

- **Step invariant.** From creation on, at every step boundary of every run nothing is pending, no message is flagged,
  the checksum of each message sent on change agrees with its buffer, and every alarm is where its closed form puts it
  (`Runs.RunKeepsInvariant`).
- **Change detection.** In every step of every run such a message is sent if and only if the network is on and marshalling
  changed the hash of its buffer (`Runs.SentOnChangeInRuns`); a change of a single byte is never missed
  (`Pipeline.OneByteIsSent`).
- **No echo.** An accepted message keeps the received buffer if and only if each of its members survives the trip through
  the signal vector (`Pipeline.EchoIff`). Then it is not sent back, and its in-range signals end as decoded from the
  frame, whatever the models wrote (`Pipeline.NoEcho`, `Pipeline.NoEchoSignal`). Which frames are echoed in a message
  with a small range, whatever arithmetic its codec uses, is `Echo.EchoedIff`: out of range, those received while the
  models wrote a value in range (`Echo.EchoedInput` is such an input); in range, none in exact reals
  (`Echo.InRealsNotEchoed`), and in doubles the radius 43 (`Echo.InDoublesEchoedIff`).
- **Batch receive.** Any sequence of frames leaves a message with the in-order fold of its successful frames. The flag says
  exactly whether the hash of the last of them differs from that of the one before, or of the only one from the stored
  checksum (`Reception.BatchReceive`); a contained message sees the frames that its container dispatches to it, and sees
  them in the same way (`Reception.BatchDispatch`). For messages sent on change the stored checksum is that of the buffer;
  for cyclic ones see below.
- **Dispatch.** A frame goes to the first message with its id, if no message with the id 0 comes before, and from a container to
  the first message that also has the mux id in the header, if that is not 0 (`Encoder.FindFrameIff`, `Encoder.FindMuxIff`,
  `Reception.ContainerFrameIs`); in the example network with `mux_message` a frame with the header 601 ends as `foo_double`
  on the channel (`MuxExample.FooArrives`, and `MuxExample.FirstFoo` from creation).
- **Delivery.** A value that one model writes, in a step in which its message is sent and nothing received reaches that
  message, ends on the channel of another model as the two codecs make of it, if there the frame is the only one with its id
  in the step, new and accepted; if the value is in range for both codecs, and the member comes through the message functions;
  and if the receiving message has no encode functions, or its members survive (`Delivery.Delivered`). Other frames may come
  before and after it: this holds if the second model receives all that the first one writes in a step, in which no other
  message has that frame id (`Delivery.OutputDelivered`). Between two instances of the example network foo and bar do, counter and checksum
  notwithstanding, under the same conditions on the frame (`Delivery.ExampleDelivered`).
- **Silence.** After any step whose rewritten payloads survive, messages sent on change stay silent for as long as no
  signal of the network is written and no frame arrives (`Runs.QuiescenceInRuns`); a step settles if and only if its
  rewrites survive (`Pipeline.StepSettles`). What is written to messages sent on change while the network is off is not sent
  after it is on again either, until somebody acts (`Pipeline.AbsorbedWhileOff`). A cyclic message sends it at its next due
  tick with the network on, however many steps with the network off or without a due tick lie between, as long as nobody
  touches that message, and unless its buffer hashes to 0 (`WakeUp.SentAfterWakeUp`).
- **Periodicity.** A cyclic message is written in exactly those steps that execute a due tick
  (`Runs.Periodicity`); with step times of n ms or 1/k ms these are exactly the steps that reach a multiple of the
  period (`Clock.WrittenAtMultiples`, `Clock.WrittenAtMilliseconds`). For steps of any constant length the ticks come in
  bursts of one size (`Cadence.BurstSteps`), and they follow the milliseconds if and only if the length is 1/k ms with k
  up to 100 or n ms with n up to 99 (`Cadence.FollowsIff`).
- **Round trips.** Marshalling and the bit packing of the example messages invert each other, with the exact condition where
  they do not always (`Marshalling.SignalRoundTrip`, `Stub.ExampleRoundTrip`). The codecs do so in exact reals, but for
  the `int64_t` arm (`Codecs.Int64RoundTripsIff`). In any other arithmetic a bit pattern survives if and only if what
  encoding truncates is not nearer to zero than the number it stands for, and otherwise moves by one step
  (`Codecs.ScaledRoundTrips`, and for every temperature `Codecs.TemperatureInAnyArithmetic`); in doubles, exactly one radius in range is lost (`Codecs.RadiusInDoublesIff`), and of the
  unscaled unsigned patterns those with more than 53 significant bits (`Doubles.WholeSurvivesIff`).
- **Layout.** Generated offsets are aligned, least and disjoint, contained messages agree with their container, and a
  network generated in this way loads into a valid configuration whose members fit and do not overlap
  (`Agreement.LoadedIsSound`). The header id of a contained message is generated as its mux id, and is marshalled as that
  (`Agreement.HeaderMarshalled`).

## Where the code does not do what one might expect

- The decode functions of a received message are given the payload that was packed last, never the received bytes:
  unpacking goes to the buffer (`dse/network/encoder.c:51`, `dse/network/function.c:69`). So a frame with a bad CRC does
  change the signals, against the note in `dse/network/examples/stub/functions/crc.c:84-85`, as
  `Example.BadFrameChangesSignal` shows; a new frame is rejected if and only if the payload packed last fails, whatever its
  own CRC is (`Example.AcceptedIff`, `Pipeline.VerdictIgnoresFrames`). The model follows the code.
- A rejected frame provokes an answer: its buffer is overwritten with the old values, and these are sent
  (`Pipeline.RejectedFrameAnswered`, `Example.RejectedAnswered`).
- Nothing of a rejected frame reaches the channel, but its signals need not stay as they were either: where the encode
  functions rewrite the answer, the channel shows the rewritten values (`Pipeline.RejectedSignal`,
  `Example.RejectedShown`). In the run `Cases.RejectedRun`, a frame with a bad checksum arrives when the network has come on
  again; it is rejected and answered, and the channel shows a counter that has moved.
- In doubles the codecs lose patterns that they keep in exact reals: the radius 43 decodes to 4.3 and encodes to 42
  (`dse/network/examples/stub/stub.c:200-208`, `Codecs.RadiusInDoublesIff`), and is therefore sent back as 42
  (`Echo.InDoublesEchoedIff`, and `Echo.EchoedInDoubles` for such a step); the temperature pattern 1 decodes to 250.01 and encodes to 0 (`stub.c:215-223`,
  `Doubles.TemperatureOneLost`); the `uint64_t` pattern 2^54 + 1 decodes to 2^54 (`Doubles.LargePatternLost`).
- A payload that encode functions changed is unpacked again, and its signals are updated (`dse/network/function.c:45-51`),
  against the note in `dse/network/examples/stub/functions/crc.c:21-22`; see `Pipeline.FinalValue`.
- A due tick leaves the checksum of a cyclic message reset (`dse/network/schedule.c:65`, `dse/network/engine.c:461-470`), so
  that the next frame counts as new even if it brings nothing new, and overwrites what the models wrote:
  `Runs.UnchangedFrameIsNew`, in the run `Cases.UnchangedRun`, against `Runs.UnchangedFrameFiltered` for event messages.
- Without a due tick a cyclic message keeps the checksum that reception left, whatever is marshalled later
  (`dse/network/engine.c:461-470`), so that a frame may be filtered although it changes the buffer:
  `Runs.StaleFrameFiltered`, in the run `Cases.StaleRun`. What counts as new for a cyclic message is exactly
  `Runs.CyclicNewIff`.
- A due cyclic message whose buffer hashes to 0 is not sent, because 0 is also the value of a reset checksum; this is the
  exception in `Runs.Periodicity`, and `ZeroHash.HashIsZero` and `ZeroHash.DueStepIsSilent` show that it occurs.
- The `int64_t` arm of marshalling holds the value in an `int16_t` (`dse/network/engine.c:213`): `Codecs.Int64RoundTripsIff`
  says exactly which values survive, `Marshalling.Int64Loses` gives one that does not.
- A message without a buffer takes the signals of its successor out of the marshal list (`dse/network/engine.c:29-33`):
  `MarshalList.MessageListedIff`, `MarshalList.SuccessorLost`, in the network `Cases.LostBehindEmpty`. The list is the intended
  one if and only if an even number of messages without buffer stands directly before each message that has a buffer and
  signals (`MarshalList.BuiltAsIntendedIff`).
- The tick counter passes 0 again after 2^32 ticks, where no alarm counts down: `Schedule.DueAtAny`.
- With more than 100 steps to a millisecond, with steps of 100 ms and more, and with any that are neither a whole number of
  milliseconds nor a whole part of one, the ticks of a run do not follow the milliseconds: `Cadence.FollowsIff`.
- A mux header id of more than 24 bits is cut, and can choose a field that was not packed: `Stub.MuxTrip`.

## Model

| member | source | states |
|---|---|---|
| Fnv.UidHash | dse/network/encoder.c:22-31 | the hash loop folds the FNV-1a round over the whole key |
| Fnv.PrimeInverse | dse/network/encoder.c:28 | multiplication by the FNV prime loses nothing: 899433627 undoes it modulo 2^32 |
| Fnv.RoundInjective | dse/network/encoder.c:27-28 | one round maps different states, and different bytes, to different states |
| Fnv.HashFromInjective | dse/network/encoder.c:26-29 | states that differ once stay different over any common rest of the key |
| Fnv.OneByteChangeDetected | dse/network/encoder.c:22-31 | buffers of any length that differ in exactly one byte have different hashes |
| Fnv.CollisionsDifferTwice | dse/network/encoder.c:22-31 | buffers of equal length and hash that differ somewhere differ in a second place, too |
| Net.Message.constructor | dse/network/network.h:124-150 | a new message: zeroed buffer and payload of the configured lengths, checksum 0, no flag set |
| Net.Network.constructor | dse/network/network.h:166-193 | a new network owns separate memory for every message and for the signal vector |
| MarshalList.LoadMarshalLists | dse/network/engine.c:25-54 | the list holds the signals of the visited messages in order |
| MarshalList.SetMuxItems | dse/network/engine.c:57-62 | each message records its last mux signal, at the list position of exactly that signal, or none if it has none |
| MarshalList.GetSignalNames | dse/network/engine.c:68-111 | items are numbered by position; names are the signal names, empty for internal signals |
| MarshalList.Load | dse/network/engine.c:20-111 | the three parts together give a valid configuration if mux messages have no mux id of their own |
| MarshalList.LostSignals | dse/network/engine.c:28-44 | intended list = built list + the signals dropped after messages without buffer; equal if none is dropped |
| MarshalList.VisitsIff | dse/network/engine.c:28-44 | the loop comes past a message iff an even number of messages without buffer stands directly before it |
| MarshalList.BuiltAsIntendedIff | dse/network/engine.c:28-44 | the list is the in-order concatenation of all signals iff that number is even for each message that has a buffer and signals |
| MarshalList.ListedIff | dse/network/engine.c:28-44 | from any start, a message is in the list iff the loop comes past it and it has a buffer and signals |
| MarshalList.MessageListedIff | dse/network/engine.c:28-44 | a message with signals is in the list iff it has a buffer and an even number of messages without buffer stands directly before it |
| MarshalList.SuccessorLost | dse/network/engine.c:29-33 | in any network, a message without buffer keeps every signal of the next one out of the list, unless it is itself the second, fourth ... of such messages in a row |
| MarshalList.ItemOfSignal | dse/network/engine.c:36-43 | with buffers everywhere, signal s of message m has its own list position and signal vector index |
| MarshalList.SignalOfItem | dse/network/engine.c:36-43 | every index belongs to some signal of some message: the numbering is onto |
| Engine.MarshalItemIn | dse/network/engine.c:118-253 | one item: constant or signal value, encoded, range-checked, stored in its member; nothing else changes |
| Engine.MarshalSignalsToMessages | dse/network/engine.c:114-256 | the loop performs all items in list order |
| Engine.MarshalItemOut | dse/network/engine.c:272-432 | one item: an in-range member is decoded into its signal vector entry; nothing else changes |
| Engine.ResetUpdateFlags | dse/network/engine.c:438-441 | every update flag is cleared, nothing else changes |
| Engine.MarshalMessagesToSignals | dse/network/engine.c:259-444 | flagged messages in list order and then a reset of all flags, or one item alone and no reset |
| Engine.PackMessage | dse/network/engine.c:453-471 | repacks the payload; flags a changed event message, clears an unchanged one, leaves a changed cyclic one as scheduled |
| Engine.PackMessages | dse/network/engine.c:447-473 | every message is packed, independently of the others |
| Marshalling.Untouched | dse/network/engine.c:126-136 | a byte that no in-range item covers keeps its value: out-of-range signals disturb nobody |
| Bytes.LeValueConcat | dse/network/engine.c:126-131 | members are stored with the least significant byte first |
| Marshalling.Stable | dse/network/engine.c:114-256 | a message whose written members already hold their values is not changed |
| Marshalling.MarshalledRaw | dse/network/engine.c:114-256 | with disjoint members, after the loop each in-range signal's member holds its encoding, every other member its old value |
| Marshalling.LastPrevails | dse/network/engine.c:114-256 | where members overlap, the last item in the list that is written prevails |
| Net.ElementIs | dse/network/engine.c:124-131 | a member is accessed at the multiple of its width at or before its offset |
| Marshalling.MarshalledValue | dse/network/engine.c:259-444 | an entry ends as decoded from its member if and only if its message is flagged and the member in range |
| Marshalling.SignalRoundTrip | dse/network/engine.c:114-444 | to the buffers and back: an in-range signal becomes decode(encode(v)), an out-of-range one what its member held |
| Marshalling.UnchangedIff | dse/network/engine.c:114-256 | marshalling leaves a buffer as it is iff each member that is written already holds the value |
| Marshalling.BufferRoundTrip | dse/network/engine.c:114-444 | from a flagged buffer and back is the identity on the buffer iff each member survives, whatever the signal vector held |
| Marshalling.Int64Exact | dse/network/engine.c:212-217 | the int64_t arm stores the encoded value if and only if it fits an int16_t |
| Marshalling.OtherArmsExact | dse/network/engine.c:124-175 | the unsigned and floating arms store every bit pattern of their width |
| Marshalling.SignedArmsExact | dse/network/engine.c:176-211 | the signed arms of up to 32 bits store every number of their width, negative ones included |
| Marshalling.Int64Loses | dse/network/engine.c:213-217 | a value the int64_t arm loses: 70000 becomes 4464 |
| Encoder.FindMuxMessage | dse/network/encoder.c:34-46 | the loop returns the message that FindMux describes; which one that is, FindMuxIff and FindMuxNone say |
| Encoder.FindMuxIff | dse/network/encoder.c:34-46 | message m is found iff the mux id is not 0, and m is the first message with that frame id and mux id |
| Encoder.FindMuxNone | dse/network/encoder.c:34-46 | none is found iff the mux id is 0 or no message has that frame id and mux id |
| Encoder.FindFrameIff | dse/network/encoder.c:91-102 | message m is found for a frame iff it has the frame id, no message before it has, and no message up to it has frame id 0 |
| Encoder.FindFrameNone | dse/network/encoder.c:91-102 | none is found iff there is no such message |
| Encoder.ProcessMessage | dse/network/encoder.c:48-89 | unpack, dispatch to the contained message, compare the hash; terminates; an unpack error stops it |
| Encoder.ProcessCanFrame | dse/network/encoder.c:91-109 | the message that FindFrame describes is processed, if any; which one that is, FindFrameIff and FindFrameNone say |
| Encoder.DecodeFromBus | dse/network/encoder.c:111-122 | all frames are processed in the order of the bus |
| Encoder.EncodeToBus | dse/network/encoder.c:125-144 | the frames of the pending messages in message order; every pending flag is cleared |
| Encoder.WrittenOnce | dse/network/encoder.c:130-142 | each pending message is written exactly once with its configured id and frame type and its payload, and nothing else is written |
| Encoder.PendingIff | dse/network/encoder.c:131-132 | the pending messages are exactly those whose flag is set |
| Reception.ReceiveKeeps | dse/network/encoder.c:48-122 | receiving never touches payloads and pending flags, and keeps checksum and buffer in agreement |
| Reception.FirstFrame | dse/network/encoder.c:48-109 | one frame leaves a message or container with another id, or on an unpack error, as it was; otherwise it is unpacked and its hash compared |
| Reception.Elsewhere | dse/network/encoder.c:39-41 | processing a frame changes no message with another frame id |
| Reception.BatchReceive | dse/network/encoder.c:48-122 | a message or container after any frames: buffer = in-order fold of the successful ones, checksum = its hash; flag = did the last one change the hash, the first being compared with the stored checksum |
| Reception.OneTaken | dse/network/encoder.c:75-86 | a frame, among any with other ids: the buffer holds what it brings, the checksum is the hash of that, and it is flagged iff that was not the checksum before |
| Reception.NoneTaken | dse/network/encoder.c:91-122 | frames with other ids leave a message or container as it was |
| Reception.ReceiveKeepsSignal | dse/network/encoder.c:58-62 | receiving writes no signal of a message that is not a container |
| Reception.FirstIff | dse/network/encoder.c:91-102 | frames go to a message iff no message before it has its frame id, and none up to it has frame id 0 |
| Reception.ContainerFrame | dse/network/encoder.c:58-73 | a container frame changes the container, the message its header names, and the mux signal; nothing else |
| Reception.ContainerFrameIs | dse/network/encoder.c:48-86 | in terms of the network: of the other messages, exactly the first with the frame's id and the mux id in the header is unpacked, and compared with its hash; a header of 0 names none |
| Reception.DispatchedFrame | dse/network/encoder.c:48-73 | one frame, seen from a contained message: taken iff the header that the container then holds names it; a mux id out of range leaves the last one |
| Reception.BatchDispatch | dse/network/encoder.c:48-122 | a contained message after any frames is what a plain message would be after those that its container dispatches to it |
| Reception.OnlyDispatched | dse/network/encoder.c:58-73 | a frame that is the only one with its id in the step is dispatched to the message that its header names, and to no other |
| Functions.CallEncode | dse/network/function.c:34-41 | the encode functions run in order, each on the result of the one before |
| Functions.CallDecode | dse/network/function.c:67-81 | all decode functions run in order, and a bad verdict clears the flag for good |
| Functions.VerdictIff | dse/network/function.c:67-81 | the verdict is good iff each function is content with the payload the functions before it left |
| Functions.EncodeMessage | dse/network/function.c:28-51 | pending messages are encoded; a changed payload is unpacked again, with its checksum, and its signals flagged |
| Functions.ApplyEncode | dse/network/function.c:19-55 | every message is handled so, and none is pending when the network is off |
| Functions.ApplyDecode | dse/network/function.c:58-85 | only messages with an accepted change keep their flag |
| Pipeline.AcceptedPayload | dse/network/function.c:62-81 | all decode functions of a flagged message run, in order, on the payload packed last; other payloads stay |
| Schedule.Scheduler.Reset | dse/network/schedule.c:16-42 | the list holds the cyclic messages in order with alarm 0, the tick is 0 |
| Schedule.ListedAtSlot | dse/network/schedule.c:24-37 | every cyclic message is listed, at the slot that counts the cyclic messages before it |
| Schedule.CyclicSorted | dse/network/schedule.c:24-37 | the list is strictly in message order, so no message is listed twice |
| Schedule.Scheduler.TickItem | dse/network/schedule.c:54-75 | one item: count down except on tick 0, wake the message on the transition to 0, reload |
| Schedule.Scheduler.Tick | dse/network/schedule.c:45-79 | the tick advances every alarm and wakes exactly the due messages; the tick counter wraps at 2^32 |
| Schedule.AllItems | dse/network/schedule.c:54-75 | the loop over the items equals one simultaneous step of all alarms: items do not influence each other |
| Schedule.ClosedFormStep | dse/network/schedule.c:54-78 | the closed form of an alarm is kept by every tick, lies in 1..period, and tells when the alarm fires |
| Schedule.DueAtSmall | dse/network/schedule.c:54-78 | below 2^32: after tick k the alarm is period - k mod period, and it fires iff k >= 1 and the period divides k |
| Schedule.DueAtAny | dse/network/schedule.c:56-78 | for every k: each wrap of the tick counter delays the period by one tick |
| Schedule.AdvanceInPhase | dse/network/schedule.c:45-79 | all alarms follow their closed forms together |
| Model.BuildSrMap | dse/network/model.c:116-135 | each channel signal maps to the first network signal of its name, and empty names map nowhere |
| Model.NetworkModel.constructor | dse/network/model.c:148-171 | creation ends in the state that Model.Create describes: initial values, initial checksums, nothing pending |
| Model.NetworkModel.InitialChecksums | dse/network/model.c:155-168 | initial values reach the channel and the buffers, checksums are those of the initial buffers |
| Model.NetworkModel.LoadScalars | dse/network/model.c:180-187 | mapped channel values replace signal vector entries, in channel order |
| Model.NetworkModel.PublishScalars | dse/network/model.c:231-238 | mapped channel values become the signal vector entries, the others stay |
| Model.NetworkModel.StepInitialTick | dse/network/model.c:201-207 | one tick at time 0, only in the first step at that time |
| Model.NetworkModel.StepTicks | dse/network/model.c:200-221 | the ticks of a step number the initial one plus the truncated, stretched milliseconds since the last tick |
| Model.NetworkModel.StepIn | dse/network/model.c:180-221 | the first half of the step, in the order of its stages |
| Model.NetworkModel.StepOut | dse/network/model.c:223-238 | the second half: marshal, pack, encode, send, marshal back, publish |
| Model.NetworkModel.DoStep | dse/network/model.c:175-243 | the whole step object: new state, and frames written, are those of Model.Step and Model.Output |
| Pipeline.OutputOfSent | dse/network/encoder.c:130-142 | the frames of a step are those of the sent messages, one each, in message order |
| Pipeline.CreateBoundary | dse/network/model.c:162-168 | creation ends at a boundary: nothing pending or flagged, checksums agree with buffers |
| Pipeline.PackEncode | dse/network/function.c:28-51 | through packing and encoding: when exactly a message is pending, and that its checksum agrees again |
| Pipeline.SentContent | dse/network/model.c:223-226 | what is sent is the marshalled buffer, packed, and run through the encode functions in order |
| Pipeline.PayloadIs | dse/network/engine.c:453-456 | the payload after a step is the marshalled buffer, packed, sent or not; of a sent message, run through the encode functions |
| Pipeline.RewrittenIs | dse/network/function.c:43-51 | a message is rewritten iff it is sent and the hash of its payload changed; then that payload is unpacked over the marshalled buffer |
| Pipeline.StepBoundary | dse/network/model.c:175-243 | every step ends at a boundary |
| Pipeline.SentOnChange | dse/network/engine.c:456-470 | an event message is sent iff the network is on and marshalling changed its buffer's hash |
| Pipeline.OneByteIsSent | dse/network/engine.c:456-466 | a change of exactly one byte of an event message is always sent, if that signal is 0 or there is none |
| Pipeline.SilentWhileOff | dse/network/function.c:23-29 | with any value but 0 in the signal that turns the network off, a step writes no frame at all |
| Pipeline.NoEcho | dse/network/model.c:188-226 | an accepted message whose members survive is not sent in that step, and keeps the received buffer |
| Pipeline.EchoIff | dse/network/model.c:188-226 | an accepted message keeps the received buffer iff its members survive; otherwise it is sent unless off or the hash is the same |
| Pipeline.NoEchoSignal | dse/network/model.c:188-238 | its in-range channel signals end as decoded from the frame, whatever the models wrote |
| Pipeline.FinalValue | dse/network/model.c:225-228 | after sending, a signal changes only if encode functions rewrote its message, and then to the rewritten value |
| Pipeline.VerdictIgnoresFrames | dse/network/function.c:62-81 | whether a received change is accepted depends on the payload packed last, not on the received frame |
| Pipeline.StepSettles | dse/network/model.c:223-238 | any step ends with a channel that agrees with the signals, and with buffers that agree with them iff rewritten members survive |
| Pipeline.IdleStep | dse/network/model.c:175-243 | an idle step from there sends no event message, and ends there again |
| Pipeline.FramelessKeptIff | dse/network/model.c:175-243 | without frames, a step keeps the buffer of an event message iff its members hold what is on the channel; otherwise it is sent unless off or the hash is the same |
| Pipeline.IdleKeptIff | dse/network/model.c:175-243 | an idle step keeps a buffer iff its members agree with the signals; from a state not settled it is changed, and sent unless off or the hash is the same |
| Pipeline.Quiescence | dse/network/model.c:175-243 | after any step with surviving rewrites, event messages are silent over any number of idle steps |
| Pipeline.OffSettles | dse/network/function.c:23-29 | a step while the network is off ends settled, whatever was written |
| Pipeline.AbsorbedWhileOff | dse/network/function.c:23-29 | what is written to messages sent on change while the network is off is sent neither then nor after it is on again |
| Pipeline.RejectedFrameAnswered | dse/network/function.c:62-81 | a rejected frame is overwritten with the old values, which are sent iff on and the hash differs |
| Pipeline.RejectedSignal | dse/network/model.c:188-238 | a rejected frame leaves its channel signals as they were, unless encode functions rewrite the message; then they show the rewritten value |
| Runs.RunKeepsInvariant | dse/network/model.c:48-243 | after every run from creation: at a boundary, all alarms in phase with the executed ticks |
| Runs.SentOnChangeInRuns | dse/network/engine.c:447-473 | the exact condition for sending event messages, in every step of every run |
| Runs.QuiescenceInRuns | dse/network/model.c:175-243 | silence after every step of every run |
| Runs.UnchangedFrameFiltered | dse/network/encoder.c:79-84 | in every run, a frame that brings an event message nothing new is filtered |
| Runs.CyclicChecksum | dse/network/engine.c:461-470 | the checksum after a step: of the buffer if rewritten, else the reset one if a tick was due, else the received one |
| Runs.CyclicNewIff | dse/network/encoder.c:75-86 | after any step, a frame counts as new for a cyclic message iff its hash is not that of the buffer, if rewritten in that step; not 0, if a tick was due; else not the checksum that reception left |
| Runs.UnchangedFrameIsNew | dse/network/schedule.c:62-67 | in every run, after a due tick a frame that brings a cyclic message nothing new counts as new, unless the buffer hashes to 0 or encode functions rewrote the message |
| Runs.StaleFrameFiltered | dse/network/engine.c:461-470 | in every run, after a step without due tick, rewriting, or frame for it, a frame whose hash is the checksum before that step is filtered, though it may change the buffer |
| Runs.TicksWake | dse/network/schedule.c:58-69 | a block of ticks wakes a message iff one of their numbers is due, and changes nothing else of it |
| Runs.Periodicity | dse/network/function.c:23-29 | over every run a cyclic message is sent in exactly the steps with a due tick, unless off or hash 0; being off does not shift it |
| Runs.DueInFirstTicks | dse/network/schedule.c:54-78 | in the first 2^32 ticks, due means a multiple of the period, 0 apart |
| WakeUp.RunsBetween | dse/network/model.c:48-243 | every state of every run is at a boundary, in step with the channel and in phase with the ticks |
| WakeUp.UnsentItem | dse/network/model.c:188-228 | a step that does not send a message, and in which nothing received reaches it, leaves its signals as the channel had them |
| WakeUp.WaitKeeps | dse/network/model.c:188-228 | any number of steps that do not send a message and leave it alone keep its signals, whatever happens to other messages |
| WakeUp.SentAfterWakeUp | dse/network/function.c:23-29 | a cyclic message sends what was written while the network was off, or no tick was due, at its next due tick with the network on, after any number of steps that do not send it and leave it alone; unless the hash is 0 |
| WakeUp.UnsentIff | dse/network/function.c:23-29 | the steps that do not send it are exactly those with the network off, without a due tick, or with hash 0 |
| Clock.FractionSteps | dse/network/model.c:200-221 | steps of 1/k ms, k <= 100: the ticks up to a step number 1 plus the whole milliseconds elapsed |
| Clock.WholeSteps | dse/network/model.c:200-221 | steps of n ms, n <= 99: the ticks up to a step number 1 plus the milliseconds elapsed |
| Clock.WholeStepIff | dse/network/model.c:214 | a step of n ms executes n ticks iff n <= 99 |
| Cadence.BurstSteps | dse/network/model.c:200-221 | steps of any constant length: the ticks come in bursts of one size, every c steps, where c is the least number of steps long enough for a tick |
| Cadence.FollowsIff | dse/network/model.c:200-221 | in every run with steps of h ms the ticks follow the milliseconds iff h = 1/k with k <= 100 or h = n with n <= 99 |
| Clock.TicksBound | dse/network/model.c:214-219 | for any step times, ticks never exceed 1 + 1.01 times the milliseconds up to the last tick |
| Clock.LastTickBound | dse/network/model.c:214-219 | hence, with no step later than t, never 1 + 1.01 times the milliseconds up to t |
| Clock.WrittenAtMultiples | dse/network/model.c:200-226 | stepped every n ms, a cyclic message is sent in exactly the steps whose milliseconds contain a multiple of its period |
| Clock.WrittenAtMilliseconds | dse/network/model.c:200-226 | stepped every 1/k ms, it is sent in exactly the steps that reach a multiple of its period |
| Crc.CrcGenerate | dse/network/examples/stub/functions/crc.c:65-72 | the byte at position becomes the sum of all others modulo 256, no other byte changes |
| Crc.CrcValidate | dse/network/examples/stub/functions/crc.c:131-139 | backward subtraction accepts iff the stored byte is the sum of all others modulo 256 |
| Crc.CounterInc | dse/network/examples/stub/functions/counters.c:69-73 | the byte at position counts on modulo 256, no other byte changes |
| Crc.GeneratedValidates | dse/network/examples/stub/functions/crc.c:65-139 | a generated checksum always validates, whatever was counted or stored before |
| Crc.AlterationRejected | dse/network/examples/stub/functions/crc.c:131-139 | any alteration of a single byte of a valid payload is rejected |
| Crc.ValidIffGenerated | dse/network/examples/stub/functions/crc.c:65-139 | validation accepts exactly what generation yields |
| Crc.TwoChangesAcceptedIff | dse/network/examples/stub/functions/crc.c:131-139 | two alterations of a valid payload are accepted iff their effects cancel modulo 256 |
| Stub.ExampleMessage.Pack | dse/network/examples/stub/stub.c:131-150 | eight packed bytes, or an error and an untouched destination for a short size |
| Stub.ExampleMessage.Unpack | dse/network/examples/stub/stub.c:152-174 | all fields read, or an error and an untouched message for a short size |
| Stub.ExampleLayout | dse/network/examples/stub/stub.c:142-147 | enable, radius and temperature lie at bits 23, 22-17 and 16-5 of the first three bytes |
| Stub.ExampleRoundTrip | dse/network/examples/stub/stub.c:131-174 | unpack(pack(m)) = m iff every field fits its bits, with 12-bit sign extension |
| Stub.ExampleCanonical | dse/network/examples/stub/stub.c:131-174 | pack(unpack(p)) is p with the unused bits cleared |
| Stub.UnsignedTypes.Pack | dse/network/examples/stub/stub.c:389-419 | sixteen packed bytes, or an error and an untouched destination |
| Stub.UnsignedTypes.Unpack | dse/network/examples/stub/stub.c:421-449 | all four fields read, or an error and an untouched message |
| Stub.UnsignedLayout | dse/network/examples/stub/stub.c:398-417 | first half: after seven unused bits the fields follow without gaps, most significant bit first |
| Stub.UnsignedLayoutEnd | dse/network/examples/stub/stub.c:408-417 | second half: the rest of the 64-bit field, and one unused bit |
| Stub.UnsignedRoundTrip | dse/network/examples/stub/stub.c:389-449 | unpack(pack(m)) = m for every m, though each field straddles bytes |
| Stub.UnsignedCanonical | dse/network/examples/stub/stub.c:389-449 | pack(unpack(p)) is p with the eight unused bits cleared |
| Stub.MuxMessage.Pack | dse/network/examples/stub/stub.c:822-865 | twelve packed bytes, or an error and an untouched destination |
| Stub.MuxMessage.Unpack | dse/network/examples/stub/stub.c:867-908 | header and the field it chooses are read, the other field is kept |
| Stub.MuxLayout | dse/network/examples/stub/stub.c:835-838 | the first three bytes are the low 24 bits of the header id, lowest first, the fourth is the dlc |
| Stub.MuxBodyLayout | dse/network/examples/stub/stub.c:840-862 | for 601 the last eight bytes are foo, lowest first; for 602 four of them are bar, lowest first, and four 0; otherwise all are 0 |
| Stub.MuxReadLayout | dse/network/examples/stub/stub.c:877-905 | the same for unpacking, and the field that the header does not choose is kept |
| Stub.MuxRoundTrip | dse/network/examples/stub/stub.c:822-908 | header and chosen field survive, inactive fields keeping what they held, iff the header id has at most 24 bits |
| Stub.MuxTrip | dse/network/examples/stub/stub.c:822-908 | what every message becomes: a wide id is cut, and a field it then chooses reads 0 unless it was packed |
| Stub.MuxCanonical | dse/network/examples/stub/stub.c:822-908 | pack(unpack(p)) keeps what the header chooses and clears the rest |
| Codecs.UnsignedRoundTrips | dse/network/examples/stub/stub.c:460-508 | in exact reals, every bit pattern of an unscaled unsigned signal survives decode and encode |
| Codecs.SignedRoundTrips | dse/network/examples/stub/stub.c:609-654 | likewise for signed signals of up to four bytes, which doubles hold exactly |
| Codecs.Int64RoundTripsIff | dse/network/examples/stub/stub.c:656-669 | an int64_t signal survives the marshaller iff it fits an int16_t |
| Codecs.TemperatureRoundTrips | dse/network/examples/stub/stub.c:215-223 | in exact reals, every temperature bit pattern survives decode and encode |
| Codecs.RadiusRoundTrips | dse/network/examples/stub/stub.c:200-208 | in exact reals, every radius bit pattern survives decode and encode |
| Codecs.ScaledRoundTrips | dse/network/examples/stub/stub.c:200-223 | in any arithmetic that misses by less than a step: a pattern survives iff what is truncated is not nearer to zero than its number, and otherwise moves by one step |
| Codecs.TemperatureInAnyArithmetic | dse/network/examples/stub/stub.c:215-228 | whatever a machine with relative errors of up to one in a million computes, every temperature in range comes back as it was or one step nearer to zero, and it is exactly told which |
| Codecs.RadiusInDoublesIff | dse/network/examples/stub/stub.c:200-208 | in doubles, a radius up to 50 survives decode and encode iff it is not 43 |
| Codecs.RadiusDoubleIs | dse/network/examples/stub/stub.c:200-208 | there is a codec that decodes and encodes the radii up to 50 as doubles do |
| Doubles.RoundedOnce | dse/network/examples/stub/stub.c:200-223 | a fraction rounds to one double only, so that results computed by these rules are determined |
| Doubles.RelativeError | dse/network/examples/stub/stub.c:200-223 | rounding to a double has a relative error of at most 2^-53 |
| Doubles.TenthRounded | dse/network/examples/stub/stub.c:202 | the constant 0.1 is the double 7205759403792794 * 2^-56 |
| Doubles.HundredthRounded | dse/network/examples/stub/stub.c:217 | the constant 0.01 is the double 5764607523034235 * 2^-59 |
| Doubles.RadiusComputed | dse/network/examples/stub/stub.c:200-208 | whatever is computed in doubles, the radii 1 to 50 come back as they were, but 43 as 42 |
| Doubles.TemperatureOneLost | dse/network/examples/stub/stub.c:215-223 | in doubles, the temperature pattern 1 comes back as 0 |
| Doubles.WholeSurvivesIff | dse/network/examples/stub/stub.c:505-513 | an unscaled pattern survives conversion to a double and back iff it has at most 53 significant bits |
| Doubles.LargePatternLost | dse/network/examples/stub/stub.c:505-513 | 2^54 + 1 comes back as 2^54 |
| Codecs.TemperatureWithinStep | dse/network/examples/stub/stub.c:215-228 | in exact reals, a temperature that encodes into the range comes back within 0.01 |
| Codecs.RadiusWithinStep | dse/network/examples/stub/stub.c:200-213 | in exact reals, a radius that encodes into the range comes back within 0.1 |
| Codecs.TemperatureNearStep | dse/network/examples/stub/stub.c:215-228 | in any arithmetic with relative errors of up to one in a million, a temperature within 20.46 of 250 comes back within 0.0105 |
| Codecs.RadiusNearStep | dse/network/examples/stub/stub.c:200-213 | in any such arithmetic, a radius between -0.09 and 5.09 comes back within 0.1001 |
| Codecs.TemperatureSurvives | dse/network/engine.c:188-199 | in exact reals, a temperature signal comes back through the buffer of any network within 0.01 |
| Layout.AlignUpIsLeast | extra/tools/network/internal/app/generate/network.go:131-133 | the adjusted offset is the least multiple of the size at or after the offset |
| Layout.UnknownIff | extra/tools/network/internal/app/generate/network.go:361-366 | generation fails iff some member has an unknown type |
| Layout.GenerateStruct | extra/tools/network/internal/app/generate/network.go:121-162 | signals, offsets and size of a struct, or the first unknown type |
| Layout.GenerateContained | extra/tools/network/internal/app/generate/network.go:281-318 | the same for a contained message, filtered, with constant header signals |
| Layout.HeaderIsConstant | extra/tools/network/internal/app/generate/network.go:294-309 | of a contained message, the header id is the constant mux id, the header dlc the constant frame length, and nothing else is constant |
| Layout.MuxIsHeaderId | extra/tools/network/internal/app/generate/network.go:138-153 | the header id of a container, and no other signal, is a mux signal; nothing is constant there |
| Layout.NamedSizes | extra/tools/network/internal/app/generate/network.go:341-366 | the sizes of the C types that do not carry their width in their name |
| Layout.OffsetIsLeast | extra/tools/network/internal/app/generate/network.go:130-133 | each member starts at the least multiple of its size at or after the end of the one before |
| Layout.NoOverlap | extra/tools/network/internal/app/generate/network.go:123-156 | members follow each other in order without overlap |
| Layout.StructSize | extra/tools/network/internal/app/generate/network.go:158-162 | the size is the least multiple of 8 that covers all members |
| Layout.EmittedOffsets | extra/tools/network/internal/app/generate/network.go:136-153 | the emitted signals of a struct or container are the kept members in order, at the offsets of the full layout |
| Layout.RunKeepsExactly | extra/tools/network/internal/app/generate/network.go:136-153 | all members of a struct are kept, of a container exactly header id and header dlc |
| Layout.ContainedOffsets | extra/tools/network/internal/app/generate/network.go:283-312 | whatever is filtered out, a contained message has its members at the offsets of the container |
| Layout.ContainedKeepsExactly | extra/tools/network/internal/app/generate/network.go:294-309 | a contained message keeps exactly the header and its own signals |
| Layout.ParseTypeIs | dse/network/engine.c:124-247 | each primitive type name stands for its own type, and no other name for any |
| Layout.WidthIsSize | extra/tools/network/internal/app/generate/network.go:341-366 | sizes in the generator agree with the widths the marshaller uses |
| Layout.AccessesDisjoint | dse/network/engine.c:128-129 | the marshaller accesses each generated member at its offset, inside the struct, disjoint from the others |
| Agreement.GeneratedDescribes | extra/tools/network/internal/app/generate/network.go:117-163 | what is generated for a struct or a container meets the description of a laid-out message |
| Agreement.ContainedDescribes | extra/tools/network/internal/app/generate/network.go:281-319 | so does what is generated for a contained message |
| Agreement.GeneratedIsSound | extra/tools/network/internal/app/generate/network.go:121-162 | in a generated message members lie in the buffer, do not overlap, and a mux signal excludes a mux id |
| Agreement.LoadedIsSound | dse/network/engine.c:20-65 | a generated network loads into a valid configuration whose members lie inside their buffers and never overlap |
| Agreement.HeaderRead | dse/network/parser.c:113-117 | the header signals of a contained message are read as internal, with mux id and frame length as values; the others are not internal |
| Agreement.HeaderMarshalled | dse/network/engine.c:118-123 | in every state the header id of a generated contained message is marshalled as its mux id, and the header dlc as its frame length, if in range |
| Agreement.ContainerMux | dse/network/engine.c:57-62 | a loaded container records a signal generated for a header id as its mux signal, and records one if it has one |
| Patch.LoadPatch | extra/tools/network/internal/pkg/patch/network.go:139-146 | the patch map is built from the records in order |
| Patch.LastRecordDecides | extra/tools/network/internal/pkg/patch/network.go:139-146 | the last record of a source decides its target; an empty target keeps the source name |
| Patch.UnknownSource | extra/tools/network/internal/pkg/patch/network.go:139-146 | a source is in the patch iff some record names it |
| Patch.PatchSignals | extra/tools/network/internal/pkg/patch/network.go:149-173 | in-place compaction equals filter and rename of the original list; nothing is overwritten before it is read |
| Patch.PatchedIs | extra/tools/network/internal/pkg/patch/network.go:154-170 | the result is made of the staying signals, in order, each under the name that the patch gives it, or its own, with its annotations |
| Patch.StayingIff | extra/tools/network/internal/pkg/patch/network.go:155-169 | exactly the active known signals stay, and the unknown ones unless they are removed |
| Patch.PatchedByRecord | extra/tools/network/internal/pkg/patch/network.go:139-170 | in terms of the records: the last one that names a signal gives it its target, or keeps its name if the target is empty; the signal stays iff that is not inactive |
| Patch.PatchedUnknown | extra/tools/network/internal/pkg/patch/network.go:139-170 | a signal that no record names stays as it is, unless unknown signals are removed |
| Patch.EmptyPatch | extra/tools/network/internal/pkg/patch/network.go:155-169 | an empty patch without removal changes nothing |
| Example.LoadedLawful | tests/cmocka/mstep/network_mstep.yaml:55-94 | the function_example message meets the laws that the pipeline theorems ask of a library |
| Example.ExampleSilent | tests/cmocka/mstep/network_mstep.yaml:55-94 | after any step, counted and summed payload or not, this network is silent until somebody acts |
| Example.ExampleNoEcho | tests/cmocka/mstep/network_mstep.yaml:55-94 | whatever is received, an accepted frame is not sent back |
| Example.AcceptedIff | dse/network/function.c:62-81 | a frame that brings something new is accepted iff the payload packed last validates, whatever its own checksum |
| Example.FrameShown | dse/network/model.c:188-238 | then each of its four signals ends on the channel, whatever its own checksum |
| Example.BadFrameChangesSignal | dse/network/model.c:188-238 | in the first step after creation a frame with a bad checksum changes a signal to 7 |
| Example.RejectedAnswered | dse/network/model.c:188-238 | a frame rejected because of the payload packed last is answered with the old bytes iff the network is on |
| Example.AnswerIs | tests/cmocka/mstep/network_mstep.yaml:83-94 | the answer counts on from the old alive byte, carries the old foo and bar, and validates |
| Example.RejectedShown | dse/network/model.c:188-238 | the channel then shows the answer if the network is on and its hash differs from the old payload's, otherwise what it showed before |
| Echo.SurvivesIff | dse/network/examples/stub/stub.c:230-278 | an unreadable received radius survives iff the value the models wrote is out of range, too |
| Echo.RadiusPacked | dse/network/examples/stub/stub.c:230-255 | the radius lies in bits 6 to 1 of the first byte, the rest is 0, and it is read back, cut to six bits |
| Echo.EchoedIff | dse/network/examples/stub/stub.c:230-278 | in any arithmetic: a received radius is sent back, changed, iff the network is on and what it, or out of range what the models wrote, encodes to is in range and another radius |
| Echo.InDoublesEchoedIff | dse/network/examples/stub/stub.c:265-273 | in doubles, of the radii in range exactly 43 is sent back, if the network is on |
| Echo.EchoedAs42 | dse/network/examples/stub/stub.c:265-273 | then the radius 42 is marshalled and sent |
| Echo.EchoedInDoubles | dse/network/model.c:175-243 | a first step after creation in which this happens, with a codec that computes as doubles do |
| Echo.InRealsNotEchoed | dse/network/examples/stub/stub.c:265-273 | in exact reals, no radius in range is sent back |
| Echo.EchoedInput | dse/network/model.c:175-243 | an input that is echoed in the first step after creation |
| ZeroHash.HashIsZero | dse/network/encoder.c:22-31 | the bytes cc 24 31 c4 hash to 0, the value of a reset checksum |
| ZeroHash.DueButNotSent | dse/network/engine.c:461-470 | at any point of any run, a cyclic message with that buffer is not sent, due or not |
| ZeroHash.DueStepIsSilent | dse/network/schedule.c:62-67 | a run with a step that is due and silent |
| Example.SentPayload | tests/cmocka/mstep/network_mstep.yaml:83-94 | what it sends validates, counts on from the alive byte, and carries the other signals |
| Cases.RejectedRun | dse/network/model.c:175-243 | a run of two steps in which a frame is rejected and answered, and the alive byte on the channel counts on |
| Cases.WrittenOver | dse/network/schedule.c:62-67 | after any run: a frame of zeros that brings a cyclic message nothing new overwrites what a model wrote |
| Cases.UnchangedRun | dse/network/schedule.c:62-67 | a run in which foo is written as 5 and ends as 0 for that reason |
| Cases.SevenHidden | dse/network/engine.c:461-470 | after any run, a frame with the bytes that the checksum stands for is in the buffer, but not on the channel |
| Cases.StaleRun | dse/network/engine.c:461-470 | a run in which foo is received as 7, written as 5, and received as 7 again, and stays 5 |
| Cases.LostBehindEmpty | dse/network/engine.c:29-33 | a network of two messages whose marshal list is empty although the second has a buffer and four signals |
| MuxExample.ContainerIsFirst | dse/network/examples/stub/network.yaml:182-212 | of the three messages with the id 600, frames go to the container |
| MuxExample.HeaderNames | dse/network/examples/stub/network.yaml:182-240 | 601 names the second, 602 the third, and no other number any message |
| MuxExample.MuxFrame | dse/network/encoder.c:48-86 | a frame with the header 601 or 602 changes that contained message, and not the other one |
| MuxExample.MuxTaken | dse/network/encoder.c:48-122 | it is taken in by that message, if new, among any frames with other ids |
| MuxExample.MuxOther | dse/network/encoder.c:48-122 | the other contained message is as it was after the whole reception |
| MuxExample.FooArrives | dse/network/model.c:188-238 | foo_double ends on the channel as the eight bytes after a header of 601, decoded |
| MuxExample.BarArrives | dse/network/model.c:188-238 | bar_float ends on the channel as the four bytes after a header of 602, decoded |
| MuxExample.FirstFoo | dse/network/model.c:148-243 | in the first step after creation the bits of 2.0 arrive as foo_double |
| Delivery.FrameTaken | dse/network/encoder.c:75-122 | a frame that is the only one with its id in the step is taken in, if it is new and the payload packed last passes the decode functions |
| Delivery.DispatchedTaken | dse/network/encoder.c:58-86 | so is, by a contained message, the only frame that its container dispatches to it |
| Delivery.TakenShown | dse/network/model.c:188-238 | what a message takes in ends on the channel, decoded, if it has no encode functions, or is sent on change and its members survive |
| Delivery.FrameArrives | dse/network/model.c:188-238 | both together: what such a frame holds in the member of a signal ends on the channel, decoded, whatever other frames arrive |
| Delivery.LastLoaded | dse/network/model.c:180-187 | a network signal takes the value of the last channel signal that maps to it |
| Delivery.Marshals | dse/network/engine.c:114-256 | in a step in which nothing received reaches the message, a member ends with what the channel value is encoded to, if that is in range |
| Delivery.Delivered | dse/network/model.c:175-243 | across two models: what the one writes, in a step that sends its message and in which nothing received reaches it, ends on the channel of the other as decode(encode(v)), if the frame is the only one with its id, new and accepted, its value in range, the member comes through, and the receiving message has no encode functions or its members survive |
| Delivery.OutputOnly | dse/network/encoder.c:130-142 | a sent message whose frame id no other sent message has writes the only frame with that id |
| Delivery.OutputDelivered | dse/network/model.c:175-243 | the same, if the other model receives all that the one writes in the step |
| Delivery.ExampleDelivered | tests/cmocka/mstep/network_mstep.yaml:55-94 | between two such networks foo and bar arrive as bytes, whatever is written, counter and checksum notwithstanding, if the frame is the only one with its id, new, and the receiver's payload packed last validates |

## Left out

- YAML parsing, dlopen and dlsym, NCodec internals, memory allocation and release, logging: the configuration, the frames of a step
  and the step times are inputs of the model, the library functions are functions in the configuration.
- `log_fatal` exits: encode functions return 0, decode functions 0 or `EBADMSG`.
- IEEE rounding: doubles are exact reals, so the tick counts of Clock and Cadence, and the codecs of Codecs but for the lemmas that name
  doubles or any arithmetic, are those of exact arithmetic. The pipeline theorems hold for any codecs. Floats and doubles in buffers
  are bit patterns.
- Doubles.TemperatureOneLost: is about one pattern; of the others it is known that they move by one step at most, and which do is
  told by the quotient that is computed (Codecs.TemperatureInAnyArithmetic), not by a closed condition on the pattern.
- Doubles: positive numbers, and exponents without bound; contraction of operations is not modelled.
- Conversions of a double outside the range of an integer type, which C leaves undefined: the model truncates and keeps the low bits;
  the mux id read from a signal is truncated to an unbounded integer.
- Library functions as functions of the memory they are given: the instance data of message functions caches the configured position
  and nothing else. A missing function of the message library, apart from `pack`, is not modelled.
- The struct size of `mux_message` in `dse/network/examples/stub/network.yaml:188` is 16, although `bar_float` lies at 16
  (`network.yaml:259`): MuxExample takes 24, as the generator lays that struct out.
- Malformed configurations that make the program access memory outside a buffer: the methods of `Net.Network` require members to fit.
- A contained message that is itself a container: configurations in which a message with a mux id has a mux signal are not valid here; in the
  program a header that decodes to the id of its own container would recurse without end.
- The end of the message array: the list builder runs past it when the last message has no buffer; the model stops.
- The advance of the model time at the end of a step: the time of each step is an input.
- `NULL` lists: an absent schedule or message list is an empty one.
- MarshalList.ItemOfSignal: for networks without empty buffers; with them MarshalList.LostSignals counts what is missing, and MarshalList.MessageListedIff says where.
- Runs.DueInFirstTicks: is about the first 2^32 ticks, because the tick counter wraps; Schedule.DueAtAny covers all.
- Clock.WrittenAtMultiples: is about the first 2^32 ms, because the tick counter wraps; Runs.Periodicity covers all runs.
- Clock.WrittenAtMilliseconds: likewise.
- Codecs.UnsignedRoundTrips: in exact reals; in doubles see Doubles.WholeSurvivesIff.
- Codecs.TemperatureRoundTrips: in exact reals; in doubles see Codecs.TemperatureInAnyArithmetic.
- Codecs.RadiusRoundTrips: in exact reals; in doubles see Codecs.RadiusInDoublesIff.
- Codecs.TemperatureWithinStep: in exact reals, and about the values whose encoding lies in the range; in doubles see
  Codecs.TemperatureNearStep. For values far outside int16_t the conversion is undefined in C.
- Codecs.RadiusWithinStep: in exact reals; in doubles see Codecs.RadiusNearStep.
- Codecs.TemperatureSurvives: in exact reals.
- The other messages of the example library: `signed_types` and `float_types` pack the same kind of bit patterns as `unsigned_types`
  (their casts keep the bits), and `scheduled_message` is a single bit; `example_message2` and `function_example` are modelled in Echo
  and Example, on bytes as numbers.
- Consecutive `|=` statements on neighbouring payload bytes are one call of `Stub.Or`, and source buffers of unpacking are sequences.
- In the generator: signal naming styles and the lower-casing of header names (`Layout.Role`), the AST, and the order in which Go walks
  a map. In the patch tool: function patches and csv reading.
- The brake-by-wire example, benchmarks, diagrams and build files.
