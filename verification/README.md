# A verified model of the camera, thermal, USB and audio cores

This project models, in Dafny 4.11, the parts of an Android hardware abstraction layer that
reach a simple promise by an indirect route, and proves the promise for every input or every
run. `dafny verify dfyconfig.toml` checks all of it.

- **YV12 scaler** (`Basics`, `ScalerPlane`, `Scaler`, `ScalerTheorems`, `ScalerResponse`): the loops with their
  two-slot line cache write exactly the samples of a scaler without a cache. Every sample reaches
  the caller exactly when the source width is a multiple of the alignment; then the output is Y,
  Cb, Cr without gaps, equal sizes copy the frame, and a flat plane grows by at most two. When
  the planes fit the scratch frame is an exact condition on the sizes and paddings.
- **NV21 frames** (`FrameCells`, `FrameConvert`, `FrameResample`, `Downscale`,
  `DownscaleTheorems`): exactly when the layout converters undo each other, `createMap` has a closed form, and the two downscalers give the same
  bytes for all frames exactly when width and height have one common integer ratio (with a
  further condition for odd heights).
- **Camera parameters** (`ParamMap`, `SizeText`, `CameraParams`, `ParamTexts`): every reachable parameter map
  survives its text form, and sizes and size lists survive printing and parsing.
- **Pointer queue** (`RingQueue`): a ring of heap nodes refines a bounded FIFO.
- **Thermal severities** (`ThermalSeverity`, `ThermalWatcher`, `ThermalCallbacks`,
  `ThermalListener`): when hysteresis holds a level, when a reading settles, what each callback
  receives over every run of registrations, removals and batches, and that a listener which stays
  registered knows the stored severity of every sensor it wants.
- **USB gadget** (`UsbGadget`): requests and monitor threads as interleaved steps.
- **Preview buffers** (`PreviewBuffers`) and **audio patches** (`AudioPatch`): ownership and handles
  over every run.
- **camera3 requests** (`ShutterTimes`, `ShutterOrder`, `CameraRequests`, `CameraShutter`,
  `CameraInflight`):
  framework calls and completions of several cameras as interleaved steps; exactly when shutter
  times increase, what the in-flight counter counts, and exactly when it can become negative.

Code that works in place is a method on arrays or on an object, proved against a function of the
old state; the theorems are lemmas about that function. The USB gadget and the camera completions,
whose point is the interleaving of threads, are state machines over their steps.

Where a promise does not hold for all inputs, the project states exactly when it does:

- The scaler derives the row padding from the source width but applies it to the output, so with an
  unaligned source width the end of Cr is never copied (`ScalerTheorems.DeliveryIff`). With a much
  wider source the planes do not even fit the scratch frame of three times the output size, which
  the source overruns: 18x2 to 2x2 with alignment 16 writes 41 bytes into 18
  (`ScalerTheorems.ScratchFitsIff`, `ScalerTheorems.ScratchOverrun`).
- The planar chroma planes of an odd width run into each other from height 6 on, and an interleaved
  frame of that size does not come back from the planar format (`FrameCells.RestoresIff`).
- The caller chooses the integer downscaler when each size divides its own; if the two ratios
  differ the picture is cropped instead of scaled (`DownscaleTheorems.CallerTestIsWeaker`).
- `OSAL_QueueSetElem` compares with the oldest element only, so it can store a pointer twice
  (`RingQueue.SetElemDistinctIff`).
- With hysteresis 0, the parser's default, a reading right at a threshold can undershoot once
  (`ThermalSeverity.AlwaysSettlesIff`). With overlapping bands a falling temperature can raise the
  severity (`ThermalSeverity.KeepsIff`).
- Releasing patch handle 0 succeeds on any stream without a patch, again and again
  (`AudioPatch.SecondReleaseFailsIff`).
- All cameras share one static last shutter time without a lock. Completions of two cameras that
  both read it before either writes it send the same time, so do two that write one after the other
  if the first reads the time to send only then, and a lost update can turn a camera's own times back
  (`CameraShutter.TwoCamerasRepeat`, `CameraShutter.TwoCamerasReload`,
  `CameraShutter.OwnTimesRewind`). The times increase for every sensor exactly when the completions
  take turns: of any two, the one that sends first has written when the other compares, and has read
  again when the other writes (`CameraShutter.AllTimesIncreaseIff`).
- A completion that arrives after a close and a new open makes the in-flight counter negative. As
  long as no two updates of the counter overlap, this cannot happen after an open exactly when no
  request is pending at it (`CameraInflight.OpenSafeIff`). Two threads update the counter without a
  common lock, and with overlapping updates it can always happen
  (`CameraInflight.OverlapGoesNegative`).

## Model

| member | source | states |
|---|---|---|
| ScalerPlane.FilterSamples | camera/1_0/scaler.c:72-113 | the filter loop leaves the clamped 4-tap samples of the line, from index 2 of the scratch line on |
| ScalerPlane.HorFilter | camera/1_0/scaler.c:63-120 | one destination line holds the filtered source line; nothing else changes |
| ScalerPlane.FetchLines | camera/1_0/scaler.c:161-202 | after the cache lookups both offsets hold the filtered lines asked for, and each slot still holds the line it is tagged with: filling the second never damages the first |
| ScalerPlane.BlendRow | camera/1_0/scaler.c:204-212 | the row is the 2-tap blend of the two lines; other bytes are unchanged |
| ScalerPlane.ScaleRow | camera/1_0/scaler.c:147-214 | one output row through the cache equals the blend of the cache-free filtered lines, whatever the slots held before |
| ScalerPlane.ScalePlane | camera/1_0/scaler.c:147-214 | every cell of the plane equals the cache-free sample; earlier bytes are unchanged |
| Scaler.ScalePlanes | camera/1_0/scaler.c:132-384 | the Y, Cb and Cr loops into the scratch frame and the final copy deliver every sample that lies inside the output, whenever the planes fit the scratch frame, with `pdst` allowed to be `psrc` |
| Scaler.Scale | camera/1_0/scaler.c:387-422 | the whole conversion with the ratios and coefficients it computes, whenever the planes fit the scratch frame; bytes after the output size are unchanged |
| ScalerTheorems.TableBalanced | camera/1_0/scaler.c:5-38 | the table rows in use sum to 256..258, the vertical weights are non-negative and sum to 256, and phase 0 is the unit filter |
| ScalerTheorems.VerBlendBetween | camera/1_0/scaler.c:204-212 | the vertical blend lies between its two inputs |
| ScalerTheorems.FlatPlane | camera/1_0/scaler.c:105-112 | a plane of constant c gives samples between c and min(255, c + 2), for every pair of sizes |
| ScalerTheorems.NeededEven | camera/1_0/scaler.c:142-145 | an even output needs its size plus a luma padding for each row and a chroma padding for each row but the last |
| ScalerTheorems.ScratchFitsIff | camera/1_0/scaler.c:134-134 | for even outputs all written cells lie inside the scratch frame if and only if those paddings are at most three times the output pixels |
| ScalerTheorems.ScratchOverrun | camera/1_0/scaler.c:134-134 | a conversion that the source accepts and that writes 41 bytes into a scratch frame of 18 |
| ScalerTheorems.DeliveryIff | camera/1_0/scaler.c:142-145 | for even output sizes every sample of all planes reaches the caller if and only if the source width is a multiple of the alignment |
| ScalerTheorems.LastSampleLost | camera/1_0/scaler.c:380-380 | with an unaligned source width the last Cr sample lies past the copied bytes |
| ScalerTheorems.PackedFrame | camera/1_0/scaler.c:238-378 | with an aligned source width the output is Y, Cb, Cr row by row without gaps |
| ScalerTheorems.IdentityFrame | camera/1_0/scaler.c:403-420 | at equal, even and aligned sizes the output is the source frame |
| ScalerResponse.HorImpulse | camera/1_0/scaler.c:72-113 | the response of the horizontal filter to one bright sample: the four coefficients of the phase weigh the samples before, at, after and two after the base, with the edge samples repeated |
| ScalerResponse.HorInterior | camera/1_0/scaler.c:77-110 | away from the edges each of the four samples answers with its own coefficient and all others with 0 |
| ScalerResponse.HorEdgeExample | camera/1_0/scaler.c:77-110 | three samples computed by hand, among them a black and a white sample doubled in width |
| ScalerResponse.VerImpulse | camera/1_0/scaler.c:150-212 | the response of the vertical filter to one source line: first weight if it is the base line, second if it is the one below, the last line repeated |
| ScalerResponse.HorizontalSymmetric | camera/1_0/scaler.c:5-38 | the filter of phase 16 - k is that of phase k read backwards |
| ScalerResponse.HorizontalMoves | camera/1_0/scaler.c:5-38 | from phase to phase the left weight falls and the right one rises |
| ScalerResponse.VerticalWeights | camera/1_0/scaler.c:411-415 | the vertical weights of phase k are 256 - 8k and 8k |
| ScalerResponse.RatioNearest | camera/1_0/scaler.c:418-419 | the ratio is the nearest integer to 256 times the quotient of the sizes |
| ScalerResponse.PlaneRatios | camera/1_0/scaler.c:147-378 | all planes use the nearest ratio of the widths across and of the heights down |
| ScalerResponse.PlanesInSource | camera/1_0/scaler.c:142-145 | the source planes follow each other, rows padded to the least multiple of the alignment |
| FrameConvert.Nv12ToYvu420 | camera/1_0/CallbackNotifier.cpp:182-206 | for all sizes: luma copied, first chroma byte of each pair to the first plane, second to the second unless the first plane has a cell there; for even widths the exact frame; other bytes unchanged |
| FrameConvert.Nv21ToYvu420 | camera/1_0/CallbackNotifier.cpp:208-230 | for all sizes: luma copied, second chroma byte of each pair to the first plane, first to the second unless the first plane has a cell there; for even widths the exact frame; other bytes unchanged |
| FrameConvert.Yvu420ToNv21 | camera/1_0/CallbackNotifier.cpp:232-256 | for all sizes: luma copied, planes interleaved; for even widths the exact frame; other bytes unchanged |
| FrameConvert.MergeAfterSplit | camera/1_0/CallbackNotifier.cpp:208-256 | YVU420ToNV21 undoes NV21ToYVU420 on every frame without gaps |
| FrameConvert.SplitAfterMerge | camera/1_0/CallbackNotifier.cpp:208-256 | NV21ToYVU420 undoes YVU420ToNV21 on every frame without gaps |
| FrameConvert.MergeAfterNv12Split | camera/1_0/CallbackNotifier.cpp:182-256 | YVU420ToNV21 after NV12ToYVU420 swaps each chroma pair of a frame without gaps and changes nothing else |
| FrameCells.RestoresIff | camera/1_0/CallbackNotifier.cpp:182-256 | every interleaved frame comes back from the planar format (pairs swapped for NV12) if and only if the width is even, there is no chroma column, or the height is below 6 |
| FrameCells.PlanarRestored | camera/1_0/CallbackNotifier.cpp:208-256 | for all sizes every planar frame comes back from the interleaved format |
| FrameCells.SplitBytes | camera/1_0/CallbackNotifier.cpp:198-205 | every chroma byte of a split frame in terms of the loops' index expressions |
| FrameCells.MergeBytes | camera/1_0/CallbackNotifier.cpp:246-254 | every chroma byte of a merged frame in terms of the loops' index expressions |
| FrameCells.PlanesMeet | camera/1_0/CallbackNotifier.cpp:198-205 | for odd widths from height 6 on some cell of the first plane lies on a cell of the second |
| FrameResample.CreateAxisMap | camera/1_0/CallbackNotifier.cpp:265-278 | the incremental loop stores ceil(j * s / d) when d <= s; when d > s it stores j for j < s and leaves 0 behind |
| FrameResample.MapShape | camera/1_0/CallbackNotifier.cpp:258-290 | for 0 < d <= s the map starts at 0, is strictly increasing and stays below s |
| FrameResample.MapIsScaleIff | camera/1_0/CallbackNotifier.cpp:258-290 | for k <= s / d the map multiplies by k if and only if s = k * d or there is one entry |
| Downscale.CreateMap | camera/1_0/CallbackNotifier.cpp:258-290 | both axes of the map |
| Downscale.DownNearest | camera/1_0/CallbackNotifier.cpp:361-400 | fails exactly when a size would grow; else the output is the frame sampled through the nearest maps, every read inside its source plane |
| Downscale.DownScale | camera/1_0/CallbackNotifier.cpp:294-359 | fails exactly when a size would grow; else the output is the frame sampled with the common integer ratio, or cropped |
| DownscaleTheorems.NearestLuma | camera/1_0/CallbackNotifier.cpp:379-387 | every luma byte of the nearest downscaler: row and column rounded up |
| DownscaleTheorems.NearestChroma | camera/1_0/CallbackNotifier.cpp:389-397 | every chroma byte of it: pairs kept, row and column rounded up among the pairs |
| DownscaleTheorems.ScaledLumaByte | camera/1_0/CallbackNotifier.cpp:343-349 | every luma byte of the integer downscaler: multiples of the common ratio, or of 1 |
| DownscaleTheorems.ScaledChromaByte | camera/1_0/CallbackNotifier.cpp:350-356 | every chroma byte of it, pairs kept |
| DownscaleTheorems.UnequalRatiosCrop | camera/1_0/CallbackNotifier.cpp:317-341 | if the two ratios differ the integer downscaler copies the top left corner |
| DownscaleTheorems.DownscalersAgreeIff | camera/1_0/CallbackNotifier.cpp:294-400 | both downscalers give the same bytes for every frame if and only if width and height have the same exact integer ratio and, for odd heights from 5 on, it is 1 (or there is one row of full width) |
| DownscaleTheorems.CallerTestIsWeaker | camera/1_0/CallbackNotifier.cpp:1199-1206 | the caller's test admits 640x480 to 320x480, for which the two disagree |
| ParamMap.AddCorrect | camera/1_0/CameraParameters.cpp:238-252 | adding keeps the map sorted and changes the value of one key only |
| ParamMap.RemoveCorrect | camera/1_0/CameraParameters.cpp:291-294 | removing keeps the map sorted and drops one key only |
| ParamMap.UnflattenGood | camera/1_0/CameraParameters.cpp:205-235 | whatever the text, the parsed map is sorted, no key contains `=` and no value contains `;` |
| ParamMap.RoundTripIff | camera/1_0/CameraParameters.cpp:185-235 | a sorted map survives flatten and unflatten if and only if no key contains `=` and no value contains `;` |
| ParamMap.ReachableRoundTrip | camera/1_0/CameraParameters.cpp:185-294 | every map reached by any run of set, remove and unflatten survives its text form |
| ParamMap.StrLessIs | camera/1_0/CameraParameters.cpp:185-203 | the order of the keys: a beginning comes first, else the smaller first different character |
| ParamMap.LookupIs | camera/1_0/CameraParameters.cpp:268-274 | a value is found exactly if the map holds it under that key |
| ParamTexts.PairsRead | camera/1_0/CameraParameters.cpp:205-235 | the key ends at the first `=`, the value at the next `;`, and parsing goes on behind it |
| ParamTexts.LastPairCounts | camera/1_0/CameraParameters.cpp:205-235 | of several pairs with one key the last one counts |
| ParamTexts.SizeTexts | camera/1_0/CameraParameters.cpp:347-352 | how sizes and lists of sizes are printed, character by character |
| ParamTexts.MalformedList | camera/1_0/CameraParameters.cpp:322-345 | a list ends at the first malformed pair and keeps the sizes before it |
| ParamTexts.SpacesAndSign | camera/1_0/CameraParameters.cpp:297-309 | `strtol` skips white space and takes a plus sign |
| CameraParams.GetSizeIs | camera/1_0/CameraParameters.cpp:354-361 | a size is the pair in its text, and -1x-1 without a text or with one that is no pair |
| CameraParams.CameraParameters.FlattenText | camera/1_0/CameraParameters.cpp:185-203 | the loop prints the flattened map, and parsing the text gives the map back |
| CameraParams.CameraParameters.UnflattenText | camera/1_0/CameraParameters.cpp:205-235 | the loop stores the parsed map and establishes the invariant |
| CameraParams.CameraParameters.Set | camera/1_0/CameraParameters.cpp:238-252 | ignores keys and values with `=` or `;`, else replaces one value; the invariant is kept |
| CameraParams.CameraParameters.RemoveKey | camera/1_0/CameraParameters.cpp:291-294 | drops one key; the invariant is kept |
| CameraParams.CameraParameters.SetPreviewSize | camera/1_0/CameraParameters.cpp:347-361 | reading back gives the same pair, video and picture sizes are unchanged |
| CameraParams.CameraParameters.SetVideoSize | camera/1_0/CameraParameters.cpp:377-390 | reading back gives the same pair, the other sizes are unchanged |
| CameraParams.CameraParameters.SetPictureSize | camera/1_0/CameraParameters.cpp:426-440 | reading back gives the same pair, the other sizes are unchanged |
| CameraParams.SizeReadBack | camera/1_0/CameraParameters.cpp:347-361 | a stored size is read back for every pair of 32-bit ints, and other keys keep theirs |
| CameraParams.SizesReadBack | camera/1_0/CameraParameters.cpp:371-375 | a stored list of sizes is read back, the empty list included |
| CameraParams.PrintSizeFits | camera/1_0/CameraParameters.cpp:347-352 | the size text and its terminator fit the 32-byte buffer |
| SizeText.ParsePrinted | camera/1_0/CameraParameters.cpp:297-320 | parse_pair reads back what `%dx%d` printed and stops right after it, for all 32-bit pairs and any text behind |
| SizeText.SizesRoundTrip | camera/1_0/CameraParameters.cpp:322-345 | every non-empty list of sizes is recovered from its comma-joined text |
| SizeText.ParseSizesList | camera/1_0/CameraParameters.cpp:322-345 | the loop appends the sizes up to the first malformed pair |
| RingQueue.FifoOrder | camera/1_0/OSAL_Queue.c:83-181 | over every history of calls and results, the pointers handed out are the first part of those whose insertion returned 0 and was not skipped, and the rest is held, within the capacity |
| RingQueue.HeldStep | camera/1_0/OSAL_Queue.c:83-181 | what one more call makes of what is held |
| RingQueue.SetElemDistinctIff | camera/1_0/OSAL_Queue.c:150-181 | SetElem keeps a duplicate-free queue duplicate-free if and only if it is full, empty, or does not hold the pointer behind its oldest element |
| RingQueue.SetElemMayDuplicate | camera/1_0/OSAL_Queue.c:164-173 | three calls that store a pointer twice |
| RingQueue.OsalQueue.Create | camera/1_0/OSAL_Queue.c:10-55 | builds the closed ring of the right size, or on allocation failure frees what it allocated, each node once |
| RingQueue.OsalQueue.Terminate | camera/1_0/OSAL_Queue.c:57-81 | frees every node of the ring exactly once |
| RingQueue.OsalQueue.Enqueue | camera/1_0/OSAL_Queue.c:83-101 | returns 0 and appends the pointer, or -1 exactly when full; the filled nodes stay the numElem nodes from `first` and hold what the calls so far leave in a FIFO |
| RingQueue.OsalQueue.Take | camera/1_0/OSAL_Queue.c:103-123 | returns and removes the oldest element, NULL exactly when empty |
| RingQueue.OsalQueue.EnqueueUnlessHead | camera/1_0/OSAL_Queue.c:150-181 | returns 0 and appends the pointer unless it equals the oldest element, or -1 exactly when full |
| ThermalSeverity.GetSeverityFromThresholds | thermal/thermal-helper.cpp:333-372 | hot: if no threshold from the previous level up is reached, the greatest level whose threshold less hysteresis lies below the reading, else the greatest level whose threshold is reached; cold: the same with all signs changed |
| ThermalSeverity.NextIs | thermal/thermal-helper.cpp:345-371 | the new level of one direction in terms of thresholds and hysteresis |
| ThermalSeverity.KeepsIff | thermal/thermal-helper.cpp:345-369 | with ascending thresholds a level is kept by every reading in its band if and only if it has no hysteresis or no higher band starts below its threshold |
| ThermalSeverity.OverlapJumps | thermal/thermal-helper.cpp:351-366 | with overlapping bands a reading inside the band of a level raises it |
| ThermalSeverity.SettlesIff | thermal/thermal-helper.cpp:364-369 | repeating a reading is a fixed point for every previous level if and only if its level is not above its hysteresis level, or is SHUTDOWN |
| ThermalSeverity.AlwaysSettlesIff | thermal/thermal-helper.cpp:345-371 | for every band, every reading settles if and only if no level below SHUTDOWN lacks hysteresis at a threshold where no higher level is reached or held |
| ThermalSeverity.OrderedSettlesIff | thermal/thermal-helper.cpp:345-371 | with bands in order that is: every level below SHUTDOWN with a threshold has positive hysteresis |
| ThermalSeverity.DefaultHysteresisUndershoots | thermal/utils/config_parser.cpp:112-115 | with hysteresis 0 a fall to the MODERATE threshold reports NONE first and MODERATE for the same reading again |
| ThermalWatcher.ThermalHelper.ReadTemperature | thermal/thermal-helper.cpp:265-310 | computes the new levels of a monitored sensor from the stored ones, NONE for others, the severity being the larger level, and stores nothing |
| ThermalWatcher.ThermalHelper.CheckSensor | thermal/thermal-helper.cpp:556-604 | one sensor makes one step: filter, read, store, notify on change |
| ThermalWatcher.ThermalHelper.WatcherCallback | thermal/thermal-helper.cpp:553-610 | every sensor makes exactly one step, the batch is in map order, and fast polling is asked for exactly when some throttled sensor was skipped or read; status map and batches stay those of the run so far |
| ThermalWatcher.SensorStep | thermal/thermal-helper.cpp:556-599 | nothing happens to a sensor unless it is monitored, passes the uevent filter and can be read; then both levels follow the reading, and a notification is sent exactly if the larger level changes |
| ThermalWatcher.RunConsistent | thermal/thermal-helper.cpp:181-187 | over every run the stored severity is the larger stored level, replaying the notifications gives it, and every notification changes what a listener knows |
| ThermalWatcher.ConsecutiveDiffer | thermal/thermal-helper.cpp:595-598 | two consecutive notifications of a sensor differ, and the first is not NONE |
| ThermalWatcher.BatchPerSensor | thermal/thermal-helper.cpp:553-610 | a batch holds for each sensor exactly the notification of its own step |
| ThermalWatcher.BatchesPerSensor | thermal/thermal-helper.cpp:553-610 | over every run of the watcher all batches together hold for each sensor exactly its own notifications |
| ThermalWatcher.QuietInBands | thermal/thermal-helper.cpp:586-599 | while all readings stay in the bands of the current levels nothing changes and nothing is sent |
| ThermalWatcher.QuietOnRepeat | thermal/thermal-helper.cpp:586-599 | once taken, a reading that settles can be repeated without any notification |
| ThermalCallbacks.Thermal.Register | thermal/Thermal.cpp:171-198 | refuses null and known callbacks, else appends; callbacks stay pairwise distinct, and registry and log stay those of the run so far |
| ThermalCallbacks.Thermal.Unregister | thermal/Thermal.cpp:200-235 | removes the callback, and reports failure exactly when it was not registered; registry and log stay those of the run so far |
| ThermalCallbacks.Thermal.Deliver | thermal/Thermal.cpp:244-255 | one temperature: attempts in order, failures dropped |
| ThermalCallbacks.Thermal.Send | thermal/Thermal.cpp:237-257 | a batch: the registry and the delivery log after it, which stay those of the run so far |
| ThermalCallbacks.BatchDelivery | thermal/Thermal.cpp:237-257 | within one batch each registered callback receives exactly its matching temperatures in order, up to and including its first failure |
| ThermalCallbacks.UnknownGetsNothing | thermal/Thermal.cpp:237-257 | a callback that is not registered receives nothing from a batch |
| ThermalCallbacks.SurvivorsInOrder | thermal/Thermal.cpp:244-255 | the registry after a batch is the old one without the failed callbacks, in the old order |
| ThermalCallbacks.ReceivedSinceRegistration | thermal/Thermal.cpp:171-257 | over every run, what a callback received since its registration is exactly the matching temperatures of all later batches, in order, up to its unregistration or up to and including its first failure |
| ThermalCallbacks.SilentUntilRegistered | thermal/Thermal.cpp:171-257 | over every run nothing reaches a callback that is not registered until it registers |
| ThermalCallbacks.OneTemperature | thermal/Thermal.cpp:244-255 | a registered callback receives a temperature exactly if it has no filter or one for that kind, and is dropped exactly if that delivery fails |
| ThermalCallbacks.OnlyWantedDelivered | thermal/Thermal.cpp:171-257 | over every run nothing is delivered that was not sent, and nothing to a callback that did not register without a filter or for that kind |
| ThermalCallbacks.RunDistinct | thermal/Thermal.cpp:171-257 | callbacks stay pairwise distinct over every run |
| ThermalListener.ListenerKnows | thermal/Thermal.cpp:237-257 | a callback that registers at any time and keeps listening receives exactly the later notifications of every sensor it wants, and replaying them on the severity stored at its registration gives the stored severity |
| UsbGadget.StepInv | usb/UsbGadget.cpp:93-183 | every step of a request or a monitor keeps the invariant on threads, lock, stop event, pull-up and callbacks |
| UsbGadget.RunInv | usb/UsbGadget.cpp:241-753 | the invariant holds in every state of every interleaving |
| UsbGadget.AtMostOneMonitor | usb/UsbGadget.cpp:257-275 | at most one monitor runs, and none while functions are set up |
| UsbGadget.ExactlyOneCallback | usb/UsbGadget.cpp:699-753 | every finished request got exactly one callback if it passed one, else none |
| UsbGadget.SuccessIsOwn | usb/UsbGadget.cpp:527-553 | an ffs request reports SUCCESS only if a monitor that this request started wrote the UDC earlier in the run |
| UsbGadget.ToldIs | usb/UsbGadget.cpp:527-753 | every finished request with a callback was told the failure it met, SUCCESS for no functions or a pull-up of its own that worked, and after waiting for ffs SUCCESS if and only if a monitor it had started had reported the pull-up by then |
| UsbGadget.AppliedIff | usb/UsbGadget.cpp:703-705 | `mCurrentUsbFunctionsApplied` is set exactly if there was a pull-up, by a request or reported by a monitor, since the last request began |
| UsbGadget.NewMonitorMayWrite | usb/UsbGadget.cpp:93-120 | a new monitor can write the UDC at once if the endpoints are there, else as soon as they come |
| UsbGadget.RewriteNeedsAbsence | usb/UsbGadget.cpp:149-172 | after a report a monitor writes the UDC again only after it has seen the endpoints missing |
| UsbGadget.AbsenceAllowsRewrite | usb/UsbGadget.cpp:149-172 | having seen them missing it can write as soon as they are back |
| UsbGadget.JoinNeverBlocks | usb/UsbGadget.cpp:257-271 | during the join the request does not hold the lock the monitor needs, and the monitor's next step is enabled and brings its exit closer |
| UsbGadget.JoiningStep | usb/UsbGadget.cpp:121-180 | while teardown waits every other step is the monitor's, each but an endpoint event brings its exit closer, and serving the event fd ends it |
| UsbGadget.JoinReached | usb/UsbGadget.cpp:257-271 | every schedule reaches the join: a bounded number of steps, three more for each endpoint event, or one that serves the event fd |
| UsbGadget.NoDeadlock | usb/UsbGadget.cpp:699-753 | a request in progress can always make a step, or the monitor it waits for can |
| PreviewBuffers.PreviewWindow.Allocate | camera/1_0/PreviewWindow.cpp:169-230 | the slots taken before the first failure are owned and the window holds the rest of the pool; when all succeed it holds none of it |
| PreviewBuffers.PreviewWindow.ShowFrame | camera/1_0/PreviewWindow.cpp:380-434 | every buffer stays with exactly one side, the counter is the number of buffers out and at most the minimum; a buffer comes back exactly when the window had its minimum already |
| PreviewBuffers.PreviewWindow.Deallocate | camera/1_0/PreviewWindow.cpp:232-262 | cancels exactly the owned buffers, each once |
| PreviewBuffers.PreviewWindow.WindowCanAnswer | camera/1_0/PreviewWindow.cpp:410-411 | when a buffer is asked back the window holds one |
| PreviewBuffers.ListedOnce | camera/1_0/PreviewWindow.cpp:244-259 | no buffer is cancelled twice |
| AudioPatch.RunKeeps | audio/hal/audio_hw.c:2568-2761 | over every run non-zero patch handles are pairwise distinct over all streams and never exceed the counter |
| AudioPatch.NewHandle | audio/hal/audio_hw.c:2660-2664 | a handle handed out is new, above all earlier ones, and recorded on a stream |
| AudioPatch.ReleaseOnce | audio/hal/audio_hw.c:2730-2761 | releasing a recorded non-zero handle clears it from exactly one stream and nothing else, and releasing it again finds nothing |
| AudioPatch.SecondReleaseFailsIff | audio/hal/audio_hw.c:2730-2761 | after a successful release a second one fails if and only if the handle is not 0 |
| AudioPatch.CreateFromMix | audio/hal/audio_hw.c:2668-2726 | a patch from a mix routes the first output stream with its handle to the devices of all sinks and records the patch; nothing else changes |
| AudioPatch.CreateFromDevice | audio/hal/audio_hw.c:2668-2726 | a patch from a device routes the first input stream with the mix's handle to it and records the patch; nothing else changes |
| AudioPatch.ReleaseIs | audio/hal/audio_hw.c:2730-2761 | a release clears handle and devices of the first output stream with the handle, else of the first input stream |
| AudioPatch.RemoveIdIs | audio/hal/audio_hw.c:2124-2135 | closing removes the first stream with the identity |
| AudioPatch.AudioDevice.CreatePatch | audio/hal/audio_hw.c:2624-2728 | new device state and handle for valid and invalid ports, known and unknown streams, given and generated handles |
| AudioPatch.AudioDevice.ReleasePatch | audio/hal/audio_hw.c:2730-2761 | new device state; succeeds exactly when a stream records the handle |
| AudioPatch.FindByHandle | audio/hal/audio_hw.c:2568-2594 | the first stream with the io handle |
| AudioPatch.FindByPatch | audio/hal/audio_hw.c:2596-2622 | the first stream with the patch handle |
| ShutterTimes.LaterIff | camera/3_4/camera.cpp:456-475 | a completion sends a later time than another for every sensor if and only if whatever it may send is built on whatever the other may send |
| ShutterOrder.IncreaseIff | camera/3_4/camera.cpp:456-501 | the times of a set of requests are sent in strictly increasing order for every sensor if and only if each is built in this sense on those sent before |
| ShutterOrder.TurnsIff | camera/3_4/camera.cpp:456-501 | when every completion that started has sent, the times sent increase for every sensor if and only if of any two the one that sent first had written when the other compared and had read again when the other wrote |
| ShutterOrder.SerialIncreases | camera/3_4/camera.cpp:456-501 | completions one after the other send positive, strictly increasing times |
| ShutterOrder.OverlapRepeats | camera/3_4/camera.cpp:463-472 | two completions that read before either writes send the same time |
| ShutterOrder.ReloadRepeats | camera/3_4/camera.cpp:463-472 | two completions that write one after the other send the same time if the first reads again after the second has written |
| ShutterOrder.LostUpdateRewinds | camera/3_4/camera.cpp:463-472 | a lost update after which the next time is smaller than the last |
| CameraShutter.AllTimesIncreaseIff | camera/3_4/camera.cpp:429-511 | over every run of all cameras: the exact condition of TurnsIff |
| CameraShutter.OwnTimesIncreaseIff | camera/3_4/camera.cpp:429-511 | over every run: the exact condition of IncreaseIff for the times of one camera |
| CameraShutter.ShutterTimesIncrease | camera/3_4/camera.cpp:429-511 | over every run in which no camera accesses the last time while another is between comparing and sending, the times are positive and strictly increasing, whatever the metadata |
| CameraShutter.OneCameraIsSerial | camera/3_4/v4l2_camera_hal.cpp:208-220 | in a run of one camera no completions overlap |
| CameraShutter.TwoCamerasRepeat | camera/3_4/v4l2_camera.cpp:1513-1558 | two cameras about to compare with the last time can always go on to send the same time |
| CameraShutter.TwoCamerasReload | camera/3_4/v4l2_camera.cpp:1513-1558 | they can do so even if one writes before the other compares |
| CameraShutter.OwnTimesRewind | camera/3_4/v4l2_camera.cpp:1513-1558 | with a second camera about to compare, a camera can go on to send a smaller time than its last |
| CameraRequests.RunKeeps | camera/3_4/v4l2_camera.cpp:1513-1578 | over every run each completion works on an accepted request of its own camera and compares, reads, writes, reads again and sends once, in this order |
| CameraRequests.EmptyRequestIff | camera/3_4/camera.cpp:366-408 | a well-formed request without settings is accepted if and only if a request with settings was accepted before by the same camera, with no successful configureStreams in between |
| CameraRequests.BusyIff | camera/3_4/camera.cpp:71-164 | a camera is busy exactly from a successful open to the next successful close |
| CameraRequests.ConnectedIff | camera/3_4/camera.cpp:146-231 | completions are taken exactly from a configuration that passes validation to the next successful close, and dropped otherwise |
| CameraRequests.ClosedBetweenOpens | camera/3_4/camera.cpp:77-80 | a camera that was opened and is not busy any more was closed in between, so two successful opens have a successful close between them |
| CameraRequests.ClosedIsSilent | camera/3_4/camera.cpp:433-437 | after a close every completion is dropped until a configuration passes validation |
| CameraRequests.CompletionAlone | camera/3_4/camera.cpp:429-511 | the steps of a completion that nothing comes between have the effect of the method below |
| CameraRequests.Camera.ProcessCaptureRequest | camera/3_4/camera.cpp:337-427 | return code and new state of a request that nothing comes between, with the first failing fence ending it |
| CameraRequests.Camera.CompleteRequest | camera/3_4/camera.cpp:429-511 | what the framework is told, the new last timestamp, and when the result's metadata agrees with the shutter time |
| CameraInflight.InflightIs | camera/3_4/camera.cpp:410-413 | over every run in which no two updates of the counter overlapped since the last open, the counter is the number of requests accepted since then and unanswered, less the answers since then to requests from before it |
| CameraInflight.NeverNegative | camera/3_4/camera.cpp:88-91 | without overlapping updates the counter is not negative if no request was pending at the last open |
| CameraInflight.PendingGoesNegative | camera/3_4/camera.cpp:590-595 | a request pending at an open can be answered after it, which takes the counter to -1 without overlapping updates |
| CameraInflight.OpenSafeIff | camera/3_4/camera.cpp:71-96 | without overlapping updates the counter can never become negative between an open and the next one if and only if no request is pending at the open |
| CameraInflight.OverlapGoesNegative | camera/3_4/camera.cpp:410-413 | with overlapping updates the counter can always become negative: a request submitted while a completion is between reading and writing it is not counted |

## Left out

- 32-bit overflow of index products, of the patch counter and of the timestamp: the integers of the model are unbounded, and the results hold as long as the program's do not overflow.
- ScalerPlane.ScaleRow: the masks of scaler.c:142-145 are modelled as rounding up to a multiple, which is what they compute for the powers of two that are required.
- Scaler.ScalePlanes: planes that do not fit the scratch frame, which the source overruns; what is written outside a buffer is not modelled.
- Scaler.Scale: outputs whose planes do not fit the scratch frame (`ScalerTheorems.ScratchFitsIff` says which); formats other than 0, and alignment 1, for which the source computes a chroma stride of 0.
- Downscale.DownNearest: odd destination widths, for which the source reads a map entry it never filled and its two-byte stores pass the end of a row.
- Downscale.DownScale: odd destination widths, for which the two-byte stores pass the end of a row; and `yuv420pDownScale_align`, whose chroma base ignores the stride.
- SizeText.ParsePrinted: `strtol` saturates at 64 bits here; a 32-bit `long` saturates earlier, outside the range of the round trip.
- CameraParams.CameraParameters.Set: the `int` and `float` setters and getters, and texts with an embedded terminator.
- RingQueue.OsalQueue.Enqueue: NULL data, which the source stores as an empty node, and `OSAL_SetElemNum`, which overwrites the count freely; the mutex itself.
- RingQueue.OsalQueue.EnqueueUnlessHead: NULL data, as above.
- ThermalSeverity.GetSeverityFromThresholds: floating-point rounding; temperatures are reals and a missing threshold is an option.
- ThermalWatcher.ThermalHelper.WatcherCallback: sysfs reads are inputs; cooling devices, CPU usage and the JSON parser are not modelled.
- UsbGadget.RunInv: a failing write to the event fd, for which the source waits forever; configfs contents, VID/PID tables and vendor functions; `mCurrentUsbFunctionsApplied` says nothing of the current request, since an old monitor can set it late.
- PreviewBuffers.PreviewWindow.ShowFrame: failing locks, unlocks and dequeues; a single allocated buffer, for which the window has buffers outside the table; the frame copies.
- AudioPatch.AudioDevice.CreatePatch: device selection in ALSA, `adev->out_devices` and the stream locks.
- CameraRequests.Camera.CompleteRequest: the method is a completion that nothing comes between; interleavings are the subject of `ShutterTimes`, `ShutterOrder` and `CameraShutter`. There the read of the last time that only goes into the result's metadata is not a step.
- Flushing and disconnecting the V4L2 device, request templates and static metadata.
- CameraHardware2, platform XML, power, memtrack, Libve_Decoder2 and sound trigger code: long branch lists, I/O or thin wrappers.
