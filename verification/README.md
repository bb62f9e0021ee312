# hypr-rdp in Dafny

hypr-rdp serves a Hyprland screen over RDP. This project models the parts of it that have to be
right in every run, and proves what they are for.

- **Frame delivery** (`Damage`, `FrameDelivery`, `FrameRuns`). Captured damage is merged, compared
  tile by tile with a reference of what the client holds, sent, and only then committed. A ghost
  client picture changes when a send is accepted or a channel event makes it unknown. No run commits
  an unsent pixel; with nothing pending the client shows the latest frame exactly where no chroma was dropped
  since the pixel was last painted; every delivery took a way that the channel allows; and whatever is
  held back has an excuse, so that favourable answers leave nothing pending.
- **ClearCodec** (`ClearCodec`, `ClearCodecLatch`). Damage becomes an exact disjoint cover of small
  rectangles, and a frame that was not wholly enqueued is the last one.
- **AVC444v2** (`Avc444Layout`, `Avc444Regions`, `Avc444Conversion`, `Avc444Buffers`,
  `Avc444Detect`, `Avc444Chroma`, `Avc444Client`, `Avc444Encoder`, `Avc444Sessions`). Six planes
  (section 3.3.8.3.3 of MS-RDPEGFX), converted in place by region, two coordinate systems that must
  agree, references that must hold what the client holds, and whole sessions of encoding, losing
  and committing, for a client that decodes the very streams it is sent.
- **Presentation** (`Geometry`, `Scaling`, `SizePolicy`). Fitting, box averaging, damage and pointer
  mapping, and the size negotiation.
- **Resize, restore, shutdown** (`ResizeGate`). Interleaved steps of concurrent requests with a
  ghost compositor: what no interleaving breaks, and that a request nothing goes wrong for is served.
- **Clipboard** (`FileLocks`, `RemoteClipboard`, `FileNames`, `SelectionWalk`, `LineEndings`). File
  tables and locks over FIFO channels, drain-then-fetch requests, the budgeted walk of a directory
  graph against a log of every look it took, and line endings.
- **Pacing** (`Pacing`). Frame deadlines over whole runs.

`Regions`, `Arithmetic` and `Sets` hold what the others share. Objects that the source updates in place are
classes with a `Valid` predicate; a loop over events or calls then states what holds of every run.
Answers of the encoder, the transport, the compositor, the file system and the clock are parameters
that may be anything.

## Findings

- A capability negotiation, first or repeated, wakes nobody. The capture loops leave a processor alone
  that has sent its first frame and has no damage pending, even while a full frame is requested. A
  screen that is still and was delivered before stays blank on the new channel until a capture reports
  damage in the frame: `FrameRuns.BlankAfterNegotiation` gives the run, `FrameRuns.StillScreen` says
  that it lasts, and `FrameRuns.NegotiationThenCapture` has the exact condition. The wlr loop reports
  the whole frame as damage every 500 ms, so there the blank ends; the ext loop waits for the
  compositor.
- When H.264 gives an empty chroma payload, the AVC444v2 frame goes out with luma only. The encoder
  rightly keeps its chroma reference back, but the frame processor counts the frame as delivered, clears
  the damage and commits its own reference, so that a pixel whose chroma shows stays wrong until it is
  painted again. `FrameRuns.WrongAfterDroppedChroma` gives the input at the processor and
  `Avc444Sessions.FirstFrameWithoutChroma` at the encoder. The exact conditions, for every run and
  every frame, are in `FrameRuns.Run` (with nothing pending the client shows the latest frame if and only
  if no pixel is missing dropped chroma) and in `Avc444Sessions.Serve` (a frame is served if and only if
  luma and chroma each arrived or were settled before).
- The "list is full" checks inside the selection walk never fire: the budget that is charged for
  every inspected entry is always at least as strict (`SelectionWalk.Walk.FreezePath` proves that
  each charged path is looked at).

## Model

| member | source | states |
|---|---|---|
| `Regions.SwapRemoveTakesOne` | src/capture/damage.rs:167-183 | `swap_remove` takes out one occurrence of the element and keeps the rest |
| `Damage.ClampDamageRegion` | src/capture/damage.rs:125-149 | the clamped region has exactly the pixels of the report that the frame has, whatever saturates |
| `Damage.NearMeansWithinDistance` | src/capture/damage.rs:185-207 | near, computed with gaps, is the symmetric relation of meeting after growing by the distance |
| `Damage.HullContains` | src/capture/damage.rs:209-215 | the accumulated rectangle contains the new region and all it absorbed |
| `Damage.HullIsSmallest` | src/capture/damage.rs:209-215 | and it is inside every rectangle that does |
| `Damage.MergeNearby` | src/capture/damage.rs:167-183 | the in-place merge ends; survivors are untouched and not near the new region, the rest is the exact hull, each absorbed region was near what the new one had grown to, nothing covered is lost, nothing leaves the frame |
| `Damage.MergeCovers` | src/capture/damage.rs:167-183 | old regions and the new one stay covered |
| `Damage.RowsDecideTile` | src/capture/damage.rs:217-245 | comparing row slices finds a difference exactly when some pixel of the tile differs |
| `Damage.FrameTileChanged` | src/capture/damage.rs:217-245 | a tile is reported changed exactly when some row of it differs or is out of reach |
| `Damage.ScanTileRow` | src/capture/damage.rs:105-118 | one row of tiles: every reported tile is changed and at most 64 wide, every changed pixel is covered |
| `Damage.ScanCandidates` | src/capture/damage.rs:96-121 | over all candidates: every changed pixel is in a reported tile, every reported tile changed and inside a candidate |
| `Damage.FrameDiffDamageDetector.Detect` | src/capture/damage.rs:78-122 | the same for the detector, and the whole frame when the reference is unusable |
| `Damage.CommitRegions` | src/capture/damage.rs:52-75 | exactly the visible pixels of the regions are taken from the frame |
| `Damage.FrameDiffDamageDetector.UpdateReferenceRegions` | src/capture/damage.rs:33-76 | a usable reference takes exactly the regions, an unusable one the whole picture |
| `Damage.CommitMatchesCandidates` | src/capture/damage.rs:33-122 | after committing what was detected, every candidate pixel of the reference equals the frame |
| `Damage.CommitSilencesDetect` | src/capture/damage.rs:33-122 | detecting again on the same data and candidates reports nothing |
| `FrameDelivery.MergeAll` | src/capture/frame.rs:514-521 | queueing keeps every pending and every reported pixel of the frame covered; each report in turn is merged into the list, and nothing else happens to it |
| `FrameDelivery.HonestDamageIsTracked` | src/capture/frame.rs:514-521 | honest damage added to pending keeps every pixel that differs from the reference covered |
| `FrameDelivery.HonestDamageIsPending` | src/capture/frame.rs:514-521 | outside pending damage, the client goes on differing from the latest frame exactly where dropped chroma is missing |
| `FrameDelivery.PaintingChangesSuffices` | src/capture/frame.rs:770-793 | after sending what detection found in pending damage, the client differs from the frame exactly where dropped chroma is missing |
| `FrameDelivery.NothingDroppedSinceWholeFrame` | src/capture/frame.rs:770-793 | nothing is missing if no chroma was dropped since the whole frame was last delivered |
| `FrameDelivery.DroppedUntilRepainted` | src/egfx/avc444.rs:515-582 | a pixel left wrong by dropped chroma is missing it until a later delivery carries the pixel |
| `FrameDelivery.CommittedMatches` | src/capture/frame.rs:895-904 | and committing it makes the reference the frame |
| `FrameDelivery.FrameProcessor.QueueDamage` | src/capture/frame.rs:514-521 | the invariant of the pictures survives new frames with honest damage |
| `FrameDelivery.FrameProcessor.ProcessClearcodec` | src/capture/frame.rs:523-630 | the ClearCodec branch: a delivery shows exactly this frame, everything else leaves client and reference alone |
| `FrameDelivery.FrameProcessor.EncodeAndSend` | src/capture/frame.rs:842-955 | sent exactly when encoder, handle and sender exist, the payload is sendable and the send is accepted, and then logged with the chroma it may have dropped; otherwise nothing is committed and the full-frame request is put back |
| `FrameDelivery.FrameProcessor.RecoverEncoder` | src/capture/frame.rs:957-998 | no VA-API encoder stays in use past the failure limit; a software encoder takes over in auto mode only, otherwise H.264 ends, and no encoder below the limit is touched |
| `FrameDelivery.FrameProcessor.FallBack` | src/capture/frame.rs:1011-1049 | a legacy bitmap replaces a frame that H.264 did not take only if one is due on a channel that is not ready, or if H.264 is out of use; otherwise the damage is kept |
| `FrameDelivery.FrameProcessor.SelectCodec` | src/capture/frame.rs:682-690 | AVC444v2 exactly if the client negotiated it and the frame has a size it can code, otherwise AVC420 exactly if AVC was negotiated |
| `FrameRuns.FailingEncoder` | src/capture/frame.rs:930-998 | however often a VA-API encoder fails, it is out of use after at most five attempts, and in forced VA-API mode no software encoder ever replaces it |
| `FrameDelivery.FrameProcessor.ProcessAt` | src/capture/frame.rs:637-1049 | for every outcome: a delivery took a route that the channel, the negotiated codec and the answers allow, is logged with what it painted (all of it if everything starts over, otherwise what changed of the pending damage) and leaves nothing pending; anything less leaves client and reference alone, and either the frame had not changed or the damage waits on for a stated reason; a session ends only for one; a full-frame request is met by a whole frame or stays; with favourable answers nothing stays pending unless the processor was quiet, and a full repaint shows exactly this frame |
| `FrameDelivery.FrameProcessor.ChannelReady` | src/egfx/factory.rs:216-250 | negotiation raises the generation and requests a full frame only if the channel was ready already |
| `FrameRuns.Run` | src/capture/frame.rs:514-1049 | over any run with honest damage, and until a channel event, the client differs from the latest frame exactly where damage is pending or dropped chroma is missing; with nothing pending it shows that frame if and only if nothing is missing; and after an offer that met with favourable answers nothing is pending and the session goes on |
| `FrameRuns.Offer` | src/capture/wayland/ext.rs:412-429 | the capture loops leave an idle processor alone, whatever the channel asks for; any other offer is explained as `ProcessAt` says, and a favourable one leaves nothing pending; a newly negotiated AVC channel that works is sent H.264 |
| `FrameRuns.WaitForChannel` | src/egfx/shared.rs:211-222 | while a configured channel is not ready and no bitmap is due, no number of offers sends anything, and the damage stays pending |
| `FrameRuns.NegotiationThenCapture` | src/egfx/factory.rs:201-250 | after a negotiation and a capture, a favourable offer shows the frame if and only if the processor was not idle, the capture reported damage in the frame, or the fresh surface shows it anyway |
| `FrameRuns.StillScreen` | src/capture/wayland/wlr.rs:338-341 | while no damage is reported, no number of offers to an idle processor reaches the client |
| `FrameRuns.BlankAfterNegotiation` | src/capture/wayland/ext.rs:412-415 | from a new session: a first bitmap, a negotiation and a still screen leave the client blank with nothing pending |
| `FrameRuns.WrongAfterDroppedChroma` | src/egfx/frame.rs:45-78 | from a new session: an AVC444v2 frame that loses its chroma counts as delivered and leaves a pixel wrong for as long as the screen is still |
| `FrameRuns.PresentedDamageIsHonest` | src/capture/scale.rs:24-84 | scaling keeps damage honest: mapped damage covers every difference of the presented frames |
| `Pacing.FramePacer.ShouldSend` | src/capture/frame.rs:363-410 | a frame goes out exactly when damage is offered no earlier than its deadline minus the allowance; the new deadline is the first whole interval past now |
| `Pacing.RunAtBaseRate` | src/capture/frame.rs:363-410 | any n frames of a run at a fixed unthrottled rate span more than n - 2 intervals minus the allowance, and no damage is refused that is offered a whole interval after the last frame |
| `Pacing.OneMoreSend` | src/capture/frame.rs:397-409 | one send, across the catch-up loop, keeps that bound and the deadline ahead of it |
| `Pacing.RunAtAnyRate` | src/capture/frame.rs:382-395 | whatever rates a run mixes, throttled damage goes out exactly from an interval minus the allowance after the last frame |
| `Pacing.OfferDamage` | src/capture/frame.rs:382-409 | damage offered a whole interval after the last frame is never refused |
| `ClearCodec.MergeSpans` | src/egfx/clearcodec.rs:120-128 | overlapping or touching spans become separated ones with the same union |
| `ClearCodec.BandDecides` | src/egfx/clearcodec.rs:109-119 | between neighbouring edges a rectangle is active on every line or on none |
| `ClearCodec.EdgesEnclose` | src/egfx/clearcodec.rs:109-114 | every damaged line lies between two listed edges |
| `ClearCodec.ActiveSpansExact` | src/egfx/clearcodec.rs:113-119 | the spans of a band are exactly the columns of the rectangles active in it |
| `ClearCodec.Cover` | src/egfx/clearcodec.rs:95-142 | each damaged pixel of the frame lies in exactly one rectangle, no other pixel in any, none larger than 64 by 64 |
| `ClearCodec.NewInput` | src/egfx/clearcodec.rs:68-149 | accepted exactly for formats with alpha or padding last and large enough buffers, with the error the first failing check names, and then an exact cover |
| `ClearCodec.Pixels` | src/egfx/clearcodec.rs:151-164 | pixel by pixel, blue, green and red wherever the format has them, and then the fourth byte; every read inside the buffer |
| `ClearCodecLatch.ClearCodecState.Encode` | src/egfx/clearcodec.rs:20-43 | refused while a frame is uncommitted; otherwise consecutive sequence numbers |
| `ClearCodecLatch.Run` | src/egfx/clearcodec.rs:7-49 | whatever the transport drops, the client receives all sequence numbers without a gap up to where the first frame is cut short, and every later frame is refused |
| `Avc444Layout.CellsDeterminePlane` | src/egfx/avc444.rs:56-75 | two planes with equal cells are equal: row-major indexing reaches every byte |
| `Avc444Layout.RepaintTwice` | src/egfx/avc444.rs:940-995 | writing the cells of two region lists in turn is writing the cells of both |
| `Avc444Regions.AlignedIsSmallest` | src/egfx/avc444.rs:1364-1375 | an aligned region is the smallest 4 by 2 aligned rectangle around the part that is in the frame |
| `Avc444Regions.HullStaysAligned` | src/egfx/avc444.rs:1562-1568 | alignment survives merging |
| `Avc444Regions.MergeRegion` | src/egfx/avc444.rs:1534-1546 | the merge loop ends, keeps coverage, alignment and containment, absorbs everything that touches the new region, and only appends what touches nothing |
| `Avc444Regions.AlignRegions` | src/egfx/avc444.rs:1347-1378 | the aligned list covers every reported pixel of the frame, stays inside any aligned rectangle that holds the reports, and is empty exactly when none is in the frame |
| `Avc444Regions.AlignedListIsUnique` | src/egfx/avc444.rs:1347-1378 | aligning and merging a list has one result |
| `Avc444Regions.PackedCandidatesAreExact` | src/egfx/avc444.rs:1393-1426 | the packed rectangles of an aligned region hold exactly the auxiliary cells whose home pixel is in the region |
| `Avc444Regions.HalfStaysInside` | src/egfx/avc444.rs:1443-1468 | mapping part of a candidate's packed rectangles back does not leave the candidate |
| `Avc444Regions.HalvesMapBack` | src/egfx/avc444.rs:1443-1468 | the two halves together cover the home pixel of every cell of the packed region |
| `Avc444Regions.PackedToProtocol` | src/egfx/avc444.rs:1428-1471 | packed tiles become aligned regions that cover the tile's pixels and stay inside the candidate |
| `Avc444Conversion.PixelIsBt709` | src/egfx/avc444.rs:1025-1075 | every pixel is within two steps of BT.709 full range in Y, U and V, its bytes being blue, green and red; the tests promise this for seventeen colours (src/egfx/avc444.rs:1592-1665) |
| `Avc444Conversion.GreyIsNeutral` | src/egfx/avc444.rs:1025-1075 | a grey pixel has neutral chroma, and its own light less one step unless it is black |
| `Avc444Conversion.MoreBlue` | src/egfx/avc444.rs:1025-1031 | more blue never darkens, turns U up and V down |
| `Avc444Conversion.MoreRed` | src/egfx/avc444.rs:1025-1031 | more red never darkens, turns V up and U down |
| `Avc444Conversion.PackedCell` | src/egfx/avc444.rs:1084-1139 | a packed plane holds in each cell what that cell stands for |
| `Avc444Conversion.CombineAfterPack` | src/egfx/avc444.rs:1084-1197 | combining after packing restores chroma exactly where x or y is odd and gives the floored 2 by 2 average elsewhere |
| `Avc444Conversion.ChromaSourceExists` | src/egfx/avc444.rs:1143-1197 | every pixel's chroma comes from a cell that exists |
| `Avc444Buffers.PlaneBuffers.ConvertBlock` | src/egfx/avc444.rs:949-993 | one 2 by 2 block: its cells, in all six planes and no others, become what packing gives |
| `Avc444Buffers.PlaneBuffers.ConvertRegions` | src/egfx/avc444.rs:921-996 | for any region list the cells of the aligned regions equal the packed picture and all other cells are untouched |
| `Avc444Buffers.AlignedFormsKeepAligned` | src/egfx/avc444.rs:940-948 | aligned regions of the frame are converted as they are |
| `Avc444Buffers.WholeFrameIsPacked` | src/egfx/avc444.rs:1201-1229 | converting the whole frame is packing it |
| `Avc444Detect.PlanesDecideTile` | src/egfx/avc444.rs:1499-1532 | a tile differs in some cell exactly when one of its three plane rectangles does |
| `Avc444Detect.TileChanged` | src/egfx/avc444.rs:1499-1532 | a tile is reported exactly when some luma or chroma cell of it differs |
| `Avc444Detect.DetectRegions` | src/egfx/avc444.rs:1240-1294 | every changed cell of the candidates is in a reported tile and every reported tile changed; without a reference, the whole frame |
| `Avc444Detect.CopyPlaneRegion` | src/egfx/avc444.rs:867-886 | exactly the rectangle is copied |
| `Avc444Detect.UpdateReference` | src/egfx/avc444.rs:816-865 | exactly the cells of the regions are taken; a missing reference is copied whole |
| `Avc444Detect.CommitSilencesDetect` | src/egfx/avc444.rs:816-865 | detecting again after the commit reports nothing |
| `Avc444Chroma.DetectChromaRegions` | src/egfx/avc444.rs:1296-1337 | every changed auxiliary cell is packed, every packed tile is announced by regions inside the candidates, and one list is empty exactly when the other is |
| `Avc444Client.LumaReferenceFollows` | src/egfx/avc444.rs:391-399 | after a commit the luma reference equals the working planes on every cell of the candidates |
| `Avc444Client.ChromaReferenceFollows` | src/egfx/avc444.rs:400-412 | the same for the chroma reference and the auxiliary planes |
| `Avc444Client.LumaStaysInStep` | src/egfx/avc444.rs:165-412 | a delivered and committed luma picture keeps the client's main planes equal to the reference |
| `Avc444Client.ChromaStaysInStep` | src/egfx/avc444.rs:165-412 | the same for chroma, although the client takes protocol regions and the reference packed ones |
| `Avc444Client.CoveredPixelIsRight` | src/egfx/avc444.rs:1143-1197 | where the client holds the packed cells, luma is exact and chroma exact or the block average |
| `Avc444Encoder.NormalizedFrame` | src/egfx/avc444.rs:515-582 | the normalized frame carries the plan and each payload in its own stream, commits chroma exactly when it carries it, and is complete exactly when no needed payload was empty |
| `Avc444Encoder.StreamedDecodes` | src/egfx/avc444.rs:247-352 | with ideal codecs the streams of a frame decode to the pictures that its encoding says they hold |
| `Avc444Encoder.SettledIsSilent` | src/egfx/avc444.rs:1240-1337 | where all candidate cells agree with their references, both detections find nothing |
| `Avc444Encoder.Avc444Encoder.Streams` | src/egfx/avc444.rs:247-352 | an error exactly when a needed H.264 call fails; otherwise a frame whose luma stream holds the payload made of the main planes and whose chroma stream the one made of the auxiliary planes, and whose commit would commit exactly what it carries |
| `Avc444Encoder.Avc444Encoder.Encode` | src/egfx/avc444.rs:165-389 | the references do not move, the planes become the packed picture on the candidates, a forced frame is the whole frame, and the frame carries what detection found, each payload made from its own planes |
| `Avc444Encoder.Avc444Encoder.CommitReference` | src/egfx/avc444.rs:391-412 | luma takes the last luma regions; chroma takes the last packed regions only if chroma was sent |
| `Avc444Sessions.DeliveryKeepsSync` | src/capture/frame.rs:865-906 | a client that decodes the frame's streams, and references that follow the commit, stay in sync |
| `Avc444Encoder.LumaDecides` | src/egfx/avc444.rs:1240-1294 | luma detection reports nothing if and only if the luma reference holds every candidate cell |
| `Avc444Encoder.ChromaDecides` | src/egfx/avc444.rs:1296-1337 | and chroma detection if and only if the chroma reference holds every packed cell |
| `Avc444Sessions.DeliveryDecides` | src/egfx/avc444.rs:391-412 | after a frame its candidates are settled if and only if each of luma and chroma was delivered and committed or had been settled before |
| `Avc444Sessions.ArrivedDecides` | src/egfx/avc444.rs:165-389 | without force that is so if and only if all the frame had to carry arrived |
| `Avc444Sessions.ShownIsSettled` | src/egfx/avc444.rs:165-412 | a client in sync that shows the converted picture on the candidates has settled references |
| `Avc444Sessions.SettledIsShown` | src/egfx/avc444.rs:165-412 | a client in sync with settled references shows the converted picture on the candidates |
| `Avc444Sessions.Serve` | src/capture/frame.rs:850-950 | one frame end to end, the client decoding the streams it is sent: sync in every case; the client shows the picture on the candidates if and only if luma and chroma each arrived or were settled before, without force if and only if the frame arrived complete; an empty chroma payload or a failed send moves no reference it should not |
| `Avc444Sessions.ServedPixelIsRight` | src/egfx/avc444.rs:165-412 | every damaged pixel of a served frame has exact luma and, at odd x or y, exact chroma on the client |
| `Avc444Sessions.EncodeAgain` | src/egfx/avc444.rs:165-389 | encoding the same frame with the same damage again gives no streams and changes no plane |
| `Avc444Sessions.FirstFrameWithoutChroma` | src/egfx/avc444.rs:565-578 | a first frame that loses its chroma leaves an odd pixel of the client wrong, unless the chroma shown before happened to be right |
| `Avc444Sessions.WholePictureFollows` | src/egfx/avc444.rs:165-412 | a client that held the whole packed frame holds the whole next one after its honest damage was served |
| `Avc444Sessions.Run` | src/egfx/avc444.rs:165-441 | over any sequence of frames, failures and losses the references hold what the client holds; with honest damage the client holds the whole packed latest frame whenever everything arrived since a whole frame was asked for, as it is at the start and after every loss |
| `Geometry.WideFitIsLargest` | src/display/geometry.rs:48-80 | a wider source gets the full width and the largest height that does not stretch it |
| `Geometry.TallFitIsLargest` | src/display/geometry.rs:48-80 | any other source gets the full height and the largest width |
| `Geometry.BoxInMappedSpan` | src/display/geometry.rs:113-150 | a position whose averaging box meets a damaged interval lies in the mapped interval |
| `Geometry.DamageNeverVanishes` | src/display/geometry.rs:113-150 | a rectangle with a source pixel in the frame maps to a non-empty one inside the visible picture |
| `Geometry.MappedRectIsOverlap` | src/display/geometry.rs:113-150 | a rectangle maps to something exactly when the source has a pixel of it, and then to exactly the visible pixels that it overlaps once it is scaled |
| `Geometry.BoxInMappedDamage` | src/display/geometry.rs:102-150 | the same for a damage list and a presentation pixel |
| `Geometry.MappedDamageIsMapped` | src/display/geometry.rs:102-111 | every pixel of a mapped damage list lies in the mapped rectangle of some report |
| `Geometry.BoxesAreConsecutive` | src/capture/scale.rs:185-235 | on an axis that is not enlarged each box starts where the one before it ends |
| `Geometry.ExactlyOneBox` | src/capture/scale.rs:185-235 | there every source position is averaged into exactly one presentation position |
| `Geometry.PointerMatchesPicture` | src/display/geometry.rs:152-175 | the source pixel under a visible point is one of those averaged into it |
| `Geometry.PointerMonotone` | src/display/geometry.rs:152-175 | the pointer mapping is monotone on each axis, bars included |
| `Scaling.ScalingRespectsDamage` | src/capture/scale.rs:151-238 | frames that agree outside the damage present pixels that agree outside the mapped damage, up- or downscaled |
| `Scaling.AverageBox` | src/capture/scale.rs:205-232 | one channel of a box is the nearest whole number to its average, ties rounded up |
| `Scaling.CopyScaledVisibleRect` | src/capture/scale.rs:151-238 | the visible rectangle shows the averages and every other pixel is untouched, in place |
| `Scaling.FillBlackBars` | src/capture/scale.rs:134-149 | every pixel becomes black, opaque where the format has alpha and wherever it has it |
| `Scaling.IdentityShowsSource` | src/capture/scale.rs:45-58 | with identity geometry averaging gives the source itself, so the copy may be skipped |
| `Scaling.PreparePresentationFrame` | src/capture/scale.rs:24-84 | an error exactly for empty or too large frames and short buffers; otherwise every pixel presents the source and the damage is mapped |
| `SizePolicy.ClampIsSafe` | src/capture/mod.rs:241-261 | the clamped size is even, within the limits, never larger, and empty only when the request is, however the product was rounded |
| `SizePolicy.ClampIsIdempotent` | src/capture/mod.rs:241-261 | clamping again changes nothing |
| `SizePolicy.ClampIsTight` | src/capture/mod.rs:241-261 | a size over the limits is scaled by one factor on both sides, within three pixels, and reaches one of the limits within two |
| `SizePolicy.FitKeepsAspect` | src/capture/mod.rs:274-291 | a request larger than the source both ways is shrunk in proportion until one side is the source's; any other is left alone |
| `SizePolicy.NormalizeIsSafe` | src/capture/mod.rs:265-297 | the normalized size is even, within the limits, never larger than the request and not larger than the source in both directions |
| `SizePolicy.NormalizeIsIdempotent` | src/capture/mod.rs:265-297 | normalizing again changes nothing |
| `SizePolicy.InitialSizeSettles` | src/capture/mod.rs:349-378 | once applied, neither the same request nor a client of the applied size leads to another resize |
| `SizePolicy.ManagedGetsWhatFits` | src/capture/mod.rs:349-378 | a managed output gets an even size within the limits as it is asked for, unless it has it; a fixed one, or a size below two pixels, changes nothing |
| `SizePolicy.PhysicalGetsWhatFits` | src/capture/mod.rs:349-378 | so does a physical output that is no smaller in one direction; without a captured source nothing changes |
| `SizePolicy.LayoutFollowsPrimary` | src/capture/mod.rs:380-424 | a managed output follows the first primary monitor of a layout, or the first one if none is primary |
| `SizePolicy.PhysicalNeedsOneMonitor` | src/capture/mod.rs:425-445 | a physical output takes part only in a layout of one upright primary monitor at the origin, no larger than it can show |
| `SizePolicy.DisplayControlSettles` | src/capture/mod.rs:380-414 | the same for display control |
| `SizePolicy.BothRequestsAgree` | src/capture/mod.rs:349-414 | within the limits an initial size and a layout of that size decide alike |
| `ResizeGate.HyprDisplayInner.ApplyResizeDecision` | src/capture/mod.rs:482-515 | a managed output is marked unconfirmed before the compositor call and confirmed only by a commit |
| `ResizeGate.StepKeepsOrder` | src/capture/mod.rs:674-895 | every atomic step of every request keeps gate, lock, sizes and phases in order |
| `ResizeGate.CommitTakesEffect` | src/capture/mod.rs:755-767 | a commit on an open display publishes the decided size, confirmed and equal to the compositor's, marks it as this session's, keeps it to be sent, and frees the gate |
| `ResizeGate.RefreshTakesEffect` | src/capture/mod.rs:482-515 | so does a refreshed layout of a layout request or a restore |
| `ResizeGate.OnlyCommitsPublish` | src/capture/mod.rs:482-515 | no other step changes the published size |
| `ResizeGate.RequestTakesEffect` | src/capture/mod.rs:674-895 | in every run, an admitted request that was not cancelled, met with no failure and has finished on an open display has decided, and what it wanted took effect |
| `ResizeGate.AskedSizeIsShown` | src/capture/mod.rs:674-895 | and if it asked a managed output for a size that one can have, the output had that size, confirmed, at some point of the run |
| `ResizeGate.EveryRunKeepsSizeConfirmed` | src/capture/mod.rs:156-895 | from a new display on, in every interleaving, unless the size is marked unconfirmed the compositor has the published size |
| `ResizeGate.UnconfirmedIsRepaired` | src/capture/mod.rs:314-895 | in every run, a request admitted while the size is unconfirmed does not give up the gate without a compositor call, unless the display was closed, the request cancelled, or a newer session overtook a restore |
| `ResizeGate.ClosedStepCommitsNothing` | src/capture/mod.rs:215-229 | on a closed display no step commits a size |
| `ResizeGate.ClosedRunCommitsNothing` | src/capture/mod.rs:215-229 | nor does any run |
| `ResizeGate.RemoveKeepsOrder` | src/capture/mod.rs:215-239 | removing the output finds no compositor call in flight |
| `ResizeGate.RemovedOutputIsLeftAlone` | src/capture/mod.rs:215-239 | and none is made afterwards, in any run |
| `ResizeGate.RestoreYieldsToNewerSessions` | src/capture/mod.rs:156-213 | a restore that commits never overwrites the size of a session newer than the one that ended |
| `ResizeGate.StaleRestoreDoesNothing` | src/capture/mod.rs:156-213 | in every run, a restore that a newer session overtook before it began never decides, calls the compositor or commits |
| `ResizeGate.RestoreReachesIdle` | src/capture/mod.rs:156-213 | a restore that runs through leaves the output at its idle size, confirmed |
| `FileLocks.FrozenSelection.FormatListResponse` | src/clipboard/files.rs:110-123 | only the answer to the last pending announcement confirms a table |
| `FileLocks.FrozenSelection.LockSelection` | src/clipboard/files.rs:190-203 | accepted exactly when enabled, the id is free, fewer than 100 are held and a table is confirmed |
| `FileLocks.Link.AnnounceFileFormats` | src/clipboard/files.rs:125-141 | an announcement is counted, replaces the confirmed table and is sent exactly when files are enabled and there is a table |
| `FileLocks.Link.PublishSelection` | src/clipboard/files.rs:418-438 | a finished walk replaces the table and is announced exactly if its generation still is the current one, and nothing else changes otherwise |
| `FileLocks.AppendMessage` | src/clipboard/files.rs:87-140 | what a message put at the end of the channel means for the peer's view |
| `FileLocks.Link.ServerReceives` | src/clipboard/files.rs:110-209 | an accepted lock binds the table the peer had acknowledged last when it sent the lock; only an unlock releases an id |
| `FileLocks.Link.Request` | src/clipboard/files.rs:211-222 | a held id resolves every index to the file the peer saw when it locked |
| `FileLocks.AnnouncedTableCanBeLocked` | src/clipboard/files.rs:87-203 | an announced and acknowledged table can be locked |
| `FileLocks.PublishedTableCanBeLocked` | src/clipboard/files.rs:418-438 | a walk that nothing newer invalidated, once acknowledged, can be locked |
| `FileLocks.StaleWalkIsDropped` | src/clipboard/files.rs:418-438 | a walk whose selection was cleared meanwhile changes nothing and is not announced |
| `FileLocks.Run` | src/clipboard/files.rs:87-229 | in every run an id is bound only by a lock that the server receives, to the table the peer had in view when it sent it, and stays bound to that table until it is unlocked or capabilities are withdrawn; at most 100 ids are held |
| `RemoteClipboard.Backend.OnRemoteCopy` | src/clipboard/backend.rs:289-349 | the format that the list calls for becomes the newest selection; an outstanding request is drained, otherwise the selection is requested at once; the echo candidate moves to the request that will meet it |
| `RemoteClipboard.ChoiceObeys` | src/clipboard/backend.rs:304-321 | asked for is the first file list if files are taken, else text, else CF_DIBV5, else CF_DIB, whichever is listed, and else nothing; only a file list belongs to an inbound generation |
| `RemoteClipboard.Backend.HandleFormatDataResponse` | src/clipboard/backend.rs:544-646 | an answer is published in the format asked for unless it repeats the announced copy |
| `RemoteClipboard.Backend.OnFormatDataResponse` | src/clipboard/backend.rs:386-396 | an answer to a request for the newest format list is published if it can be and is no echo; a superseded answer is dropped and the newest selection requested, exactly if it still may be |
| `RemoteClipboard.Backend.OnRemoteFileList` | src/clipboard/backend.rs:418-430 | a file list is accepted only for the newest list's generation |
| `RemoteClipboard.Backend.FinishRemoteRequest` | src/clipboard/backend.rs:453-466 | after draining, the newest selection is requested exactly when there is one, its generation has not passed and the request can be sent |
| `RemoteClipboard.EchoedTextLooksTheSame` | src/clipboard/backend.rs:595-640 | text is taken for an echo if and only if a Windows client would see the announced text |
| `RemoteClipboard.EchoedImageIsTheSame` | src/clipboard/backend.rs:582-592 | an image is taken for an echo if and only if it came in the plain format with the announced bytes |
| `RemoteClipboard.NewestArrives` | src/clipboard/backend.rs:289-646 | with no announcement left to echo, the text or image that the client copied last is published at its first answer, or at the second if another request was outstanding |
| `RemoteClipboard.Run` | src/clipboard/backend.rs:289-646 | in every run, whatever is published is the first answer to a request sent after the newest format list, in the format that list calls for; and no more answers are suppressed as echoes than local copies were announced |
| `LineEndings.NormalizeLfText` | src/clipboard/formats.rs:54-73 | the copying loop computes the line-by-line conversion |
| `LineEndings.ToCrlfText` | src/clipboard/formats.rs:79-103 | likewise for CRLF |
| `LineEndings.LfOfCrlf` | src/clipboard/formats.rs:54-103 | converting to CRLF loses nothing that the LF form keeps |
| `LineEndings.CrlfOfLf` | src/clipboard/formats.rs:54-103 | and the other way round |
| `LineEndings.LfHasNoCr` | src/clipboard/formats.rs:54-73 | the LF form holds no CR |
| `LineEndings.RoundTrip` | src/clipboard/formats.rs:54-103 | LF text survives the trip through CRLF unchanged |
| `LineEndings.CrlfOnlyPairs` | src/clipboard/formats.rs:79-103 | in the CRLF form CR and LF occur only in pairs |
| `FileNames.SanitizedIsSafe` | src/clipboard/files.rs:761-815 | a sanitized name holds no forbidden character, no trailing dot or space and is no device name |
| `FileNames.SafeIsKept` | src/clipboard/files.rs:761-786 | a safe name is left alone |
| `FileNames.SanitizedKeeps` | src/clipboard/files.rs:761-786 | nothing but forbidden characters and dots or spaces at the end is replaced or dropped; a name of nothing else becomes "unnamed", and a device name gets one underscore before its first dot |
| `FileNames.OneSplit` | src/clipboard/files.rs:788-797 | the extension starts at the last dot, and a dot in front of everything starts none; there is one such split and it is taken |
| `FileNames.NumberedKeepsExtension` | src/clipboard/files.rs:740-759 | a numbered form has the extension of the name, and its stem with the number in brackets |
| `FileNames.DigitsReadBack` | src/clipboard/files.rs:753-757 | the number is written in decimal without a leading zero |
| `FileNames.CandidateKeysDiffer` | src/clipboard/files.rs:740-759 | numbered candidates differ for a client that ignores case |
| `FileNames.CandidateIsSafe` | src/clipboard/files.rs:740-759 | a numbered form of a name Windows can create is one as well |
| `FileNames.UniqueFileName` | src/clipboard/files.rs:740-759 | the suffix loop ends and gives the sanitized name or its first free numbered form, a name Windows can create |
| `SelectionWalk.EmitKeepsListing` | src/clipboard/files.rs:583-672 | emitting a safe name that is free keeps directories first, names apart, safe and short enough |
| `SelectionWalk.WindowsPathsDiffer` | src/clipboard/files.rs:740-819 | no two emitted paths are equal for a client that ignores case |
| `SelectionWalk.FitsIsPathLength` | src/clipboard/files.rs:730-738 | a name fits exactly when the path the client sees and its terminating null take at most 260 units of UTF-16 |
| `SelectionWalk.Walk.FreezePath` | src/clipboard/files.rs:583-672 | one charged path comes to what it must, at every level: an offerable file is listed under a free name, a directory that is not its own ancestor is listed and what it holds is looked at, anything else lists nothing; the ancestors are restored |
| `SelectionWalk.Walk.CollectChildren` | src/clipboard/files.rs:701-723 | every inspected entry is charged and the readable ones, as far as the budget goes, are collected |
| `SelectionWalk.Walk.DirectoriesThenLeaves` | src/clipboard/files.rs:688-692 | the children found to be directories come first, each side in order, none lost |
| `SelectionWalk.Walk.FreezeChildren` | src/clipboard/files.rs:674-699 | every readable child within the budget is looked at, directories first, each look continuing where the one before it ended |
| `SelectionWalk.FreezePaths` | src/clipboard/files.rs:518-548 | what is listed is exactly what the looks at the selected paths, in order, came to, and it is truncated exactly if a path was not looked at or a directory was cut short; the walk ends on every graph, looks at no more paths than the budget, asks at most three questions for each, and lists directories before contents, names safe, distinct and short enough |
| `SelectionWalk.SelectedFileIsListed` | src/clipboard/files.rs:604-645 | a selected regular file is listed under its own path exactly if it can be opened as one and its length can be told to the client, unless its name is too long |

## Left out

- FrameDelivery.FrameProcessor.ProcessAt: channel events happen between calls, not during one, and the codec loses nothing but dropped chroma; what a client shows in place of dropped chroma, and where an AVC444v2 frame carries more than was asked, are arbitrary here and worked out in the encoder's own model.
- FrameDelivery.FrameProcessor.ChannelReady: the generation is an unbounded number; its 32-bit wrap-around is not modelled.
- FrameRuns.Offer: the pacer may put an offer off, and the wlr loop's full scan of a still screen is a capture whose damage is the whole frame.
- FrameRuns.Run: whether a full-frame request survives an early return of the AVC branch depends on two readiness checks of the shared state that are not part of this model.
- FrameDelivery.FrameProcessor.QueueDamage: captured damage is assumed to be honest, and frames to be well formed and no larger than the damage coordinates can express.
- Avc444Encoder.Avc444Encoder.Encode: H.264 is lossless here, a payload that is not empty decoding to the picture it was made of; takes the full-frame environment switch as an input; statistics, tracing and NAL inspection are absent.
- Avc444Conversion.CombineAfterPack: the packer and the combiner, which the source keeps for its tests, are functions here, not loops; the flags that convert only luma or only chroma are always on.
- Avc444Detect.UpdateReference: references are values that are replaced, not buffers written in place.
- Damage.FrameDiffDamageDetector.UpdateReferenceRegions: likewise for the reference of the detector.
- Pacing.FramePacer.ShouldSend: needs a positive interval; a target rate whose interval rounds to zero would not leave the catch-up loop. How the early allowance is rounded is left open.
- ResizeGate.StepKeepsOrder: requests are steps on values, because they interleave; only the functions that apply a decision are methods of the object.
- ResizeGate.EveryRunKeepsSizeConfirmed: nothing but these requests changes the compositor's size, and starting a capture leaves the published size alone.
- SizePolicy.ClampIsSafe: the floating-point product is the exact floor or, where it is an integer, possibly one less.
- RemoteClipboard.Backend.OnFormatDataResponse: the client answers each request once and in order; UTF-16, DIB and PNG decoding are unknown functions.
- FileLocks.Link.ServerReceives: both channels are FIFO and the announcement is counted and sent under one lock.
- SelectionWalk.FreezePaths: the answers of the file system are arbitrary and may change during the walk; reading file contents and checking inodes is absent.
- FileNames.SanitizedIsSafe: upper-casing beyond ASCII is an arbitrary table that keeps the characters the naming scheme uses.
- ClearCodec.Cover: the source's library sorts are insertion sorts here.
- ClearCodecLatch.ClearCodecState.Encode: the compressed bytes of a rectangle are not modelled.
- Wayland, GBM, PipeWire, PAM, VA-API and OpenH264 calls, sockets, pipes and thread joins.
- Audio, configuration, IPC with Hyprland, and the AVC420 encoder.
- Choosing among clipboard MIME types, and decoding text offers.
