# Verification of the remote display and its companions

A Dafny model of the STM32F746 firmware's remote-display pipeline, with the properties its design relies on proved for
all inputs, all segmentations of the network traffic and all interleavings of its threads. Screen size, number of
snapshot buffers, chunk size and packet boundaries are parameters.

**The pipeline.** GUIX draws into the hidden one of two framebuffers. `display_toggle` makes the finished frame visible,
hands it to the capture module and copies the changed area into the other framebuffer (`Display`). The capture module
keeps a pool of snapshots, publishes each frame under a lock after copying it without one, and accumulates a damage box
that the reader acknowledges (`Capture`, the static variables and the operations on them in place; `CaptureRuns`, every
interleaving of one publisher, pixel by pixel, with any number of readers). The RFB server rebuilds a byte stream from
TCP packets (`RfbStream` over `NetX`), parses client messages (`ClientMessages`), converts pixels (`Bits`,
`PixelFormat`), and streams Raw rectangles while it drains client input between two chunks, in the same thread and
through the same buffer (`RawUpdate`, `SessionLog`, `RfbServer`). `Mirror` puts GUIX, the driver, the capture module, the
server and a client into one machine and shows what the client sees; `ClientView` reads the bytes of a session as a
client does, from the wire alone, and links the two. `Rectangles` holds the geometry they share.

**Arithmetic.** `Compensation` and `Humidity` have the BME280 sensor's calibration record and its fixed-point
compensation of temperature, pressure and humidity, `Bme280` the driver around them, `TextPrinter` the bounded decimal
printer of the status display.

**Small machines.** `RecordServer` has the 64-byte records of TCP port 7001, `WebWriter` the buffered output of the
diagnostics pages, `VbusMonitor` the USB cable detection.

## How it is modelled

- A frame is a sequence of RGB565 pixels, row by row; edges fit unsigned 16-bit fields, so width and height are below
  65536. Each region under the interrupt lock is one atomic step.
- `FrameCapture`, `Driver`, `Stream`, `Session`, `Sensor`, `Server`, `Writer` and `Monitor` are classes with the
  variables the C code updates in place. Their methods are proved against functions on values; lemmas and run invariants
  say what those functions mean. While the session streams, `PublishAnything` stands for the GUI thread: it publishes
  any frames at any of the points where the server lets time pass. Finer interleavings are the subject of `CaptureRuns`
  and `Mirror`.
- The network is the list of what the receive calls report (a packet, nothing yet, a fault), fixed from the start; an
  exhausted list is a closed connection. Whatever goes wrong is said of a place in this list: `Flowing` excludes every
  trouble, `Undisturbed` also allows a client to be idle, even with the link down, between two messages. Whether
  allocating, appending or sending succeeds is left open. TCP packets carry at least one byte.
  A packet may only be released or sent while it is owned, so nothing is given back twice, and `Owned` says what is left.
- Widths and wrap-around are explicit: the 32-bit generation that skips zero, the 32-bit tick, int32 and int64
  intermediates that must not overflow (overflow is undefined in C), the cast of a negative pressure to unsigned.

## Where the code and its documentation differ

- `app_vnc_frame.h` promises that an acknowledgement clears damage "only if no newer frame was published meanwhile". With
  the wrapping generation this fails after exactly 2^32 - 1 publications (or a multiple) during one held view.
  `AcknowledgeTakesEffectExactlyWhen` gives the exact condition, `AcknowledgeCanClearUnseenDamage` a reachable state in
  which it fails. `Mirror` therefore assumes fewer publications than that while a view is held.
- A dirty rectangle with nothing left on the screen damages the whole screen for the client, while nothing is copied
  between the framebuffers. The model keeps both; both are harmless (`PublishedBoxOnScreen`, `AreaCopyReconciles`).
- The clamp of the pressure comes after a cast to 32 bits, so that a value that does not fit is clamped as its remainder
  modulo 2^32. `ReportedIsClampedExactlyWhen` says for every value when that is harmless. With a regular pressure (the
  divisor is not small, and there are at most 2^20 pascal before the correction) it is so exactly when the value is not
  negative, and a negative one is reported as the highest pressure (`RegularIsClampedExactlyWhen`,
  `LowReadingReportsHighest`); otherwise calibrations that the driver accepts can have a negative value reported as a
  pressure in the middle of the range and a high one as the lowest (`NegativeReadsAsPlausible`, `HighReadsAsLowest`).
- The fixed-point printer is right for every value exactly when the divisor is a power of ten from ten on
  (`AllReadBackExactlyWhen`); with divisor 1 it prints a zero after the point, so that the text reads as tenths
  (`WithoutPlaces`).
- The last test of the humidity, against 102400, can never hold: the clamp before the shift already excludes it.

## Model

| member | source | states |
|---|---|---|
| CaptureRuns.SnapshotIsolation | Core/Src/app_vnc_frame.c:95-123 | in every reachable state the buffer being written is neither published nor held, and every held buffer is exactly the frame whose commit its view saw |
| CaptureRuns.HeldViewIsImmutable | Core/Inc/app_vnc_frame.h:33-36 | over any stretch of a run in which a reader keeps its view, the view and all its pixels stay the same |
| CaptureRuns.NoDroppedFrame | Core/Src/app_vnc_frame.c:95-112 | with at most count - 2 views held a publication always finds a buffer (pigeonhole) |
| CaptureRuns.DropsExactlyWhenAllHeld | Core/Src/app_vnc_frame.c:95-112 | a publication is dropped if and only if every buffer but the published one is held |
| CaptureRuns.DamageIsConserved | Core/Src/app_vnc_frame.c:85-154 | the damage box is on the screen and includes the box of every publication since the last effective acknowledgement |
| CaptureRuns.AcknowledgeTakesEffectExactlyWhen | Core/Src/app_vnc_frame.c:225-235 | an acknowledgement takes effect if and only if the number of publications since its view was taken is a multiple of 2^32 - 1 |
| CaptureRuns.AcknowledgeClearsOnlySeenDamage | Core/Src/app_vnc_frame.c:225-235 | below that number, the damage cleared was already in the view acknowledged |
| CaptureRuns.AcknowledgeCanClearUnseenDamage | Core/Inc/app_vnc_frame.h:38-39 | for every screen and pool a state is reachable in which an acknowledgement clears damage of the whole screen, although its view knows of one damaged pixel and differs from the published frame in every pixel |
| CaptureRuns.GenerationCycles | Core/Src/app_vnc_frame.c:118-123 | the generation counter never returns to zero and repeats with period 2^32 - 1 |
| CaptureRuns.RunsKeepInvariant | Core/Src/app_vnc_frame.c:71-235 | what every step of every interleaving keeps: reader counts, buffer contents, damage, generation |
| Capture.FrameCapture.Publish | Core/Src/app_vnc_frame.c:71-155 | commits the frame, its box and the next generation together, or changes nothing when every buffer is taken |
| Capture.FrameCapture.SelectSlot | Core/Src/app_vnc_frame.c:95-106 | the first buffer that is neither published nor read, or none |
| Capture.FrameCapture.CopyInto | Core/Src/app_vnc_frame.c:114-116 | one buffer becomes the source, all others stay |
| Capture.FrameCapture.Commit | Core/Src/app_vnc_frame.c:118-154 | published index, generation and damage after the second lock region |
| Capture.FrameCapture.Acquire | Core/Src/app_vnc_frame.c:157-202 | a view of the published buffer if something is published and the reader count can grow, else no change |
| Capture.FrameCapture.Release | Core/Src/app_vnc_frame.c:204-223 | one reader less on that buffer, nothing for a view already released |
| Capture.FrameCapture.Acknowledge | Core/Src/app_vnc_frame.c:225-235 | clears the damage exactly when the generation matches |
| Capture.FrameCapture.PublishAnything | Core/Src/app_vnc_frame.c:71-155 | whatever is published, reader counts and buffers being read do not change, and damage only grows |
| Rectangles.ClampIsIntersection | Core/Src/app_vnc_frame.c:48-69 | clamping a box is intersecting it with the screen |
| Rectangles.PublishedBoxOnScreen | Core/Src/app_vnc_frame.c:85-93 | the published box lies on the screen and includes what of the dirty box is on it |
| Rectangles.PublishedBoxShows | Core/Src/app_vnc_frame.c:85-93 | a pixel is reported as damaged if and only if it is in the dirty box, or no pixel of the screen is |
| Rectangles.HullOfIncludes | Core/Src/app_vnc_frame.c:125-152 | the accumulated box includes every box accumulated |
| Rectangles.HullOfIsLeast | Core/Src/app_vnc_frame.c:125-152 | and is included in every box that does |
| Rectangles.ClipIsIntersection | NetXDuo/App/app_vnc_server.c:503-526 | a clipped request holds exactly the requested pixels that are on the screen, none means there are none |
| Rectangles.IntersectIsIntersection | NetXDuo/App/app_vnc_server.c:528-571 | an incremental update holds exactly the requested pixels that are damaged |
| Rectangles.CoversDirtyIsInclusion | NetXDuo/App/app_vnc_server.c:573-586 | a request covers the damage if and only if it contains every damaged pixel |
| Rectangles.UpdateRectShowsWhatIsOwed | NetXDuo/App/app_vnc_server.c:707-719 | an update holds exactly the pixels of the request, of an incremental one after the first picture exactly the damaged ones among them; there is none if and only if there are no such pixels |
| Display.Driver.Toggle | Core/Src/app_guix.c:708-772 | the rendered buffer is scanned out and published, the other one gets the dirty area and is drawn next |
| Display.Driver.AreaCopy | Core/Src/app_guix.c:662-706 | copies exactly the pixels of the clamped rectangle, for every rectangle |
| Display.AreaCopyReconciles | Core/Src/app_guix.c:662-706 | after the copy the framebuffers are equal if and only if they differed only inside the clamped rectangle |
| Display.NullAreaIsEverything | Core/Src/app_guix.c:662-678 | without a dirty area every pixel is copied and every pixel is reported as damaged |
| Mirror.ClientMirrorsPublishedFrame | NetXDuo/App/app_vnc_server.c:687-751 | from the first full-screen toggle on, in every reachable state, also mid-update, every pixel sent that is not in the damage box has its value in the published frame |
| Mirror.UndamagedClientShowsTheScreen | NetXDuo/App/app_vnc_server.c:687-751 | a client that was sent every pixel shows exactly the screen when no damage is left, unless a frame is just being copied |
| Mirror.EveryToggleIsPublished | Core/Src/app_guix.c:748-766 | with three snapshot buffers no toggle is dropped, and except while a frame is being copied the last publication is the buffer scanned out |
| Mirror.FramebuffersAgree | Core/Src/app_guix.c:708-772 | whenever GUIX may draw, the draw buffer is not the one scanned out, and both are pixel-equal |
| Mirror.RunsKeepInvariant | Core/Src/app_guix.c:708-772 | what every step of GUI, capture module, server and client keeps |
| Mirror.DamageWasSeen | NetXDuo/App/app_vnc_server.c:713-747 | when an acknowledgement takes effect, every damaged pixel has just been sent |
| Mirror.DecidesWhatIsOwed | NetXDuo/App/app_vnc_server.c:707-719 | the update decided on brings a pixel if and only if it is requested and, after the first picture, the request is not incremental or the pixel is damaged |
| Mirror.FinishedUpdateIsShown | NetXDuo/App/app_vnc_server.c:733-737 | an update that ends has shown the client every pixel of its rectangle as it is in the snapshot |
| Mirror.FinishedUpdateClearsDamage | NetXDuo/App/app_vnc_server.c:739-747 | if it covers the damage and nothing was published meanwhile, no damage is left, and the snapshot is what is published |
| PixelFormat.NoByteIsLost | NetXDuo/App/app_vnc_server.c:306-342 | in every accepted format and both byte orders, the bytes sent read back as the converted pixel |
| PixelFormat.ConvertFits | NetXDuo/App/app_vnc_server.c:588-602 | a converted pixel fits the bits per pixel of every accepted format |
| PixelFormat.SupportedExactlyWhen | NetXDuo/App/app_vnc_server.c:306-342 | a format is accepted if and only if it is a true-colour format of 8, 16 or 32 bits, of a depth up to that, with channels that are not empty and fit |
| PixelFormat.ChannelsAreNearest | NetXDuo/App/app_vnc_server.c:588-626 | with separate masks 2^n - 1, in every accepted format, the client reads each channel of a pixel as the nearest value its maximum allows |
| PixelFormat.U32IsBigEndian | NetXDuo/App/app_vnc_server.c:92-117 | the integers of the protocol are sent with the most significant byte first |
| PixelFormat.WireRoundTrip | NetXDuo/App/app_vnc_server.c:604-626 | the bytes of a number that fits give the number back |
| PixelFormat.PixelsSurvive | NetXDuo/App/app_vnc_server.c:588-626 | with separate masks 2^n - 1 and maxima of at least 31, 63 and 31 the client recovers every RGB565 pixel exactly |
| PixelFormat.DefaultIsSupported | NetXDuo/App/app_vnc_server.c:292-304 | the initial format is an accepted one |
| PixelFormat.DefaultIsLossless | NetXDuo/App/app_vnc_server.c:292-304 | and one in which every pixel survives |
| PixelFormat.ChannelSurvivesExactlyWhen | NetXDuo/App/app_vnc_server.c:588-602 | the values of a channel stay distinguishable if and only if the client's maximum is no smaller |
| RawUpdate.RawPixelsSize | NetXDuo/App/app_vnc_server.c:628-679 | n pixels take n times the bytes per pixel |
| RawUpdate.RawPixelAt | NetXDuo/App/app_vnc_server.c:628-679 | the k-th group of bytes is the k-th pixel of the rectangle, row by row |
| RawUpdate.RawRectangleShowsTheFrame | NetXDuo/App/app_vnc_server.c:628-679 | a client that decodes the update at (dx, dy) gets the frame's pixel there |
| ClientMessages.ParseRoundTrip | NetXDuo/App/app_vnc_server.c:853-891 | an acceptable message is parsed back whatever follows it, and consumes exactly its bytes |
| ClientMessages.ParseIsFaithful | NetXDuo/App/app_vnc_server.c:457-501 | what is parsed is acceptable and encodes to exactly the bytes consumed |
| ClientMessages.EncodingIsPrefixFree | NetXDuo/App/app_vnc_server.c:853-891 | two messages at the start of the same bytes are the same |
| ClientMessages.SplitsAreNested | NetXDuo/App/app_vnc_server.c:853-891 | of two ways to split the same bytes into messages and a rest, one continues the other |
| ClientMessages.DecodedIsAll | NetXDuo/App/app_vnc_server.c:853-891 | when nothing more can be parsed, exactly the messages sent were decoded |
| ClientMessages.InsideMessage | NetXDuo/App/app_vnc_server.c:853-891 | a place properly inside a message is the end of no message |
| ClientMessages.SizeAtLeast | NetXDuo/App/app_vnc_server.c:457-501 | what is parsed was there completely, and is no shorter than its fixed part |
| RfbStream.Stream.Fill | NetXDuo/App/app_vnc_server.c:179-202 | at most one call, at most one packet owned, no byte lost; it fails exactly at a fault or at the end of what arrives |
| RfbStream.Stream.Receive | NetXDuo/App/app_vnc_server.c:204-267 | the next n bytes, for every segmentation, with at most 5n of the calls made empty waits, and one more on failure; a failure means too few bytes, a fault, or that the last call was a wait with the link down or the sixth wait in a row; while everything flows it succeeds if and only if the bytes are there; no wait but the last finds the link down |
| RfbStream.Stream.Skip | NetXDuo/App/app_vnc_server.c:269-290 | drops exactly n bytes, overwriting only the sink, with the same bound on empty waits and the same reasons to fail; no wait but the last finds the link down |
| NetX.EmptyWaitsCounts | NetXDuo/App/app_vnc_server.c:213-240 | what the bounds on waiting count is the number of calls that brought nothing |
| RfbStream.Stream.AwaitPacket | NetXDuo/App/app_vnc_server.c:213-240 | a packet is there, or one more wait in vain was made, or it gives up for a reason found in the last call |
| RfbStream.Stream.TakeFromPacket | NetXDuo/App/app_vnc_server.c:241-263 | moves bytes from the packet to the caller without loss, and releases a used-up packet |
| RfbStream.Stream.Close | NetXDuo/App/app_vnc_server.c:170-177 | afterwards no packet is owned |
| NetX.Stack.SendPacket | NetXDuo/App/app_vnc_server.c:131-154 | on every path the packet is accepted or released, never both, never neither |
| RfbServer.Session.Run | NetXDuo/App/app_vnc_server.c:919-965 | at the end no packet is owned and no reader count differs; what was handled and the rest make up the input, and the rest holds no further message unless a send failed, a fault arrived, or a message already begun was waited for in vain; the wire holds the start and a transcript of replies, and beyond it at most the beginning of the one answer that was then owed; before each wait in vain and each message handled outside a reply there was a pass, in which what was answerable got exactly one reply from the snapshot published then, and nothing happened if nothing was; never was more than a header and a chunk sent without looking for input |
| RfbServer.Session.ServePass | NetXDuo/App/app_vnc_server.c:774-801 | one pass of the loop serves what is answerable, or ends the session with the beginning of that answer on the wire |
| RfbServer.Session.DueIsAnswerable | NetXDuo/App/app_vnc_server.c:687-718 | what the server finds to be due is a waiting request that is off the screen, or has a pixel on the screen to be shown by a snapshot |
| SessionLog.RequestsAreServed | NetXDuo/App/app_vnc_server.c:774-801 | if a finished pass finds something viewable and as newest request one that is not incremental, or comes before the first picture, or is off the screen, every request handled before that pass is answered in the end, or overtaken by a later one that is |
| RfbServer.Session.EverythingIsHandled | NetXDuo/App/app_vnc_server.c:919-965 | if the client sent a list of messages, however it was cut, the first of them were handled; all of them, if no send failed and what arrived was undisturbed, long pauses between messages included |
| RfbServer.Session.NotUndisturbed | NetXDuo/App/app_vnc_server.c:204-240 | a session that ends before a complete message shows a disturbance in what arrived |
| SessionLog.CutShort | NetXDuo/App/app_vnc_server.c:213-240 | a fault, or a long wait or a lost link inside a message, is a disturbance |
| SessionLog.FlowingIsUndisturbed | NetXDuo/App/app_vnc_server.c:213-240 | readable packets, a link that stays up and no long wait are undisturbed for any messages |
| RfbServer.Session.RequestBookkeeping | NetXDuo/App/app_vnc_server.c:774-801 | replies plus the pending request are no more than the requests, and the newest request is pending or was answered last |
| RfbServer.Session.ServicePendingUpdate | NetXDuo/App/app_vnc_server.c:774-801 | exactly one more reply, to the pending request, from what was published when it began, if and only if there is something to answer; otherwise nothing is sent and the request is pending as before; a request that comes during the reply stays pending |
| RfbServer.Session.SendFramebufferUpdate | NetXDuo/App/app_vnc_server.c:687-751 | sends if and only if there is something to answer: an empty update, or header and pixels of what is published, in the format at the start; reader counts are restored in every case |
| RfbServer.Session.AnswerFromView | NetXDuo/App/app_vnc_server.c:701-751 | the update shows the buffer that is published when the view is acquired, for the damage of that moment; the view is released on every path |
| RfbServer.Session.UpdateFromView | NetXDuo/App/app_vnc_server.c:711-747 | sends if and only if something is to be shown; clears the damage exactly when that was sent, the request covered the damage of the view, and no newer frame was published; otherwise all damage is kept |
| RfbServer.Session.NextMessage | NetXDuo/App/app_vnc_server.c:942-958 | one wait in vain or one message follows a pass; the transcript stays, and input is used up |
| RfbServer.Session.TakePending | NetXDuo/App/app_vnc_server.c:784-792 | the request served is the newest one received |
| RfbServer.Session.PutBack | NetXDuo/App/app_vnc_server.c:794-800 | a request that got nothing is pending again, as before |
| RfbServer.Session.SendRawPixels | NetXDuo/App/app_vnc_server.c:628-679 | the wire grows by exactly the rectangle of the held snapshot, although input is drained through the same buffer and frames are published meanwhile |
| RfbServer.Session.FlushChunk | NetXDuo/App/app_vnc_server.c:645-661 | the chunk goes out, before input can overwrite it, and then the input that has arrived is handled, up to sixteen messages; a failure leaves a beginning of the chunk on the wire, and held snapshots stay |
| RfbServer.Session.DrainClientMessages | NetXDuo/App/app_vnc_server.c:893-917 | only records: nothing is sent, no view is touched, no message is left half read; it stops after sixteen messages or when its last call reported that nothing had arrived |
| RfbServer.Session.ProcessClientMessage | NetXDuo/App/app_vnc_server.c:853-891 | one message joins the log and exactly its bytes are gone; a failure means that no acceptable message came, a fault, or a message begun whose rest was waited for in vain |
| RfbServer.Session.HandleSetPixelFormat | NetXDuo/App/app_vnc_server.c:457-487 | takes over every usable format, refuses any other |
| RfbServer.Session.HandleSetEncodings | NetXDuo/App/app_vnc_server.c:489-501 | consumes the list and changes nothing |
| RfbServer.Session.HandleUpdateRequest | NetXDuo/App/app_vnc_server.c:753-772 | the request becomes the pending one |
| RfbServer.Session.HandleFixColourMap | NetXDuo/App/app_vnc_server.c:803-815 | consumes the colours and changes nothing |
| RfbServer.Session.HandlePointerEvent | NetXDuo/App/app_vnc_server.c:817-828 | passes the event on, with the coordinates its bytes give, most significant first |
| RfbServer.Session.HandleCutText | NetXDuo/App/app_vnc_server.c:830-851 | consumes a text within the cap, refuses a longer one |
| RfbServer.Session.HandleKeyEvent | NetXDuo/App/app_vnc_server.c:877-878 | consumes seven bytes and changes nothing |
| RfbServer.Session.Send | NetXDuo/App/app_vnc_server.c:119-160 | the wire grows by the data, in packets of at most the size of the chunk, or a send has failed and it grows by a beginning of the data |
| RfbServer.Session.AppendPixel | NetXDuo/App/app_vnc_server.c:604-626 | the bytes of the pixel follow what waits in the chunk |
| ClientView.ClientShowsFrameLastSeen | NetXDuo/App/app_vnc_server.c:687-751 | a client that splits and decodes the bytes on the wire, from any reply on while the format stays the same, shows for each pixel sent its value in the frame that was published when the last reply showing it began, converted to that format and recovered by a lossless one; it shows no other pixel |
| ClientView.UpdatesAreReplies | NetXDuo/App/app_vnc_server.c:687-751 | the updates delimit themselves: in every format in force, splitting the wire by headers alone gives back the replies one by one, whatever follows them |
| ClientView.ReplyReads | NetXDuo/App/app_vnc_server.c:720-737 | wherever a reply stands on the wire a client takes it for an update with one Raw rectangle or with none; its header says how long it is, and header and pixels read back as exactly the pixels of its rectangle in its frame, in every supported format |
| ClientView.RequestsGetTheirPixels | NetXDuo/App/app_vnc_server.c:687-751 | a reply brings a pixel on the screen if and only if it was requested and the request is not incremental, or no picture was sent before, or the pixel is damaged |
| ClientView.ReplyIsMirrorUpdate | NetXDuo/App/app_vnc_server.c:707-719 | a reply of the session is the update the server of `Mirror` decides on the same view, with the same pixels |
| SessionLog.NoUnsolicitedUpdate | NetXDuo/App/app_vnc_server.c:774-801 | a transcript holds at most one reply per request |
| SessionLog.TranscriptStays | NetXDuo/App/app_vnc_server.c:664-678 | messages handled later change nothing about the replies sent before |
| SessionLog.FormatAfterIsSupported | NetXDuo/App/app_vnc_server.c:292-342 | whatever was accepted, the format in force is a supported one |
| SessionLog.UsableFormatIsTakenOver | NetXDuo/App/app_vnc_server.c:457-487 | a client that asks for such a format is understood, and has it from then on |
| SessionLog.EventAt | NetXDuo/App/app_vnc_server.c:753-828 | each pointer event and each update request of the messages is recorded as it was received, in its place |
| SessionLog.EventsCome | NetXDuo/App/app_vnc_server.c:753-828 | and no other is |
| Bme280.Sensor.CompensateTemperature | Core/Src/bme280_sensor.c:351-382 | within two hundredths of a degree of the data sheet's exact formula under the same clamp, for every calibration and reading whose int32 intermediates fit |
| Compensation.TypicalTemperatureFits | Core/Src/bme280_sensor.c:362-369 | a box of calibrations in which every 20-bit reading is free of overflow |
| Compensation.TemperatureError | Core/Src/bme280_sensor.c:362-370 | the error of all floor shifts together, over the common denominator |
| Compensation.DivisorIsLarge | Core/Src/bme280_sensor.c:398-410 | with an accepted calibration and an unclamped temperature the pressure divisor is at least 4096 |
| Compensation.ZeroDivisorWhenClamped | Core/Src/bme280_sensor.c:407-410 | with a clamped temperature the divisor can be zero, so the guard is needed |
| Bme280.Sensor.CompensatePressure | Core/Src/bme280_sensor.c:384-431 | zero if and only if the divisor is zero, never with an unclamped temperature; otherwise within 3000000..11000000, namely the computed value after the cast and the clamp |
| Compensation.ReportedError | Core/Src/bme280_sensor.c:384-431 | for every calibration and reading without overflow whose divisor is not small and whose uncorrected pressure is at most 2^20 pascal, a pressure whose computed value is not negative is reported within 0.3 pascal of the data sheet's floating-point formula under the same clamp |
| Compensation.TypicalPressureIsNotNegative | Core/Src/bme280_sensor.c:398-419 | a box of calibrations in which no reading up to 840000 at an unclamped temperature computes a negative pressure, and every such reading is regular |
| Compensation.TypicalPressureError | Core/Src/bme280_sensor.c:384-431 | so for these calibrations and readings every reported pressure is within 0.3 pascal |
| Compensation.PressureForms | Core/Src/bme280_sensor.c:398-419 | the data sheet's floating-point formula and the exact form of the integer stages are the same: the divisor is scaled by 2^14, the quotient by 2^16 |
| Compensation.PressureError | Core/Src/bme280_sensor.c:398-419 | before cast and clamp, for every such calibration and reading, the four floor shifts, the truncating divisions and the integer quotient together cost less than 0.3 pascal against the data sheet's floating-point formula |
| Compensation.QuotientError | Core/Src/bme280_sensor.c:405-413 | what a floored divisor and a truncating division do to the quotient |
| Compensation.S16 | Core/Src/bme280_sensor.c:85-93 | the signed value whose two's complement the two bytes are |
| Compensation.Extended12 | Core/Src/bme280_sensor.c:95-102 | the signed value with those twelve bits |
| Bme280.Raw20 | Core/Src/bme280_sensor.c:601-606 | the reading whose upper sixteen and lower four bits the three bytes hold |
| Compensation.LargeDivisorIsRegular | Core/Src/bme280_sensor.c:405-413 | whenever nothing overflows, a divisor of at least 2^27 makes the pressure regular |
| Compensation.ModeratePressureFits | Core/Src/bme280_sensor.c:398-419 | a box of calibrations in which no int64 intermediate overflows, the pressure is regular and the result fits 32 bits |
| Compensation.ReportedIsClampedExactlyWhen | Core/Src/bme280_sensor.c:419-428 | for every computed value: the reported pressure is that value brought into range if and only if the cast changed nothing, or its remainder is brought to the same end |
| Compensation.RegularIsClampedExactlyWhen | Core/Src/bme280_sensor.c:419-428 | for every regular pressure without overflow, if and only if the value is not negative; a negative one is reported as the highest pressure |
| Compensation.NegativeReadsAsPlausible | Core/Src/bme280_sensor.c:398-428 | with an accepted calibration and without overflow a negative value is reported as 7467296, in the middle of the range |
| Compensation.HighReadsAsLowest | Core/Src/bme280_sensor.c:398-428 | and a value far above the range as the lowest pressure |
| Compensation.SteepExists | Core/Src/bme280_sensor.c:340-348 | such calibrations are accepted, and a reading reaches that t_fine |
| Humidity.HumidityError | Core/Src/bme280_sensor.c:433-473 | for every calibration and reading whose int32 intermediates fit, the result is within 37 + 0.47 abs(h2) units of 1/1024 percent of the data sheet's formula under the same clamp |
| Humidity.MildHumidityError | Core/Src/bme280_sensor.c:433-473 | for every mild calibration whose int32 intermediates fit, within one sixteenth of a percent |
| Humidity.FineIsInReach | Core/Src/bme280_sensor.c:362-369 | no temperature computed without overflow leaves the range of t_fine that HumidityError assumes |
| Humidity.SquaredIsSmall | Core/Src/bme280_sensor.c:454 | the correction's square fits int32 only up to 46340 |
| Humidity.InReachFits | Core/Src/bme280_sensor.c:444-455 | for mild calibrations an uncorrected value of at most 2^30 is enough for every int32 intermediate to fit |
| Humidity.ExactForms | Core/Src/bme280_sensor.c:444-455 | the data sheet's floating-point formula and the exact form of the integer stages are the same |
| Humidity.TypicalHumidityInReach | Core/Src/bme280_sensor.c:444-453 | a box of calibrations and readings in which that holds at every temperature that was not clamped |
| Bme280.Sensor.CompensateHumidity | Core/Src/bme280_sensor.c:433-473 | the staged value, never above 102400 |
| Compensation.LowReadingReportsHighest | Core/Src/bme280_sensor.c:412-428 | with the data sheet's example calibration a reading at the end of the range is reported as the highest pressure |
| Bme280.Sensor.ReadCalibration | Core/Src/bme280_sensor.c:305-349 | the record filled is the one whose little-endian and 12-bit forms the registers hold, untouched if they cannot be read; accepted unless t1 or p1 is 0 or 65535 |
| Bme280.Sensor.Detect | Core/Src/bme280_sensor.c:494-524 | finds the first address with the chip id; otherwise tells a wrong chip, and the last address that identified itself, from none |
| Bme280.Sensor.Initialize | Core/Src/bme280_sensor.c:475-559 | the sensor is in use if and only if it was found, every transfer succeeded, it became ready and its calibration was accepted |
| Bme280.Sensor.Read | Core/Src/bme280_sensor.c:561-625 | exactly when a sample is given, when a transfer failed, and how far each of its three values is from the data sheet's formula |
| TextPrinter.AppendFixed | Core/Src/app_guix.c:286-331 | behind the position the buffer holds what fits of the printed text, then a NUL, and nothing else changed; for every int32 and every divisor |
| TextPrinter.AppendU32 | Core/Src/app_guix.c:267-284 | the same for a decimal number |
| TextPrinter.AppendText | Core/Src/app_guix.c:231-239 | the same for a text |
| TextPrinter.AppendFraction | Core/Src/app_guix.c:314-330 | the zeros for missing leading digits and the rest of the fraction |
| TextPrinter.PowersPrintFixed | Core/Src/app_guix.c:307-330 | with a power of ten the printed text is sign, whole digits, point and the fraction padded to its places |
| TextPrinter.ReadsBackExactlyWhenItFits | Core/Src/app_guix.c:286-331 | for every power of ten from ten on, the buffer reads back as the value and its number of places if and only if the whole text fits |
| TextPrinter.AllReadBackExactlyWhen | Core/Src/app_guix.c:286-331 | every int32 reads back with the divisor's places if and only if the divisor is a power of ten, from ten on |
| TextPrinter.WithoutPlaces | Core/Src/app_guix.c:307-330 | with divisor one the text reads as ten times the value |
| RecordServer.Server.Serve | NetXDuo/App/app_netxduo.c:762-792 | every packet received is released; what was consumed is the beginning of the stream, all that was received if no send failed; one response for each complete record; it ends only when a check fails, the connection does, a packet is unreadable or a send failed, so that without these the whole stream is consumed and every complete record is answered |
| RecordServer.Server.ProcessPacket | NetXDuo/App/app_netxduo.c:601-649 | consumes the packet in whatever pieces it is extracted, one response per record completed, stopping at a failed send; nothing of a packet that is unreadable or of unknown length |
| RecordServer.Server.Take | NetXDuo/App/app_netxduo.c:616-639 | one piece of a packet joins the stream, and a record it completes sets the controls |
| RecordServer.Server.LastRecordSetsControls | NetXDuo/App/app_netxduo.c:634-638 | the controls are the first four bytes of the last complete record of the stream, and what is kept is what follows it, for every segmentation |
| RecordServer.ControlsAt | Core/Src/app_state.c:106-116 | the k-th setting of the controls is the first four bytes of the k-th record |
| RecordServer.Server.SendResponse | NetXDuo/App/app_netxduo.c:567-599 | one response is accepted, or its packet released and none sent |
| WebWriter.Writer.Flush | NetXDuo/App/app_netxduo.c:807-842 | the buffer goes out or stays, a failure is kept, no packet is left |
| WebWriter.Writer.AppendText | NetXDuo/App/app_netxduo.c:844-857 | while nothing fails all text is written in order; after a failure, which only a failed send brings, what is written is a beginning of it; nothing is sent while there is room in the buffer |
| VbusMonitor.ChangesOnlyWhenSteady | USBX/App/app_usbx_device.c:296-304 | the stable level changes only to one that all samples of at least the last 75 ms read, however often the tick wrapped |
| VbusMonitor.FollowsSteadyLevel | USBX/App/app_usbx_device.c:296-304 | a level found steady for at least 75 ms, and less than a turn of the tick, is reported as long as it lasts |
| VbusMonitor.TakenOverExactlyWhen | USBX/App/app_usbx_device.c:301-304 | a different level is taken over if and only if the wrapped duration reaches 75 ms |
| VbusMonitor.GlitchesAreIgnored | USBX/App/app_usbx_device.c:296-304 | levels that never last 75 ms change nothing |
| VbusMonitor.CommandsAlternate | USBX/App/app_usbx_device.c:265-335 | disconnect and connect strictly alternate, and the last command says what the stable level is |
| VbusMonitor.Monitor.constructor | USBX/App/app_usbx_device.c:259-272 | starts connected, and disconnects at once without a cable |
| VbusMonitor.Monitor.Service | USBX/App/app_usbx_device.c:282-338 | one sample; level, soft connection, cable state and commands follow the debouncing of all samples |

## Left out

- The HAL, ThreadX, NetX Duo, USBX and GUIX themselves: their calls are parameters or have the contracts described above.
- The RFB handshake (app_vnc_server.c:344-455): a fixed exchange; a session starts where it leaves the stream.
- What App_GUIX_RemotePointerEvent does with a pointer event: only the calls are recorded.
- I2C transfers, bus recovery and measurement timing: what each transfer brought, and whether it succeeded, are arguments.
- DHCP, link service, socket creation, accept and relisten; the checks that keep the record loop going are arguments.
- Content of responses, pages and logs; widgets, fonts, the screen saver and the C# tool.
- Vertical blanking in display_toggle: scanning out the rendered buffer is one step.
- PublishAnything: publishes whole frames between two steps of the server; `CaptureRuns` interleaves the copy pixel by pixel.
- ReportedError: bounds the distance from the exact formula only for regular pressures, with a divisor of at least 122880000 and at most 2^20 pascal before the correction; elsewhere the range of the report and the condition for the clamp are stated.
- ClientShowsFrameLastSeen: speaks of updates sent while the format stays the same; which update is the first in a new format is not written on the wire.
- HumidityError: says nothing where an int32 intermediate of the source overflows, which C leaves undefined.
