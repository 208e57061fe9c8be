# Verified models of the vendored Kinect components

This project models, in Dafny, the protocols and codecs that the Kinect app carries with it, and
proves what they are for. Each component is modelled in the form its code has: classes and arrays
where state is updated in place, methods with loops where the code loops, a step system where any
number of threads share state, and functions where it computes values. Every method is proved
against a specification function, and the lemmas say what that function is good for.

| files | component |
|---|---|
| `EventProtocol.dfy`, `EventDecisions.dfy` | libusb's event handling: the recursive events lock, the waiters lock with its condition variable, the `pollfd_modify` counter and the control pipe, for any number of threads; and whole calls of one thread |
| `TimeoutList.dfy` | libusb's intrusive circular list of flying transfers, sorted by timeout, with the scans that stop early and the disconnect loop |
| `DescriptorParser.dfy`, `DescriptorTree.dfy`, `DescriptorRoundTrip.dfy`, `DescriptorTruncation.dfy` | libusb's parser for configuration descriptors (USB 2.0, sections 9.6.3, 9.6.5, 9.6.6) |
| `OscEncoding.dfy`, `OscDecoding.dfy`, `OscStream.dfy`, `OscRuns.dfy`, `OscExamples.dfy` | the Open Sound Control 1.0 format, a decoder, and oscpack's packet stream, which builds packets in one buffer |
| `TuioCursors.dfy`, `TuioPackets.dfy`, `TuioServer.dfy`, `TuioClient.dfy`, `TuioConvergence.dfy`, `TuioRuns.dfy` | the TUIO server and client: cursor IDs, frame splitting, and the two sides together over the OSC format |
| `CameraStream.dfy`, `CameraAlignment.dfy`, `CameraVariable.dfy` | libfreenect's packet reassembly under loss, for frames of fixed and of variable length |
| `Unpackers.dfy`, `Demosaic.dfy`, `Registration.dfy` | libfreenect's bit-stream unpackers, Bayer conversion and z-buffered registration |
| `IsoStream.dfy`, `IsoRuns.dfy` | the life of an isochronous stream from start to stop |
| `Basics.dfy`, `Division.dfy` | shared types, byte orders and division facts |

`dafny verify dfyconfig.toml` checks everything.

Eleven results say where the code does less than one might hope, each with the exact condition:

* A failed write to libusb's control pipe can leave a waiter asleep with nobody left to wake it
  (`EventProtocol.CoverStep`, `EventProtocol.FailedWriteLosesWakeup`), and a close that goes on after
  one can wait for a handler that is never told, the only way in which those who change the poll set
  get stuck (`EventProtocol.ModifiersProgress`, `EventProtocol.FailedCloseWaits`).
* A notification from within a callback leaves the handler, which keeps its lock, no longer marked as
  handling events; meanwhile a call that finds the lock taken goes round and round without sleeping
  (`EventDecisions.NotifyAlone`, `EventDecisions.GoesRound`).
* An argument with a payload that is given to the packet stream outside a message, and not followed
  by the begin of another element, makes `Size()` larger than the packet (`OscRuns.WriteCalls`).
* With two to five packets a frame, one call of `stream_process` can cross two frame boundaries
  and report one (`CameraAlignment.SixPacketsSuffice`, `CameraAlignment.ShortFramesMissAReport`).
* A camera frame of which nothing is lost is dropped if the gap before it makes the receiver give up
  (`CameraAlignment.CompleteFrameReported`).
* After a frame with changes made anywhere since the last one, a TUIO client agrees with the server
  exactly if every session was touched in the frame, or is where it was when the two last agreed
  (`TuioRuns.AgreesIff`, `TuioRuns.PlayToCommit`); a cursor added between two frames is neither, and
  stays unseen until it is moved (`TuioRuns.AddBetweenFrames`, `TuioRuns.StaysMissing`).
* An alternate setting at the end of a configuration, whose extra descriptors are cut short, keeps
  its announced number of endpoints without an endpoint array (`DescriptorTruncation.EndpointCounts`).
* The depth images of `freenect_apply_depth_to_mm` hold 10000 for far pixels, and for these
  `freenect_map_rgb_to_depth` reads behind its table of 10000 entries (`Registration.MapRgbToFrame`,
  `Registration.FarFrames`).
* `freenect_apply_registration` and `freenect_map_rgb_to_depth` place a pixel at the same spot exactly
  if the padding has no start lines: one subtracts them as part of a column offset, the other as lines
  (`Registration.SamePlaceIff`).
* A transfer can be freed under a callback that has counted it and not returned, exactly if more
  than the stopping thread handles events (`IsoStream.SafeIffOwnerOnly`, `IsoStream.FreedUnderCallback`).
* The line pointers of the Bayer conversion leave an image of one or two lines
  (`Demosaic.NeighboursStay`).

A smaller one is stated in a contract: a transfer that is submitted again without a timeout keeps its
old deadline, and is cancelled when that has come (`TimeoutList.Context.SubmitAndHandle`).

## Model

| member | source | states |
|---|---|---|
| EventProtocol.InvStep | app/src/main/cpp/libusb/io.c:2156-2207 | every step of every thread keeps the lock, accounting, sleeper and flag invariants |
| EventProtocol.RunInv | app/src/main/cpp/libusb/io.c:1646-1715 | the invariants hold after every run of any number of threads |
| EventProtocol.CoverStep | app/src/main/cpp/libusb/core.c:1027-1065 | a step keeps "every sleeper has a reason to be woken" if and only if it is not the end of a modify section, after a failed write, that takes away the last reason |
| EventProtocol.NoLostWakeup | app/src/main/cpp/libusb/io.c:1845-1872 | while pipe writes succeed a sleeper always has somebody who owes a broadcast (an open modify section, the lock holder, a thread between release and broadcast); if its own transfer is complete, that broadcast is still pending |
| EventProtocol.FailedWriteLosesWakeup | app/src/main/cpp/libusb/core.c:1042-1047 | a concrete reachable state in which a failed write has left a thread asleep with nobody to wake it |
| EventProtocol.ModifierAccounting | app/src/main/cpp/libusb/core.c:1260-1312 | in every reachable state `pollfd_modify` and the pipe's bytes count the threads inside the sections, `event_handler_active` implies that the lock is held by one thread, a modifier's read never blocks, poll returns while a modifier waits, nobody polls for a completed transfer of its own; recursive locking in `do_close` included |
| EventProtocol.ModifiersProgress | app/src/main/cpp/libusb/core.c:1191-1247 | while a modify section is open, a thread in one or holding a lock can run, whatever the devices do, iff it is not so that all that is open are closes after failed writes behind a handler polling an empty pipe |
| EventProtocol.FailedCloseWaits | app/src/main/cpp/libusb/core.c:1284-1292 | that exception is reachable, and nobody can run in it |
| EventProtocol.SleepersProgress | app/src/main/cpp/libusb/io.c:1845-1872 | while a thread sleeps, some thread can run or a handler is polling |
| EventProtocol.BoundedWakeup | app/src/main/cpp/libusb/io.c:1703-1715 | once a thread that owes a broadcast, and has met no failed write, has taken as many steps of its own as its rank, at most 14, every sleeper has been woken, however the others interleave |
| EventProtocol.SleeperWakes | app/src/main/cpp/libusb/io.c:1845-1872 | while pipe writes succeed every sleeper has such a thread: once that one has taken 14 steps the sleeper has been woken |
| EventProtocol.FlagFrame | app/src/main/cpp/libusb/sync.c:36-60 | a completed flag that a committed waiter has missed always has its completing broadcast still to come |
| EventDecisions.NobodySleepsInQuiet | app/src/main/cpp/libusb/io.c:1766-1782 | over any run in which nobody modifies the poll set or handles events, nobody goes to sleep |
| EventDecisions.NoRetryWhileActive | app/src/main/cpp/libusb/io.c:2187-2193 | while somebody handles events no waiter tries again: it goes on to sleep |
| EventDecisions.ModifiersGoFirst | app/src/main/cpp/libusb/io.c:1646-1668 | while somebody wants to modify the poll set nobody else tries the lock |
| EventDecisions.HandlerAlone | app/src/main/cpp/libusb/io.c:2169-2178 | a call that finds the lock free takes it and polls; if what it waits for is complete it returns and everything is as before |
| EventDecisions.WaiterAlone | app/src/main/cpp/libusb/io.c:2180-2207 | a call that finds the lock taken returns if what it waits for is complete, sleeps if events are being handled, and is back at its start otherwise |
| EventDecisions.WaitsForModifiers | app/src/main/cpp/libusb/io.c:1646-1668 | while the poll set is modified a call goes to sleep without trying the lock |
| EventDecisions.NotifyAlone | app/src/main/cpp/libusb/core.c:1027-1065 | a notification leaves every shared variable as it was, except that within a callback the handler is no longer marked as active |
| EventDecisions.CloseAlone | app/src/main/cpp/libusb/core.c:1260-1312 | so does closing a handle, which takes the lock a second time |
| EventDecisions.GoesRound | app/src/main/cpp/libusb/io.c:2169-2193 | while a lock is held by a handler that is not marked, a call goes round any number of times without sleeping |
| TimeoutList.ListAddTail | app/src/main/cpp/libusb/libusbi.h:118-126 | inserting before any member of the ring gives the ring of the sequence with the element inserted there |
| TimeoutList.ListAdd | app/src/main/cpp/libusb/libusbi.h:109-116 | inserting behind the head gives the ring of the sequence with the element in front |
| TimeoutList.ListDel | app/src/main/cpp/libusb/libusbi.h:128-133 | deleting gives the ring of the sequence without the element, whose links are cleared |
| TimeoutList.RingWalk | app/src/main/cpp/libusb/libusbi.h:91-102 | the iteration macros visit the sequence in order and end at the head |
| TimeoutList.Context.AddToFlyingList | app/src/main/cpp/libusb/io.c:1233-1291 | the list stays a ring sorted by timeout, infinite ones last, equal ones in the order of their insertions, with the new transfer behind all equal ones |
| TimeoutList.InsertedStable | app/src/main/cpp/libusb/io.c:1233-1291 | an insertion keeps transfers with equal timeouts in the order of their insertions, which the list's invariant records |
| TimeoutList.RemovedStable | app/src/main/cpp/libusb/libusbi.h:128-133 | so does a removal |
| TimeoutList.CalculateTimeout | app/src/main/cpp/libusb/io.c:1199-1226 | the deadline is the clock plus the duration in microseconds; without a duration the old deadline stays, so a deadline is set iff there is a duration or a stale one |
| TimeoutList.Context.Submit | app/src/main/cpp/libusb/io.c:1434-1470 | a submission clears the transfer's flags, whatever they were, and queues it in order, waiting for its deadline if it has a duration; a refused one leaves the list as it was |
| TimeoutList.Context.HandleTimeouts | app/src/main/cpp/libusb/io.c:1887-1927 | although the scan stops early it marks and cancels exactly the transfers whose deadline has come and is neither handled nor left to the system, each once, the earliest first; nothing if the clock cannot be read |
| TimeoutList.Context.SubmitAndHandle | app/src/main/cpp/libusb/io.c:1434-1470 | a submitted transfer is cancelled by a later scan iff its deadline has come, also if it had timed out before; without a duration iff a deadline left over from before has come |
| TimeoutList.Context.FindWaiting | app/src/main/cpp/libusb/io.c:2397-2408 | the first unhandled finite timeout of the list is the earliest one, and none is found only if there is none |
| TimeoutList.Context.GetNextTimeout | app/src/main/cpp/libusb/io.c:2376-2434 | the time until the earliest unhandled timeout, 0 if it has passed |
| TimeoutList.NoneLater | app/src/main/cpp/libusb/io.c:1904-1925 | once a timeout has not come, no later transfer of the sorted list has expired |
| TimeoutList.Context.HandleDisconnect | app/src/main/cpp/libusb/io.c:2567-2618 | the loop ends, having completed each transfer of the handle once and in order, and leaves exactly the others in flight |
| TimeoutList.Context.CloseHandle | app/src/main/cpp/libusb/core.c:1203-1234 | one pass with a looked-up next link takes out every transfer of the handle and leaves the others in order |
| TimeoutList.FirstBelongs | app/src/main/cpp/libusb/io.c:2598-2616 | completing the first transfer of a handle leaves the rest of its transfers and all the others |
| DescriptorParser.FieldsRoundTrip | app/src/main/cpp/libusb/descriptor.c:43-91 | reading the fields of any format gives back the values that were written |
| DescriptorParser.FormatSizeCounts | app/src/main/cpp/libusb/descriptor.c:55-88 | a format takes one byte for every 'b' in it, two for every 'w', four for every 'd' and sixteen for every 'u' |
| DescriptorParser.ParseDescriptor | app/src/main/cpp/libusb/descriptor.c:43-91 | the format interpreter reads exactly the bytes of the format and yields its little-endian fields |
| DescriptorParser.SkipExtras | app/src/main/cpp/libusb/descriptor.c:139-165 | the loop over extra descriptors stops at a standard one, a bad length or a cut descriptor |
| DescriptorParser.SkipConserves | app/src/main/cpp/libusb/descriptor.c:139-165 | on any input the skipped bytes are whole descriptors of types other than 1, 2, 4 and 5 and with the rest make up the input; what is left starts with one of those types, is too short, claims too much or claims less than a header |
| DescriptorTree.ParseEndpoint | app/src/main/cpp/libusb/descriptor.c:99-187 | the endpoint parser, with its error, absent and cut cases, equals the recursive specification |
| DescriptorTree.ParseInterface | app/src/main/cpp/libusb/descriptor.c:214-361 | the loop over alternate settings, their extras and endpoints equals the recursive specification |
| DescriptorTree.ParseConfiguration | app/src/main/cpp/libusb/descriptor.c:376-495 | the loop over interfaces equals the recursive specification; reads stay inside the buffer and all loops end |
| DescriptorTree.ConfigurationConserves | app/src/main/cpp/libusb/descriptor.c:376-495 | on any input, what is left over is exactly the end of what was given, and `bNumInterfaces` counts the interfaces parsed |
| DescriptorTree.AltsConserve | app/src/main/cpp/libusb/descriptor.c:214-361 | on any input an interface consumes a prefix of at least nine bytes |
| DescriptorRoundTrip.EndpointRoundTrip | app/src/main/cpp/libusb/descriptor.c:99-187 | a written endpoint with its extras is parsed back, in front of any standard descriptor |
| DescriptorRoundTrip.AltsRoundTrip | app/src/main/cpp/libusb/descriptor.c:214-361 | written alternate settings of one interface are grouped again, up to an interface with another number |
| DescriptorRoundTrip.ConfigurationRoundTrip | app/src/main/cpp/libusb/descriptor.c:376-495 | parsing a written well-formed configuration gives back the tree and leaves nothing over |
| DescriptorTruncation.EndpointCounts | app/src/main/cpp/libusb/descriptor.c:280-345 | of whatever is parsed, every setting has as many endpoints as it says iff it is not so that the last setting of the last interface announces endpoints and the extra descriptor after it is longer than what is left; that one keeps the announced number without an array, and no other can be affected |
| DescriptorTruncation.InterfaceCounts | app/src/main/cpp/libusb/descriptor.c:228-361 | the same for the settings of one interface; what follows a setting that is cut short is cut too |
| DescriptorTruncation.BodyCounts | app/src/main/cpp/libusb/descriptor.c:419-489 | a cut descriptor ends the list of interfaces |
| DescriptorTruncation.MissingEndpointArray | app/src/main/cpp/libusb/descriptor.c:290-295 | concrete bytes of a configuration that is parsed to such a setting |
| OscEncoding.RoundUp4IsLeast | app/src/main/cpp/oscpack/osc/OscOutboundPacketStream.cpp:133-136 | `RoundUp4` is the least multiple of four that is not smaller |
| OscDecoding.ArgRoundTrip | app/src/main/cpp/oscpack/osc/OscOutboundPacketStream.cpp:412-635 | every argument type is recovered from its tag and payload, and what follows it is left alone |
| OscDecoding.RoundTrip | app/src/main/cpp/oscpack/osc/OscOutboundPacketStream.cpp:296-409 | decoding undoes encoding, for every packet whatever its nesting |
| OscExamples.TagsAreCharacters | app/src/main/cpp/oscpack/osc/OscTypes.h:66-82 | the type tags are the characters of the OSC specification |
| OscExamples.OscillatorExample | app/src/main/cpp/oscpack/osc/OscOutboundPacketStream.cpp:330-409 | the specification's "/oscillator/4/frequency" message, byte by byte |
| OscExamples.FooExample | app/src/main/cpp/oscpack/osc/OscOutboundPacketStream.cpp:330-409 | the specification's "/foo" message with integers, a string and floats, byte by byte |
| OscDecoding.EncodeInjective | app/src/main/cpp/oscpack/osc/OscOutboundPacketStream.cpp:296-409 | no two packets share an encoding |
| OscDecoding.EncodeAligned | app/src/main/cpp/oscpack/osc/OscOutboundPacketStream.cpp:359-409 | every packet is a whole number of 32-bit words |
| OscStream.CloseDelivers | app/src/main/cpp/oscpack/osc/OscOutboundPacketStream.cpp:179-203 | overwriting the slot with the size delivers the element to its enclosing one, and the offset found in the slot is the enclosing slot |
| OscStream.MessageTexts | app/src/main/cpp/oscpack/osc/OscOutboundPacketStream.cpp:359-409 | address, reversed tags and arguments read off the two ends of the buffer make up the encoded message |
| OscStream.OutboundPacketStream.BeginBundle | app/src/main/cpp/oscpack/osc/OscOutboundPacketStream.cpp:296-312 | opens a bundle or throws and changes nothing; the buffer keeps representing what is being built |
| OscStream.OutboundPacketStream.EndBundle | app/src/main/cpp/oscpack/osc/OscOutboundPacketStream.cpp:315-327 | closes the innermost bundle into its enclosing one or throws and changes nothing |
| OscStream.OutboundPacketStream.BeginMessage | app/src/main/cpp/oscpack/osc/OscOutboundPacketStream.cpp:330-356 | starts a message or throws and changes nothing |
| OscStream.OutboundPacketStream.EndMessage | app/src/main/cpp/oscpack/osc/OscOutboundPacketStream.cpp:359-409 | moves the arguments behind the forward tag string, delivers the message, and leaves `Size()` as it was |
| OscStream.OutboundPacketStream.Append | app/src/main/cpp/oscpack/osc/OscOutboundPacketStream.cpp:412-635 | adds the argument at both ends of the buffer, exactly if its space check lets it through |
| OscRuns.ReadyPacket | app/src/main/cpp/oscpack/osc/OscOutboundPacketStream.cpp:259-275 | once one packet is complete, the first `Size()` bytes are its encoding and the stray bytes behind it; without any they decode to it |
| OscRuns.WriteCalls | app/src/main/cpp/oscpack/osc/OscOutboundPacketStream.cpp:243-635 | any calls on a cleared stream go exactly as far as the specification says; if they end with one finished packet, it is exactly the first `Size()` bytes iff no argument with a payload was given outside a message after the last element was begun or message ended |
| OscRuns.StrayBytesAre | app/src/main/cpp/oscpack/osc/OscOutboundPacketStream.cpp:296-453 | whether stray bytes are left can be read off the calls |
| OscRuns.StrayArgument | app/src/main/cpp/oscpack/osc/OscOutboundPacketStream.cpp:444-453 | an argument given outside a message is accepted, leaves the packet as it is, and adds its length to `Size()` |
| OscRuns.ChainVisitsOpenElements | app/src/main/cpp/oscpack/osc/OscOutboundPacketStream.cpp:158-203 | at every moment following the offsets from `elementSizePtr_` visits exactly the open elements |
| OscRuns.BeginChecksAreExact | app/src/main/cpp/oscpack/osc/OscOutboundPacketStream.cpp:212-229 | with or without stray arguments, the bundle and message checks let a call through iff the packet it leads to fits beside the stray bytes |
| OscRuns.ArgumentCheckIsExact | app/src/main/cpp/oscpack/osc/OscOutboundPacketStream.cpp:232-240 | so does the argument check, inside and outside a message |
| OscRuns.EmitRun | app/src/main/cpp/oscpack/osc/OscOutboundPacketStream.cpp:296-409 | the calls that write a packet of any nesting succeed iff the whole packet fits, and deliver it |
| OscRuns.Replay | app/src/main/cpp/oscpack/osc/OscOutboundPacketStream.cpp:296-635 | any sequence of calls on the real buffer, stray arguments included, goes exactly as far as the specification says |
| OscRuns.WritePacket | app/src/main/cpp/oscpack/osc/OscOutboundPacketStream.cpp:243-275 | after `Clear`, a packet can be written iff its encoding fits, and then the buffer holds that encoding |
| TuioCursors.PoolCount | app/src/main/cpp/TUIO/TuioServer.cpp:298-313 | used and free IDs are together exactly as many as the largest ID plus one |
| TuioCursors.ClosestFree | app/src/main/cpp/TUIO/TuioServer.cpp:302-307 | the search finds the first free cursor at the least distance |
| TuioCursors.TakeId | app/src/main/cpp/TUIO/TuioServer.cpp:298-313 | a new cursor takes the closest free ID, or the next one if none is free; the IDs stay disjoint, complete and without repetition |
| TuioCursors.ReleaseId | app/src/main/cpp/TUIO/TuioServer.cpp:384-412 | giving up an ID keeps that, and the largest ID stays one in use |
| TuioCursors.ReleaseMax | app/src/main/cpp/TUIO/TuioServer.cpp:384-402 | pruning the free list at the new largest ID loses no ID |
| TuioServers.TuioServer.AddTuioCursor | app/src/main/cpp/TUIO/TuioServer.cpp:298-328 | the new cursor appears with a fresh session at its place; the largest ID never exceeds the most cursors ever present at once |
| TuioServers.TuioServer.UpdateTuioCursor | app/src/main/cpp/TUIO/TuioServer.cpp:344-359 | moves the cursor unless it is unknown or was touched in this frame |
| TuioServers.TuioServer.RemoveTuioCursor | app/src/main/cpp/TUIO/TuioServer.cpp:375-413 | removes exactly that cursor and recycles its ID |
| TuioServers.TuioServer.InitFrame | app/src/main/cpp/TUIO/TuioServer.cpp:437-440 | starts the next frame at the given time |
| TuioServers.TuioServer.CommitFrame | app/src/main/cpp/TUIO/TuioServer.cpp:442-463 | throws iff the frame does not fit; otherwise each touched cursor is set in exactly one packet, in order, every packet is a complete bundle within the capacity with the full alive list and the same fseq, and packets are as full as they can be |
| TuioServers.SendSplit | app/src/main/cpp/TUIO/TuioServer.cpp:442-485 | the same for any item whose set and fseq messages take exactly the threshold, cursors and objects alike |
| TuioServers.RoomForCursors | app/src/main/cpp/TUIO/TuioServer.h:51-52 | how many cursors fit: 40 bytes, four for each cursor with its padded tag, and 32 or the threshold must fit the packet |
| TuioPackets.ThresholdsAreTight | app/src/main/cpp/TUIO/TuioServer.h:51-52 | a set and an fseq message take 88 bytes for a 2D cursor, 108 for a 2D object, and 96, more than the threshold, for a 3D cursor |
| TuioPackets.StartBundle | app/src/main/cpp/TUIO/TuioServer.cpp:496-505 | the alive message is written iff it fits |
| TuioPackets.FinishBundle | app/src/main/cpp/TUIO/TuioServer.cpp:521-525 | the fseq message closes the bundle iff 32 bytes are left, and what is sent is the encoded bundle |
| TuioPackets.FrameSurvivesTransport | app/src/main/cpp/TUIO/TuioClient.cpp:624-632 | a bundle that fits a datagram decodes to itself |
| TuioClients.TraceGrammar | app/src/main/cpp/TUIO/TuioClient.cpp:320-436 | a listener trace that can be replayed has, for each session, the form (add update* remove)* up to an open suffix |
| TuioClients.CompleteFrameReplays | app/src/main/cpp/TUIO/TuioClient.cpp:309-436 | when a frame completes, every addition, update and removal finds the cursor list as it expects it |
| TuioClients.TuioClient.AddCursor | app/src/main/cpp/TUIO/TuioClient.cpp:374-401 | adds a cursor at the end, at rest and with the frame's time, keeps the ID invariant and the replayable trace |
| TuioClients.TuioClient.UpdateCursor | app/src/main/cpp/TUIO/TuioClient.cpp:401-421 | updates the cursor that is always found: place in the list and ID stay, time and position are the new ones, and its motion is the one that was sent unless that stands still in a direction in which the cursor has moved; no other cursor changes |
| TuioClients.TuioClient.RemoveCursor | app/src/main/cpp/TUIO/TuioClient.cpp:327-372 | removes a cursor and recycles its ID |
| TuioClients.ParsesAs | app/src/main/cpp/TUIO/TuioClient.cpp:122-296 | which messages set a cursor, list the living, end a frame of cursors or of objects: exactly those with these addresses and leading arguments |
| TuioClients.LeadingIntsAre | app/src/main/cpp/TUIO/TuioClient.cpp:285-292 | the living are the integers up to the first argument that is none |
| TuioClients.SetEffectIff | app/src/main/cpp/TUIO/TuioClient.cpp:268-281 | a set message collects nothing iff a cursor is there with just that session, position and motion, an addition iff the session is not there |
| TuioClients.TuioClient.HandleSet | app/src/main/cpp/TUIO/TuioClient.cpp:260-283 | a set message collects an addition, an update, or nothing if nothing changed |
| TuioClients.TuioClient.HandleFseq | app/src/main/cpp/TUIO/TuioClient.cpp:294-434 | a late frame changes nothing; any other applies the collected sets, then the removals, and tells the listeners each of them once |
| TuioClients.TuioClient.ProcessMessage | app/src/main/cpp/TUIO/TuioClient.cpp:256-436 | any message, malformed ones included, keeps the client consistent and has the effect of its command; the fseq messages of object frames count in the same frame numbers |
| TuioConvergence.FrameMerges | app/src/main/cpp/TUIO/TuioClient.cpp:294-434 | a completed bundle leaves exactly the alive cursors that were shown, overlaid with its sets |
| TuioConvergence.ProcessBundle | app/src/main/cpp/TUIO/TuioClient.cpp:102-115 | a well-formed bundle whose number is positive and behind by at most 100 changes nothing; any other is merged, a positive number is taken over, and zero or less leaves the number alone; the frame time changes as the numbers say |
| TuioConvergence.PresentAfter | app/src/main/cpp/TUIO/TuioClient.cpp:309-318 | after an accepted bundle a session is shown iff it is alive and was shown or set |
| TuioConvergence.ReceiveBundles | app/src/main/cpp/TUIO/TuioClient.cpp:260-436 | for well-formed bundles lost and reordered in any way: if their numbers are close to each other the largest received wins, with the time of its first arrival, and the view is the merge of exactly the bundles that were not behind an earlier one; sessions stay distinct, IDs in order, and every session's trace is well formed and replays to the cursor list |
| TuioConvergence.ReceiveAllLargest | app/src/main/cpp/TUIO/TuioClient.cpp:297-307 | that law of the numbers, over any sequence of bundles |
| TuioConvergence.SetsSayWhere | app/src/main/cpp/TUIO/TuioServer.cpp:445-456 | the set messages of a frame name exactly the touched cursors, each at its place |
| TuioConvergence.MergeConcat | app/src/main/cpp/TUIO/TuioServer.cpp:447-452 | two bundles of one frame have the effect of one with all the sets, so the split does not matter |
| TuioRuns.Perform | app/src/main/cpp/TUIO/TuioServer.cpp:298-413 | adds, updates and removals change the server as the specification says: fresh sessions, and nothing that this frame has touched is moved again |
| TuioRuns.CommitsIff | app/src/main/cpp/TUIO/TuioServer.cpp:442-463 | a commit gets through iff the alive list and the sets of the frame fit, in bytes |
| TuioRuns.CommitAndDeliver | app/src/main/cpp/TUIO/TuioServer.cpp:437-463 | it does so exactly then, and a client that receives its packets shows what was set, keeps what is alive and was shown, and nothing else |
| TuioRuns.PlayRun | app/src/main/cpp/TUIO/TuioServer.cpp:298-463 | the two programs, for any calls inside or between frames and from the packets' bytes up: they go through iff every commit fits, and after each call the server has and the client shows what the specification says |
| TuioRuns.CommitAgreesIff | app/src/main/cpp/TUIO/TuioServer.cpp:442-463 | from any view of the client: a frame makes it agree iff everything the frame does not set is shown correctly already, and if nothing goes out nothing is to be taken away |
| TuioRuns.AgreesIff | app/src/main/cpp/TUIO/TuioServer.cpp:344-463 | on the server's side alone: from agreement, after any calls and a commit the two agree iff every session was touched in the frame or is where it was before |
| TuioRuns.PlayToCommit | app/src/main/cpp/TUIO/TuioServer.cpp:298-463 | the same on the two programs |
| TuioRuns.FramesAgree | app/src/main/cpp/TUIO/TuioServer.cpp:437-463 | over any frames whose changes are made inside of them the two agree |
| TuioRuns.PlayFrames | app/src/main/cpp/TUIO/TuioServer.cpp:437-463 | the two programs over such frames: the client shows exactly the server's cursors after each of them |
| TuioRuns.LateAddMissing | app/src/main/cpp/TUIO/TuioServer.cpp:437-456 | a cursor added between two frames is left out by the next one unless their times are equal or everything is always sent; all else is shown |
| TuioRuns.StaysMissing | app/src/main/cpp/TUIO/TuioServer.cpp:344-359 | and the client goes on not showing it, whatever the calls, until it is moved or a frame starts at the time of its last change |
| TuioRuns.MovedAppears | app/src/main/cpp/TUIO/TuioServer.cpp:344-359 | once it is moved in a frame of its own time it appears at its place |
| TuioRuns.AddBetweenFrames | app/src/main/cpp/TUIO/TuioServer.cpp:298-456 | the same on the two programs |
| CameraStream.StepBounds | app/src/main/cpp/libfreenect/cameras.c:127-228 | for any packets: copies stay inside the frame buffer, `got_pkts` never exceeds `pkt_num` while synced, a fixed-length stream reports nothing or a whole frame |
| CameraStream.PacketStream.Process | app/src/main/cpp/libfreenect/cameras.c:87-229 | the packet handler updates every field and the buffer as the step function says, and ignores ill-headed packets |
| CameraStream.TakesIff | app/src/main/cpp/libfreenect/cameras.c:157-178 | a synced fixed-length stream takes a packet iff it has the flag of its place and no more data than fits there; with too much data nothing happens, a wrong flag ends synchronization |
| CameraStream.TakesVariableIff | app/src/main/cpp/libfreenect/cameras.c:179-199 | the exact condition for a stream of variable length |
| CameraStream.PacketStream.constructor | app/src/main/cpp/libfreenect/cameras.c:231-258 | `stream_init` establishes the bounds the handler rests on |
| CameraStream.PacketsPerFrame | app/src/main/cpp/libfreenect/cameras.c:254-257 | (packets per frame - 1) * packet size + last packet size is the frame size |
| CameraAlignment.AlignedStep | app/src/main/cpp/libfreenect/cameras.c:127-228 | a synced receiver gives up only on gaps over five; otherwise the packet goes to its own slot and the boundary crossed, if any, is reported once |
| CameraAlignment.SyncStep | app/src/main/cpp/libfreenect/cameras.c:115-125 | an unsynced receiver drops everything up to the first packet of a frame |
| CameraAlignment.RunAligned | app/src/main/cpp/libfreenect/cameras.c:87-229 | over any in-order loss with gaps under 256: when it is synced, where it is aligned, how many frame boundaries it has reported and how many packets it counts as lost are determined by the arrivals |
| CameraAlignment.SixPacketsSuffice | app/src/main/cpp/libfreenect/cameras.c:87-229 | over every run with in-order loss a fixed-length receiver reports as many frames as it counts iff a frame has at least six packets (or only one) |
| CameraAlignment.ShortFramesMissAReport | app/src/main/cpp/libfreenect/cameras.c:129-155 | with two to five packets a frame, an aligned receiver counts two frames and reports one when as many packets are lost as a frame has |
| CameraAlignment.OnePacketFrames | app/src/main/cpp/libfreenect/cameras.c:115-125 | with one packet a frame a receiver loses synchronization with every second packet, and reports what it counts |
| CameraAlignment.ArrivalContents | app/src/main/cpp/libfreenect/cameras.c:202-229 | a report with all packets valid leaves exactly the concatenation of that frame's payloads in the buffer |
| CameraAlignment.ReceiveRun | app/src/main/cpp/libfreenect/cameras.c:87-229 | the class driven by a sender under any such loss: each frame whose end is crossed while synchronized is reported once, `valid_pkts` is the number of its packets that arrived, the timestamp is that of the last of them, and if these are all, the buffer is that frame |
| CameraAlignment.ArrivalStamps | app/src/main/cpp/libfreenect/cameras.c:214-226 | the timestamp of a frame whose end arrives is that of its last packet, of one whose end is lost that of its last packet that arrived, and it changes at no other time |
| CameraAlignment.FullCount | app/src/main/cpp/libfreenect/cameras.c:206-226 | that number is full iff every packet of the frame arrived |
| CameraAlignment.CompleteFrameReported | app/src/main/cpp/libfreenect/cameras.c:129-142 | a frame of which nothing is lost is reported iff its first packet does not end a gap of more than five that makes the receiver give up |
| CameraAlignment.ReportedWhole | app/src/main/cpp/libfreenect/cameras.c:129-226 | the frames that are reported with all their packets are exactly these |
| CameraVariable.ArrivalDelivers | app/src/main/cpp/libfreenect/cameras.c:87-229 | a stream of variable length, whatever arrives: it follows the arrivals and reports a frame iff the packet is the expected one and the last of its frame, with the frame's length, bytes, packet count and timestamp |
| CameraVariable.DeliveredIff | app/src/main/cpp/libfreenect/cameras.c:135-142 | under any in-order loss the frames reported are exactly those whose packets all arrive while the receiver waits for the first of them |
| CameraVariable.ReceiveVariable | app/src/main/cpp/libfreenect/cameras.c:87-229 | the class driven by such a sender: exactly these frames, each as it was sent |
| Unpackers.ShiftIn | app/src/main/cpp/libfreenect/cameras.c:310-313 | the bits that leave the 32-bit register have all been used |
| Unpackers.TakeBits | app/src/main/cpp/libfreenect/cameras.c:314-315 | shifting and masking takes the next bits off the top |
| Unpackers.ConvertPackedTo16Bit | app/src/main/cpp/libfreenect/cameras.c:304-317 | the i-th output is the i-th vw-bit slice of the big-endian bit stream |
| Unpackers.ConvertPackedTo8Bit | app/src/main/cpp/libfreenect/cameras.c:330-342 | the same slices shifted right by vw - 8 |
| Unpackers.UnpackedIsBits | app/src/main/cpp/libfreenect/registration.c:77-101 | the eight unrolled formulas are the 11-bit slices |
| Unpackers.ConvertPacked11To16Bit | app/src/main/cpp/libfreenect/cameras.c:345-375 | the unrolled version yields the 11-bit slices for every whole group of eight |
| Demosaic.CloseToDocumented | app/src/main/cpp/libfreenect/cameras.c:464-489 | four-neighbour averages are at most one below the documented mean, the others exact |
| Demosaic.CompletePixel | app/src/main/cpp/libfreenect/cameras.c:545-611 | the sliding registers yield the neighbourhood formula, mirrored at the right border too |
| Demosaic.ConvertRow | app/src/main/cpp/libfreenect/cameras.c:524-614 | one line of the image |
| Demosaic.ConvertBayerToRgb | app/src/main/cpp/libfreenect/cameras.c:453-615 | the whole image, for every width of at least two; it gets through iff the image has at least three lines, or none |
| Demosaic.NeighboursStay | app/src/main/cpp/libfreenect/cameras.c:521-531 | the line pointers stay inside the image iff it has at least three lines, or none; with one or two lines they point behind it |
| Demosaic.ImageAt | app/src/main/cpp/libfreenect/cameras.c:464-489 | every channel of the result is the per-pixel formula with mirrored borders |
| Registration.RegisteredIff | app/src/main/cpp/libfreenect/registration.c:127-144 | a pixel is placed iff its depth is valid and its table entry and shift, in 256ths of a column, lie in a column of the image; its target is that column of its row, less the offset |
| Registration.MappedIff | app/src/main/cpp/libfreenect/registration.c:346-360 | the same for the colour mapping, where the offset counts in lines |
| Registration.SeenIff | app/src/main/cpp/libfreenect/registration.c:137-141 | there is such a column iff the sum is above -256 and below 640 * 256 |
| Registration.SamePlaceIff | app/src/main/cpp/libfreenect/registration.c:113-144 | both place a pixel at the same spot iff there are no start lines |
| Registration.LeastIsMinimum | app/src/main/cpp/libfreenect/registration.c:146-151 | what the comparisons leave at a target is the minimum of the depths mapped there, or 0 |
| Registration.ApplyRegistration | app/src/main/cpp/libfreenect/registration.c:104-169 | every target holds the least of the depths placed there, 0 if there are none; it gets through iff no pixel is placed outside the image |
| Registration.ApplyDepthToMm | app/src/main/cpp/libfreenect/registration.c:172-191 | every pixel holds the smaller of its depth and 10000 |
| Registration.MetricImageInTable | app/src/main/cpp/libfreenect/registration.c:187-187 | all of the image is covered by the shift table iff no pixel of the frame is as far as the maximum |
| Registration.FarFrames | app/src/main/cpp/libfreenect/registration.c:185-187 | there is a frame whose image is not iff some entry of the millimetre table is as far as the maximum |
| Registration.MapRgbToDepth | app/src/main/cpp/libfreenect/registration.c:333-397 | every depth pixel gets the colour at the place it is mapped to if no pixel mapped there is nearer, and is untouched if one is; black if it is mapped nowhere; it gets through iff no depth is behind the end of the shift table and no place outside the image |
| Registration.MappedInRange | app/src/main/cpp/libfreenect/registration.c:352-366 | this is what keeps every access of the first loop in range |
| Registration.MapRgbToFrame | app/src/main/cpp/stouchFreenect.h:67-73 | the two in a row, as the app calls them: colours arrive iff every pixel of the packed frame is nearer than the maximum and seen inside the image |
| Registration.PassesIffNearest | app/src/main/cpp/libfreenect/registration.c:381-393 | a pixel is coloured iff it has the minimum depth of all pixels mapped to the same place |
| IsoStream.InvStep | app/src/main/cpp/libfreenect/usb_libusb10.c:682-762 | every submission, completion and callback keeps `dead_xfers` the number of dead transfers |
| IsoStream.Conservation | app/src/main/cpp/libfreenect/usb_libusb10.c:777-851 | counted, in-flight, not yet counted and unsubmitted transfers always add up, and buffers are freed only when all are counted, none being with libusb or about to be again |
| IsoRuns.KeepsGoing | app/src/main/cpp/libfreenect/usb_libusb10.c:694-761 | in a run without a stop, a report of a lost device or a refusal nothing dies, and every submitted transfer is flying, called or about to be submitted, resubmitted as often as it completed but for the completion being dealt with |
| IsoRuns.NoDeviceIsFinal | app/src/main/cpp/libfreenect/usb_libusb10.c:713-724 | a transfer that comes back without a device in a live stream is counted once, in no continuation used again, and the device is dead once its callback has returned |
| IsoRuns.CancelledIsFinal | app/src/main/cpp/libfreenect/usb_libusb10.c:725-743 | one that comes back cancelled though nobody asked is not used again, and counted at the second test, from which on the device is dead unless the stream was stopped in between |
| IsoRuns.RefusedIsFinal | app/src/main/cpp/libfreenect/usb_libusb10.c:702-711 | nor is one whose resubmission is refused |
| IsoRuns.CompletesWith | app/src/main/cpp/libfreenect/usb_libusb10.c:694-694 | a callback sees the status with which its transfer completed |
| IsoRuns.DeviceDeadOnlyIfReported | app/src/main/cpp/libfreenect/usb_libusb10.c:694-761 | the device is taken for dead only if libusb reported it or cancelled a transfer by itself |
| IsoRuns.StoppedIsNotLost | app/src/main/cpp/libfreenect/usb_libusb10.c:688-692 | a stopped stream does not take its transfers' coming back for the loss of the device |
| IsoRuns.StopEnds | app/src/main/cpp/libfreenect/usb_libusb10.c:844-855 | once every transfer is counted nothing keeps the stopping thread from its end |
| IsoStream.FreedUnderCallback | app/src/main/cpp/libfreenect/usb_libusb10.c:688-691 | for every number of transfers: with another thread handling events one can be freed while its callback has counted it and goes on to read it |
| IsoStream.SafeIffOwnerOnly | app/src/main/cpp/libfreenect/usb_libusb10.c:836-845 | no run frees a transfer before its callback has returned iff only the stopping thread handles events |
| IsoStream.FreedAfterReturn | app/src/main/cpp/libfreenect/usb_libusb10.c:836-845 | if only the stopping thread handles events, transfers are freed only after their callbacks have returned |
| IsoStream.StopProgress | app/src/main/cpp/libfreenect/usb_libusb10.c:836-842 | the wait never gets stuck: as long as it goes on, a transfer has a step to take |
| IsoStream.StopIsBounded | app/src/main/cpp/libfreenect/usb_libusb10.c:682-691 | in any run from a dead stream, with the stopping thread's steps in between, each transfer takes at most four more steps, even if it slipped through the test |

## Left out

- Fairness of the scheduler and of the devices: the event protocol's liveness is stated as bounded work of the thread that owes a broadcast and as absence of deadlock.
- EventProtocol.NoLostWakeup: the part about reasons to be woken assumes that control-pipe writes succeed; the other case is shown to fail.
- The waiting API of libusb_wait_for_event called by users directly, hotplug messages, timer descriptors and the operating-system backends: a backend step is any choice of success, failure or completion.
- TimeoutList: `timerfd` rearming, the flags other than "timed out" and "handled by the OS", and submitting a transfer that is already queued, which is the caller's error.
- TimeoutList.Context.HandleDisconnect: callbacks do not submit again, as `iso_callback` does not after NO_DEVICE.
- Descriptors: big-endian hosts, the alignment padding inside the destination structs, allocation failures and the freeing of half-built trees.
- OSC: buffers are smaller than 4 GiB, and numbers have the widths of OSC 1.0; on platforms where oscpack's `uint32` is `unsigned long` with 64 bits its size slots would be wider. Floating-point arguments are opaque bit patterns.
- The receiving half of oscpack: the decoder is written from the OSC specification.
- TUIO: 3D mode, objects beyond the sizes of their messages and the frame numbers they share, the calls with caller-chosen IDs, the periodic-message thread, the empty bundles at start and end, sockets and locks.
- TUIO cursors are values in the server's and the client's lists, named by their session; pointers to cursors that the caller keeps, and the objects' paths, are not modelled.
- TUIO coordinates, speeds and distances: coordinates are opaque words that are equal when their bits are, distances and recomputed speeds are arbitrary functions.
- TuioServers.TuioServer.AddTuioCursor: session IDs stay below 2^31, where a 32-bit `long` would overflow.
- TuioServers.TuioServer.InitFrame: frame numbers stay below 2^31 likewise.
- TuioRuns.PlayRun: numbers below 2^31 as above, and nothing lost or reordered; loss is the subject of TuioConvergence.ReceiveBundles.
- TuioClients.TuioClient.ProcessMessage: at most one set message a session in a frame, as TUIO prescribes (TuioConvergence.ReceiveBundles: and only for alive sessions); set messages of 3D cursors, which bring a third coordinate, are taken to do nothing.
- Camera streams: the chunk callback, and stream flags that already contain the frame bits (the code uses 0x70 and 0x80).
- CameraAlignment.RunAligned: fixed-length streams of a sender that obeys the format; streams of variable length are the subject of CameraVariable.ReceiveVariable, packets with other flags or lengths of CameraStream.TakesIff.
- Unpackers.ConvertPackedTo16Bit: slices of more than 16 bits, which the output cannot hold.
- Unpackers.ConvertPackedTo8Bit: slices of more than 24 bits, for which the 32-bit register may drop bits.
- Demosaic.ConvertBayerToRgb: images of fewer than two columns, for which the line's own pointer runs into the next line; the conversion ends, in the model, where a line pointer leaves the image.
- Registration: the floating-point tables, which are arbitrary here, and integer overflow while adding two table entries. A loop ends, in the model, where it would access memory outside its tables or images. The optional dense mode is not compiled in.
- IsoStream: the increments of `dead_xfers` are atomic steps; a stream with a failed allocation counts like one with a refused submission, and cancelling its null transfer is not modelled.
- Image processing, JNI and Java code, logging, firmware and file I/O, audio, tilt and mode tables: foreign calls or easy members.
