# Verified model of the controller bridge

The bridge receives JSON control frames from a controller over a WebSocket, rewrites each of
them as text, and broadcasts the latest one to its ICU clients. This project models that bridge
in Dafny and proves what it keeps over every frame and every run.

## The system

- A **frame** is at most 512 bytes, reassembled from WebSocket fragments (`Reassembly`).
- It is rewritten in one buffer of 1024 bytes by a chain of edits, none of which parses JSON
  (`FrameBridge`, `BridgeServer`): the controller's sent time is renamed and four timing members
  are put after it; an estimate of the clock-corrected transfer time is appended; joystick values
  are re-rendered with eight places; motor positions are appended. Each edit but the first fails
  open. `FrameText` and `Forwarding` say the same on plain sequences, and the methods on arrays
  are proved against them.
- The **corrected time** is the transfer time minus its rolling minimum over 30 s
  (`ClockOffset`).
- The **motor positions** come from a neural network that sees a window of twenty motion anchors
  (`HistoryWindow`), quantized to int8 (`Quantizer`), and whose outputs pass a cascaded low-pass
  filter (`LowPass`, `MotorInference`); `MotorSessions` says what a whole session comes to.
- `Process` puts the callbacks together as a state machine over connects, fragments, writable
  callbacks and closes.

## The main results

1. *The text edit is the structural edit* (`StructuralEdit`). For JSON frames, on every run, the
   payload is the text of the edited tree, and that tree is well formed; the exceptions are given
   exactly (`StructuralEdit`, `NoJson`).
2. *Headroom* (`Headroom`). On every run no edit fails for lack of space; 997 bytes are enough.
3. *Session isolation* (`Isolation`). A session forwards what it would in a fresh process. What
   clients are written is the previous session's last frame until it has forwarded one.
4. *Broadcast* (`Broadcast`, `Delivery`). Clients see whole frames, the latest, in order, and every
   client that connected and has not gone gets them.
5. *Edits do not disturb each other* (`FrameLaws`), for all byte strings: reading commutes with
   writing other members, stamps and reformats can be read back, and so can everything that is
   written, from the payload (`ReadBack`).
6. *Rolling minimum* (`ClockOffset`), *history and arc length* (`HistoryWindow`), *best
   approximation* (`Quantizer`), *convergence and hull* (`LowPass`, `MotorLaws`), *reassembly*
   (`Reassembly`): each refines the code to a plain function of its whole history, and holds in
   the running process (`SessionRuns`, `MessageRuns`).

Bytes are characters, and times, features and filter values are exact reals. `Print(x, k)` is the
`%.kf` rendering: the nearest multiple of 10^-k, ties to even, in decimal. `Strtod` reads the
longest numeric prefix, exponent included.

## Where the code and its comments part

The model follows the code.

- An oversized fragmented message is logged as dropped (`src/controller_receiver.cpp:55-60`), but
  its later fragments are collected again from zero and can be forwarded
  (`Reassembly.OversizedTailIsForwarded`; exactly when nothing is: `NothingDeliveredIff`).
- `bridge_reformat_joystick` promises an unmodified buffer on failure
  (`src/frame_bridge.h:97-98`); when x was written and y fails, the buffer has changed
  (`FrameLaws.ReformatIsNotAtomic`), and a cut frame is broadcast (`CutFrame.CutFrameIsForwarded`).
  `FailedReformatKeepsFrameIff` says exactly when the first `len` bytes are unmodified. Bytes
  behind them can change even then: `FailedReformatKeepsBufferIff` says when the whole buffer is.
- `bridge_stamp_frame` accepts an empty sent value and reads it as 0
  (`src/frame_bridge.cpp:120-123`), where `bridge_extract_sent_time` refuses it (line 100):
  `SentTime.EmptySentTimeIsStamped`, and exactly then: `SentTimesAgreeIff`. For JSON frames what
  the stamp writes is no JSON then (`StampNeedsANumber`), nor is what is forwarded
  (`NoJson.UnreadableIsForwarded`).
- `src/clock_offset.h:30-34` says a corrected time can be negative after the offset decreased. It
  never is: the newest sample is in the window (`ClockOffset.CorrectedIsNeverNegative`,
  `DownwardJump`).
- A frame without a sent time still feeds the estimator, with a transfer time of 0
  (`src/bridge_server.cpp:131,149`; `SessionRuns.NoSentTimeOnARun`).
- Anchors are stored at a distance greater than *or equal to* the anchor distance
  (`src/controller_pipeline.hpp:82-83` and line 124).
- Appending to an empty object gives `{,"k":v}`; well-formedness needs a member
  (`StructuralEdit.AppendNeedsAMember`, and for what is forwarded `NoJson.EmptyObjectIsForwarded`).

## Model

| member | source | states |
|---|---|---|
| StructuralEdit.TextEditIsStructuralEdit | src/bridge_server.cpp:95-206 | After any run of the bridge, a well-formed non-empty JSON frame whose sent time, if any, is a number is dropped exactly when one of its times does not render; otherwise the payload is the printed text of that JSON tree edited structurally (sent-time member renamed, timing members after it, corrected time and motor positions appended to the top-level object, joystick numbers re-rendered if both render) if and only if it is not the case that x renders, y does not, and x does not stand there just as it is rendered; and the edited tree is well formed. |
| StructuralEdit.ZeroFrameQualifies | src/bridge_server.cpp:95-206 | The conditions of that theorem can be met together: a concrete frame with a sent time and joystick values meets them all and is not dropped. |
| StructuralEdit.ForwardEditsTree | src/bridge_server.cpp:109-200 | The same for one frame from any state whose window samples render and whose filter rows lie in the network output range. |
| StructuralEdit.ControlEditsTreeIff | src/bridge_server.cpp:175-187 | The joystick stage of the text is that of the tree under exactly that condition; otherwise the text keeps its length and is another. |
| StructuralEdit.MotorsEditTreeIff | src/bridge_server.cpp:189-199 | Appending motor positions to a text gives the text of the edited frame only if the text was that of the frame: texts of one length that differ still do afterwards. |
| NoJson.PayloadIsJsonIff | src/bridge_server.cpp:95-206 | After any run, what is forwarded for a frame that the joystick stage does not cut is the text of a well-formed frame if and only if the top-level object has a member and the sent time in use, if any, is a number. |
| NoJson.UnreadableIsForwarded | src/bridge_server.cpp:132-202 | For a sent time that is no number the comma right behind the renamed key survives every later stage, a half-done reformat included, and no well-formed frame has such a text. |
| NoJson.EmptyObjectIsForwarded | src/bridge_server.cpp:149-159 | For an empty object what is forwarded is the text of no well-formed frame. |
| StructuralEdit.StampEditsTree | src/frame_bridge.cpp:107-200 | Stamping the text of a frame whose sent-time member in use, if any, is a number gives the text of the tree whose leftmost `ntp_time` (else `timestamp`) member is renamed and followed by the four timing members, and the times are those of the number in the tree. |
| StructuralEdit.StampPassesIff | src/frame_bridge.cpp:107-181 | A frame of at most 512 bytes is stamped if and only if its times render, and then as its tree is. |
| SentTime.StampNeedsANumber | src/frame_bridge.cpp:120-123 | A successful stamp of a well-formed frame is the text of some well-formed frame if and only if the sent-time member in use is absent or a number on its line; otherwise what the stamp writes holds `"controller_sent_ntp_time":,`. |
| SentTime.NoCommaAfterKey | src/frame_bridge.cpp:157-196 | In the text of a well-formed frame no occurrence of a quoted name with its colon, anywhere, has a comma right behind it. |
| SentTime.SentTimesAgreeIff | src/frame_bridge.cpp:92-123 | The stamp finds a sent time exactly when extraction does, if and only if there is no sent-time key or its value is not empty; where extraction refuses an empty value the stamp reads 0, and the transfer time is T1. |
| SentTime.EmptySentTimeIsStamped | src/frame_bridge.cpp:100-123 | The frame `{"ntp_time":""}` has no sent time to extract and is stamped. |
| StructuralEdit.ReplaceEditsTree | src/frame_bridge.cpp:246-275 | Replacing a value in the text replaces the number of the leftmost member of that name in the tree; an absent member leaves text and tree alone. |
| StructuralEdit.ReformatEditsTree | src/frame_bridge.cpp:277-285 | Reformatting the text re-renders the joystick numbers in the tree, either of which may be absent, and keeps it well formed. |
| StructuralEdit.InsertEditsTree | src/frame_bridge.cpp:294-320 | The last `}` of the text closes the top-level object: what is inserted before it are new last members of that object. |
| StructuralEdit.AppendNeedsAMember | src/frame_bridge.cpp:287-320 | An append gives the text of some well-formed frame if and only if the top-level object already has a member: `{}` becomes `{,"k":v}`, which no frame prints. |
| StructuralEdit.LocatesInFrame | src/frame_bridge.cpp:9-43 | The substring search with span scan reads exactly the number of the leftmost member of that name in the tree, and finds nothing exactly when there is no such member, however deep it is nested and whatever strings surround it. |
| StructuralEdit.TextHasJoystick | src/frame_bridge.cpp:223-236 | Extraction from the text of any frame reads the two joystick numbers of the tree, and fails exactly when one of the two members is absent or is not a number on its line. |
| StructuralEdit.ValueInFrame | src/frame_bridge.cpp:9-43 | The span scan behind the leftmost key of any frame gives the number of that member, or an empty span when the member is a string, a literal, an array, an object, or on another line. |
| StructuralEdit.PresentInFrame | src/frame_bridge.cpp:9-21 | A key is found in the text if and only if the tree has a member of that name. |
| StructuralEdit.TimesOfText | src/frame_bridge.cpp:120-132 | The times computed from the text of any frame are those of its sent-time member, which counts as 0 where it is not a number. |
| StructuralEdit.TextHasSentMember | src/frame_bridge.cpp:71-90 | The sent-time key in use in the text of any frame is that of the tree: `ntp_time` first, then `timestamp`. |
| JsonLaws.FindsFirst | src/frame_bridge.cpp:9-21 | In the text of any well-formed tree, the leftmost occurrence of a quoted name with its colon is the leftmost member of that name; no string, number or seam between pieces imitates it. |
| JsonLaws.EditShows | src/frame_bridge.cpp:107-285 | Printing an edited tree gives the same text as splicing the edit at the place of its leftmost member in the printed original. |
| JsonLaws.PrintIsNumber | src/frame_bridge.cpp:142-149 | Every value the bridge renders is a number of the JSON grammar (section 6 of RFC 8259). |
| JsonLaws.NumberIsNumeric | src/frame_bridge.cpp:32-40 | Every JSON number is covered whole by the span scan. |
| TreeEdits.FirstIsLookup | src/frame_bridge.cpp:9-43 | The member found in the text with its surroundings is the one a lookup in the tree gives, and a delimiter follows its value, so the span scan stops there. |
| TreeEdits.EditSpares | src/frame_bridge.cpp:107-285 | Editing one scalar member of a tree changes the lookup of no other scalar member whose name the edit does not write. |
| TreeEdits.EditIsWellFormed | src/frame_bridge.cpp:107-285 | Editing a well-formed tree with numbers and plain names leaves a well-formed tree. |
| TreeEdits.AppendShows | src/frame_bridge.cpp:287-320 | Members appended to a non-empty object print as their comma-led text right after the old last member. |
| TreeEdits.AppendSpares | src/frame_bridge.cpp:294-345 | Appended members change the lookup of no other name. |
| TreeEdits.AppendIsWellFormed | src/frame_bridge.cpp:294-345 | An object stays well formed when members are appended. |
| Headroom.NoStageLacksSpace | src/bridge_server.cpp:131-202 | After any run, for any raw frame of at most 512 bytes that is stamped: the appends fail only for want of a closing brace, the reformat if and only if a joystick value does not render in 31 characters, and the payload has at most 997 of its 1024 bytes. |
| Headroom.AlwaysHasHeadroom | src/bridge_server.cpp:109-150 | Every run keeps what the headroom rests on: all samples in the offset window render in 31 characters and every filter row lies in the output range of the network. |
| Headroom.StampDropsIff | src/frame_bridge.cpp:142-181 | A frame of at most 512 bytes is dropped by the stamp if and only if one of its times does not render in 31 characters, never for lack of space; a stamped frame has at most 767 bytes. |
| Headroom.FeedRenders | src/clock_offset.cpp:34-48 | While all samples render in 31 characters the corrected time is not negative and renders in 32. |
| Headroom.CorrectionFits | src/bridge_server.cpp:149-159 | The corrected time fails to be appended only for a frame without a closing brace, and then at most 832 bytes are in use. |
| Headroom.JoystickFits | src/bridge_server.cpp:175-187 | The reformat fails if and only if a joystick value does not render; at most 892 bytes are in use after it, also when it failed half way. |
| Headroom.MotorsFit | src/bridge_server.cpp:189-199 | Motor positions fail to be appended only for a frame without a closing brace, and the frame then has at most 997 bytes. |
| Headroom.ForwardFits | src/bridge_server.cpp:95-206 | One forward keeps the headroom and, when the stamp passes, no stage of it fails for lack of space. |
| Isolation.SessionsAreIsolated | src/controller_receiver.cpp:35-48 | From any reachable state, after a controller connects every later sequence of events forwards byte for byte what a freshly started process forwards, although samples and filter rows are never cleared and the NPU warm-up may have run. |
| Isolation.WritesAfterConnect | src/bridge_server.cpp:62-70 | After a controller connects, ICU clients are written the latest frame forwarded since, and until there is one the payload from before. |
| Isolation.OldPayloadIsWritten | src/bridge_server.cpp:62-70 | A client that may be written to right after the connect is written the previous session's last frame. |
| Isolation.ConnectForgets | src/motor_inference.cpp:158-173 | After a controller connects, any two processes in any two states forward the same frames from then on. |
| Isolation.SameSessionSameFrames | src/bridge_server.cpp:95-206 | Two processes that agree on the session state, and on stale samples and rows only where these are still read, forward the same frames for ever. |
| Isolation.SameMotorSameOutput | src/motor_inference.cpp:175-222 | The motor output does not depend on an unseeded filter's rows or on the samples of an empty history. |
| Broadcast.PayloadIsLatest | src/bridge_server.cpp:131-138 | In every reachable state the payload is the complete result of the latest frame that was not dropped, and empty before the first. |
| Broadcast.PayloadSince | src/bridge_server.cpp:132-138 | From any state, the payload after a run is the latest frame forwarded on it, or the payload from before. |
| Broadcast.WritesTheLatestFrame | src/bridge_server.cpp:62-70 | Whatever is written to an ICU client is the latest forwarded frame, complete, to a connected client; nothing is written before the first. |
| Broadcast.ClientsNeverGoBack | src/bridge_server.cpp:62-70 | Of two writes to one client the second carries no older frame than the first, each being the frame of its index in the log of forwarded frames, and a later one when writable callbacks come only from requests. |
| Broadcast.IndicesNeverDecrease | src/bridge_server.cpp:202 | The log of forwarded frames only grows along a run, so that a frame keeps its index. |
| Broadcast.IndicesStrictlyIncrease | src/bridge_server.cpp:202-205 | When writable callbacks come only from requests, from one write to a client to its next the frame index strictly grows. |
| Broadcast.EveryClientIsAsked | src/bridge_server.cpp:202-205 | After a forwarded frame exactly the connected clients have a writable callback requested. |
| Broadcast.AlwaysConsistent | src/bridge_server.cpp:46-50 | In every reachable state only connected clients have requests, and there are clients only once the protocol pointer is captured. |
| Delivery.ClientsAre | src/bridge_server.cpp:46-74 | From the log alone: the connected clients are those that connected, and neither closed nor had a write truncated since. |
| Delivery.ListensOnceConnected | src/bridge_server.cpp:46-50 | The protocol pointer is captured when the first client connects, and kept. |
| Delivery.RequestsAre | src/bridge_server.cpp:202-205 | The clients with a writable callback requested are those connected when some frame was forwarded, and neither called back nor closed since. |
| Delivery.CallbackDelivers | src/bridge_server.cpp:62-70 | At its callback a connected client is written the latest forwarded frame, unless that is empty, whether or not the write completes; no other client is written anything. |
| Delivery.FrameIsAnnounced | src/bridge_server.cpp:202-205 | A forwarded frame requests a callback for exactly the clients that connected and have not gone since. |
| Reassembly.MessageDelivers | src/controller_receiver.cpp:50-97 | A message, however fragmented and whatever was collected before it, yields the fragments after its last overflow; it yields exactly its own bytes if and only if it has at most 512. |
| Reassembly.ConnectionDelivers | src/controller_receiver.cpp:50-97 | On a connection whose messages all fit, exactly those messages are handed on, in order. |
| Reassembly.ResumeIffOversized | src/controller_receiver.cpp:55-60 | Some fragment overflows if and only if the whole is longer than 512 bytes; what follows the last overflow fits. |
| Reassembly.ResumeOverflowed | src/controller_receiver.cpp:55-60 | Where a message resumes, an unbroken run of fragments up to there was longer than 512 bytes. |
| Reassembly.NothingDeliveredIff | src/controller_receiver.cpp:51-60 | Nothing of a message is forwarded if and only if its final fragment does not fit behind what the receive callbacks before it have collected. |
| Reassembly.CollectIs | src/controller_receiver.cpp:50-65 | What the receive callbacks collect on the way are the fragments after the last overflow, behind what was there before when none overflowed. |
| MessageRuns.MessageOnARun | src/controller_receiver.cpp:50-97 | In any run of the process, from any state, with ICU events between the fragments of a message, exactly what reassembly delivers of it is rewritten, once: the frames forwarded and the state left are those of that one forward, or of none. |
| Reassembly.OversizedTailIsForwarded | src/controller_receiver.cpp:55-65 | Of an oversized message in fragments of 300, 300 and 100 bytes the last 100 bytes are forwarded: it is not dropped whole. |
| Reassembly.Receive | src/controller_receiver.cpp:50-97 | What is collected never grows over 512 bytes, a completed message has at most 512, and completing one leaves nothing collected. |
| Reassembly.Session.constructor | src/controller_receiver.cpp:16-19 | A session starts with nothing collected. |
| Reassembly.Session.Established | src/controller_receiver.cpp:35-37 | A new connection has nothing collected. |
| Reassembly.Session.Accumulate | src/controller_receiver.cpp:50-65 | The buffer update collects exactly what the specification says from the old contents, independently of stale bytes in the buffer, and reports a complete message. |
| Process.Callbacks.ControllerEstablished | src/controller_receiver.cpp:35-48 | Connecting empties the session and resets motor pipeline and offset window, and leaves the payload. |
| Process.Callbacks.ControllerReceive | src/controller_receiver.cpp:50-97 | The receive callback on the buffers does what the step of the state machine does, and the frame it forwarded is the payload left behind. |
| Process.ForwardShows | src/bridge_server.cpp:132-138 | A dropped frame leaves the previous payload and the offset window intact; a forwarded one is the payload. |
| BridgeServer.Server.Forward | src/bridge_server.cpp:95-206 | The stage-by-stage edits in the shared buffer give the payload, and the motor and estimator states, of the chain of pure edits on the raw frame; a failed stage lets the rest go on. |
| BridgeServer.Server.InferMotors | src/bridge_server.cpp:104-116 | Inference runs exactly when both joystick values are there, before any text is touched. |
| BridgeServer.Server.Emit | src/bridge_server.cpp:125-202 | A dropped stamp leaves payload and estimator as they were; otherwise the estimator is fed the transfer time (0 for a frame without one) and the payload is the rewritten frame. |
| BridgeServer.Server.ResetSession | src/controller_receiver.cpp:43-47 | A reset touches the motor pipeline and the offset window only. |
| BridgeServer.Server.Established | src/bridge_server.cpp:46-50 | An ICU connection makes later frames request callbacks and changes nothing else. |
| BridgeServer.Server.Writeable | src/bridge_server.cpp:62-70 | The whole payload is handed over, or nothing while it is empty. |
| FrameBridge.FindSubstr | src/frame_bridge.cpp:9-21 | The index loop returns the leftmost occurrence among the first `len` bytes, or none; nothing past them is read. |
| FrameBridge.FindValueSpan | src/frame_bridge.cpp:25-43 | The two scans cut the text behind a key into its blanks, its maximal numeric span and the rest. |
| FrameBridge.FindSentTimeKey | src/frame_bridge.cpp:71-90 | `ntp_time` is preferred wherever it stands, else `timestamp`; the position is that of its leftmost occurrence. |
| FrameBridge.BridgeExtractSentTime | src/frame_bridge.cpp:92-105 | The sent time is that of the specification; an empty span is no time. |
| FrameBridge.BridgeExtractJoystick | src/frame_bridge.cpp:206-236 | Both values or none, as specified on the bytes up to `len`. |
| FrameBridge.BridgeStampFrame | src/frame_bridge.cpp:107-200 | The appends write the stamped frame of the specification from the start of the output; -1 leaves the output as it was; the times are reported whenever a key is found, also for a dropped frame. |
| FrameBridge.Splice | src/frame_bridge.cpp:270-271 | An overlapping move and a copy put the new text between the old prefix and the old tail, whichever way the tail moves, and leave every byte past both frames. |
| FrameBridge.ReplaceValueForKey | src/frame_bridge.cpp:246-275 | The in-place splice leaves prefix, new number and tail of `buf[..len]` and depends on no byte past `len`; -1 leaves the whole buffer as it was. |
| FrameBridge.BridgeReformatJoystick | src/frame_bridge.cpp:277-285 | x then y as specified; when y fails, the buffer left is exactly the old one overlaid by what x wrote. |
| FrameBridge.FindLastBrace | src/frame_bridge.cpp:297-304 | The backward scan finds the last `}` among the first `len` bytes, or none. |
| FrameBridge.InsertBeforeClosingBrace | src/frame_bridge.cpp:294-320 | The text stands before the last `}`, everything else in order around it; -1 leaves the whole buffer as it was. |
| FrameBridge.BridgeAppendMotorFields | src/frame_bridge.cpp:322-334 | The four motor members stand before the last `}`; -1 leaves the buffer as it was. |
| FrameBridge.BridgeAppendField | src/frame_bridge.cpp:336-345 | The member stands before the last `}`; -1 leaves the buffer as it was. |
| FrameLaws.ExtractionSurvivesStamp | src/frame_bridge.cpp:183-236 | For all bytes, the joystick values, or their absence, are the same in a stamped frame as in the raw one. |
| FrameLaws.ExtractionSurvivesAppend | src/frame_bridge.cpp:294-345 | Appending a field under any quote-free name but the joystick names changes neither the joystick values nor whether extraction fails. |
| FrameLaws.ExtractionSurvivesMotors | src/frame_bridge.cpp:322-334 | Nor does appending the motor positions. |
| FrameLaws.StampKeepsField | src/frame_bridge.cpp:183-196 | A stamp changes the value text of no key except the ones it writes and the sent-time key it renames. |
| FrameLaws.InsertKeepsField | src/frame_bridge.cpp:294-320 | An insertion before the last brace changes the value text of no key it does not write, even where the brace stands inside a key or a value. |
| FrameLaws.ReplaceKeepsField | src/frame_bridge.cpp:246-275 | Replacing one value changes the value text of no other key. |
| FrameLaws.ReplaceSetsField | src/frame_bridge.cpp:246-275 | After replacing a value its key reads as the new text, with the text before and after as it was. |
| FrameLaws.StampRoundTrip | src/frame_bridge.cpp:120-199 | The sent time of a stamped frame is T2 rounded to six places, under `ntp_time`; each timing member reads back as its rounded time, and the controller's own text stands unchanged under its new name. |
| FrameLaws.TimingAddsUp | src/frame_bridge.cpp:123-149 | For value texts of at most 63 characters, the rendered transfer and processing times agree with rendered T2 minus the sent time to within 1.5e-6. |
| Layout.StampLayout | src/frame_bridge.cpp:183-199 | A stamp writes, in this order, T2, T2 - T1, T1 - T0 and T1 under their four names, behind the renamed sent time. |
| Layout.StampTextIs | src/frame_bridge.cpp:157-197 | The stamped text is, piece by piece, what was before the key, the new key, the old value text without the blanks before it, the four members with their commas, and what was behind the value. |
| Layout.MotorLayout | src/frame_bridge.cpp:322-334 | The motor text is the four positions, in this order, under their four names. |
| Layout.RendersIff | src/frame_bridge.cpp:142-155 | A value fits its scratch buffer if and only if, rounded, it is below 10^(30-k), or above -10^(29-k) where it is negative. |
| Layout.AppendFieldFailsIff | src/frame_bridge.cpp:336-345 | Appending a field fails if and only if the field has more than 127 characters, there is no closing brace, or the frame would exceed its capacity. |
| Layout.AppendMotorsFailsIff | src/frame_bridge.cpp:322-334 | Appending motor positions fails likewise, with 191 characters. |
| ReadBack.PayloadReads | src/bridge_server.cpp:95-206 | After any run, from the payload of any raw bytes, JSON or not, that are stamped and not cut: the sent time reads as T2 rounded; every member no later stage writes reads as in the stamped frame; and, where there is a closing brace and no member of that name in the raw frame, the corrected time and all four motor positions read as the written numbers rounded to six places. |
| ReadBack.InsertReads | src/frame_bridge.cpp:294-320 | A member inserted before the last brace is read back unless a member of its name stands before it. |
| ReadBack.LaterStagesKeepField | src/bridge_server.cpp:149-200 | The stages behind the stamp change the value text of no key but those they write. |
| FrameLaws.ReformatRoundTrip | src/frame_bridge.cpp:206-285 | Extraction after a reformat gives both values rounded to eight places, in whatever order the keys stand. |
| FrameLaws.ReformatIsIdempotent | src/frame_bridge.cpp:277-285 | Reformatting again with the same values changes nothing. |
| FrameLaws.ReformatKeepsTheRest | src/frame_bridge.cpp:263-275 | A reformat changes the two value spans only; every other byte is kept, in order. |
| FrameLaws.FailedReformatKeepsFrameIff | src/frame_bridge.h:97-98 | A failed reformat leaves the frame (the first `len` bytes) as it was if and only if x was not written (it failed, or has no key) or what was written over the frame does not show. |
| FrameLaws.FailedReformatKeepsBufferIff | src/frame_bridge.h:97-98 | A failed reformat leaves the whole buffer as it was if and only if x was not written, or the text of x already is its rendering; where the frame ends with x, bytes behind the frame may complete that rendering. |
| FrameLaws.ReformatIsNotAtomic | src/frame_bridge.cpp:280-284 | For the frame `{"joystick_x":1,"joystick_y":1e23}` and the very values extracted from it, the reformat fails and has changed the frame. |
| CutFrame.CutFrameIsForwarded | src/bridge_server.cpp:175-187 | In a fresh session that frame is broadcast as `{"joystick_x":1.00000000,"joystick_y":1e23,"frame_transfer_time_corrected":`, whatever the network answers; no well-formed frame has this text. |
| FrameLaws.ReadMember | src/frame_bridge.cpp:187-195 | Each of a list of written members is read back under its own name. |
| Search.FindIsLeftmost | src/frame_bridge.cpp:9-21 | A hit is an occurrence with none before it; no hit means no occurrence anywhere. |
| Search.FindIs | src/frame_bridge.cpp:9-21 | An occurrence with none before it is what the search returns: there is no other leftmost search. |
| Search.FindAcross | src/frame_bridge.cpp:9-21 | Where no occurrence straddles a seam, the search of two joined texts is the search of the first, else of the second. |
| Search.FindSkipsKey | src/frame_bridge.cpp:9-21 | A key of another name hides nothing and imitates nothing: the search goes on behind it. |
| Search.FindBeforeKey | src/frame_bridge.cpp:9-21 | A key written behind any text completes no half key at the end of that text. |
| Search.FindBeforeForeign | src/frame_bridge.cpp:9-21 | Text that starts with no name character, quote or colon completes no half key before it. |
| Search.BlankRunMaximal | src/frame_bridge.cpp:28-31 | The blank scan takes spaces and tabs only, and as many as there are. |
| Search.NumericRunMaximal | src/frame_bridge.cpp:32-40 | The value scan takes numeric characters only, and as many as there are. |
| Search.CutTailIs | src/frame_bridge.cpp:25-43 | There is only one way to cut the text behind a key into blanks, maximal numeric span and rest. |
| Search.LocateCuts | src/frame_bridge.cpp:9-43 | Locating a key takes a text apart into what is before the leftmost key, the key, and its cut tail, losing no byte. |
| Search.LocateIs | src/frame_bridge.cpp:9-43 | Any such cut at the leftmost key is the one located. |
| Search.ValueAcross | src/frame_bridge.cpp:9-43 | Behind a text that ends its values, a key's value in the joined text is that of the first part, else of the second. |
| Decimal.RoundIsNearest | src/controller_pipeline.hpp:43-50 | The result is within one half of its argument, and is even whenever another integer is as near. |
| Decimal.RoundIsOdd | src/controller_pipeline.hpp:43-50 | Rounding is odd-symmetric. |
| Decimal.RoundIsMonotone | src/controller_pipeline.hpp:43-50 | Rounding never swaps an order. |
| Decimal.RoundedIsClose | src/frame_bridge.cpp:142-149 | The number a rendering stands for is within half a unit of its last place of the value rendered. |
| Decimal.ParsePrinted | src/frame_bridge.cpp:51-61 | Parsing a rendering gives back exactly the rounded value. |
| Numbers.StrtodReads | src/frame_bridge.cpp:51-61 | Parsing reads every decimal number, with any sign, point and exponent, as its digits stand: all digits over a power of ten, moved by the exponent; and it stops where the number ends, whatever follows. |
| Numbers.JsonNumberReads | src/frame_bridge.cpp:51-61 | Every number of the JSON grammar is parsed as the value of its digits and exponent. |
| Numbers.NoDigitsReadZero | src/frame_bridge.cpp:51-61 | A text with no digit after its sign and its point reads as 0. |
| Numbers.NumericOccursInNumbers | src/frame_bridge.cpp:32-40 | The characters the span scan takes are exactly those that occur in numbers of the JSON grammar. |
| Numbers.BlanksAreOneLine | src/frame_bridge.cpp:28-31 | What the scan skips before a value is the white space of JSON without line breaks. |
| Numbers.SpanIsCapped | src/frame_bridge.cpp:51-61 | A span of at most 63 characters is parsed whole; of a longer one only the first 63 characters matter. |
| Numbers.SmallNumberReads | src/frame_bridge.cpp:51-61 | `1e-05` reads as one hundred-thousandth. |
| Numbers.JoystickOfFrame | src/frame_bridge.cpp:206-236 | From the text of a well-formed frame the joystick values read are the values of the numbers in its joystick members. |
| Numbers.TransferOfFrame | src/frame_bridge.cpp:120-132 | The transfer time of a well-formed frame is T1 minus the value of the number in its sent-time member, and the processing time T2 minus T1. |
| Decimal.SplitDigitsValue | src/frame_bridge.cpp:142-149 | The digits before and after the decimal point together are the decimal digits of the scaled value. |
| Decimal.DigitsLength | src/frame_bridge.cpp:150-155 | A number has at most k digits if and only if it is below 10^k. |
| Decimal.PrintLength | src/frame_bridge.cpp:150-155 | The exact condition for a rendering to fit a given width. |
| Decimal.PrintIsNumeric | src/frame_bridge.cpp:32-40 | A rendering consists of characters the span scan takes, so it is read back whole. |
| ClockOffset.Estimator.Correct | src/clock_offset.cpp:34-48 | The deque after a call is the old one with the new sample and without its expired front, and the result is the sample minus the least transfer time in it. |
| ClockOffset.Estimator.Reset | src/clock_offset.cpp:30-32 | A reset leaves no samples. |
| ClockOffset.RollingMin | src/clock_offset.cpp:40-45 | The loop finds the least transfer time. |
| ClockOffset.MinIsMin | src/clock_offset.cpp:40-45 | The minimum is a lower bound that some sample attains. |
| ClockOffset.CorrectedIsRollingMinimum | src/clock_offset.cpp:34-48 | With non-decreasing process time the result is the sample minus the least transfer time over all samples since reset that are at most 30 s old. |
| ClockOffset.WindowIsRecent | src/clock_offset.cpp:18-38 | With non-decreasing process time the deque holds exactly the samples at most 30 s old. |
| ClockOffset.WindowIsSuffix | src/clock_offset.cpp:35-38 | With any process time the deque is a non-empty suffix of the history, so it holds the newest sample. |
| ClockOffset.CorrectedIsNeverNegative | src/clock_offset.cpp:35-47 | No result is negative, and it is zero if and only if the newest sample is the least in the window. |
| ClockOffset.OffsetCancels | src/clock_offset.cpp:34-48 | A constant clock offset on all transfer times of a session changes no result. |
| ClockOffset.UpwardJump | src/clock_offset.cpp:34-48 | After the offset jumps up by J a result is between the jump-free one and that plus J. |
| ClockOffset.DownwardJump | src/clock_offset.cpp:34-48 | After the offset jumps down a result is between zero and the jump-free one. |
| ClockOffset.JumpIsForgotten | src/clock_offset.cpp:36-38 | Once every sample from before a jump is more than 30 s old the result is exactly the jump-free one. |
| ClockOffset.ResultMoves | src/clock_offset.cpp:34-48 | Moving the samples in the window by between a and b and the newest by c moves the result by between c - b and c - a. |
| SessionRuns.WindowOfRun | src/controller_receiver.cpp:35-48 | After any run of the process, the deque is that of the samples of the frames forwarded since the last connect. |
| SessionRuns.CorrectedTimeOnARun | src/bridge_server.cpp:149-153 | On any run the corrected time a frame gets is the estimate over the frames forwarded since the last connect and itself, so that all laws of the estimator hold of it. |
| SessionRuns.NoSentTimeOnARun | src/bridge_server.cpp:131-150 | On any run, a frame without a sent time feeds the estimator a 0; with a clock that does not run backwards the corrected time appended to it is 0 minus the least of 0 and the transfer times of the session at most 30 s old. |
| SessionRuns.SampleOfIs | src/bridge_server.cpp:131-150 | The sample of a frame is T1 minus its sent time, or 0 where it has none. |
| Quantizer.QuantizeIsNearest | src/controller_pipeline.hpp:53-61 | No int8 value dequantizes nearer to x than the quantized one, saturation included. |
| Quantizer.QuantizeTiesToEven | src/controller_pipeline.hpp:53-57 | Where another int8 dequantizes as near, the quantized one is an even number of steps from the zero point. |
| Quantizer.HalfStepIffInRange | src/controller_pipeline.hpp:53-57 | The error is at most half a step if and only if x is within half a step of the int8 range. |
| Quantizer.QuantizeUndoesDequantize | src/controller_pipeline.hpp:53-61 | Quantizing a dequantized int8 value gives it back. |
| Quantizer.QuantizeIsMonotone | src/controller_pipeline.hpp:53-57 | Quantization never swaps an order. |
| Quantizer.DequantizeRange | src/controller_pipeline.hpp:59-61 | Dequantized values lie between those of -128 and 127. |
| HistoryWindow.HistoryWindowBuilder.Build | src/controller_pipeline.hpp:96-131 | The window returned and all five fields afterwards are those of the specification from the old fields. |
| HistoryWindow.HistoryWindowBuilder.Reset | src/controller_pipeline.hpp:139-143 | History, accumulator and first-sample flag are cleared, the two stale samples kept. |
| HistoryWindow.WindowIsHistory | src/controller_pipeline.hpp:105-118 | Over any session the window is the last 20 (`seq_len`) of: the first sample repeated, then every anchor chosen at earlier calls, then the current sample; in other words the samples at the indices `Shown` names. |
| HistoryWindow.RunIs | src/controller_pipeline.hpp:96-131 | After any session the deque holds the last `seq_len - 1` anchors ever chosen and the accumulator the distance travelled since the last one. |
| HistoryWindow.MotionIsConserved | src/controller_pipeline.hpp:120-128 | The accumulator stays below the anchor distance, path length is banked length plus accumulator, and anchors times anchor distance never exceed the path. |
| HistoryWindow.AnchorsCover | src/controller_pipeline.hpp:120-128 | The current sample is within the accumulated distance, hence within the anchor distance, of the latest anchor or of the first sample. |
| Metric.EuclideanIsMetric | src/controller_pipeline.hpp:120-122 | The non-negative root of the sum of squares is a metric, so these laws hold of the distance of the source. |
| HistoryWindow.CurrentIsNotShown | src/controller_pipeline.hpp:84-86 | In the window returned, the current sample is the last element and stands nowhere else, except as the padding of the very first call; no anchor is shown twice. |
| LowPass.CascadedEMA.Step | src/controller_pipeline.hpp:171-180 | The nested in-place loops give the cascade in which each stage follows the stage before it, and return the last stage. |
| LowPass.CascadedEMA.Reset | src/controller_pipeline.hpp:167-169 | Every stage is seeded with the given row. |
| LowPass.CascadedEMA.BlendRow | src/controller_pipeline.hpp:174-176 | One stage is moved toward its input, the others are left. |
| LowPass.ColumnOfCascade | src/controller_pipeline.hpp:171-180 | The dimensions are filtered independently of one another. |
| LowPass.CascadeStaysWithin | src/controller_pipeline.hpp:171-180 | For alpha in (0, 1] no stage leaves an interval that holds all stages and the input. |
| LowPass.CascadeOfDifference | src/controller_pipeline.hpp:171-180 | The filter is linear: the difference of two runs is the run of the differences. |
| LowPass.DifferencesStayWithin | src/controller_pipeline.hpp:171-180 | So it is monotone in state and input, and brings no two runs further apart than they were or their inputs are. |
| LowPass.SeededIsFixed | src/controller_pipeline.hpp:167-180 | A bank seeded with a value and fed that value does not move. |
| LowPass.TwoStagesConverge | src/controller_pipeline.hpp:171-180 | Under constant input the output error of two stages after n steps is exactly (1 - alpha)^n (e2 + n alpha e1). |
| MotorInference.MotorInference.constructor | src/motor_inference.cpp:129-153 | The state after start-up, the warm-up call on the NPU touching neither history nor filter. |
| MotorSessions.StartUp | src/motor_inference.cpp:129-153 | Start-up leaves everything as a reset does; on the NPU the network alone has moved, by one call on 40 zero points. |
| MotorInference.MotorInference.Reset | src/motor_inference.cpp:158-173 | A reset restores the network state, empties the history and unseeds the filter, and changes no more. |
| MotorInference.MotorInference.FillInput | src/motor_inference.cpp:189-195 | The loop lays out the quantized window, u and v by turns. |
| MotorInference.MotorInference.Compute | src/motor_inference.cpp:175-222 | One call gives the state and output of the specification from the old state; a failed inference leaves `motor_out` as it was. |
| MotorLaws.ComputeStaysInHull | src/motor_inference.cpp:197-221 | An interval that holds the seeded filter rows and the prediction holds the new rows and the output. |
| MotorLaws.SessionStaysInHull | src/motor_inference.cpp:202-221 | Every output of a session lies in any interval that holds all predictions of that session, whatever the process did before. |
| MotorLaws.SessionStaysInRange | src/motor_inference.cpp:202-221 | For every network and every session, tendon positions lie between the dequantized -128 and 127 and the insertion position is constant. |
| MotorLaws.PredictionsAreInRange | src/motor_inference.cpp:38-41 | Every prediction lies in the dequantized int8 range, which is within 0 and 12.3. |
| MotorSessions.SessionOutput | src/motor_inference.cpp:175-222 | A whole session of the pipeline, from the joystick values alone: the tensor of each call is the best int8 encoding, u and v by turns, of the window of 20 samples shown at that call; the network runs on these tensors from its initial state; a call fails exactly when the network does, and otherwise returns for each tendon the last stage of a two-stage cascade over all positions asked so far, seeded with the first, and the constant insertion position. |
| MotorSessions.StepResponse | src/motor_inference.cpp:211-215 | Asked for x0 first and for c in the n calls after it, a tendon is at c + (1 - alpha)^n (1 + n alpha) (x0 - c). |
| MotorSessions.ClampIsNearest | src/motor_inference.cpp:177-178 | Clamping gives the nearest value of [-1, 1]. |
| MotorSessions.InputsEncode | src/motor_inference.cpp:189-195 | The tensor has two entries for each window element, and no int8 stands nearer to its u than the first of them, nor to its v than the second. |
| MotorSessions.CallIs | src/motor_inference.cpp:175-222 | One call advances network, history and smoothed positions by one. |
| SessionRuns.PositionsOnARun | src/motor_inference.cpp:175-222 | On any run of the process with a connect, the motor positions of the next frame are those of that session, from the joystick values since the connect, of dropped frames too. |
| SessionRuns.MotorOfRun | src/controller_receiver.cpp:35-48 | After any run with a connect the motor pipeline is that of the session since. |
| MotorLaws.OutputsStayInHull | src/motor_inference.cpp:197-221 | The hull property from any state of the pipeline over any sequence of joystick values. |
| SessionRuns.RunStaysInHull | src/controller_receiver.cpp:35-48 | After any run of the process the filter holds nothing outside any interval that holds all predictions since the last connect. |
| SessionRuns.MotorsOnARun | src/bridge_server.cpp:109-116 | On any run the motor positions written to a frame lie in any interval that holds all predictions since the last connect, its own included; the insertion position is the constant. |

## Left out

- TextEditIsStructuralEdit: strings have no quotes and no backslashes, and no white space stands before a colon. An empty top-level object and a sent-time member in use that is not a number are outside it: what is forwarded for them is never JSON (`EmptyObjectIsForwarded`, `UnreadableIsForwarded`). The byte-level results (`FrameLaws`, `Headroom`, `FrameBridge`, `ReadBack`) have none of these conditions.
- PayloadIsJsonIff: for a cut frame it is proved exactly when the payload is the edited frame (`TextEditIsStructuralEdit`), not when it happens to be some other JSON text.
- PayloadReads: a frame cut by a failing reformat may lose members at its end, so it is left out there; for members that the raw frame carries already the search takes the leftmost.
- StampRoundTrip: a timing member, or the renamed text, is read back only where no member of that name stands before the sent time already, since the search takes the leftmost; the sent time itself is read back always.
- TimingAddsUp: for longer value texts the code reads the first 63 characters only, and so does the model.
- IndicesStrictlyIncrease: the library may call back a client without a request; then frames are only not older (`ClientsNeverGoBack`).
- SessionsAreIsolated: rests on `ResetVariableTensors` restoring the network's initial state, which is invisible in the source and part of the model of a reset.
- EuclideanIsMetric: the root is any function with that property over exact reals; its computation is not modelled.
- QuantizeIsNearest: rounding goes to an unbounded integer, so the range of the int32 cast at `src/controller_pipeline.hpp:46` is not modelled.
- ParsePrinted: exact reals; IEEE rounding, infinities, NaN, overflow in `strtod` and the sign of a negative zero are not modelled, nor the narrowing of features to `float`.
- The neural network (TensorFlow Lite, NPU delegate, model loading): any step function from state and window to state and failure or three outputs. A failed start-up, which ends the process, is not modelled.
- The angle and feature formulas (atan2, cos, sin) and the alpha formula (exp): any function of the clamped joystick values, and any alpha in (0, 1].
- The wall clock: the times T1 and T2 of a frame are inputs.
- libwebsockets, TLS, sockets, ports, arguments and signals: only the kinds of events and the first and final flags are kept. The LWS_PRE bytes before the payload are not modelled.
- More than one controller session at a time, which the source rules out (`src/controller_receiver.cpp:38-42`).
- Frame statistics, the CSV timing log, the GPIO marker and log lines: they only observe.
- Rows of the filter are sequences that a step replaces element by element; aliasing between the vectors of a row is not modelled.
- Build, deployment, certificates and service files.
