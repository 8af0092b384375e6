# Doris AGT firmware: verified model

The Artemis Global Tracker (AGT) on the Doris drop camera watches a dive run by a Lua script on the
autopilot, cuts payload power after the dive, reports by Iridium, relays GPS, and disciplines the
vehicle's clock. This project models its hand-written state machines in Dafny and proves what they
promise over every run.

| file | component |
|---|---|
| `common.dfy` | number types and small types the modules share |
| `pin_writes.dfy` | what holds throughout a run of pin writes |
| `clock.dfy` | the 32-bit millisecond counter against true time |
| `mission_data.dfy`, `mission_statistics.dfy` | last reports of the vehicle, and what the mission extremes mean |
| `relay_controller.dfy` | the normally-closed relay and the Pololu pulse driver |
| `state_machine.dfy` | mission state, failsafes, depth backstop, surface-power handshake |
| `iridium_schedule.dfy` | when a report is due |
| `mavlink_gates.dfy` | which inbound messages count |
| `main_loop.dfy` | `loop()` as a class and as events on a world |
| `reports.dfy` | what the firmware believes against what was reported |
| `loop_order.dfy` | the order of calls in a pass, and the firmware run for many passes |
| `handshake.dfy`, `dive_exits.dfy`, `dive_conditions.dfy`, `reporting.dfy` | theorems over every run |
| `counterexamples.dfy` | runs of the loop in which an expected promise fails |
| `ubx_parser.dfy`, `ubx_frames.dfy`, `pvt_decode.dfy` | the streaming GPS parser |
| `calendar.dfy`, `gps_time.dfy`, `rtc_discipline.dfy` | calendar arithmetic and the guarded clock |
| `p1_message.dfy`, `nmea_ring.dfy` | the P/1 printer and the NMEA transmit ring |
| `position_path.dfy` | a position from the receiver's bytes to the printed report |
| `rf_switch.dfy` | the shared antenna and modem power |

Each module that the firmware updates in place is a class whose methods are proved equal to a
function on a value (`View()`); the theorems are about that function. A run is a sequence of worlds
`tr` and events `es` with `tr[i + 1] == Step(tr[i], es[i])`. True time is unbounded; the firmware only
sees it modulo 2^32. `RunMoves` and `RunLoopMoves` show that every run from boot satisfies the
`Moves` and `LoopMoves` that some lemmas start from. The proofs keep two kinds of timer test apart:
"at least so long ago" holds in true time across rollover, while "at most so long ago" is a statement
about the wrapped age.

Where the documentation and the code differ the model follows the code:

- The payload cutoff is not cancelled only by a power cycle. The serial `reset` command does it, and
  so does following a mission state of at most zero (`PowerReturnsExactlyOnReset`, with a whole run in
  `CutoffIsReachableAndNotPermanent`).
- Depth over 2 m does not start a dive; only mission states 1 to 3 do (`DivingBeginsExactly`).
- A shutdown request that is never acknowledged lapses at any poll whose wrapped dwell time is under
  180 s (`RequestStandsExactly`, with a run of minute-long passes in `RequestLapses`).
- An automatic report is not held back by a manual test in the same pass, because the time it is judged
  by was read before the test (`SpacedExactly`, with a run of the loop in `ReportFollowsTestAtOnce`).
- The UBX parser misses a frame that follows a stray first sync byte (`StraySyncLosesFrame`, with a
  frame in `LostFrame`).
- The GPS week number agrees with Unix time only while it fits 16 bits (`GpsTimeAgreesExactly`).

## Model

| member | source | states |
|---|---|---|
| Clock.SinceBound | src/modules/state_machine.cpp:55 | the counter difference is the true difference, wrapped, so an elapsed-time test never overstates true elapsed time, rollover or not, and is exact below one wrap |
| MissionData.MissionStore.UpdateDepth | src/modules/mission_data.cpp:33-46 | a non-finite depth changes nothing; otherwise depth, validity, time and mission maximum as `WithDepth` says |
| MissionData.MissionStore.UpdateMinimumTemperature | src/modules/mission_data.cpp:48-60 | non-finite and implausible temperatures change nothing; otherwise the mission minimum as `WithMinimumTemperature` says |
| MissionData.MissionStore.UpdateAutopilotVoltage | src/modules/mission_data.cpp:71-78 | a voltage that is not finite or not positive changes nothing; otherwise value, origin and time |
| MissionData.MissionStore.UpdateDorisState | src/modules/mission_data.cpp:133-147 | records the reported state and time, and ends the mission statistics exactly on a state of at most zero after an active one |
| MissionStatistics.StatisticsAreMissionExtremes | src/modules/mission_data.cpp:33-60 | in every run the maximum depth and minimum temperature are exactly the extremes of the reports since the mission began, and the temperature is valid exactly when one was reported |
| MissionStatistics.ExtremesExtend | src/modules/mission_data.cpp:43-58 | one more report keeps the statistics the extremes of the reports |
| RelayController.NcRelay.SetPowerManagement | src/modules/relay_controller.cpp:84-109 | the contact conducts exactly when power was requested on |
| RelayController.PololuDriver.constructor | src/modules/relay_controller.cpp:44-59 | a boot writes both inputs low and then pulses ON once, never OFF, whatever the latch was |
| RelayController.PololuDriver.SetPowerManagement | src/modules/relay_controller.cpp:61-74 | one pulse on the matching input for a change, nothing otherwise; both inputs return low and were never high together |
| RelayController.PololuFollowsRequests | src/modules/relay_controller.cpp:34-74 | over any requests the latch equals the last one, inputs are never both high, and there are two writes per logical change |
| RelayController.DriveBoth | src/modules/relay_controller.cpp:34-109 | driven by the same requests after boot, relay and Pololu both end as the last one asked, and the Pololu saw exactly its boot and one pulse per change |
| MavlinkGates.NamedValueIsExact | src/modules/mavlink_interface.cpp:301-307 | the fixed-field comparison accepts exactly the fields that spell the name up to the first NUL |
| MavlinkGates.DecodeStateExact | src/modules/mavlink_interface.cpp:475-480 | a value is taken for mission state n exactly when n is in -1..4 and the value within 0.1 of it |
| MavlinkGates.ClassifyExact | src/modules/mavlink_interface.cpp:463-495 | STATE and MIN_TEMP count only from the autopilot, PWR_ACK only from BlueOS with a value in 0.9..1.1, and then always; values that are not finite never |
| StateMachine.Controller.constructor | src/modules/state_machine.cpp:58-80 | boot state, with the payload relay on |
| StateMachine.Controller.EnterState | src/modules/state_machine.cpp:275-316 | entering the current state does nothing; any other entry restores power and, outside RECOVERY, clears the handshake |
| StateMachine.Controller.ResetState | src/modules/state_machine.cpp:226-229 | clears the failsafe and enters PRE_DIVE |
| StateMachine.Controller.TriggerFailsafeSource | src/modules/state_machine.cpp:231-241 | records the source and enters RECOVERY only in a dive |
| StateMachine.Controller.UpdateFailsafes | src/modules/state_machine.cpp:82-118 | the failsafe poll with its grace, leak, voltage and heartbeat branches as `Update` |
| StateMachine.Controller.PollSurfacePower | src/modules/state_machine.cpp:120-153 | the handshake poll as `UpdateSurfacePower`, the relay following the power flag |
| StateMachine.Controller.DepthWindowQualified | src/modules/state_machine.cpp:43-56 | opens the window or widens its extremes, and qualifies on span and hold time |
| StateMachine.Controller.PollSurfaceBackstop | src/modules/state_machine.cpp:155-171 | the backstop poll as `UpdateSurfaceBackstop`; reports exactly the entries into RECOVERY it makes |
| StateMachine.Controller.AcknowledgeShutdown | src/modules/state_machine.cpp:173-183 | accepts exactly when a qualified request stands; only the first acknowledgement starts the grace |
| IridiumSchedule.ReportSchedule.Reset | src/modules/iridium_schedule.cpp:4-9 | back to nothing attempted |
| IridiumSchedule.ReportSchedule.NoteAttempt | src/modules/iridium_schedule.cpp:11-18 | a failed attempt counts for spacing; a located one spends the pending upgrade |
| IridiumSchedule.ReportSchedule.NoteSent | src/modules/iridium_schedule.cpp:20-25 | a sent report leaves an upgrade pending exactly when unlocated |
| MainLoop.Firmware.HandleInput | src/modules/mavlink_interface.cpp:390-495 | each message or command does to the firmware what `Deliver` says |
| MainLoop.Firmware.CheckStateTransitions | src/main.cpp:559-599 | equals the run of its three events: follow the autopilot, poll the backstop, watch the state |
| MainLoop.Firmware.ManualSection | src/main.cpp:366-412 | a requested test runs only with a fix and is noted at its end; the request is spent either way |
| MainLoop.Firmware.ReportSection | src/main.cpp:434-475 | an automatic report runs exactly when enabled, permitted and due by the time the pass began |
| MainLoop.Firmware.Loop | src/main.cpp:318-483 | one pass of the loop equals the run of its events in their order |
| LoopOrder.RunFirmware | src/main.cpp:264-483 | the firmware run for any number of passes after boot equals the run of their events, which keep the loop's order |
| LoopOrder.LoopKeepsOrder | src/main.cpp:318-483 | any number of passes follows the phase order that the theorems about the loop rely on |
| Reports.StepBelieves | src/modules/mission_data.cpp:33-147 | only a message that passes its source and value gates moves a believed state, depth, voltage or heartbeat and its time |
| Reports.BelievedIsNewest | src/modules/mission_data.cpp:33-147 | in every run each believed value is that of the newest message that carried one, and its computed age is that message's true age, wrapped |
| Reports.ReportedIsBelieved | src/modules/mission_data.cpp:33-147 | and once such a message has arrived something is believed |
| Reports.FreshExactly | src/modules/mission_data.cpp:157-170 | a value is fresh exactly when the newest message that carried one is at most 3000 ms old by the wrapped counter |
| Reports.FreshReportExactly | src/modules/mission_data.cpp:157-170 | the firmware holds a value as fresh exactly when the newest message of that kind carried it and is fresh |
| Reports.LeakIsNewest | src/modules/mission_data.cpp:80-82 | the leak the failsafes look at is what the newest leak command said |
| HandshakeSafety.EveryEventKeepsInv | src/modules/state_machine.cpp:58-316 | every public operation keeps: outside RECOVERY no handshake and power on; payload off, acknowledged, requested, dwelling and RECOVERY from DIVING each imply the next; power flag equals relay |
| HandshakeSafety.ReachableInv | src/modules/state_machine.cpp:243-249 | every reachable state satisfies the invariant, and transmission is permitted exactly when payload power is off |
| HandshakeSafety.StepMoves | src/modules/state_machine.cpp:120-183 | which event may start a dwell, raise a request, accept an acknowledgement or cut power, and under what condition |
| HandshakeSafety.AuthorizedExactly | src/modules/state_machine.cpp:135-141 | in a visit from DIVING a poll authorizes exactly when the newest mission state reported is 4 and at most 3000 counter ms old |
| HandshakeSafety.DwellExactly | src/modules/state_machine.cpp:135-148 | in such a visit the dwell is on exactly when some poll of the visit saw that |
| HandshakeSafety.CutoffSafety | src/modules/state_machine.cpp:120-183 | in every run with payload power off: the visit was entered directly from DIVING, in it a poll saw a fresh STATE=4, an acknowledgement came at least 180000 true ms later and a poll at least 30000 more |
| HandshakeSafety.NoCutoffWithoutStateFour | src/modules/state_machine.cpp:131-149 | a run without an accepted STATE=4 never requests shutdown nor loses power, whatever else it holds |
| HandshakeSafety.AckCountsExactlyWhenAwaited | src/modules/state_machine.cpp:173-183 | an acknowledgement changes the machine exactly in stage AWAITING_ACK, so early ones are ignored and repeats do not restart the grace |
| HandshakeSafety.PowerReturnsExactlyOnReset | src/main.cpp:566-569 | cut power returns exactly on the serial reset or on following a mission state of at most zero |
| Counterexamples.CutoffIsReachableAndNotPermanent | src/main.cpp:559-569 | in a run of the loop from boot a mission reaches the cutoff, and a later MISSION_START report restores power without any reset command |
| HandshakeSafety.StageNeverDrops | src/modules/state_machine.cpp:189-200 | within a recovery visit the shutdown stage never decreases, with no time limit once acknowledged and within one counter wrap of the dwell start before |
| HandshakeSafety.RequestStandsExactly | src/modules/state_machine.cpp:151-152 | after every poll of an unacknowledged dwell a request stands exactly while the wrapped dwell time is at least 180000 ms |
| Counterexamples.RequestLapses | src/modules/state_machine.cpp:151-152 | in a run of minute-long passes from boot a pass in which only time passes withdraws an unacknowledged request, in RECOVERY and with the dwell still running |
| HandshakeSafety.HandshakeAdvances | src/modules/state_machine.cpp:120-183 | when dwell poll, poll past the dwell and acknowledgement come within one counter wrap, the dwell start, the request and then the acknowledgement hold for as long as RECOVERY lasts |
| HandshakeSafety.HandshakeCompletesExactly | src/modules/state_machine.cpp:120-183 | when a first poll of the visit saw STATE=4, a poll followed a dwell later and then an acknowledgement, all within one counter wrap, the payload is from then on off exactly when some poll saw the wrapped grace since the accepted acknowledgement, with no time limit while RECOVERY lasts; until then the stage is ACKED |
| HandshakeSafety.HandshakeCompletes | src/modules/state_machine.cpp:120-183 | dwell poll, acknowledgement and grace poll within one counter wrap always end in PAYLOAD_OFF |
| DiveExits.DivingEndsExactly | src/modules/state_machine.cpp:82-118 | the exact conditions under which one event ends a dive; a mission state of at most zero is not among them |
| DiveExits.DivingBeginsExactly | src/main.cpp:571-575 | a dive begins exactly on following mission states 1 to 3 from PRE_DIVE; depth plays no part |
| DiveExits.RecoveryEndsExactly | src/main.cpp:561-569 | RECOVERY ends exactly on the serial reset or on following a state of at most zero, and leads to PRE_DIVE |
| DiveExits.PreDiveToRecoveryExactly | src/main.cpp:577-580 | PRE_DIVE leads straight to RECOVERY exactly on following mission state 4, and that visit remembers it did not come from a dive |
| DiveExits.StepExits | src/modules/state_machine.cpp:82-171 | where each exit leads and the evidence the poll had |
| DiveExits.FailsafeEvidence | src/modules/state_machine.cpp:82-118 | a failsafe fires at least 90000 true ms into the dive; LOW_VOLTAGE only when over 10000 true ms every poll of the dive saw a fresh voltage in (0, 11.0] and no leak; NO_HEARTBEAT only with the newest heartbeat 120000 true ms old |
| DiveExits.FirstPollSeesNoNewVoltage | src/main.cpp:339-352 | in the loop's order the first failsafe poll of a dive can see the battery critical only by a report a full counter wrap old |
| DiveExits.EvidenceInDiveExactly | src/modules/state_machine.cpp:98-111 | the LOW_VOLTAGE evidence lies within the dive it ends exactly unless the timer was running at the first poll of the dive and every poll since saw critical voltage for less than 10000 true ms |
| DiveExits.LowVoltageWithinDive | src/modules/state_machine.cpp:98-111 | in the loop's order it therefore does, unless the newest voltage report at that first poll was a full counter wrap old |
| Counterexamples.LowVoltageFromEarlierDive | src/modules/state_machine.cpp:98-111 | that condition is needed: in a loop-ordered run, one pass of which lasts a counter wrap, a dive ends for LOW_VOLTAGE at its first failsafe poll, on a timer from an earlier dive |
| DiveExits.DangerBegan | src/modules/state_machine.cpp:98-111 | a running voltage timer started at a poll, and every poll since saw the battery critical, or a leak that ended its dive |
| DiveConditions.TimerExactly | src/modules/state_machine.cpp:98-111 | the voltage timer runs exactly since the first poll past the grace that saw low voltage and no leak, with danger at every poll since |
| DiveConditions.FailsafeFiresExactly | src/modules/state_machine.cpp:82-118 | in terms of messages and polls: a failsafe fires exactly when the grace has passed and the newest leak command reported one, or low voltage held 10000 counter ms, or the newest heartbeat is 120000 counter ms old; the first of these is the cause recorded |
| DiveConditions.LowVoltageEndsDive | src/modules/state_machine.cpp:98-109 | fresh low voltage and no leak at every poll for ten seconds ends the dive |
| DiveConditions.CauseKeptExactly | src/modules/state_machine.cpp:226-241 | the recorded cause changes only when a failsafe fires and is cleared exactly by the reset and by following a state of at most zero out of RECOVERY |
| DiveConditions.EntriesAreGuarded | src/modules/state_machine.cpp:214-241 | a failsafe acts in a dive and nowhere else, and a dive is entered from PRE_DIVE and nowhere else |
| DiveExits.WindowHoldsExtremes | src/modules/state_machine.cpp:36-56 | the window's minimum and maximum are those of exactly the depths polled since it opened |
| DiveExits.BackstopEvidence | src/modules/state_machine.cpp:155-171 | the backstop ends a dive only if every poll over 30000 true ms saw DIVING, an ascent and a fresh depth under 1.5 m, with a span of at least 0.02 m |
| DiveExits.WindowDecides | src/modules/state_machine.cpp:155-171 | every poll in a dive has one window opening, which decides whether it fires |
| DiveConditions.WindowStays | src/modules/state_machine.cpp:155-171 | the window stays open while every poll sees an ascent and a fresh depth under 1.5 m |
| DiveConditions.BackstopFiresExactly | src/modules/state_machine.cpp:155-171 | in terms of messages and polls: it fires exactly when the newest state is 3 or later, the newest depth fresh and under 1.5 m, the unbroken run of such polls began 30000 counter ms ago and two of its depths differ by 0.02 m |
| DiveExits.ConstantDepthNeverFires | src/modules/state_machine.cpp:155-171 | a depth channel frozen at any value since the window opened never fires the backstop, whatever it read before |
| Reporting.VisitRestartsSchedule | src/main.cpp:588-598 | in every pass order, a visit entered from DIVING that the watcher has seen had its schedule restarted, and counts as attempted only by attempts made since |
| Reporting.ReportingSafety | src/main.cpp:434-475 | an automatic report is reached with permission only after a fully justified cutoff and a schedule restart in the same visit |
| Reporting.FirstReportAtOnce | src/main.cpp:434-445 | with nothing attempted in the visit the first permitted report runs at once, with or without a fix |
| Reporting.ReportRunsExactly | src/main.cpp:438-475 | after the last attempt of the schedule an automatic report runs exactly when enabled, with the payload off, and either the wrapped interval is over or a fix can upgrade an unlocated report that got through |
| Reporting.FirstRunsExactly | src/main.cpp:438-475 | with no attempt since the restart it runs exactly when enabled and with the payload off |
| Reporting.TestRunsExactly | src/main.cpp:366-393 | a manual test runs exactly when enabled, with a fix, on a command that no enabled chance has spent since |
| Reporting.UpgradePendingMeans | src/modules/iridium_schedule.cpp:11-25 | the pending flag holds exactly when an unlocated report got through with no located attempt nor restart since |
| Reporting.SentMeans | src/modules/iridium_schedule.cpp:4-25 | the sent flag holds exactly when some attempt got through since the last restart, boot counting as one |
| Reporting.GapOrUpgrade | src/modules/iridium_schedule.cpp:27-41 | after any attempt, manual or automatic, a report judged by a time not before that attempt's end is an interval of true time later, or the located upgrade of an unlocated one |
| Reporting.ThreeReportsSpanInterval | src/modules/iridium_schedule.cpp:27-41 | any three attempts of one schedule of which the last is a report span the interval, whatever tests and reports lie among them, when no report is judged by a time before an earlier attempt's end |
| Reporting.LoopReportsSpanInterval | src/main.cpp:434-475 | in the loop that holds when every report comes in a later pass than the manual tests before it |
| Reporting.SpacedExactly | src/main.cpp:386-445 | in the loop a report is spaced from the attempt before it exactly when a new pass began in between, or a test of the same pass took no time |
| Reporting.ReportAfterTestInSamePass | src/main.cpp:386-445 | after a manual test the report of the same pass is due exactly when the wrapped negative gap reaches the interval |
| Counterexamples.ReportFollowsTestAtOnce | src/main.cpp:386-445 | in a run of the loop from boot a located report that should wait five minutes follows a minute-long test at once |
| UbxParser.Receiver.ParseByte | src/modules/gps_manager.cpp:410-466 | one byte steps the automaton and fires as specified; no write leaves the buffer |
| UbxParser.Feed | src/modules/gps_manager.cpp:538-541 | feeding a read of bytes hands on exactly the specified reports, in order |
| UbxFrames.StepMatches | src/modules/gps_manager.cpp:410-466 | the parser's state is always what the bytes of the frame in progress make it: fields, running checksum, index and buffer |
| UbxFrames.FiresOnFrame | src/modules/gps_manager.cpp:455-461 | given what was read, the parser fires on exactly the byte completing a well-formed position frame and holds its payload |
| UbxFrames.FiresExactly | src/modules/gps_manager.cpp:410-466 | over any stream it fires exactly at the ends of well-formed 100-byte NAV-PVT frames that began in state 0, holding their 92 payload bytes |
| UbxFrames.FrameIsTaken | src/modules/gps_manager.cpp:410-466 | an idle parser takes any well-formed frame whole, is idle again at its end, and reports it exactly when it is a position frame |
| UbxFrames.FrameStreamIsDecoded | src/modules/gps_manager.cpp:410-466 | frames of any class and length back to back yield exactly their position payloads in order |
| UbxFrames.SentPayloadComesBack | src/modules/gps_manager.cpp:410-466 | building a frame and parsing it returns the payload of a position message and nothing for any other |
| UbxFrames.StraySyncLosesFrame | src/modules/gps_manager.cpp:415-417 | after a stray first sync byte a whole valid frame is lost |
| UbxFrames.LostFrame | src/modules/gps_manager.cpp:415-417 | the all-zero position frame is reported when sent alone and lost after a stray sync byte |
| UbxFrames.AnyByteErrorIsRejected | src/modules/gps_manager.cpp:447-461 | a position frame with any one of its 100 bytes changed is never reported |
| UbxFrames.SwapIsRejected | src/modules/gps_manager.cpp:418-461 | nor is one with two differing adjacent payload bytes swapped |
| UbxFrames.RemainingShrinks | src/modules/gps_manager.cpp:410-466 | every byte of a frame in progress lowers a measure of at most 65543 |
| UbxFrames.AlwaysRecovers | src/modules/gps_manager.cpp:410-466 | from any reachable state the parser is idle again within that many bytes, whatever they are |
| PvtDecode.I32Exact | src/modules/gps_manager.cpp:290-297 | a signed field reads as v exactly when its bytes are the little-endian digits of v's two's complement |
| PvtDecode.DecodeExact | src/modules/gps_manager.cpp:302-334 | a payload decodes to a fix, in the units of the payload, exactly when it is laid out as that fix |
| PositionPath.ReportNeedsFix | src/modules/gps_manager.cpp:361-393 | a position report can be sent exactly on a fix of two dimensions or more with at least four satellites |
| PositionPath.PositionReachesReport | src/modules/iridium_manager.cpp:347-365 | after any frames whose newest position frame carries a usable fix, the report printed from it reads back as its latitude and longitude over 10^7, speed over 10^3 and course over 10^5, with the mission depth and the autopilot voltage if positive, else the bus voltage |
| Calendar.ToUnixSeconds | include/rtc_time_guard.h:71-99 | accepts exactly the valid calendars and returns their Unix seconds; day count and result fit their widths for every 16-bit year |
| Calendar.UnixSecondsIsOrderEmbedding | include/rtc_time_guard.h:71-99 | Unix seconds order valid times exactly as the calendar does and tell them apart |
| Calendar.NextSecondIsOneMore | include/rtc_time_guard.h:48-99 | the successor second is one more across minutes, days, months, leap days and centuries |
| Calendar.EverySecondHasATime | include/rtc_time_guard.h:71-99 | no gaps: every second from zero is the time of some valid calendar |
| Calendar.MonthTable | include/rtc_time_guard.h:55-66 | the month lengths sum to the usual table |
| GpsTime.YearsInClosedForm | include/rtc_time_guard.h:84-87 | the summed year lengths equal 365 per year plus the leap days |
| GpsTime.DayCountsAgree | src/modules/mavlink_interface.cpp:49-58 | the Julian Day closed form and the summing loop count the same days for every date from 1970 |
| GpsTime.GpsTimeAgreesExactly | src/modules/mavlink_interface.cpp:45-68 | week and time of week equal Unix time minus the GPS epoch exactly while the week fits 16 bits; the time of week is in range and whole seconds |
| GpsTime.GpsTimeAgreesToCentury | src/modules/mavlink_interface.cpp:45-68 | so for every valid time from 1980-01-06 to 2099 |
| GpsTime.BeforeGpsEpoch | src/modules/mavlink_interface.cpp:59-63 | earlier dates give week zero, time zero |
| GpsTime.ImpossibleDayRollsOver | src/modules/mavlink_interface.cpp:141-146 | a day past the end of its month counts as that many days into the next |
| RtcDiscipline.Validate | include/rtc_time_guard.h:123-153 | the verdict by year, calendar and step, and the seconds of an accepted time |
| RtcDiscipline.RtcSync.RtcUnixUsec | src/main.cpp:236-262 | nothing is published while unsynced or when the clock reads outside 2025..2099; otherwise its Unix microseconds, within 64 bits |
| RtcDiscipline.RtcSync.SyncIfValid | src/main.cpp:143-234 | one discipline call writes and moves as `WriteOf` and `Next` say, for any two hardware reads |
| RtcDiscipline.WritesExactly | src/main.cpp:143-199 | a call writes exactly a new, valid time of 2025 to 2099 other than the one last accepted, within 300 s of the value just read while synced, else of a year up to the build year plus one (2026 for older builds), and writes its registers |
| RtcDiscipline.ReadSecondsExactly | src/main.cpp:236-261 | a read counts as the seconds of the valid time of 2025 to 2099 its registers hold, with or without the century, and as nothing without one |
| RtcDiscipline.SyncedExactly | src/main.cpp:143-233 | over any calls the clock is synced exactly when some call wrote it and read its write back and none since lost it |
| RtcDiscipline.LastAccepted | src/main.cpp:187-222 | the second remembered is that of the last confirmed call |
| RtcDiscipline.PublishedExactly | src/main.cpp:236-262 | published is exactly the time a read holds while synced, in microseconds |
| RtcDiscipline.WrittenTimeReadsBack | include/apollo_rtc_time.h:25-42 | a write that reads back as written reads as exactly the accepted second |
| RtcDiscipline.PublishedOnlyAfterReadback | src/main.cpp:201-223 | over any calls and any hardware reads, time is published only after a call set the clock and read it back in full, with no loss of sync since |
| P1Message.BufferWriter.AppendByte | src/modules/iridium_message.cpp:22-28 | appends while there is room and fails for good at the first byte that does not fit |
| P1Message.BufferWriter.AppendPaddedUnsigned | src/modules/iridium_message.cpp:40-54 | the divisor loop writes exactly the last decimal digits, most significant first |
| P1Message.BufferWriter.AppendCoordinate | src/modules/iridium_message.cpp:70-84 | writes sign, three digits, point and five digits of the rounded, capped coordinate |
| P1Message.FormatP1 | src/modules/iridium_message.cpp:115-179 | a missing or short buffer is left alone and gives zero; any other receives exactly the 45 bytes of the layout and nothing past them |
| P1Message.ParseDigits | src/modules/iridium_message.cpp:40-54 | printing and reading decimal digits are inverse up to the width |
| P1Message.CourseOnCircle | src/modules/iridium_message.cpp:101-111 | a course is printed in 0..359 within half a degree on the circle |
| P1Message.ReportReadsBack | src/modules/iridium_message.cpp:115-179 | every report has the fixed layout and reads back as its own fields, each brought into its range and rounded to its last digit with ties away from zero; fields that are not finite, and motion without a position, read as zero |
| NmeaRing.TxRing.Enqueue | src/modules/meshtastic_interface.cpp:35-42 | appends the longest prefix that keeps at most 319 bytes waiting |
| NmeaRing.TxRing.Update | src/modules/meshtastic_interface.cpp:225-236 | removes and sends the first min(4, length) bytes |
| NmeaRing.TxRing.SendLine | src/modules/meshtastic_interface.cpp:114-133 | queues dollar, body, star, hex of the XOR and line end; bodies of 133 bytes or more are dropped |
| NmeaRing.RunLink | src/modules/meshtastic_interface.cpp:26-236 | the ring run through any interleaving sends and holds what the queue model says |
| NmeaRing.SentIsPrefixOfAccepted | src/modules/meshtastic_interface.cpp:26-236 | sent bytes followed by waiting ones are the accepted ones, in order |
| NmeaRing.AcceptedWholeExactly | src/modules/meshtastic_interface.cpp:35-42 | a sentence enters whole exactly when it fits beside what is waiting |
| NmeaRing.AcceptedIsLongestPrefix | src/modules/meshtastic_interface.cpp:35-42 | what enters is a prefix of the sentence, and falls short of it only when 319 bytes wait |
| NmeaRing.SentenceReadsBack | src/modules/meshtastic_interface.cpp:44-49 | a receiver that checks the XOR reads every sentence back as its body |
| NmeaRing.ByteErrorIsRejected | src/modules/meshtastic_interface.cpp:44-49 | and rejects one with a body byte changed to any other but a star |
| NmeaRing.ReceiverRecovers | src/modules/meshtastic_interface.cpp:26-236 | over any interleaving a receiver that starts anew at every dollar recovers exactly the sentences that entered the ring whole, in order |
| NmeaRing.EverySentenceArrives | src/modules/meshtastic_interface.cpp:225-236 | eighty updates send all that ever waits, so a receiver then has exactly the sentences that entered whole |
| NmeaRing.ChecksumIsXor | src/modules/meshtastic_interface.cpp:44-49 | the checksum of bytes one after another is the XOR of theirs |
| NmeaRing.HexReads | src/modules/meshtastic_interface.cpp:44-49 | its two digits are the high and low half in capital hexadecimal |
| RfSwitch.SessionIsExclusive | src/modules/iridium_manager.cpp:101-170 | one session, however it fails, keeps GNSS and modem power apart at every write and leaves modem and charger off and GNSS on |
| RfSwitch.ModemPoweredExactly | src/modules/iridium_manager.cpp:189-238 | the modem is powered, charged and alone on the antenna exactly in sessions that get as far as starting it, from the opening to the power-down |
| RfSwitch.RunIsExclusive | src/modules/iridium_manager.cpp:189-617 | so does any run of sessions |
| RfSwitch.Radio.ChargeSupercaps | src/modules/iridium_manager.cpp:144-170 | charging succeeds exactly when the last PGOOD reading is high, all before being low, and then tops up; otherwise it gives up after the full timeout, across rollover, with the charger off |
| RfSwitch.Radio.Init | src/modules/iridium_manager.cpp:189-238 | the pin writes and flags of the power-on test for whatever the charger and the modem answer |
| RfSwitch.Radio.SendPayload | src/modules/iridium_manager.cpp:246-319 | refused exactly when unconfigured or with a payload of no or over 340 bytes; otherwise the writes of a session that gets as far as the hardware allows, and success exactly when one of two tries succeeds; the modem is called only when powered |
| RfSwitch.Radio.SendBinary | src/modules/iridium_manager.cpp:391-421 | likewise for binary messages, which may be empty and are tried once |
| RfSwitch.Radio.SendDorisReport | src/modules/iridium_manager.cpp:468-549 | likewise for the report exchange, with two tries |
| RfSwitch.Radio.Exchange | src/modules/iridium_manager.cpp:551-617 | likewise for message and signal checks, with one exchange |

## Left out

- PvtDecode.DecodeExact: in the units of the payload; position, speed and course are scaled in `PositionPath.Scaled`, altitude and dilution of precision nowhere.
- Each call into the state machine takes place at one instant: the few `millis()` reads inside one call are one value. Time passes freely between calls, also between the follower, the backstop poll and the watcher; the follower's three tests share an instant.
- Floating point: depth, voltage, temperature and coordinates are real numbers, and non-finite values one extra case; rounding of `float` and `double` is not modelled.
- UbxFrames.StraySyncLosesFrame: stated for frames without a further first sync byte, which could start another frame; `LostFrame` gives one it applies to.
- RfSwitch.Radio.ChargeSupercaps: a single wait overruns by less than 2^32 - 120100 ms; beyond that the wrapped timeout test can miss its end.
- RfSwitch.Radio.Exchange: stands for `checkMessages`, `checkMT` and `getSignalQuality`, which differ only in what they ask the modem.
- The sleep and wake entry points of the modem, and the receiver's own power calls outside sessions.
- Contents of satellite messages, retries inside the modem library and IMEI caching.
- The byte limit per pass of the serial reader: a pass takes any number of inputs.
- Configuration commands and storage, software reboot, MAVLink framing and outbound packets, LED patterns, I2C recovery and the GPS watchdog.
- Arming, sensor health, prearm status and mission-ready flags, which no modelled decision reads.
- NmeaRing.ReceiverRecovers: bodies contain neither dollar nor star, as NMEA requires of them.
- PositionPath.PositionReachesReport: altitude, accuracies and velocities of a fix are not printed and not followed past decoding; the autopilot voltage is a real number.
- NMEA number rendering (`format_lat`, `format_lon`, `appendFixedPoint`): only sentence framing is modelled, with the checksum as two hex digits.
- Leap seconds between GPS and UTC, which the firmware ignores.
- The build without relays, which only tracks the requested state.
