# Minotaur: a model of the robot's link, odometry and data structures

The robot's host talks to its microcontroller in 5-byte frames over a serial line. This project models
both ends of that link and the stateful code around it, and proves what that code keeps over whole runs.

| file | models |
|---|---|
| `Basics.dfy` | machine integers and sequence functions |
| `Framing.dfy` | the framing rule on byte sequences, and the host's drain loop as a function |
| `HostBuffer.dfy` | the host's 80-byte ring as a sequence: reads, drains, overruns |
| `SequenceNumbers.dfy` | allocation of the 256 packet numbers and the replies stored under them |
| `Odometry.dfy` | collecting sensor readings, unwrapping encoder counts, committing a state |
| `Reckoning.dfy` | which polls commit, and what the pose is made of, over whole runs |
| `Host.dfy` | the class `Minotaur`: ring array, `recv`, `packetize`, `sendpacket`, refining the three above |
| `CircularBuffer.dfy` | the microcontroller's 500-cell byte buffer |
| `Microcontroller.dfy` | its main loop: echo, frame assembler, replies; as a state machine and as the class that refines it |
| `BoardRuns.dfy` | what the board hears and sends over whole runs, told from its events |
| `Link.dfy` | both ends together: agreement of the framers, the round trip, who answers a waiting request |
| `Polling.dfy` | sensor polls over that link: what is held back, what is committed, and when two polls mix |
| `Pairing.dfy` | which polls' readings a committed state pairs, however reads fall |
| `Quadrature.dfy` | the two quadrature decoders and what their ticks mean |
| `Words.dfy` | bitwise operations on natural numbers, bit by bit |
| `Occupancy.dfy` | a map cell's cached count over a 256-bit history |
| `Yuv.dfy` | RGB to YUV in one pass, against the prototype's nested loops |
| `XnArray.dfy`, `XnBitSet.dfy`, `XnAlgorithms.dfy` | growable array, packed bit set, bubble sort |
| `Scheduler.dfy` | periodic commands, the queue, the consumer thread |
| `DepthBuffers.dfy` | triple buffering of depth frames |

Code that changes things in place is a class or a method over arrays, proved against a function; the
theorems are about the functions. A run is a sequence of events, and a theorem about runs holds for all of them.

What comes from outside is a parameter: the bytes a `read` returns and whether `errno` says it would block,
the clock, the verdict of the floating-point sanity check, the pose update (any function of the old pose and
the two tick differences), whether memory is available, the sensor readings during a pass. `data` bytes are
read in the little-endian order of the host's x86 processor.

## Findings

- The host wants more than five buffered bytes before it takes a frame, so it is always exactly one byte
  behind the microcontroller (`Framing.HostIsOneByteBehind`). A sensor poll therefore completes only when
  the next byte arrives (`Polling.PollIsHeldBack`, `Polling.PollOverReads`).
- In the running program that byte is the echo of the next poll, so a poll's right count is committed during
  the next poll. If the call that serves it also serves new replies, the committed state mixes the two polls:
  old right count, new left count and infrared readings (`Polling.OneReadMixes`). How far it mixes depends on
  how the reads are cut (`Polling.PollAfterPoll`), and never reaches beyond the next poll
  (`Pairing.CommitsPairNeighbours`). The samples of the odometry theorems are what is committed.
- The echo of a direct request for one reading is filed as that reading (`Polling.EchoIsFiled`).
- The warning about a buffer overrun does not stop the read from being accepted. A read that fills the ring
  loses exactly 80 bytes; 74 is the largest read that can never do so
  (`Host.ReadFillsWindow`, `HostBuffer.SeventyFiveLosesEverything`). Every byte is served, skipped as noise or
  kept exactly when no read loses a sync byte (`HostBuffer.AccountedIffOnlyNoiseForgotten`).
- `recv` looks at `errno` even after a read that brought bytes. Those bytes are never acknowledged and are lost
  (`Host.BlockedReadsVanish`).
- Tick counts leave the microcontroller high byte first and are read low byte first
  (`Polling.TicksSurviveOnlyIfSymmetric`). The odometry theorems speak of the 16-bit samples as the host reads them.
- The echo of a command frees its sequence number before any reply arrives (`Link.EchoFreesTheWaiter`).
- Ticks do not measure position: an excursion from phase 00 that is broken off leaves an error of one tick
  (`Quadrature.TicksExplained`, `Quadrature.RockingDrifts`). A decoder that misses a sample loses the wheel:
  it does not see two quarter-steps at once and takes three for one the other way (`Quadrature.SkippedSamples`).
- `Reserve` wraps to an empty allocation above 2^31 elements (`XnArray.RoundUpIsNextPower`).
- The conversion to YUV overruns its chroma planes unless the height is a multiple of 4 (`Yuv.PlanesFitExactly`).
- A second front swap without a new frame brings an older frame back (`DepthBuffers.NewestFrame`).

## Model

| member | source | states |
|---|---|---|
| `Framing.FramesRoundTrip` | ids/minotaur.cpp:167-178 | frames put on the line between arbitrary noise come out again, in order and no others |
| `Framing.EveryStreamSegments` | ids/minotaur.cpp:167-178 | every byte stream is noise, frames and an unfinished tail, so the round trip fixes the framing rule completely |
| `Framing.FramesAppend` | MicroCode/MinotaurMicroCode.X/main.c:225-253 | framing goes left to right: only the unfinished tail of what came before matters to what follows |
| `Framing.HostIsOneByteBehind` | ids/minotaur.cpp:167-178 | what the drain loop takes out of a buffer is exactly the frames of all its bytes but the last |
| `Framing.HeldBack` | ids/minotaur.cpp:167-178 | frames of a stream are the packets taken out plus at most one whole frame left in the buffer, and when that is so |
| `Framing.DrainAppend` | ids/minotaur.cpp:167-230 | draining twice, with bytes arriving in between, takes out what one drain of everything takes out; leftovers agree up to noise |
| `Framing.LeftoverIsSuffix` | ids/minotaur.cpp:167-230 | the bytes a drain leaves are the end of what was buffered |
| `Framing.DrainParses` | ids/minotaur.cpp:167-230 | what a drain takes out of a buffer is the served frames in order with sync-free noise between them, and the rest stays |
| `HostBuffer.ShortReadsFit` | ids/minotaur.cpp:136-178 | reads of at most 74 bytes never fill the 80-byte ring, because at most five bytes survive a drain |
| `HostBuffer.SeventyFiveLosesEverything` | ids/minotaur.cpp:152-159 | 74 is the best bound: 75 bytes on top of a held-back frame lose all 80 bytes |
| `HostBuffer.ChunkingIndependence` | ids/minotaur.cpp:136-230 | however a stream is cut into reads that fit, the same packets are served, and leftovers agree up to leading noise |
| `HostBuffer.RingHoldsSuffix` | ids/minotaur.cpp:136-178 | in front of what the ring holds, the stream is the packets served, in order, with only skipped noise between them: every byte is served, skipped or kept |
| `HostBuffer.FitsForgetsNothing` | ids/minotaur.cpp:152-159 | reads that fit meet the condition of that |
| `HostBuffer.RunCountsSyncs` | ids/minotaur.cpp:136-230 | over every run, overrunning or not, the sync bytes of the stream are forgotten, served or kept |
| `HostBuffer.AccountedIffOnlyNoiseForgotten` | ids/minotaur.cpp:152-178 | the bytes can be accounted for exactly when no read makes the ring forget a sync byte |
| `HostBuffer.SeventyFiveUnaccounted` | ids/minotaur.cpp:152-159 | so a 75-byte read behind a held-back frame never can, whatever its bytes |
| `HostBuffer.HostServesAllButLastByte` | ids/minotaur.cpp:136-230 | fed by reads of at most 74 bytes the host has served the frames of all bytes but the last |
| `Host.RingArithmeticIsModular` | ids/minotaur.cpp:159-167 | the branches used for ring indices are the source's modular expressions |
| `Host.ReadFillsWindow` | ids/minotaur.cpp:136-159 | moving the end index past a read appends the bytes or, when the ring fills, forgets exactly its 80 oldest |
| `Host.ReadStaysInside` | ids/minotaur.cpp:136 | the count passed to read is the number of cells left up to the end of the array |
| `Host.ReadUnderWindow` | ids/minotaur.cpp:136-144 | what a read that is never acknowledged does to the pending bytes: nothing while it fits beside them, else it overwrites exactly the oldest |
| `Host.WindowDrop` | ids/minotaur.cpp:172 | advancing the start index round the ring drops bytes from the front |
| `Host.DrainLoopServesDrained` | ids/minotaur.cpp:167-230 | the drain loop hands exactly the framed packets, in order, to the state under construction and to the reply table |
| `Host.ReceivedIsServe` | ids/minotaur.cpp:127-319 | a call of recv that reads bytes serves the same packets to ring, odometry and reply table |
| `Host.ReadsServeTheStream` | ids/minotaur.cpp:127-319 | over a run of calls every sequence number ends up with the replies the acknowledged bytes carry, however they were cut, and the odometry makes one run of polls |
| `Host.BlockedReadsVanish` | ids/minotaur.cpp:136-144 | bytes that arrive with a call told it would block are lost: the run goes on as if neither had been |
| `Host.ShortReadsHaveRoom` | ids/minotaur.cpp:136-144 | reads of at most 74 bytes always leave room for that |
| `Host.CommitsAreCommittals` | ids/minotaur.cpp:127-316 | the states committed by a run of calls are those committed by the polls the odometry sees |
| `Host.PollsServeAll` | ids/minotaur.cpp:167-230 | over a run the odometry is served every packet of the stream, in order |
| `Host.Minotaur.constructor` | ids/minotaur.cpp:14-33 | empty ring, fresh states, all numbers free |
| `Host.Minotaur.NextSequence` | ids/minotaur.cpp:103-104 | the search stops, at the first free number after the last one, cyclically |
| `Host.Minotaur.SendPacket` | ids/minotaur.cpp:94-125 | allocates a free number, locks it exactly when a reply is awaited, and writes the five frame bytes; an unopened port changes nothing |
| `Host.Minotaur.Read` | ids/minotaur.cpp:136 | a read stays inside the 80 cells and, seen from the advanced end index, appends or wraps |
| `Host.Minotaur.DropOutOfSync` | ids/minotaur.cpp:169-173 | skips exactly the bytes before the first 0xAA |
| `Host.Minotaur.StoreReply` | ids/minotaur.cpp:358-361 | stores the frame under its number and frees that number |
| `Host.Minotaur.Packetize` | ids/minotaur.cpp:342-364 | takes the five oldest bytes as a frame, or fails with nothing changed when fewer are buffered |
| `Host.Minotaur.Dispatch` | ids/minotaur.cpp:180-228 | files one packet into the state under construction |
| `Host.Minotaur.ServeOne` | ids/minotaur.cpp:167-229 | one turn of the drain loop: skip noise, then serve a packet only if more than five bytes remain |
| `Host.Minotaur.Drain` | ids/minotaur.cpp:167-230 | the drain loop terminates and equals its turn-by-turn specification |
| `Host.Minotaur.Differences` | ids/minotaur.cpp:236-253 | the two encoder differences, zero before the first commit, unwrapped |
| `Host.Minotaur.CommitIfComplete` | ids/minotaur.cpp:232-316 | commits, or keeps collecting, as specified |
| `Host.Minotaur.Recv` | ids/minotaur.cpp:127-319 | the whole call: ring, states and reply table afterwards, its result, and the two ways it returns early, even after an overrunning read |
| `Host.Minotaur.SuggestState` | ids/minotaur.cpp:377-385 | a newer valid suggestion replaces the pose and nothing else |
| `SequenceNumbers.NextFreeIsFirstFree` | ids/minotaur.cpp:103-104 | while any number is free the search ends on the first free one after the last, cyclically |
| `SequenceNumbers.SearchTerminates` | ids/minotaur.cpp:103-104 | with fewer than 256 outstanding requests the search always ends |
| `SequenceNumbers.SendTakesFirstFree` | ids/minotaur.cpp:103-112 | the number sent is the first free one after the last, its lock is taken exactly if a reply is awaited, and no other number is touched |
| `SequenceNumbers.OutstandingAreDistinct` | ids/minotaur.cpp:103-112 | no two outstanding requests share a number, through wrap-around, and the locked numbers are exactly theirs |
| `SequenceNumbers.FreedOnlyWithReply` | ids/minotaur.cpp:331-363 | a waited-for number becomes free only once a reply to it is stored, and then holds the newest one |
| `Odometry.EncodersAreLatest` | ids/minotaur.cpp:198-228 | encoder fields hold the latest reading received and are valid once one arrived |
| `Odometry.SensorsAreLatest` | ids/minotaur.cpp:198-228 | the same for the infrared bank and the battery |
| `Odometry.StampIsFirst` | ids/minotaur.cpp:181-196 | the timestamp is that of the first packet of a kind that stamps, 0x03 among them, which bears no reading; collecting never touches the pose |
| `Odometry.OneClockReading` | ids/minotaur.cpp:186-194 | the clock is read at the packet but at most once in a call, so one value stands for the call |
| `Odometry.StampOverRuns` | ids/minotaur.cpp:181-196 | until a commit, rejections or not, the state under construction keeps the time of the first poll that stamped it |
| `Odometry.Unwrap` | ids/minotaur.cpp:245-253 | a difference of counts becomes a movement of at most half a counter turn, off by whole turns only |
| `Odometry.UnwrapExact` | ids/minotaur.cpp:238-253 | the unwrapped difference is the true movement exactly when that is under 32768 ticks, or is 32768 and the counter did not wrap |
| `Odometry.EveryRunKeepsInvariant` | ids/minotaur.cpp:232-316 | in every reachable state: current is untouched (but for a suggested pose) or fully committed; next has no valid position; readings in next imply a timestamp |
| `Odometry.OnlyCommitsReplaceTheState` | ids/minotaur.cpp:300-316 | a commit moves the collected state into current and the old current into previous; nothing else changes encoders, sensors or timestamps |
| `Odometry.NoCommitWithoutReading` | ids/minotaur.cpp:232-316 | until a missing encoder or infrared reading arrives nothing is committed, however the other packets are spread over polls |
| `Odometry.PollsGather` | ids/minotaur.cpp:198-228 | while nothing is committed the state under construction gathers the readings of all polls |
| `Odometry.OneCommit` | ids/minotaur.cpp:232-316 | if only the first packet is a right encoder, a run without rejections commits once, in the first call by whose end all three readings are gathered, and takes what was gathered by then |
| `Odometry.CommitsHoldTheLatest` | ids/minotaur.cpp:198-316 | over every run a committed state holds the latest reading of each kind that any poll has served |
| `Odometry.BaselineIsLastCommit` | ids/minotaur.cpp:232-316 | the baseline of the next difference is always the last committed sample, whatever was rejected since |
| `Odometry.MotionsFollowSamples` | ids/minotaur.cpp:236-253 | the motions handed to the pose update are the unwrapped differences of successive commits, the first being zero |
| `Odometry.MotionIsConserved` | ids/minotaur.cpp:232-316 | over every run they add up to last sample minus first sample modulo 65536 |
| `Odometry.TrueDisplacement` | ids/minotaur.cpp:232-316 | and to the true wheel displacement if no movement between commits reaches 32768 ticks, however many states failed the sanity check |
| `Reckoning.CommitsExactly` | ids/minotaur.cpp:232-316 | over every run a poll commits exactly when all three readings have been served since the last commit and the sanity check passes or nothing has been committed yet |
| `Reckoning.SuggestionReplacesPose` | ids/minotaur.cpp:377-385 | a suggestion counts exactly when it is valid and newer than the last commit; it replaces the pose and nothing else |
| `Reckoning.PoseIsReckoned` | ids/minotaur.cpp:236-309 | over every run the pose is the last suggestion that counted, moved on by the unwrapped differences of the samples committed since, left as left and right as right, in order |
| `Reckoning.PollsMovePose` | ids/minotaur.cpp:236-309 | without suggestions that is power-up's pose moved by every committed sample |
| `CircularBuffer.NextIsModulo` | MicroCode/MinotaurMicroCode.X/UARTfunctions.c:69-73 | the branch used for ring indices is the source's modular expression |
| `CircularBuffer.Buffer.Push` | MicroCode/MinotaurMicroCode.X/UARTfunctions.c:68-76 | appends one byte, or drops it when 499 are queued; says which |
| `CircularBuffer.Buffer.Pop` | MicroCode/MinotaurMicroCode.X/UARTfunctions.c:78-87 | takes the oldest byte; on empty nothing changes and the result reads as 0xFF |
| `CircularBuffer.Buffer.GetStatus` | MicroCode/MinotaurMicroCode.X/UARTfunctions.c:89-97 | empty, full or normal exactly by the number of queued bytes |
| `CircularBuffer.FirstInFirstOut` | MicroCode/MinotaurMicroCode.X/UARTfunctions.c:68-97 | over every run accepted bytes equal popped bytes followed by the contents |
| `Microcontroller.IrBankBits` | MicroCode/MinotaurMicroCode.X/main.c:367-377 | which sensor sets which bit of the infrared byte |
| `Microcontroller.Replies` | MicroCode/MinotaurMicroCode.X/main.c:357-491 | every reply is a frame carrying the sequence number of its command, at most three per command |
| `Microcontroller.BetweenPasses` | MicroCode/MinotaurMicroCode.X/main.c:201-253 | between passes the receive buffer is empty and the assembler never holds a finished frame |
| `Microcontroller.PassAnswers` | MicroCode/MinotaurMicroCode.X/main.c:204-562 | a pass with 16 free cells adds the echo of the byte it took, then whole reply frames, and loses nothing |
| `Microcontroller.LineIsOutput` | MicroCode/MinotaurMicroCode.X/main.c:146-730 | over every run with room, bytes sent and still queued are the answers to the bytes heard |
| `BoardRuns.NothingMissed` | MicroCode/MinotaurMicroCode.X/main.c:213-226 | with a pass between any two intact arrivals exactly the intact bytes are heard, in order and by the next pass |
| `BoardRuns.SendsWhenItMay` | MicroCode/MinotaurMicroCode.X/main.c:204-210 | in every run a pass sends the oldest queued byte exactly when none was sent since the last transmit interrupt, and nothing else reaches the line |
| `BoardRuns.SendsNoFaster` | MicroCode/MinotaurMicroCode.X/main.c:204-210 | over every run at most one byte more than there were transmit interrupts is sent |
| `BoardRuns.RoundsSend` | MicroCode/MinotaurMicroCode.X/main.c:204-210 | without arrivals n rounds of a transmit interrupt and a pass put the n oldest queued bytes on the line, in order |
| `BoardRuns.LineIsThinnedOutput` | MicroCode/MinotaurMicroCode.X/main.c:204-562 | over every run, room or not, what is sent and queued is the answers to the bytes heard, in order, with bytes left out and none invented |
| `Microcontroller.QueuedAppend` | MicroCode/MinotaurMicroCode.X/main.c:363-439 | queueing reply frames one after another is queueing them at once, also when the buffer clips them |
| `Microcontroller.FullStays` | MicroCode/MinotaurMicroCode.X/main.c:425-439 | skipping a reply when the buffer is full changes nothing compared with pushing it |
| `Microcontroller.Micro.RxInterruptRoutine` | MicroCode/MinotaurMicroCode.X/main.c:770-781 | an intact byte raises the flag, a damaged one is ignored |
| `Microcontroller.Micro.TransmitByte` | MicroCode/MinotaurMicroCode.X/main.c:204-210 | sends the oldest queued byte when the line is ready |
| `Microcontroller.Micro.ReceiveByte` | MicroCode/MinotaurMicroCode.X/main.c:213-220 | moves an arrived byte to the receive buffer unless that is full |
| `Microcontroller.Micro.AddToPacket` | MicroCode/MinotaurMicroCode.X/main.c:228-252 | the switch that assembles a frame |
| `Microcontroller.Micro.AssembleByte` | MicroCode/MinotaurMicroCode.X/main.c:225-253 | takes one byte, echoes it and assembles it |
| `Microcontroller.Micro.Reply` | MicroCode/MinotaurMicroCode.X/main.c:443-449 | queues one frame, dropping what does not fit |
| `Microcontroller.Micro.ReplyAllSensors` | MicroCode/MinotaurMicroCode.X/main.c:358-441 | queues infrared, left and right replies, in that order |
| `Microcontroller.Micro.ProcessCommand` | MicroCode/MinotaurMicroCode.X/main.c:357-562 | answers a finished frame and consumes it, answered or not |
| `Microcontroller.Micro.LoopOnce` | MicroCode/MinotaurMicroCode.X/main.c:146-730 | one turn of the main loop is one step of the board |
| `Link.AssemblerFindsFrames` | MicroCode/MinotaurMicroCode.X/main.c:225-253 | the byte-at-a-time assembler completes exactly the frames of the stream and holds exactly its unfinished tail |
| `Link.FramersAgree` | ids/minotaur.cpp:167-178 | on every stream, cut any way, the host has served the frames the assembler completed before the last byte |
| `Link.FramersAgreeOnAll` | ids/minotaur.cpp:167-178 | they agree on every frame exactly when the stream does not end with one |
| `Link.OutputIsTraffic` | MicroCode/MinotaurMicroCode.X/main.c:225-562 | echoes and replies keep the outgoing line framed, even amid noise: it carries each command's echo, then its replies |
| `Link.EchoAndReplyRoundTrip` | ids/minotaur.cpp:127-230 | for every input stream and every cutting of the answers, the host serves echoes and replies in order, all but the final frame when the last byte completes a command |
| `Link.TrafficAnswersCommands` | MicroCode/MinotaurMicroCode.X/main.c:357-562 | that traffic is the exchanges of the completed commands, one after another |
| `Link.WholeLink` | MicroCode/MinotaurMicroCode.X/main.c:146-730 | the same for the running board: when it has been ready to send once for each byte queued, a host that sent whole commands and read the line gets exactly their exchanges, in order, all but the final frame |
| `Link.WholeLinkSoFar` | MicroCode/MinotaurMicroCode.X/main.c:146-730 | at any moment, with bytes still queued, the host has served the beginning of those exchanges; what it lacks fits in the queue and one frame |
| `Polling.PollIsHeldBack` | ids/minotaur.cpp:167-178 | the right-encoder reply of a sensor poll is what the host's ring holds, and the next byte, whatever it is, has it served |
| `Polling.PollCompletesOneByteLate` | ids/minotaur.cpp:232-316 | so a poll that follows frames of other kinds never commits by itself, over any calls of recv; the call that serves its last reply commits if the sanity check allows, counts byte-swapped |
| `Polling.FirstPollOverReads` | ids/minotaur.cpp:127-319 | the same from bytes to states: behind an empty ring or a held frame of another kind, every cutting into short reads commits nothing and leaves the last reply in the ring |
| `Polling.PollOverReads` | ids/minotaur.cpp:127-319 | one byte more then commits the readings, unless the sanity check stands against them |
| `Polling.OneCommitPerPoll` | ids/minotaur.cpp:167-316 | a poll that follows a poll, over any sane calls of recv: exactly one commit, in the call that serves the last packet needed; right count of the former poll, left count and infrared readings of the new one exactly if served by the end of that call |
| `Polling.PollAfterPoll` | ids/minotaur.cpp:127-319 | the same from bytes to states, for every cutting into short reads with blocked calls between; the new last reply stays in the ring |
| `Polling.PollAfterPolls` | ids/main_minos_wait.h:41-48 | over any number of polls, one commit each, pairing the right count of a poll with left count and infrared readings of the same or the next one |
| `Polling.PollingFromPowerUp` | ids/main_minos_wait.h:39-48 | the program from power-up, a motor command and then polls: the first poll commits nothing, every later one once, so paired |
| `Polling.OneReadMixes` | ids/minotaur.cpp:167-316 | one read of a poll's whole answer does pair the former right count with the new left count and infrared readings |
| `Polling.OneByteKeepsTogether` | ids/minotaur.cpp:167-316 | one byte read on its own first keeps the former poll's readings together |
| `Pairing.CommitsPairNeighbours` | ids/minotaur.cpp:127-316 | whatever is rejected or suggested and however reads fall, every commit pairs the right count of a poll with left count and infrared readings of it or the next |
| `Polling.EchoIsFiled` | ids/minotaur.cpp:198-228 | for a direct request the echo's own data bytes are filed as a valid reading until the reply comes |
| `Polling.ExchangeMeasures` | MicroCode/MinotaurMicroCode.X/main.c:357-491 | after the whole answer to any command the host holds the readings it asked for as the board measured them, tick counts byte-swapped, and nothing new of the others |
| `Polling.AnswersOnTheLine` | MicroCode/MinotaurMicroCode.X/main.c:357-562 | the very bytes that answer a poll and a motor command |
| `Polling.TicksSurviveOnlyIfSymmetric` | MicroCode/MinotaurMicroCode.X/main.c:425-439 | a count crosses the link unchanged exactly when its two bytes are equal |
| `Link.ExchangeAnswers` | ids/minotaur.cpp:358-361 | serving an exchange frees the command's number and no other, and stores its last frame |
| `Link.EchoFreesTheWaiter` | ids/minotaur.cpp:358-361 | the echo alone already frees the number, so a waiter can read back its own command |
| `Quadrature.Encoders.TimerInterrupt` | MicroCode/MinotaurMicroCode.X/main.c:806-891 | both decoders compute the same function of their samples, missing break or not |
| `Quadrature.CounterWraps` | MicroCode/MinotaurMicroCode.X/main.c:806-891 | the 16-bit counter is the true tick count modulo 65536 |
| `Quadrature.PinsShowPhase` | MicroCode/MinotaurMicroCode.X/main.c:807-809 | which pattern the two channel lines give at each quarter-step of the wheel |
| `Quadrature.DecoderFollows` | MicroCode/MinotaurMicroCode.X/main.c:806-891 | if the wheel moves at most a quarter-step between samples the decoder holds its phase |
| `Quadrature.RunsAsPerceived` | MicroCode/MinotaurMicroCode.X/main.c:806-891 | for any movement between samples the decoder does what it would do if the quarter-steps it perceives were the real ones |
| `Quadrature.KeepsUpIff` | MicroCode/MinotaurMicroCode.X/main.c:806-891 | it takes the wheel to be where it is, at every sample, exactly when no two samples are more than a quarter-step apart |
| `Quadrature.SkippedSamples` | MicroCode/MinotaurMicroCode.X/main.c:806-891 | two quarter-steps at once are not seen at all, three are seen as one the other way |
| `Quadrature.TicksExplained` | MicroCode/MinotaurMicroCode.X/main.c:806-891 | ticks are the turns at the last phase 00, plus one for an excursion under way, plus an error for each excursion broken off |
| `Quadrature.TicksAreTurns` | MicroCode/MinotaurMicroCode.X/main.c:806-891 | at phase 00 the ticks equal the turns exactly when broken-off excursions cancel out |
| `Quadrature.Forward` | MicroCode/MinotaurMicroCode.X/main.c:806-891 | p quarter-steps forward, with any repeated samples, give (p + 3) / 4 ticks |
| `Quadrature.Backward` | MicroCode/MinotaurMicroCode.X/main.c:806-891 | backward motion gives the negation |
| `Quadrature.ForwardOnPins` | MicroCode/MinotaurMicroCode.X/main.c:806-891 | the same count told from the pins: interrupts on a wheel turning forward count up |
| `Quadrature.BackwardOnPins` | MicroCode/MinotaurMicroCode.X/main.c:806-891 | and on one turning backward they count down |
| `Quadrature.ThereAndBack` | MicroCode/MinotaurMicroCode.X/main.c:806-891 | forward to a phase 00 and back to the start leaves zero ticks |
| `Quadrature.RockingDrifts` | MicroCode/MinotaurMicroCode.X/main.c:814-823 | rocking across the edge of phase 00 counts up without moving: ticks do not measure position |
| `Occupancy.ShiftIsPush` | ids/point.h:29-34 | the loop over the eight words is one push at the newest end of a 256-bit register |
| `Occupancy.ShiftedRegister` | ids/point.h:29-36 | the top bit tested after the loop is the observation that just left the 255-entry window |
| `Occupancy.Point.constructor` | ids/point.cpp:3-10 | the initial pattern has 127 open entries in the window |
| `Occupancy.Point.Shift` | ids/point.h:23-37 | the cached count stays equal to the open observations among the newest 255, also when the byte wraps in between |
| `Occupancy.Point.GetProb` | ids/point.h:18-21 | returns that count |
| `Occupancy.RegisterIsRecentPast` | ids/point.h:23-45 | after any run the register is the last 256 entries of initial bits followed by observations |
| `Occupancy.CountIsRecentOpen` | ids/point.h:23-45 | and the count is the open ones among the last 255 |
| `Words.ShiftInBit` | ids/point.h:32 | shifting a word with a carry moves every bit up one place |
| `Words.WriteBit` | Kinect/openni/Include/XnBitSet.h:51 | or-ing in, or masking out, one bit changes that bit only |
| `Words.AndTestsBit` | Kinect/openni/Include/XnBitSet.h:66 | masking with one bit and testing for zero tests that bit |
| `Yuv.Luma` | ids/yuv.cpp:15 | luma lies in 16..235, the range of section 2.5.3 of ITU-R BT.601-7 |
| `Yuv.ChromaU` | ids/yuv.cpp:18 | chroma lies in 16..239, so no truncation to a byte occurs |
| `Yuv.ChromaV` | ids/yuv.cpp:19 | the same for the second chroma plane |
| `Yuv.NeutralColours` | ids/yuv.cpp:15-19 | black and white reach the ends of the luma range, and greys carry no colour |
| `Yuv.SampleShows` | ids/yuv.cpp:15-19 | which weighted sum of the pixel's three colours each channel's byte is a 256th of |
| `Yuv.OnGridIff` | ids/yuv.cpp:13-16 | the tests on a pixel's index find the grid of every second, or fourth, row and column |
| `Yuv.PassMeetsGrid` | ids/yuv.cpp:12-16 | the single pass meets the pixels of every second or fourth row and column in plane order, none twice, none left out |
| `Yuv.PlanesFitExactly` | ids/yuv.cpp:6-9 | for width 640 the chroma planes are filled exactly if and only if the height is a multiple of 4, luma if and only if it is even |
| `Yuv.PlaneSample` | ids/yuv.cpp:12-22 | sample k of a plane comes from row and column step * (k / per) and step * (k % per) |
| `Yuv.Bitmap2Yuv420p` | ids/yuv.cpp:4-23 | fills the three planes back to back, each byte showing the colours of its pixel, and touches nothing behind them |
| `Yuv.NestedPlane` | ids_proto/basic_server/image_gen.c:83-90 | the nested loops fill one chroma plane with the same samples and touch nothing else |
| `Yuv.NestedChroma` | ids_proto/basic_server/image_gen.c:83-99 | the prototype's U and V planes are the single pass's, each byte showing the colours of its pixel |
| `XnArray.RoundUpIsNextPower` | Kinect/openni/Include/XnArray.h:112-119 | the bit trick gives the least power of two not below the request up to 2^31, and zero beyond |
| `XnArray.RoundUpIsLeast` | Kinect/openni/Include/XnArray.h:112-119 | no smaller power of two would do |
| `XnArray.AppendsDouble` | Kinect/openni/Include/XnArray.h:108-139 | appending one by one, the allocation is a power of two below twice the size, and what was copied is what it gained |
| `XnArray.AppendsCostLinear` | Kinect/openni/Include/XnArray.h:236-239 | k appends to a default array copy fewer than 2k elements |
| `XnArray.Array.constructor` | Kinect/openni/Include/XnArray.h:45-49 | an empty array with the requested allocation |
| `XnArray.Array.Reserve` | Kinect/openni/Include/XnArray.h:108-139 | makes room, keeps all contents, counts the copies; a failed allocation changes nothing |
| `XnArray.Array.SetMinSize` | Kinect/openni/Include/XnArray.h:178-187 | at least n elements, the old ones first |
| `XnArray.Array.SetMinSizeFill` | Kinect/openni/Include/XnArray.h:192-206 | the same with the gap filled |
| `XnArray.Array.Set` | Kinect/openni/Include/XnArray.h:218-224 | writes one element, growing if needed, all others kept |
| `XnArray.Array.SetFill` | Kinect/openni/Include/XnArray.h:227-233 | the same with the gap filled |
| `XnArray.Array.AddLast` | Kinect/openni/Include/XnArray.h:236-239 | appends one element at the specified cost |
| `XnArray.Array.SetSize` | Kinect/openni/Include/XnArray.h:155-162 | cuts or extends to n elements |
| `XnArray.Array.SetData` | Kinect/openni/Include/XnArray.h:82-92 | becomes a copy of the values, or empty when memory runs out |
| `XnArray.Array.Clear` | Kinect/openni/Include/XnArray.h:256-260 | empties the array and returns to the base allocation |
| `XnBitSet.PutChangesOneBit` | Kinect/openni/Include/XnBitSet.h:46-56 | setting a bit changes that bit and no other, across growth; gaps read as absent |
| `XnBitSet.PackedIsAbstract` | Kinect/openni/Include/XnBitSet.h:46-67 | after any run of Set calls the packed words hold exactly the abstract set of indices |
| `XnBitSet.SizeIsBound` | Kinect/openni/Include/XnBitSet.h:54 | after any run of Set calls the size lies past every index set, but for 2^32 - 1, which wraps to zero |
| `XnBitSet.SizeIsReached` | Kinect/openni/Include/XnBitSet.h:54 | and is one more than one of them |
| `XnBitSet.PackedBits` | Kinect/openni/Include/XnBitSet.h:79-91 | packing bytes keeps the stream's bits in order, most significant first; bytes after the last whole word are lost |
| `XnBitSet.BitSet.Set` | Kinect/openni/Include/XnBitSet.h:46-56 | the words after Set, with its size and its failure case |
| `XnBitSet.BitSet.IsSet` | Kinect/openni/Include/XnBitSet.h:59-67 | tells whether an index is in the set |
| `XnBitSet.BitSet.SetData` | Kinect/openni/Include/XnBitSet.h:70-76 | takes over words |
| `XnBitSet.BitSet.SetDataBytes` | Kinect/openni/Include/XnBitSet.h:79-91 | takes over bytes as packed words |
| `XnAlgorithms.SortPass` | Kinect/openni/Include/XnAlgorithms.h:54-66 | a pass permutes, settles the last unsettled place, and without a swap has found a strictly ascending prefix |
| `XnAlgorithms.BubbleSort` | Kinect/openni/Include/XnAlgorithms.h:43-71 | terminates and permutes for every comparer, ties swapped and all; sorts for every strict weak order |
| `Scheduler.AlwaysOnSchedule` | ids/CommandQueue.cpp:58-67 | from its first firing an entry's next time is that time plus count periods; it fires at most once per call |
| `Scheduler.OwesIffDue` | ids/CommandQueue.cpp:60 | an entry is due exactly when its schedule owes a firing |
| `Scheduler.NeverEarly` | ids/CommandQueue.cpp:58-67 | it has never fired more often than its schedule allows |
| `Scheduler.NothingOwed` | ids/CommandQueue.cpp:58-67 | called at least once per period it owes nothing after any call |
| `Scheduler.EntriesAreIndependent` | ids/CommandQueue.cpp:58-67 | a call does to each entry what it would do to it alone and pushes the commands of exactly the due ones, in the entries' order |
| `Scheduler.CommandQueue.GenPeriodic` | ids/CommandQueue.cpp:49-68 | the loop over the entries, with what it pushes |
| `Scheduler.NothingLostInOrder` | ids/main_command_queue.h:30-58 | every command pushed is executed or still queued, in push order, overflow or not |
| `Scheduler.TurnExecutes` | ids/main_command_queue.h:30-58 | a turn throws exactly when more than 100 commands are queued after its arrivals; else it executes the oldest one, if any |
| `Scheduler.ExecutedInTime` | ids/main_command_queue.h:30-58 | while nothing overflows every turn executes one of the commands queued at the start, oldest first |
| `Scheduler.ExecutedAt` | ids/main_command_queue.h:30-58 | so the command at place k has been executed after k + 1 turns |
| `Scheduler.OverflowsIff` | ids/main_command_queue.h:32 | a run throws exactly if some turn finds more than 100 commands |
| `Scheduler.OnePushPerFiring` | ids/main_command_queue.h:30-58 | what is pushed under an entry's command is what others push and one per firing |
| `Scheduler.PeriodicCommandsArrive` | ids/main_command_queue.h:22-58 | keep-alives and depth swaps executed or queued are those of others plus at most one per period since the first turn, exactly one if turns are at most a period apart |
| `Scheduler.EmptiedInOrder` | ids/main_command_queue.h:60-65 | the final drain executes the queue and then what its commands pushed, in order |
| `Scheduler.LoopKeepsSchedules` | ids/main_command_queue.h:30-58 | while the loop runs each entry keeps the schedule it would keep alone |
| `Scheduler.RunTurns` | ids/main_command_queue.h:30-58 | the loop until quit or overflow executes what its turns execute |
| `Scheduler.MainCommandQueue` | ids/main_command_queue.h:11-68 | the consumer thread: its two entries, its own depth swap, the loop, and on a normal exit the commands left over |
| `DepthBuffers.NewestFrame` | ids/kinect.cpp:133-154 | once a frame is done, front holds the newest exactly after an odd number of front swaps since, mid after an even number |
| `DepthBuffers.FreshConsumerSeesNewest` | ids/kinect.cpp:197-201 | a consumer that waits for a new frame before each swap always sees the newest |
| `DepthBuffers.Kinect.SwapDepthBackBuffer` | ids/kinect.cpp:133-143 | trades back and mid, retargets the driver, keeps the three buffers distinct |
| `DepthBuffers.Kinect.SwapDepthFrontBuffer` | ids/kinect.cpp:145-154 | trades front and mid, keeps the three buffers distinct |
| `DepthBuffers.Kinect.DepthCallback` | ids/kinect.cpp:162-166 | a completed frame moves to the middle; the front buffer is untouched |
| `DepthBuffers.Kinect.GetDepthFrame` | ids/kinect.cpp:197-201 | returns the new front buffer |
| `DepthBuffers.IDS.SwapDepth` | ids/ids.cpp:58-61 | the consumer's buffer is the front one and never the driver's target |
| `DepthBuffers.Interleaving` | ids/kinect.cpp:133-201 | under every interleaving of callbacks and swaps the buffers stay distinct and the consumer sees what the history says |

## Left out

- Host.Minotaur.GetPacket: does not model the blocking of the lock call; it may be called once the number is free.
- Host.Minotaur.SendPacket: does not model a write that sends fewer than five bytes, which the source only reports; with the port open it may be called while some number is free, since with none free the source spins for ever.
- Host.Minotaur.NextSequence: may be called while some number is free, for the same reason.
- Host.Minotaur.Recv: models each call as atomic, and the mutexes as flags.
- Polling.OneCommitPerPoll: asks that the sanity check rejects nothing; with rejections a state keeps gathering, which Pairing.CommitsPairNeighbours covers.
- Polling.PollAfterPolls: asks that each answer is read before the next poll is sent; how reads that straddle polls pair is left to Pairing.CommitsPairNeighbours.
- Microcontroller.Micro.LoopOnce: models a pass as atomic; an interrupt in the middle of one that changes a tick count between its two bytes is not modelled. Motor outputs, motor and autonomous-mode settings, and obstacle avoidance are not part of the model: they never touch the link.
- Microcontroller.LineIsOutput: assumes that the debug text switched on by the timer interrupt is off, since it is written between echoed bytes and breaks the framing by design.
- The battery sequence over the second serial bus (main.c lines 286-350): its flags are never cleared, so no property holds over whole runs. The battery percentage is a reading.
- The receive hardware's own byte queue: the model has one receive register.
- Floating-point pose arithmetic and the sanity threshold: an arbitrary function and an arbitrary verdict.
- Yuv.Bitmap2Yuv420p: asks for width 640 and a height divisible by 4, because the source divides by a literal 640 and sizes the planes by exact quarters and sixteenths; the destination must not overlap the picture. The prototype's luma loop, which samples odd rows and columns, is not modelled.
- Yuv.NestedPlane: asks for the same width and heights, so that its planes can be compared.
- Yuv.NestedChroma: asks for the same.
- XnArray.Array.Reserve: asks for at most 2^31 elements; beyond that the source allocates nothing and then writes past the end. The range overload of AddLast, the copy constructor and the iterators would only add easy members.
- XnArray.Array.SetMinSize: asks for at most 2^31 elements, like Reserve, and says nothing of the values of new elements, which the source leaves uninitialised.
- XnArray.Array.SetMinSizeFill: asks for at most 2^31 elements, like Reserve.
- XnArray.Array.Set: asks for an index below 2^31, like Reserve.
- XnArray.Array.SetFill: asks for an index below 2^31, like Reserve.
- XnArray.Array.AddLast: asks for fewer than 2^31 elements, like Reserve.
- XnArray.Array.SetSize: asks for at most 2^31 elements, like Reserve.
- XnArray.Array.SetData: asks for at most 2^31 values, like Reserve.
- XnBitSet.BitSet.SetData: asks for at most 2^31 words, like the array's Reserve.
- XnBitSet.BitSet.SetDataBytes: asks for at least four bytes, which the source reads unconditionally. SetSize of the bit set is not modelled: its comment promises zeroing that the code does not do.
- Scheduler.NothingOwed: asks for positive periods and a clock that starts at zero or later and never runs backward, as the process clock does; 64-bit overflow of times is not modelled.
- Scheduler.MainCommandQueue: runs for a given number of turns; pushes by other threads happen at the top of a turn and while a command executes. What a command does to the rest of the program is not modelled, only that it was executed.
- Occupancy.Point.Shift: the set of walls a cell belongs to is not modelled.
- The video buffers, which the same swaps handle, and the second reader of the front video buffer.
- Data races on unsynchronised fields: every step is atomic.
- Map indexing with negative coordinates, the tolerance-based order on walls, plane fitting, sockets, the web server, e-mail, JPEG and the NITE headers.
