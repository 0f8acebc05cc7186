# Cow-shed sensor node: verified model

A sensor node queues readings in NOR flash, keeps the queue's pointers in EEPROM and sends the
queued packets to a base station in the time slot that the station gave it. This project models
the parts of the firmware that keep state over long runs and proves what they promise.

- `Flash`, `Memq*`: the flash ring queue on memory whose bits a write can only clear, written
  through the page-splitting driver and erased by aligned sectors. It refines a bounded FIFO;
  frontier, lock, capacity, derived views and crash behaviour are exact. `MemqSpec` is the state
  machine, `MemqFifo` the invariant, `MemqTheorems` the runs, `MemqAlignment` the address ranges on
  which it works, `MemqRestart`, `MemqCrashes` and `MemqDirty` what start-up makes of the persisted
  record, `MemqStart` start-up over any record and the first boot, `MemqSaves` when records are
  written, `MemqLife` runs with restarts, `Memq` the queue as it is updated in place.
- `RingEeprom*`, `MemqRecord`: the wear-levelled EEPROM that keeps the queue's pointer record:
  round trip, wear, power loss after any byte, cells that fail, and the record as bytes.
- `XferSpec`, `XferTheorems`, `Xfer`: the sending loop and the device layer below it, composed with
  the queue: delivery from end to end. `XferSession`: sessions drain the queue, and always end.
  `XferReboot`: delivery over reboots. `XferDrained`: a run to
  the record that a reboot does not survive. `XferLogs`: what the device layer's filter does to log
  packets.
- `RingQ*`: the RAM queue of linked packets in a byte buffer, for packets of any lengths: the chain of
  headers across patches (`RingQFifo`), the runs that are FIFO and the queues that lock for good
  (`RingQTheorems`), and inputs for both (`RingQMixed`).
- `Tdm*`, `Tdma`: slot registration, with who gets a slot that was told to several devices
  (`TdmTentative`), the station's slot clock, the device's window arithmetic, and the three together.
- `Calendar`, `Rtclib`, `TimeLib`, `CalendarAgreement`, `KnownDates`: two date converters against one
  reference calendar, against each other and against the calendar in numbers. `RtcMillis`: the software clock over counter rollovers.
- `LinearCode`, `Crc8`, `CrcDistance`: what the sensor's checksum detects. `Majority`: the vote over network times.

Each stateful component has a specification on values, theorems about its runs, and a class or
methods in the form of the original that are proved to do one step of the specification.
Integer widths are written out where they matter (`% 256`, `% 0x1_0000`, `% 0x1_0000_0000`).
Flash and EEPROM are arrays; the clock, the millisecond counter, the answers of the radio and the
bytes that a failing EEPROM cell ends up holding are parameters.

Where code and documentation or use disagree, the model follows the code:

- The flash region starts at 13000 (`Cowshed/src/avr/param.h:38`), which is no multiple of the
  sector size. `MemqAlignment.FifoExactlyWhenSectorsFit` says which regions work;
  `MemqAlignment.ShippedConfigIsNotFifo` says that this one does not.
- `RTC_Millis::now` is said to be rollover-safe if called every 49.7 days
  (`Cowshed/src/lib/RTClib/RTClib.cpp:993-1000`). The exact condition counts from the last full
  second, not from the last call (`RtcMillis.RightExactlyWhenOftenEnough`).
- The send loop's end-of-slot test is inclusive (`Cowshed/src/avr/All.cpp:219`); windows here are
  half open, and `Tdma.InclusiveTestOverrunsByOne` states the difference.
- `RTClib` takes every fourth year as a leap year; the agreement with `Time` ends on 1 March 2100.
- The retry loop of `savePacket` keeps adding to its sum (`RingEeprom.RepairIsSeenExactly`,
  `RingEeprom.OneWrongByte`, input `RingEeprom.WrongByteTakenForRight`).
- The read that leaves a blob persists the pointers before it marks a drained queue as empty
  (`Cowshed/src/avr/lib/memq/memq.c:384-424`). After power loss such a record makes the queue hand out
  blank packets (`MemqRestart.DrainedReadsBlank`); `MemqRestart.RestartIsFifoExactly` says which
  records resume.
- A log packet keeps its time at another offset than a sensor packet
  (`Cowshed/src/common_lib/iotStructure/iotStructure.h:102-134`), but `deviceMemRead` looks at the
  sensor's offset for both; so does `XferSpec.Good`. `XferLogs` has the exact condition, an input for
  each direction, and what it means for delivery.
- A wrap of the RAM queue does not look at the packets at the start of the buffer. With packets of
  several lengths a push can overwrite them, and a run is FIFO exactly if none does
  (`RingQTheorems.FifoExactlyWhenClean`, input `RingQMixed.MixedRun`). A packet that fits neither
  behind the head nor before it locks an empty queue for good (`RingQTheorems.DiesExactly`, input
  `RingQMixed.EmptyLocks`).
- A slot that was offered and not confirmed is offered to the next device that asks
  (`TdmTentative.TwoToldTheSameSlot`); `TdmTentative.ToldIsConfirmedExactly` says who gets it.
- Start-up does not rebuild the head. Packets accepted after the last record are not found, and later
  ones are programmed over them (`MemqDirty.RestartIsMixedFifo`, input
  `MemqCrashes.StaleHeadMixesPackets`).
- `xferSendLoop` keeps returning true after giving up (`XferTheorems.GivenUp`).

## Model

| member | source | states |
|---|---|---|
| `MemqTheorems.MemqRefinesFifo` | Cowshed/src/avr/lib/memq/memq.c:236-440 | From memqReset on, whatever the flash held before, every mix of writes, reads and pointer saves gives its callers exactly what a bounded FIFO gives: each read returns the oldest accepted unread packet, or nothing when none is queued |
| `MemqTheorems.RunRefinesFifo` | Cowshed/src/avr/lib/memq/memq.c:276-453 | The same from any state that a history of accepted, read and persisted packets explains, and every such run ends in a state explained again: flash slots behind the head hold the accepted packets, all others are blank, so each accepted write lands on erased cells |
| `MemqTheorems.StepKeeps` | Cowshed/src/avr/lib/memq/memq.c:276-453 | One operation keeps that invariant and answers as the FIFO does |
| `MemqTheorems.ResetKeeps` | Cowshed/src/avr/lib/memq/memq.c:236-273 | A reset establishes the invariant on any flash contents |
| `MemqFifo.WriteKeeps` | Cowshed/src/avr/lib/memq/memq.c:276-309 | A write, wrap and lock included, keeps the invariant; an accepted packet is appended to the history |
| `MemqFifo.ReadKeeps` | Cowshed/src/avr/lib/memq/memq.c:337-440 | A read returns the oldest unread packet exactly when there is one, and keeps the invariant across the blob erases |
| `MemqFifo.ProgramSlot` | Cowshed/src/lib/FlashMemory/src/FlashMemory.cpp:138-162 | Programming one blank slot stores the packet bit for bit and changes no other slot |
| `MemqFifo.EraseFrontier` | Cowshed/src/avr/lib/memq/memq.c:322-333 | When the sectors fit, the erase at the frontier blanks the slots of that one blob and nothing else of the region |
| `MemqTheorems.FrontierLockCapacity` | Cowshed/src/avr/lib/memq/memq.c:276-309 | The erase frontier is the start of the blob that holds the tail; the lock is on exactly when packets are queued and the head has reached the frontier; a write is dropped only with more than totalPacket - blobSize/packetLen packets queued |
| `MemqTheorems.NoEraseTouchesUnread` | Cowshed/src/avr/lib/memq/memq.c:384-405 | No packet still to be read is changed by the erase inside a read |
| `MemqTheorems.AvailableIsExact` | Cowshed/src/avr/lib/memq/memq.c:456-472 | memqAvailable is the queue length in every reachable state if and only if the queue is not completely full, where it says 0 |
| `MemqTheorems.RebuiltLockIsExact` | Cowshed/src/avr/lib/memq/memq.c:157-164 | The lock recomputed at start-up is the live lock if and only if the queue is not completely full |
| `MemqSaves.SavesExactly` | Cowshed/src/avr/lib/memq/memq.c:443-453 | From any state over any run: a timed save writes the pointers to EEPROM if and only if the writes accepted and packets returned since the last save that did so number at least maxPtrEvent modulo 2^16, counted from what callers see; the count then starts afresh |
| `MemqSaves.SavesAfterReset` | Cowshed/src/avr/lib/memq/memq.c:236-273 | From a reset, the same count taken on the FIFO alone |
| `MemqSaves.SavesAfterStart` | Cowshed/src/avr/lib/memq/memq.c:37-60 | And from every start-up, which counts from zero; on the FIFO of the packets that the record knew of when the record resumes |
| `MemqSaves.RecordWrittenExactly` | Cowshed/src/avr/lib/memq/memq.c:276-424 | When a write or a read writes the record, and what it writes: a write exactly when it completes a round of the region or takes the last free slot, a read exactly when it comes to the end of a blob or of the region |
| `MemqStart.StartUpExactly` | Cowshed/src/avr/lib/memq/memq.c:88-175 | Start-up over any record: with head, tail or save tail below base or above base + packetLen * totalPacket the queue is reset over a blank region and is empty; any other record is taken as it stands, with its lock recomputed and the flash untouched |
| `MemqStart.FirstBoot` | Cowshed/src/avr/device_ps/device.cpp:363-376 | The first boot: from an EEPROM of 0xFF bytes start-up leaves a valid, empty queue, and every run from there answers as the empty FIFO |
| `MemqStart.ResetErasesExactly` | Cowshed/src/avr/lib/memq/memq.c:238-260 | A reset blanks a cell of the device exactly if its blob is one that the region touches |
| `MemqTheorems.ReadSideSurvives` | Cowshed/src/avr/lib/memq/memq.c:443-453 | After every run the persisted record has the live erase frontier, its tail lies between the frontier and the live tail, less than a blob behind it, and every packet from that tail to the live head is intact in flash |
| `MemqTheorems.PowerLossDuringErase` | Cowshed/src/avr/lib/memq/memq.c:384-405 | Power lost between the erase and the pointer write: what the old record points at is blank, every packet behind the one being read is still there |
| `MemqRestart.RestartIsFifoExactly` | Cowshed/src/avr/lib/memq/memq.c:88-184 | After power loss every run of the restarted queue answers as the FIFO of the packets not read before the record was written, if and only if the record has the live head and does not say that there is data with head and tail together (or the region has room for one packet only and that packet is all zeros) |
| `MemqRestart.PowerLossAnyTime` | Cowshed/src/avr/lib/memq/memq.c:88-184 | The same at every point of every run from a reset |
| `MemqRestart.RestartResumes` | Cowshed/src/avr/lib/memq/memq.c:88-184 | The invariant comes back, from the persisted tail on, exactly from such records |
| `MemqRestart.ResumableMeans` | Cowshed/src/avr/lib/memq/memq.c:88-184 | What that test on the record means: the head is the live one, the record is marked running exactly if packets wait, and the queue seen from it is not completely full |
| `MemqRestart.StepKeepsRecord` | Cowshed/src/avr/lib/memq/memq.c:289-298 | What the record knows after every operation: its head is that of the packets accepted when it was written and has not gone round since; a record of an empty queue says running only at the start of a blob |
| `MemqRestart.DrainedReadsBlank` | Cowshed/src/avr/lib/memq/memq.c:393-424 | A record written by the read that leaves a blob and drains the queue says running: after a restart the next read returns a blank packet that nobody wrote |
| `MemqRestart.FullOverruns` | Cowshed/src/avr/lib/memq/memq.c:157-164 | From the record of a full queue the restarted queue is unlocked, takes one more packet and then runs dry |
| `MemqCrashes.DrainedAtBlobEnd` | Cowshed/src/avr/lib/memq/memq.c:384-424 | For every configuration a run from a reset that drains the queue at the end of a blob and whose restart reads a blank packet |
| `MemqCrashes.FullReached` | Cowshed/src/avr/lib/memq/memq.c:289-298 | For every region of more than one packet a run that fills it and whose restart is no FIFO |
| `MemqCrashes.StaleHeadLosesPacket` | Cowshed/src/avr/lib/memq/memq.c:88-184 | The head is not rebuilt: a packet written after the last record is not found by a restart |
| `MemqCrashes.StaleHeadMixesPackets` | Cowshed/src/avr/lib/memq/memq.c:276-309 | And the next packet accepted is programmed over the lost one: the read returns the bitwise and of the two |
| `MemqDirty.RunIsMixedFifo` | Cowshed/src/avr/lib/memq/memq.c:276-440 | Whatever lies in the slots that are not in use, every run answers as the FIFO of what the flash stores: each accepted packet anded with what lay in its slot, until the blob is erased |
| `MemqDirty.RestartIsMixedFifo` | Cowshed/src/avr/lib/memq/memq.c:88-184 | After power loss, from every record but one that says there is data with head and tail together, every run of the restarted queue is that FIFO of the packets the record knew of; those accepted after the record are written over |
| `MemqDirty.NextGoesOver` | Cowshed/src/avr/lib/memq/memq.c:88-184 | The first packet written then goes over the oldest one that was not found |
| `MemqCrashes.CutResumes` | Cowshed/src/avr/lib/memq/memq.c:384-405 | Restart after power was lost between the erase and the pointer write: reads from the persisted tail give one blank packet for each packet up to the one being read, and then every packet behind it in order |
| `MemqLife.AtLeastOnce` | Cowshed/src/avr/lib/memq/memq.c:88-440 | Over any mix of operations, restarts from records that resume, and power cuts inside a read: every packet that the tail has passed was returned or is lost; none is lost if and only if no cut leaves a blob with a packet never returned before |
| `MemqLife.ReadLives` | Cowshed/src/avr/lib/memq/memq.c:337-440 | In such a life a read returns the next packet, or a blank in the place of one that was returned before or lost |
| `MemqAlignment.FifoExactlyWhenSectorsFit` | Cowshed/src/avr/lib/memq/memq.c:322-333 | For every configuration: all runs are FIFO if and only if the region starts on a sector boundary or lies inside one sector; for every other region a failing run is built |
| `MemqAlignment.ShippedConfigIsNotFifo` | Cowshed/src/avr/param.h:38-40 | The shipped region, 3600 packets from address 13000 in 4096-byte sectors, is not FIFO on every run |
| `Memq.Memq.MemqReset` | Cowshed/src/avr/lib/memq/memq.c:236-273 | The reset loop erases every blob that the region touches; the queue is then empty |
| `Memq.EraseBlobs` | Cowshed/src/avr/lib/memq/memq.c:238-260 | The blob loop blanks exactly the blobs overlapping the region |
| `Memq.Log2Base` | Cowshed/src/avr/lib/memq/memq.c:205-215 | The shift loop counts the whole part of the binary logarithm, and 255 for 0 |
| `Memq.Log2OfPow2` | Cowshed/src/avr/lib/memq/memq.c:205-215 | For a power of two the logarithm is exact, which the blob addresses rest on |
| `Memq.Memq.MemqWrite` | Cowshed/src/avr/lib/memq/memq.c:276-309 | Updates the pointers, the record and the flash in place; an accepted packet goes to the end of the queue, a dropped one leaves it alone and the queue was nearly full |
| `Memq.Memq.MemqRead` | Cowshed/src/avr/lib/memq/memq.c:337-440 | Removes and returns the head of the queue, nothing when it is empty |
| `Memq.Memq.EraseMemBlob` | Cowshed/src/avr/lib/memq/memq.c:322-333 | Erases the frontier blob, unlocks, moves the frontier and persists, and changes nothing else |
| `Memq.Memq.MemqSaveMemPtr` | Cowshed/src/avr/lib/memq/memq.c:443-453 | Writes the record exactly if the operations counted since the last timed save, a ghost count that write and read advance by what they return, are at least maxPtrEvent modulo 2^16, and then clears the count; pointers, flash and queue stay as they are |
| `Memq.Memq.MemqAvailable` | Cowshed/src/avr/lib/memq/memq.c:456-472 | The count returned is the queue length exactly when the queue is not completely full |
| `Memq.Memq.MemqSetMemPtr` | Cowshed/src/avr/lib/memq/memq.c:88-184 | Start-up from a record that resumes leaves the queue valid with the packets not read before the record was written; from a record with a pointer outside the region the pointers of a reset and an empty queue; from any other the pointers of the record, their lock recomputed, and the flash as it was |
| `MemqRecord.RecordRoundTrip` | Cowshed/src/avr/lib/memq/memq.h:23-32 | The pointer record comes back from its bytes |
| `MemqRecord.RecordInBytes` | Cowshed/src/avr/lib/memq/memq.h:23-32 | Where each field is in the 20 bytes: little-endian words at 0, 4, 8 and 12, state 0, 1 or 3 at 16, lock at 18 |
| `MemqRecord.RecordFromBytes` | Cowshed/src/avr/lib/memq/memq.h:23-32 | What any 20 bytes are read as |
| `MemqRecord.StartupReadsLastRecord` | Cowshed/src/avr/device_ps/device.cpp:363-376 | Whatever slots the EEPROM used, after any run of the queue start-up reads exactly the last record that the queue wrote |
| `MemqRecord.CutRecordIsOldOrNew` | Cowshed/src/avr/device_ps/device.cpp:370-376 | Power lost after any byte of a record write: start-up finds the old record or the new one, inside a cycle |
| `Flash.SplitPagesPartitions` | Cowshed/src/lib/FlashMemory/src/FlashMemory.cpp:138-162 | The chunks of a write partition its range in order, none is empty or crosses a page, for every length |
| `Flash.OneCommandPerPage` | Cowshed/src/lib/FlashMemory/src/FlashMemory.cpp:138-162 | There is exactly one command for each 256-byte page that the range touches, and it covers all of the range in that page |
| `Flash.PageProgramIsLinear` | Cowshed/src/lib/FlashMemory/src/FlashMemory.cpp:138-162 | A chunk inside a page is programmed as on a linear memory although the device wraps inside pages |
| `Flash.UnsplitProgramDiffers` | Cowshed/src/lib/FlashMemory/src/FlashMemory.cpp:138-162 | A write over a page end that is not split corrupts the start of the page: the splitting is needed |
| `Flash.Flash.Write` | Cowshed/src/lib/FlashMemory/src/FlashMemory.cpp:138-162 | The loop of page programs leaves what one linear, bit-clearing program of the whole range would leave |
| `Flash.ProgrammedSlice` | Cowshed/src/lib/FlashMemory/src/FlashMemory.cpp:124-162 | What is written to blank cells is what is read back from them |
| `Flash.Flash.Read` | Cowshed/src/lib/FlashMemory/src/FlashMemory.cpp:124-136 | The byte loop collects every byte of the range, in order, and no other |
| `Flash.Flash.EraseSector` | Cowshed/src/lib/FlashMemory/src/FlashMemory.cpp:224-257 | Sets a cell to 0xFF exactly if it lies in the sector of the address, or changes nothing when the device refuses to be enabled |
| `XferTheorems.InOrderDelivery` | Cowshed/src/avr/lib/asyncXfer/asyncXfer.c:77-204 | End to end, for every run of samples, saves, session starts and loop calls with any answers of the radio: packets leave the queue in the order accepted; acknowledged packets are the good ones of these, in order, once each, except at most one still in hand; every transmission is of the first packet not acknowledged, at most max(1, maxTry) of them for one visit of READ_MEM |
| `XferTheorems.RunKeeps` | Cowshed/src/avr/lib/asyncXfer/asyncXfer.c:85-204 | The invariant behind it, from any state that has it |
| `XferTheorems.NodeStepKeeps` | Cowshed/src/avr/lib/asyncXfer/asyncXfer.c:85-204 | Each step keeps the invariant: send states have a packet in hand, the try counter is the number of transmissions of the burst |
| `XferTheorems.VisitKeeps` | Cowshed/src/avr/device_ps/device.cpp:191-221 | A visit of READ_MEM keeps it whatever the queue returns: a packet with a future time or a wrong type is dropped, any other is kept in hand |
| `XferTheorems.BurstOutcome` | Cowshed/src/avr/lib/asyncXfer/asyncXfer.c:128-197 | A burst ends with the packet acknowledged exactly when one of its max(1, maxTry) tries is answered; otherwise the loop stops and the packet is still in hand |
| `XferTheorems.GivenUp` | Cowshed/src/avr/lib/asyncXfer/asyncXfer.c:185-203 | After giving up, calls change nothing although they return true, the pointer being set; the next session sends the same packet without touching the queue |
| `XferSession.SessionDrains` | Cowshed/src/avr/lib/asyncXfer/asyncXfer.c:85-204 | A session drains the queue: from an idle node with k good packets queued, with no further start and every try answered, 4k + 1 calls acknowledge all k packets in order; every call but the last returns true, the last returns false and leaves the queue empty |
| `XferSession.SessionAfterRun` | Cowshed/src/avr/lib/asyncXfer/asyncXfer.c:77-204 | The same after any run from power-up that ends with nothing in hand: one start and these calls acknowledge every packet accepted and not yet given out |
| `XferSession.SessionEnds` | Cowshed/src/avr/lib/asyncXfer/asyncXfer.c:85-204 | Whatever the radio answers and whatever is queued, every session ends after at most 3 max(1, maxTry) + 1 calls for each packet queued or in hand, and one more; it ends because the packet in hand was given up, the queue was empty or the packet taken was not good, and calls then return true exactly in the first case |
| `XferSession.NothingAtPowerUp` | Cowshed/src/avr/lib/asyncXfer/asyncXfer.c:77-96 | From power-up until the first start, whatever is sampled, saved and called, nothing leaves the queue, nothing is sent and every call returns false |
| `XferTheorems.AvailableAfterRun` | Cowshed/src/avr/lib/memq/memq.c:456-472 | At the end of such a run memqAvailable is the number of packets accepted and not given out, exactly unless the queue is completely full |
| `XferTheorems.InHandAfterPowerLoss` | Cowshed/src/avr/device_ps/device.cpp:191-221 | After power loss with a packet in hand the queue goes on, with the packets read since the record first, exactly from a record that resumes; the packet in hand is the last of these, and is among them exactly if the persisted tail is behind the live one |
| `XferTheorems.DrainingVisit` | Cowshed/src/avr/device_ps/device.cpp:191-221 | The visit that takes the last packet queued and leaves a blob with it: until the next record power loss loses the packet in hand and the restarted queue hands out blanks |
| `XferDrained.DrainedNode` | Cowshed/src/avr/device_ps/device.cpp:191-221 | For every configuration a run of the node from power-up that leads there: fill a blob, deliver all packets but the last, and take that one |
| `XferReboot.AtLeastOnceDelivery` | Cowshed/src/avr/lib/asyncXfer/asyncXfer.c:85-204 | Over whole lives of a node, with reboots from records that resume and power cuts inside a read: every packet that the tail has passed was acknowledged, or taken when it was not good, or is in hand, or is lost; and none is lost if and only if no step loses one |
| `XferReboot.StepLoses` | Cowshed/src/avr/device_ps/device.cpp:191-302 | What a step loses: the packet being read at a cut that leaves a blob, the packet in hand at a reboot whose record is as new as the read that took it, and nothing else |
| `XferReboot.StepLives` | Cowshed/src/avr/device_ps/device.cpp:191-302 | Each step of such a life keeps the book: the queue holds the accepted packets, or blanks in the place of closed ones, and every packet read is closed or the one in hand |
| `XferReboot.BlankIsDropped` | Cowshed/src/avr/device_ps/device.cpp:195-216 | The blank packets that a cut leaves are dropped by the device layer, whatever the time |
| `XferLogs.LogKeptExactly` | Cowshed/src/avr/device_ps/device.cpp:198-216 | A log packet is kept exactly if 65536 times its restart count plus 256 times its hardware error code plus its error code is not above the time |
| `XferLogs.TypesKeptExactly` | Cowshed/src/avr/device_ps/device.cpp:198-216 | A packet of type 11 is kept exactly if the little-endian number in its bytes 4 to 7 is not above the time; packets of types other than 11 and 23 never |
| `XferLogs.MeantExactly` | Cowshed/src/avr/device_ps/device.cpp:198-216 | The filter is the intended one, typed and not from the future by the packet's own time, on all packets but the logs on which that sum and the log's own time disagree |
| `XferLogs.PastLogDropped` | Cowshed/src/avr/device_ps/device.cpp:198-216 | An input: a log of the past, of a node restarted 65535 times, is dropped |
| `XferLogs.FutureLogKept` | Cowshed/src/avr/device_ps/device.cpp:198-216 | An input: a log from the future, of a node never restarted, is kept |
| `XferLogs.WantedIsMeantExactly` | Cowshed/src/avr/device_ps/device.cpp:191-221 | At every point of a run the packets to deliver are the intended ones if and only if no log taken so far is misjudged |
| `Xfer.SendLoop.XferSendLoop` | Cowshed/src/avr/lib/asyncXfer/asyncXfer.c:85-204 | One call moves the state machine, the read buffer and the queue by exactly one step of the protocol and returns whether the pointer is set or the session goes on; after a success it goes on with the next packet |
| `Xfer.SendLoop.XferReady` | Cowshed/src/avr/lib/asyncXfer/asyncXfer.c:77-81 | Starts a session without touching the packet in hand |
| `Xfer.DeviceLayer.DeviceMemRead` | Cowshed/src/avr/device_ps/device.cpp:191-223 | Takes from the queue only with nothing in hand; says whether there is a packet to send |
| `Xfer.DeviceLayer.DeviceRfAckWait` | Cowshed/src/avr/device_ps/device.cpp:296-302 | Only an acknowledgement releases the packet in hand |
| `RingEepromTheorems.SaveThenRead` | Cowshed/src/lib/RingEEPROM/src/RingEEPROM.cpp:108-170 | A save keeps the shape of the status bytes and the next read selects the slot just written, holding the packet |
| `RingEepromTheorems.ScanFindsFirstZero` | Cowshed/src/lib/RingEEPROM/src/RingEEPROM.cpp:93-103 | On any memory the scan stops behind the first status byte that is zero, or behind all of them |
| `RingEepromTheorems.SaveInBytes` | Cowshed/src/lib/RingEEPROM/src/RingEEPROM.cpp:108-151 | Every byte of the memory after a save, by its address |
| `RingEepromTheorems.ReadInBytes` | Cowshed/src/lib/RingEEPROM/src/RingEEPROM.cpp:156-170 | And the bytes that a read then returns |
| `RingEepromTheorems.ReadsLastSaved` | Cowshed/src/lib/RingEEPROM/src/RingEEPROM.cpp:108-170 | After any number of saves from any well-shaped area, all-0xFF included, the read returns the last packet |
| `RingEepromTheorems.SaveKeepsOthers` | Cowshed/src/lib/RingEEPROM/src/RingEEPROM.cpp:108-151 | A save changes no other slot and nothing outside the area |
| `RingEepromTheorems.WearIsEven` | Cowshed/src/lib/RingEEPROM/src/RingEEPROM.cpp:108-151 | The exact number of writes that each slot gets in n saves |
| `RingEepromTheorems.WearBound` | Cowshed/src/lib/RingEEPROM/src/RingEEPROM.cpp:108-151 | In n saves each slot is written at least floor(n / slots) and at most ceil(n / slots) times |
| `RingEepromTheorems.AtomicExactly` | Cowshed/src/lib/RingEEPROM/src/RingEEPROM.cpp:108-170 | Cutting a save after any prefix of its byte writes leaves the complete old or the complete new packet readable if and only if the save does not start a new cycle and follows a save of this cycle |
| `RingEeprom.RetriesOnlyRepair` | Cowshed/src/lib/RingEEPROM/src/RingEEPROM.cpp:128-138 | With cells that may fail to take a byte: a cell is right in the end exactly when it was right before or took its value in one of the passes made, so a retry never spoils a byte |
| `RingEeprom.PassesExactly` | Cowshed/src/lib/RingEEPROM/src/RingEEPROM.cpp:127-138 | How many passes a save makes and what they leave: the passes end with the first number p whose slot adds up to p times the bytes of the packet modulo 256, over the integers, or with the third |
| `RingEeprom.PassesOfSave` | Cowshed/src/lib/RingEEPROM/src/RingEEPROM.cpp:110-138 | A save makes one to three passes, and fewer than three only if the last one matches |
| `RingEeprom.OneWrongByte` | Cowshed/src/lib/RingEEPROM/src/RingEEPROM.cpp:128-138 | A pass that leaves exactly one byte wrong is followed by another one, while there are any left, if and only if the error modulo 256 is not the sum kept from the passes before |
| `RingEeprom.FirstPassTriesAgain` | Cowshed/src/lib/RingEEPROM/src/RingEEPROM.cpp:128-138 | After the first pass that is always so |
| `RingEeprom.WrongByteTakenForRight` | Cowshed/src/lib/RingEEPROM/src/RingEEPROM.cpp:128-138 | After a later one it is not: an input, with the packet 1, where a second pass that leaves 2 ends the save |
| `RingEeprom.SumIsTotal` | Cowshed/src/lib/RingEEPROM/src/RingEEPROM.cpp:220-229 | The 8-bit checksum is the sum of the bytes over the integers modulo 256 |
| `RingEeprom.RepairIsSeenExactly` | Cowshed/src/lib/RingEEPROM/src/RingEEPROM.cpp:128-138 | A second pass that repairs the packet is recognised only if the bytes add up to a multiple of 256, because the sum is not started afresh; the packet is right all the same |
| `RingEeprom.SoundSave` | Cowshed/src/lib/RingEEPROM/src/RingEEPROM.cpp:108-151 | On cells that take every byte one pass is made and the save is the plain one |
| `RingEeprom.SoundStatus` | Cowshed/src/lib/RingEEPROM/src/RingEEPROM.cpp:108-151 | With status bytes that take their values the save on failing cells is that of what its passes left |
| `RingEeprom.SaveCountsExactly` | Cowshed/src/lib/RingEEPROM/src/RingEEPROM.cpp:149-170 | Inside a cycle a save comes into force exactly if its status byte takes anything but zero; otherwise the old packet is still the one read |
| `RingEeprom.RingEeprom.SavePacket` | Cowshed/src/lib/RingEEPROM/src/RingEEPROM.cpp:108-151 | Leaves the memory of a save on cells any of which may fail, status bytes included |
| `RingEeprom.RingEeprom.ReadPacket` | Cowshed/src/lib/RingEEPROM/src/RingEEPROM.cpp:156-170 | Copies out the slot selected by the status bytes; with none in use, what lies where the 256th slot would be |
| `RingEeprom.RingEeprom.GetStatusPtr` | Cowshed/src/lib/RingEEPROM/src/RingEEPROM.cpp:93-103 | The do-while scan stops behind the first zero status byte or behind the last |
| `RingEeprom.RingEeprom.ClrStatusBuf` | Cowshed/src/lib/RingEEPROM/src/RingEEPROM.cpp:78-87 | Clears the status bytes one write at a time |
| `RingEeprom.RingEeprom.ReadCalcChecksum` | Cowshed/src/lib/RingEEPROM/src/RingEEPROM.cpp:220-229 | The loop adds up the bytes of the range modulo 256 |
| `RingQTheorems.FifoExactlyWhenClean` | Cowshed/src/common_lib/ringQ/ringQ.c:28-225 | For packets of any lengths: over a run, what was popped and then what is queued are what was queued and then what was accepted, if and only if no push of the run overwrites, that is, wraps while the head is behind the tail without reaching the tail |
| `RingQTheorems.FromResetFifoExactly` | Cowshed/src/common_lib/ringQ/ringQ.c:28-250 | The same from a reset of any buffer |
| `RingQTheorems.UniformRunIsFifo` | Cowshed/src/common_lib/ringQ/ringQ.c:28-225 | Packets of one length, room for K >= 2: no run overwrites, every run is FIFO, and a locked queue holds at least K - 1 packets |
| `RingQTheorems.UniformStep` | Cowshed/src/common_lib/ringQ/ringQ.c:28-126 | A push of such a packet is refused only with at least K - 1 packets queued |
| `RingQTheorems.LockedNotEmpty` | Cowshed/src/common_lib/ringQ/ringQ.c:52-66 | A locked queue of such packets is never empty, so a pop always unlocks it |
| `RingQTheorems.RefusedIsFull` | Cowshed/src/common_lib/ringQ/ringQ.c:39-66 | For any lengths: a push is refused only when the bytes queued, the new packet and one more of the longest do not fit the buffer together |
| `RingQTheorems.DiesExactly` | Cowshed/src/common_lib/ringQ/ringQ.c:39-66 | The queue comes to be locked with nothing queued exactly by pushing, onto an unlocked empty queue, a packet that fits neither behind the head nor before it |
| `RingQTheorems.DeadStaysDead` | Cowshed/src/common_lib/ringQ/ringQ.c:28-225 | Nothing unlocks such a queue, and it gives nothing |
| `RingQTheorems.HalvesNeverDie` | Cowshed/src/common_lib/ringQ/ringQ.c:39-66 | Packets of at most half the buffer never bring that about |
| `RingQTheorems.ShortNeverOverwrites` | Cowshed/src/common_lib/ringQ/ringQ.c:39-80 | A packet no longer than the oldest one queued never overwrites |
| `RingQFifo.PushKeeps` | Cowshed/src/common_lib/ringQ/ringQ.c:28-126 | A push of any length keeps the chain of headers through the buffer, patched headers and overwritten packets included: it appends to what is kept, or is refused and locks |
| `RingQFifo.KeptExactly` | Cowshed/src/common_lib/ringQ/ringQ.c:39-80 | Everything queued is kept exactly if the push does not overwrite; otherwise at least one packet is dropped |
| `RingQFifo.PopKeeps` | Cowshed/src/common_lib/ringQ/ringQ.c:165-225 | A pop returns the address of the oldest packet, whose payload stands there, and unlocks the queue; with nothing queued it changes nothing |
| `RingQFifo.RefusesWhen` | Cowshed/src/common_lib/ringQ/ringQ.c:39-66 | The exact states and lengths for which a push is refused |
| `RingQMixed.MixedRun` | Cowshed/src/common_lib/ringQ/ringQ.c:28-225 | An input: two lengths from a reset, room for four; seven packets are accepted, and the pops give the first four and then the last; the fifth and sixth are gone |
| `RingQMixed.EmptyLocks` | Cowshed/src/common_lib/ringQ/ringQ.c:39-66 | An input: push a packet, pop it, push one that is no shorter and does not fit the buffer together with it; refused with nothing queued, and locked for good |
| `RingQMixed.TooLongLocks` | Cowshed/src/common_lib/ringQ/ringQ.c:39-66 | An input: a packet longer than the buffer locks a fresh queue for good |
| `RingQSpec.HeaderRoundTrip` | Cowshed/src/common_lib/ringQ/ringQ.h:19-26 | A header comes back from the bytes copied into the buffer |
| `RingQSpec.HeaderInBytes` | Cowshed/src/common_lib/ringQ/ringQ.h:19-26 | Where each field of a header is in its twelve bytes |
| `RingQFifo.PushedHeader` | Cowshed/src/common_lib/ringQ/ringQ.c:87-120 | The header of an accepted packet: its own address, the address behind it, its length, and the message id and state of the packet before |
| `RingQ.RingQ.RingqPush` | Cowshed/src/common_lib/ringQ/ringQ.c:28-126 | The push of any length on the byte buffer, header patch included, appends to the queue, or drops its second stretch first where it overwrites, or locks it |
| `RingQ.RingQ.RingqPop` | Cowshed/src/common_lib/ringQ/ringQ.c:165-225 | The pop removes the oldest packet and unlocks the queue, or finds nothing queued |
| `RingQ.RingQ.RingqNextTail` | Cowshed/src/common_lib/ringQ/ringQ.c:143-161 | Shows the packet that the next pop will return |
| `RingQ.RingQ.RingqReset` | Cowshed/src/common_lib/ringQ/ringQ.c:235-250 | Clears the buffer and empties the queue |
| `TdmRegister.RegistrationIsSafe` | Cowshed/src/avr/lib/Sensor_TDM/TDM.c:199-309 | Over any run of configuration queries, successful, failed and repeated end reports, restarts and power cuts between the two ROM writes: the counter stays within maxNode - reserveSlot, confirmed entries are allotted, carry their index and distinct ids, never change, and come back from ROM |
| `TdmRegister.StepKeeps` | Cowshed/src/avr/lib/Sensor_TDM/TDM.c:235-309 | One event keeps the table invariant and every confirmed entry |
| `TdmRegister.RegistrationCompletes` | Cowshed/src/avr/lib/nRF24/nRF24_Server.c:201-223 | A device whose answer goes through at once is confirmed in the slot it was told; it is told none exactly when it has no entry and the slots are used up |
| `TdmRegister.EndReports` | Cowshed/src/avr/lib/nRF24/nRF24_Server.c:75-97 | A success report for opcode 225, when the slot offered last is the free one, allots that entry in RAM and ROM and moves both counters on by one; every other report, such as those for 201, 203 and 221, changes nothing |
| `TdmTentative.TwoToldTheSameSlot` | Cowshed/src/avr/lib/Sensor_TDM/TDM.c:235-309 | An input: a device asks and its answer fails, another asks and its answer goes through; both were told the same slot, and it is the second one's |
| `TdmTentative.PlaceSurvivesExactly` | Cowshed/src/avr/lib/Sensor_TDM/TDM.c:235-309 | The tentative place of a device survives a query or an end report exactly if that is not the query of another device without a confirmed slot |
| `TdmTentative.ToldIsConfirmedExactly` | Cowshed/src/avr/lib/nRF24/nRF24_Server.c:75-97 | Over any queries and end reports up to the one that confirms the slot: it is confirmed for the device that was told it exactly if no other device without a slot asked after that device's last query |
| `TdmTentative.HolderStep` | Cowshed/src/avr/lib/Sensor_TDM/TDM.c:199-309 | Who stands in the unconfirmed entry after any event, restarts and power cuts included |
| `TdmTentative.LoserIsToldExactly` | Cowshed/src/avr/lib/nRF24/nRF24_Server.c:159-193 | A device hears from its ping that its configuration has changed exactly if neither the slot it names nor the current one is its own |
| `TdmRegister.RepeatedEndIsIdle` | Cowshed/src/avr/lib/nRF24/nRF24_Server.c:75-97 | A repeated success report confirms nothing further |
| `TdmClock.ClockShowsUnixTime` | Cowshed/src/avr/lib/Sensor_TDM/TDM.c:126-168 | From power-on the clock is off until the first slot boundary, and from then on second and slot are the closed form of unix time |
| `TdmClock.SyncsWithinInterval` | Cowshed/src/avr/lib/Sensor_TDM/TDM.c:118-168 | It is synced after at most one interval of ticks |
| `TdmClock.SyncedTicks` | Cowshed/src/avr/lib/Sensor_TDM/TDM.c:126-168 | n ticks of a synced clock advance its cycle by n modulo the slots, for uneven plans too |
| `TdmClock.ShowsUnixTimeExactlyWhenEven` | Cowshed/src/avr/lib/Sensor_TDM/TDM.c:56-81 | The synced clock always shows unix time if and only if maxNode divides momentDuration |
| `Tdma.WindowStartIsNext` | Cowshed/src/avr/Timers.cpp:306-328 | The computed start is the first second after now at which the slot begins |
| `Tdma.WindowStartCut` | Cowshed/src/avr/Timers.cpp:306-328 | At the end of 32-bit time: what is computed is that second modulo 2^32, right exactly if it still fits |
| `Tdma.SlotBeginsWithWindow` | Cowshed/src/avr/Timers.cpp:306-328 | The station sees a slot begin exactly when the window computed by the devices of that slot begins |
| `Tdma.WindowIsSlot` | Cowshed/src/avr/Timers.cpp:306-328 | Throughout the half-open window the slot of unix time is the device's |
| `Tdma.WindowsAreDisjoint` | Cowshed/src/avr/Timers.cpp:306-328 | Windows of different slots, computed at any two times, never meet |
| `Tdma.InclusiveTestOverrunsByOne` | Cowshed/src/avr/All.cpp:219 | The inclusive test of the send loop lets in exactly one second that belongs to the next slot |
| `Tdma.PongMatchesWindow` | Cowshed/src/avr/lib/nRF24/nRF24_Server.c:159-193 | Device register, slot clock and device arithmetic together: during a confirmed device's window the synced station answers isMySlot to that device and to no other, and tells no confirmed device that its configuration changed |
| `Tdm.Tdm.TdmReset` | Cowshed/src/avr/lib/Sensor_TDM/TDM.c:99-113 | Empties every entry of the table in RAM and ROM, sets both counters to 0 and establishes the table invariant |
| `Tdm.Tdm.TdmSync` | Cowshed/src/avr/lib/Sensor_TDM/TDM.c:118-123 | True exactly if one of the slots begins at this second, when the slots fill the moment |
| `Tdm.Tdm.TdmUpdateSlot` | Cowshed/src/avr/lib/Sensor_TDM/TDM.c:126-168 | One timer tick is one step of the clock |
| `Tdm.Tdm.TdmIsRegistered` | Cowshed/src/avr/lib/Sensor_TDM/TDM.c:199-211 | The search loop returns the slot number of the first entry of the device, 255 if there is none |
| `Tdm.Tdm.TdmGetFreeSlot` | Cowshed/src/avr/lib/Sensor_TDM/TDM.c:235-275 | Keeps a known device's slot, else writes a tentative entry in the first free slot, else answers 255 |
| `Tdm.Tdm.TdmConfirmSlot` | Cowshed/src/avr/lib/Sensor_TDM/TDM.c:278-309 | Confirms, in RAM and ROM, exactly the slot that is next to be confirmed |
| `Tdm.Server.NrfServerConfigResolver` | Cowshed/src/avr/lib/nRF24/nRF24_Server.c:201-223 | Remembers the slot it offers and answers with it |
| `Tdm.Server.NrfQryServerEnd` | Cowshed/src/avr/lib/nRF24/nRF24_Server.c:75-97 | A success report for opcode 225 with the offered slot the free one allots that entry in RAM and ROM and moves both counters on; a failure, another opcode, 201, 203 and 221 among them, or another slot changes nothing |
| `Tdm.Server.PongHandler` | Cowshed/src/avr/lib/nRF24/nRF24_Server.c:143-198 | isMySlot exactly to the device of the current node, isConfigChanged exactly to another device that is not in the entry it names; for an unsynced clock or a number outside the table the ids are whatever is found there |
| `Calendar.JoinSplit` | Cowshed/src/avr/lib/Time/Time.cpp:151-202 | Splitting a day number into year, month and day by repeated subtraction gives a real date with that number, under either leap rule |
| `Calendar.SplitJoin` | Cowshed/src/avr/lib/Time/Time.cpp:204-233 | And every real date comes back from its number |
| `Calendar.SplitFollowsCalendar` | Cowshed/src/avr/lib/Time/Time.cpp:151-202 | Day 0 is the first of January of the epoch and each next number is the next date as a calendar prints it |
| `Rtclib.UnixRoundTrip` | Cowshed/src/lib/RTClib/RTClib.cpp:182-207 | unixtime of DateTime(t) is t for every 32-bit t, not only up to 2099 |
| `Rtclib.FieldsRoundTrip` | Cowshed/src/lib/RTClib/RTClib.cpp:589-596 | Every real date and time of 2000 to 2099 comes back from its unixtime |
| `Rtclib.IsValidExactly` | Cowshed/src/lib/RTClib/RTClib.cpp:407-413 | The validity test passes exactly on real Gregorian dates and times of 2000 to 2099, for all fields with month at most 12 |
| `Rtclib.LessIsEarlier` | Cowshed/src/lib/RTClib/RTClib.cpp:668-679 | On valid values operator< is the order of unixtime |
| `Rtclib.DaysAreJoin` | Cowshed/src/lib/RTClib/RTClib.cpp:128-137 | The closed day formula is the day number of the calendar, without 16-bit overflow, up to 2136 |
| `Rtclib.FromUnix` | Cowshed/src/lib/RTClib/RTClib.cpp:182-207 | The constructor's loops find the date of the day number and the time of day |
| `Rtclib.Date2Days` | Cowshed/src/lib/RTClib/RTClib.cpp:128-137 | The loop over months computes the closed day formula in 16 bits |
| `Rtclib.IsValid` | Cowshed/src/lib/RTClib/RTClib.cpp:407-413 | True exactly on real dates and times of 2000 to 2099 |
| `TimeLib.MakeOfBreak` | Cowshed/src/avr/lib/Time/Time.cpp:151-233 | makeTime of breakTime is the identity on every 32-bit time |
| `TimeLib.BreakOfMake` | Cowshed/src/avr/lib/Time/Time.cpp:151-233 | breakTime of makeTime gives back real elements in range exactly when their weekday is the right one, and always corrects it |
| `TimeLib.BreakTime` | Cowshed/src/avr/lib/Time/Time.cpp:151-202 | The loops find the Gregorian date, the time of day and the weekday |
| `TimeLib.MakeTime` | Cowshed/src/avr/lib/Time/Time.cpp:204-233 | The loops add up the seconds of the elements in 32 bits |
| `CalendarAgreement.ConvertersAgreeExactly` | Cowshed/src/lib/RTClib/RTClib.cpp:182-207 | From 2000 on the two converters show the same date and time for t exactly when t is before 1 March 2100 (4107542400) |
| `CalendarAgreement.DatesAgreeExactly` | Cowshed/src/avr/lib/Time/Time.cpp:151-202 | The same for their dates: they part on the day that only the every-fourth-year rule has |
| `CalendarAgreement.WeekdaysAgree` | Cowshed/src/lib/RTClib/RTClib.cpp:574-577 | Their weekdays agree, with the different numbering of Sunday |
| `KnownDates.GregorianInClosedForm` | Cowshed/src/avr/lib/Time/Time.cpp:151-202 | The days between any two years by the numbers of years that are multiples of 4, 100 and 400 |
| `KnownDates.StartOfMonth` | Cowshed/src/avr/lib/Time/Time.cpp:151-202 | The days before each month, from 0 for January to 334 for December, one more after February of a leap year |
| `KnownDates.WeekdaysFollow` | Cowshed/src/avr/lib/Time/Time.cpp:151-202 | Time 0 is a Thursday and each day has the weekday after the one before |
| `KnownDates.SecondsWrap` | Cowshed/src/lib/RTClib/RTClib.cpp:182-207 | Both conversions to seconds are the count of seconds modulo 2^32, and the constructor takes times before 2000 for times after 2^32 |
| `KnownDates.MonthZeroIsJanuary` | Cowshed/src/avr/lib/Time/Time.cpp:204-233 | A month of 0 counts as January in both sums |
| `KnownDates.LeapDayOf2000` | Cowshed/src/lib/RTClib/RTClib.cpp:182-207 | 951827696 is Tuesday 29 February 2000, 12:34:56, for both converters |
| `RtcMillis.NeverDrifts` | Cowshed/src/lib/RTClib/RTClib.cpp:1001-1006 | Over any run of calls that come often enough, with any number of counter rollovers, the clock has advanced by floor(total milliseconds / 1000) |
| `RtcMillis.CallIsExact` | Cowshed/src/lib/RTClib/RTClib.cpp:1001-1006 | A call is exact if and only if less than 2^32 ms have passed since the last full second counted |
| `RtcMillis.RightExactlyWhenOftenEnough` | Cowshed/src/lib/RTClib/RTClib.cpp:988-1006 | A run of gaps below 2^32 ms is right at every call if and only if every call comes within 2^32 ms of the last full second |
| `RtcMillis.BoundInMilliseconds` | Cowshed/src/lib/RTClib/RTClib.cpp:993-1006 | The bound in milliseconds: half a second after the last full one a gap of 4294966795 is in time and one of 4294966796 is not |
| `RtcMillis.GapsBelowRolloverAreNotEnough` | Cowshed/src/lib/RTClib/RTClib.cpp:993-1000 | Gaps below 2^32 ms alone do not suffice: 999 ms and 2^32 - 1 ms lose a whole round |
| `RtcMillis.RtcMillis.Now` | Cowshed/src/lib/RTClib/RTClib.cpp:1001-1006 | One call updates both counters by the whole seconds seen |
| `RtcMillis.RtcMillis.Adjust` | Cowshed/src/lib/RTClib/RTClib.cpp:988-991 | Setting the clock starts an exact run |
| `Crc8.CorruptionUnnoticedExactly` | Cowshed/src/avr/lib/SHT21-Arduino-Library/SHT21.cpp:224-238 | For every message length, a corruption of data and checksum goes unnoticed if and only if the flipped bits are themselves a valid message |
| `Crc8.KnownChecksum` | Cowshed/src/avr/lib/SHT21-Arduino-Library/SHT21.cpp:224-238 | The checksum of the two bytes 0x683A is 0x7C |
| `Crc8.CrcKeepsParity` | Cowshed/src/avr/lib/SHT21-Arduino-Library/SHT21.cpp:224-238 | The parity of the CRC is the parity of all data bits, for every length |
| `Crc8.OddFlipsRejected` | Cowshed/src/avr/lib/SHT21-Arduino-Library/SHT21.cpp:224-238 | Every corruption that flips an odd number of bits is rejected |
| `Crc8.BurstsRejected` | Cowshed/src/avr/lib/SHT21-Arduino-Library/SHT21.cpp:224-238 | Every burst of at most eight bits, anywhere in data and checksum, is rejected, for every length |
| `CrcDistance.FindsFewFlipsExactly` | Cowshed/src/avr/lib/SHT21-Arduino-Library/SHT21.cpp:224-238 | One, two or three flipped bits in data and checksum are found in every message of n bytes if and only if n is at most 14 |
| `CrcDistance.TwoFlipsMissed` | Cowshed/src/avr/lib/SHT21-Arduino-Library/SHT21.cpp:224-238 | An input for every longer message: the highest bit of a byte and the lowest bit 15 bytes later go unnoticed |
| `CrcDistance.Orbit` | Cowshed/src/avr/lib/SHT21-Arduino-Library/SHT21.cpp:229-235 | The register, running freely from a single bit, has period 127 |
| `Crc8.CrcChecksum` | Cowshed/src/avr/lib/SHT21-Arduino-Library/SHT21.cpp:224-238 | The nested loops return 1 exactly on messages that are not valid |
| `Majority.MajorityElement` | Cowshed/src/avr/utility.cpp:91-131 | Returns the value that more than half of the entries have, for up to 127 entries, and 0 when there is none |
| `Majority.AtMostOne` | Cowshed/src/avr/utility.cpp:91-131 | There is at most one such value |

## Left out

- memq: packet length divides blob size, blob size is a power of two for the reset loop, and the region ends below 2^32 with one blob to spare; other configurations are not modelled.
- memq: power loss inside an operation is modelled only between the erase of a read and its pointer write; a page program cut short is not, and erase and program commands that the device refuses are not followed into the queue.
- MemqLife.AtLeastOnce: restarts from records that do not resume are not part of a life, since packets are lost or mixed behind them; what every later run does is in `RestartIsMixedFifo` for records with an old head, and in `DrainedReadsBlank` and `FullOverruns` for those marked running with head and tail together.
- XferReboot.AtLeastOnceDelivery: the same records.
- memq: the BOARD_MEGA1284_V010 branch, the commented-out head scan, bus locking and log printing.
- MemqRecord.StartupReadsLastRecord: from a reset on; the queue's state machine itself keeps the record as a value, and the record layout is that of a 16-bit enumeration.
- RingEeprom.RingEeprom.ReadPacket: what a read behind the end of the EEPROM gives is a parameter.
- RingEepromTheorems.AtomicExactly: byte writes are atomic and all cells take their values; failing cells are treated in `RingEeprom`.
- RingEEPROM: areas of 255 slots, where the status pointer wraps, and address arithmetic beyond 15 bits.
- ringQ: packets of 65524 bytes or more, whose length with the header wraps in 16 bits, and buffers too short for a header.
- ringQ: pointers are 32 bits wide, so a packed header has 12 bytes; the pointer width of other targets is not modelled.
- XferTheorems.InOrderDelivery: maxTry is fixed during a run and memory is not lost; reboots are in `XferReboot`. Good packets are those of the code's own filter; how that differs from the packets intended is in `XferLogs`.
- xfer: what the receiver makes of repeated transmissions, the STAND_ALONE branch, the second and third versions of the loop, time measurements and prints.
- TdmRegister.RegistrationIsSafe: the slot table and counter; the byte layout of the ROM image and the lost-slot bits are not modelled.
- Tdm.Server.PongHandler: the slot ping only; the other opcodes leave the fields unset. What is found behind a null pointer or the table is a parameter.
- Tdma.WindowsAreDisjoint: for plans whose slots fill the moment and times more than two moments before the 32-bit end.
- nRF24: registers, interrupts, addresses, pipes and checksums of the radio messages; a transmission succeeds or fails as a parameter.
- Rtclib.IsValidExactly: months above 12 index outside the library's table and are not modelled.
- TimeLib.MakeTime: months above 12 likewise; cached conversions, timers and synchronisation of the Time library are left out.
- RTC_Micros, hardware clocks, timestamps and parsing in RTClib.
- Majority.MajorityElement: a vote for 0 cannot be told from no majority, as in the original; more than 127 entries overflow its counters.
- ramQ, task scheduler, shift register, BCD helpers: each a simpler version of something modelled here.
- Wi-Fi, GSM, MQTT, HTTP, JSON, menus, gas sensor and temperature conversions: plumbing over unseen libraries, or floating point.
