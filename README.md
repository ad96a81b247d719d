# eGRIM status-packet generator, modelled in Dafny

eGRIM synthesises status packets and streams them over UDP to an FPGA
device. This project models the two sequential parts of its
core and proves properties about them.

- **The status packet** (`Packet.h`, `Packet.cpp`) is a record of nineteen
  fixed-width fields. It has an antenna-position model: the position
  advances by a whole number of angle-steps per period and wraps at one
  revolution of 2^18 steps. `convert` packs the fields into six 32-bit
  words by shifting each field and *adding* it into its word.
- **The generator pipeline** (`SampleGenerator.h`, `SampleGenerator.cpp`)
  has two loops. The generation loop advances a sample and pushes copies of
  it onto a bounded FIFO queue. The transmission loop pops a packet,
  converts it and sends its first five words (20 bytes). `init` raises the
  shared flag that gates both loops. `uninit` lowers it and drains the
  queue.

Files:

- `uint.dfy`, module `Uint`: `uint8_t`, `uint16_t` and `uint32_t` as
  integer ranges. The modulo-2^32 wrap-around is written out, together with
  the modular-arithmetic facts used elsewhere.
- `packet_layout.dfy`, module `PacketLayout`: the rotation constants, the
  `Packet` datatype, and the documented field widths and word-4 bit offsets.
- `packet_codec.dfy`, module `PacketCodec`: the constructor, including the
  as-written version with its PRI bug, and `setAntPos` and `updateAntPos`.
  It also holds the pure encoding `Encode`, the array-filling method
  `Convert` proved equal to it, and a field decoder `Decode`, which is
  `Encode`'s partner for the round trip.
- `sample_generator.dfy`, module `Generator`: the class `SampleGenerator`.
  Each of `Init`, `GenerateStep` (one iteration of the generation loop),
  `TransmitStep` (one iteration of the transmission loop) and `Uninit` is
  an atomic step. Any interleaving of steps is a run of the two-thread
  program, because:
  - there is one producer and one consumer;
  - each push and each pop happens under the queue mutex;
  - the test a loop makes before acting ("not full", "not empty") cannot be
    undone by the other thread.

The class keeps ghost histories:

- every packet pushed;
- every packet removed from the queue, in order;
- for each removed packet, whether it was sent, failed to send, or was
  drained by `uninit`.

Its invariant ties the queue, the sent log and the sample to those
histories.

The result of `sendto` is a boolean parameter of `TransmitStep`. A
successful send appends the five words to the log `sent`.

The generation thread's `Packet smpl` is built by the constructor as
written, so its PRI select is whatever byte its storage held. That byte is
the parameter `pri` of `Init`, and every packet of the run carries it into
word 4. With a byte of 0 the run is the one the corrected constructor
would give.

The queue bound follows the code. The generation loop pushes whenever
`size() > queue_len - 1` is false, with the subtraction in `uint32_t`, so
the queue may reach `queue_len` packets, not `queue_len - 1`. For
`queue_len = 0` the test wraps to 2^32 - 1 and bounds nothing in practice.
The model's `Capacity` covers both cases, so `Init` takes any `queue_len`.

## Model

| member | source | states |
|---|---|---|
| PacketLayout.RotationConstantsAgree | Packet.h:4-5 | ROTATION_FULL is 2^18 and divides 2^32; ROTATION_STEP * ROTATION_FULL is exactly 360 degrees, i.e. ROTATION_STEP = 360 / 2^18 |
| PacketLayout.FitsWidthsIsWord4Widths | Packet.h:68-102 | the width predicate holds exactly when every word-4 flag is below 2^(its documented width) |
| PacketLayout.Word4OffsetsFollowWidths | Packet.cpp:89-99 | the shift offsets 1,2,3,4,6,9,12,14,16,18,19 are the documented widths laid end to end from bit 1, with a single unused bit before mode-M select, ending at bit 20 |
| PacketCodec.Construct | Packet.cpp:7-34 | the corrected constructor: every field holds the argument of the same position, PRI select included |
| PacketCodec.ConstructFromFields | Packet.cpp:7-34 | the corrected constructor stores every argument in its own field: building a packet from any packet's fields gives that packet back |
| PacketCodec.ConstructAsWritten | Packet.cpp:28 | as written, PRI select takes the stale value of its own storage and the PRI argument is ignored; every other field equals its argument |
| PacketCodec.ConstructAsWrittenDropsPri | Packet.cpp:28 | a PRI select of 1 passed to the constructor as written does not come out as 1 |
| PacketCodec.DefaultPacket | Packet.h:20-25 | the default constructor `Packet()` runs the constructor body as written with every argument 0: every field is 0 except PRI select, which holds the stale byte of its storage; with a stale byte of 0 it is the corrected constructor's default packet |
| PacketCodec.StalePriInWord4 | Packet.cpp:89-99 | the stale PRI byte of a default packet reaches word 4 as that byte times 2^14 and nothing else; when its bit 1 is set, the unused bit 15 is set |
| PacketCodec.StalePriOverflows | Packet.cpp:28 | a default packet fits the documented widths exactly when its stale PRI byte is 0 or 1; a byte of 4 is read back as mode-M select 1 |
| PacketCodec.DefaultPacketLength | Packet.h:56 | whatever its stale PRI byte, a default packet declares a length different from the documented 6 words, and its position is 0 |
| PacketCodec.SetAntPos | Packet.cpp:41-44 | only the antenna position changes, to its old value mod 2^18 |
| PacketCodec.SetAntPosProperties | Packet.cpp:41-44 | setAntPos ignores its argument, is idempotent, and leaves the packet unchanged exactly when the position is already below 2^18 |
| PacketCodec.UpdateAntPos | Packet.cpp:54-60 | the new position is (pos + delta) mod 2^18, although the code adds modulo 2^32 first; it is below 2^18; no other field changes |
| Uint.Wrap32Mod18 | Packet.cpp:58-59 | a uint32 wrap followed by reduction mod 2^18 equals plain reduction mod 2^18 |
| PacketCodec.StepCount | Packet.cpp:58 | the step count is the whole part of period * rate / ROTATION_STEP, when that value is castable to uint32 |
| PacketCodec.FullRevolution | Packet.cpp:58-59 | 360 degrees per second over a 1 s period is exactly 2^18 steps, and advancing by it returns the antenna to its wrapped start |
| PacketCodec.NoRotationNoSteps | Packet.cpp:58 | a rotation rate of 0 gives a step count of 0 for any period |
| PacketCodec.UpdateAntPosComposes | Packet.cpp:58-59 | advancing by d1 then d2 equals one advance by the uint32 sum d1 + d2, and the position is (pos + d1 + d2) mod 2^18 |
| PacketCodec.IterateOnlyMovesPosition | Packet.cpp:54-60 | any number of advances changes no field but the antenna position |
| PacketCodec.IteratePosition | Packet.cpp:58-59 | from a wrapped start, n advances by delta leave the position at (start + n * delta) mod 2^18 |
| PacketCodec.IterateIsOneAdvance | Packet.cpp:58-59 | n advances by delta equal a single advance by the uint32 product n * delta |
| PacketCodec.Encode | Packet.cpp:83-86 | the encoding has six words, and words 2 and 3 are the IRIG time and the antenna position unchanged |
| PacketCodec.Word4SumPlacesFlags | Packet.cpp:89-99 | word 4 before the 32-bit reduction is the sum of each flag times 2 to the power of its entry in the documented offset table |
| PacketCodec.Word4IgnoresPosition | Packet.cpp:86-99 | word 4 is built from the flags alone: moving the antenna leaves it unchanged |
| PacketCodec.AddInto | Packet.cpp:75-103 | `arr[i] += x << k` makes the element (old + x * 2^k) mod 2^32, exactly old + x * 2^k when that fits, and touches no other element |
| PacketCodec.AddWord4Flags | Packet.cpp:89-99 | the eleven word-4 additions into a zeroed word produce the encoding's word 4 and touch no other element |
| PacketCodec.Convert | Packet.cpp:67-104 | after the zero-fill loop and the additions, the first six elements are exactly the packet's encoding; elements beyond the sixth are unchanged |
| PacketCodec.PairedWords | Packet.cpp:74-103 | word 0 is system id + mode setting * 2^16 and word 5 is MGC voltage + adjustable range scale * 2^8, which is below 2^16 |
| PacketCodec.PacketNumberTopBitsDropped | Packet.cpp:79-80 | word 1 keeps only the low 24 bits of the packet number: clearing its top 8 bits leaves the encoding unchanged |
| PacketCodec.Word4Fields | Packet.cpp:89-99 | within the documented widths, word 4 has bit 0, bit 15 and every bit from 20 upwards clear, and shifting and masking recovers each flag |
| PacketCodec.Decode | Packet.h:50-109 | the decoder reads back each field from its documented bit range, and its result always fits the documented widths |
| PacketCodec.DecodeEncode | Packet.cpp:67-104 | within the documented widths, decoding the six words gives back the packet exactly |
| PacketCodec.EncodeInjective | Packet.cpp:67-104 | within the documented widths, two packets have the same words exactly when they are equal |
| PacketCodec.OverwideFlagCollides | Packet.cpp:89-90 | because fields are placed by addition, a transmitter flag of 2 carries into the phasing bit: two different packets then encode alike |
| Generator.Payload | SampleGenerator.cpp:199 | `sendto` is given 20 bytes: five words |
| Generator.PayloadOmitsWord5 | SampleGenerator.cpp:199 | the 20 bytes sent omit word 5: within the widths, two packets send the same words exactly when they differ at most in MGC voltage and adjustable range scale |
| Generator.ConvertForSend | SampleGenerator.cpp:184-199 | converting into a fresh six-word buffer and taking its first five words gives the packet's payload |
| Generator.QueueFullAtCapacity | SampleGenerator.cpp:139 | the back-off test `size() > queue_len - 1` in uint32 holds exactly when the queue holds Capacity packets or more, where Capacity is queue_len for queue_len >= 1 and 2^32 for 0 |
| Generator.Delivered | SampleGenerator.cpp:191-202 | the delivered packets are no more than the removed ones, and each of them is a removed packet |
| Generator.DeliveredAllSent | SampleGenerator.cpp:191-199 | when every removal was a successful send, the delivered packets are all the removed packets, in removal order |
| Generator.DrainedDeliversNothing | SampleGenerator.cpp:107-109 | packets drained by `uninit` add nothing to the delivered sequence |
| Generator.RunPositionsOf | SampleGenerator.cpp:129-147 | the k-th packet of a run (from 1) is the run's initial `Packet smpl`, stale PRI byte included, at position (k * delta) mod 2^18 |
| Generator.RunWord4 | SampleGenerator.cpp:129-153 | every packet of a run sends the initial sample's stale PRI byte on the wire: word 4 of its payload is that byte times 2^14 |
| Generator.StationaryRun | SampleGenerator.cpp:147 | with a step count of 0 every packet of a run equals the initial sample, stale PRI byte included |
| Generator.SampleGenerator.constructor | SampleGenerator.cpp:9-11 | a new generator is inactive with an empty queue, nothing sent and empty histories |
| Generator.SampleGenerator.Init | SampleGenerator.cpp:69-80 | raises the flag, records queue_len and the step count, starts the sample as a default packet holding the given stale PRI byte (after setAntPos, which leaves it unchanged), and leaves the queue and the sent log unchanged |
| Generator.SampleGenerator.GenerateStep | SampleGenerator.cpp:135-157 | stopped or full: nothing changes; otherwise the sample advances by delta and one copy of it is appended at the back of the queue, with earlier elements unchanged; the invariant (bound, FIFO, run positions) is kept |
| Generator.SampleGenerator.TransmitStep | SampleGenerator.cpp:173-212 | stopped or empty: nothing changes; otherwise exactly the front packet is removed, and on a successful send its five-word payload is appended to the sent log; a failed send loses the packet without requeueing it; the invariant is kept |
| Generator.SampleGenerator.Uninit | SampleGenerator.cpp:87-114 | lowers the flag and empties the queue; the drained packets join the removed history as drained, and the sent log, the sample and the push history are unchanged |
| Generator.SampleGenerator.PopAll | SampleGenerator.cpp:107-109 | the drain loop pops the queue until it is empty; the popped packets join the removed history in queue order, each recorded as drained |
| Generator.SampleGenerator.QueueBounded | SampleGenerator.cpp:139-153 | with queue_len >= 1 the queue never holds more than queue_len packets |
| Generator.SampleGenerator.RunPositions | SampleGenerator.cpp:129-153 | the k-th packet pushed since `init` has position (k * delta) mod 2^18 and is otherwise the run's initial default packet with its stale PRI byte, so the packet number never advances |
| Generator.SampleGenerator.SentInPushOrder | SampleGenerator.h:72-73 | when no send has failed and nothing was drained, the sent log is the payloads of the oldest pushes, in push order |

## Left out

- Threads, the mutex, the atomic flag and the sleeps are not modelled. The loops are atomic steps in any interleaving; timing, cadence and shutdown latency are not captured.
- The socket is not modelled: creation, options, address and closing. `sendto` becomes the boolean `sendOk`, and a failed `sendto` only loses the packet.
- The constructor's and destructor's process exits (`system("pause")`, `exit`) are not modelled.
- The byte order of the 20 bytes sent is not modelled; the payload is five words.
- `new`/`free` of the sample and buffer in the transmission loop are not modelled beyond the fresh six-word array passed to `Convert`.
- The GUI in `eGRIM_GUI.cpp` is not part of this model. Its range checks only explain why `QueueBounded` assumes queue_len >= 1.
- StepCount: double arithmetic is replaced by exact reals, so rounding in `clkrate * rotrate / ROTATION_STEP` is not modelled. The cast to `uint32_t` is required to be in range, since an out-of-range cast is undefined in C++. `Init` takes the resulting step count as an integer.
- Convert: `mode_setting << 16` is computed on a promoted signed `int` in C++, which overflows for values of 0x8000 and above. The model takes the mathematically intended value modulo 2^32.
- `setAntPos` and `updateAntPos` update a field in place; they are modelled as functions on `Packet` values. The queue stores copies, and the generator's sample is a field reassigned with the updated value, so no aliasing is lost.
- ConstructAsWritten: the indeterminate value that the self-assignment of PRI select leaves is a parameter, since C++ gives it no defined value. The same holds for `DefaultPacket`, and `Init` takes the stale byte of the generation thread's `Packet smpl` as its parameter `pri`.
- In `generate`, `setAntPos` is called with the rotation rate instead of the start angle. The argument is never read, so this makes no difference and is not singled out.

## Findings

| source | as written | input that shows it | evidently intended | confidence | as-written member | corrected member |
|---|---|---|---|---|---|---|
| Packet.cpp:28 | `PRI_select = PRI_select;` assigns the field to itself, so the `PRI` argument is never stored | `Packet(0,0,0,0,0,0,0,0,0,0,0,0,0, PRI = 1, ...)` on storage whose PRI select held 0 gives PRI select 0; the generator's `Packet smpl` on storage holding 4 sends word 4 = 0x1_0000, which reads as mode-M select 1 (`StalePriOverflows`, `RunWord4`) | `PRI_select = PRI;`, so every argument lands in its field | not executed | PacketCodec.ConstructAsWritten | PacketCodec.Construct |
