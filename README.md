# DHT11 single-wire driver, modelled in Dafny

This project models the protocol engine of a Raspberry Pi driver for the DHT11
temperature and humidity sensor (`src/dht11.rs`). The driver owns one GPIO pin.
For each reading it does the following:

1. It sends the start signal with the pin as an output.
2. It switches the pin to an input.
3. It measures the width of every high phase the sensor produces.
4. It discards the first high phase, because that phase is the sensor's acknowledgement.
5. It skips phases of 80 µs or more.
6. It reads a phase over 30 µs as a 1 and any other phase as a 0.
7. It stops when 40 bits are stored, or returns nothing as soon as one wait for a level change runs past 100 ms.
8. It packs bits 0–31, most-significant bit first, into humidity-integer, humidity-decimal, temperature-integer and temperature-decimal.

`get_reading` repeats attempts, sleeping 500 ms before each retry, until one succeeds.

The GPIO pin and the clock are replaced by a finite sequence of events. Each event stands for one pass of the sampling loop: `LowTimeout` (the line stayed low for more than 100 ms), `HighTimeout` (it stayed high for more than 100 ms) or `Pulse(widthMicros)` (a high phase of that width). The high-wait gives up once its elapsed whole milliseconds exceed 100. So a `Pulse` of 101 000 µs or more is treated as a timeout (`Pulses.TimesOut`): the attempt returns `None`, exactly as for `HighTimeout`. If the events run out before the loop ends, the attempt counts as a failure (`None`). No precondition excludes this case.

Files and modules:

- `options.dfy`, module `Options`: `Option` and `FirstSome`, the index of the first present value.
- `bytes.dfy`, module `Bytes`: the `u8` newtype (arithmetic out of range is a verification error), bit strings read most-significant bit first, Rust's truncating `<<` on `u8`, and `PackByte`, the `+=` packing loop.
- `pulses.dfy`, module `Pulses`: the event type, the 30 µs / 80 µs thresholds, the sampler as a function (`Run`, `Sample`), an independent closed-form description of its outcome (`DataBits`, `FirstForty`) and the lemmas about it.
- `decoding.dfy`, module `Decoding`: the four-byte `Frame` and the `Reading` in tenths. `ReadPulseTrain` is the sampling loop of `read_data` over a 40-slot array filled in place, followed by the packing.
- `driver.dfy`, module `Driver`: the `Dht11` class with its pin mode and a ghost trace of its actions, the start signal, `ReadData`, `GetReading`, and the output/input discipline stated over traces.

`Driver.HANDSHAKE` is the sequence of src/dht11.rs:145-165: switch to output, drive high, sleep 30 ms, drive low, sleep 20 ms, drive high, sleep 40 µs.

## Model

| member | source | states |
|---|---|---|
| `Bytes.PackByte` | src/dht11.rs:120-134 | the eight-round `acc += data[start + i] << (7 - i)` loop never overflows its `u8` accumulator and ends with the byte whose bits, most-significant first, are `data[start .. start + 8]` |
| `Bytes.PackStep` | src/dht11.rs:120-134 | after round `i` the accumulator is the value of the first `i + 1` bits shifted into place, and it stays below 256 |
| `Bytes.ShiftLeftBit` | src/dht11.rs:121 | shifting a 0 or a 1 left by at most 7 places on a `u8` loses no bit: the result is the bit times 2^s |
| `Bytes.ValueBound` | src/dht11.rs:120-134 | a string of `n` bits denotes a number below 2^n, so eight packed bits always fit in a byte |
| `Bytes.ByteOfByteBits` | src/dht11.rs:120-134 | packing the eight bits of any byte value gives that value back |
| `Bytes.ByteBitsOfByte` | src/dht11.rs:120-134 | unpacking the byte packed from eight bits gives those bits back, so packing is a bijection |
| `Bytes.ValueOfBits` | src/dht11.rs:120-134 | reading back the `n` bits of a value below 2^n gives the value |
| `Bytes.BitsOfValue` | src/dht11.rs:120-134 | writing out the value of a bit string gives the bit string |
| `Pulses.Classify` | src/dht11.rs:103-108 | a pulse under 80 µs stores a bit; the bit is 1 exactly when the pulse is over 30 µs, so a 30 µs pulse stores 0 |
| `Pulses.Run` | src/dht11.rs:73-112 | when the sampling loop succeeds it holds exactly 40 entries, each 0 or 1, and the entries already stored are never overwritten |
| `Pulses.Sample` | src/dht11.rs:61-113 | a successful attempt yields exactly 40 bits, each 0 or 1 |
| `Pulses.RunClosedForm` | src/dht11.rs:73-112 | after the acknowledgement, the loop yields the first 40 of the stored bits plus the bits of the pulses under 80 µs that precede the first timeout, or None if there are fewer than 40 |
| `Pulses.SampleCharacterized` | src/dht11.rs:73-112 | an attempt succeeds exactly when 40 pulses under 80 µs arrive after the first pulse and before any timeout, and then returns their classifications, the first 40 in arrival order |
| `Pulses.SampleBitsAreAcceptedPulses` | src/dht11.rs:103-110 | on success, `data[k]` is the classification of the `k`-th accepted pulse after the acknowledgement |
| `Pulses.AcknowledgementDiscarded` | src/dht11.rs:97-101 | the first completed high phase is discarded whatever its width, among widths the high-wait sees end (under 101 ms) |
| `Pulses.RunInsertLongPulse` | src/dht11.rs:103-111 | once the acknowledgement is seen, inserting a completed pulse of at least 80 µs and under 101 ms anywhere leaves the loop's outcome unchanged |
| `Pulses.LongPulseIgnored` | src/dht11.rs:103-111 | a completed pulse of at least 80 µs and under 101 ms after the acknowledgement neither stores a bit nor advances the counter, so the attempt ends as if it had not happened |
| `Pulses.RunPrefixComplete` | src/dht11.rs:73 | once the loop has stored 40 bits, further events do not change its result |
| `Pulses.CompletedAttemptIgnoresRest` | src/dht11.rs:73 | an attempt that completes on a prefix of the events never looks at the rest, timeouts included |
| `Pulses.CleanPrefixCut` | src/dht11.rs:75-91 | the events before the first timeout are the same whether or not the events after a later timeout are present |
| `Pulses.OverlongHighPhaseAborts` | src/dht11.rs:85-91 | a high phase of 101 ms or more, met before 40 bits are stored, makes the attempt return None, wherever it falls (acknowledgement or data) |
| `Pulses.TimeoutAborts` | src/dht11.rs:75-91 | nothing after a timeout is looked at; unless 40 bits were stored before it, the attempt returns None and no reading is built from the partly filled buffer |
| `Pulses.AcceptedEncodeBits` | src/dht11.rs:103-108 | the sensor's nominal 27 µs and 70 µs pulses classify back to the bits they encode |
| `Pulses.CleanPrefixOfPulses` | src/dht11.rs:75-91 | a sequence with no timeout is its own timeout-free prefix |
| `Pulses.SampleEncodeBits` | src/dht11.rs:61-113 | any acknowledgement under 101 ms followed by 40 bits sent at nominal widths is sampled as exactly those bits |
| `Decoding.ReadingOf` | src/dht11.rs:136-137 | humidity and temperature in tenths, divided by 10, equal `int + dec / 10` exactly as real numbers, and each is at most 2805 tenths |
| `Decoding.FrameOfFrameBits` | src/dht11.rs:115-134 | packing the 32 bits of a frame, followed by any checksum byte, gives the frame back |
| `Decoding.FrameBitsOfFrame` | src/dht11.rs:115-134 | the packed frame holds exactly bits 0–31, in order |
| `Decoding.FrameIgnoresChecksum` | src/dht11.rs:115-137 | two 40-bit buffers pack to the same frame exactly when bits 0–31 agree, so bits 32–39 (the checksum byte) never matter |
| `Decoding.ExampleFrame` | src/dht11.rs:136-137 | bytes 69, 0, 23, 5 give humidity 690 tenths and temperature 235 tenths |
| `Decoding.ExampleTransmission` | src/dht11.rs:61-143 | an acknowledgement followed by 69, 0, 23, 5 and any checksum, at nominal widths, reads as 69.0 % and 23.5 °C |
| `Decoding.IsBitsSlice` | src/dht11.rs:120-134 | each eight-bit slice of the buffer holds only bits |
| `Decoding.ReadPulseTrain` | src/dht11.rs:61-143 | the in-place sampling loop, with its acknowledgement flag and `u8` bit counter, followed by the four packing loops, returns exactly what the sampler specification `Sample` and the packing of bits 0–31 give |
| `Driver.ModeAfterAppend` | src/dht11.rs:70 | the pin mode after two runs of actions is the mode the second leaves from the mode the first leaves |
| `Driver.DisciplinedAppend` | src/dht11.rs:145-161 | a trace obeys the output/input discipline exactly when both halves do, the second starting from the mode the first leaves |
| `Driver.DisciplinedAtEachStep` | src/dht11.rs:145-161 | the discipline holds exactly when every action is allowed in the mode set by the actions before it |
| `Driver.AttemptDisciplined` | src/dht11.rs:68-70 | one attempt writes levels only in output mode and reads them only in input mode, from any starting mode, and leaves the pin an input |
| `Driver.ReadAfterSwitchToInput` | src/dht11.rs:68-75 | in one attempt, the level reads come after the switch to input, and no level is written after that switch |
| `Driver.RetryBackOffs` | src/dht11.rs:35-46 | when attempt `n` is the first to succeed, `get_reading` sleeps 500 ms exactly `n` times and samples exactly `n + 1` times |
| `Driver.RetryDisciplined` | src/dht11.rs:35-46 | the whole retry trace keeps the output/input discipline and leaves the pin an input |
| `Options.FirstSome` | src/dht11.rs:35-46 | the retry loop stops at the first successful attempt: that attempt succeeds and every earlier one failed |
| `Driver.RetryOnce` | src/dht11.rs:35-46 | after one failed and one successful attempt, the second attempt's reading is returned after exactly one back-off |
| `Driver.RetryExample` | src/dht11.rs:35-46 | a line that never rises in the first attempt, then a sensor sending 69, 0, 23, 5, gives 69.0 % and 23.5 °C on the second attempt, after exactly one 500 ms back-off |
| `Driver.Dht11.constructor` | src/dht11.rs:23-32 | a new driver holds its pin number, and its pin is an output on which nothing has happened yet |
| `Driver.Dht11.SetMode` | src/dht11.rs:70 | switching direction changes the mode and records the switch |
| `Driver.Dht11.SetHigh` | src/dht11.rs:149 | a high level can be written only while the pin is an output |
| `Driver.Dht11.SetLow` | src/dht11.rs:155 | a low level can be written only while the pin is an output |
| `Driver.Dht11.Sleep` | src/dht11.rs:152 | a sleep leaves the pin mode unchanged and is recorded in the trace |
| `Driver.Dht11.Listen` | src/dht11.rs:72-75 | the sampling loop reads levels only while the pin is an input |
| `Driver.Dht11.SendStartSignal` | src/dht11.rs:145-165 | the start signal is exactly: switch to output, high, 30 ms, low, 20 ms, high, 40 µs, leaving the pin an output |
| `Driver.Dht11.ReadData` | src/dht11.rs:61-143 | one attempt performs the start signal, the switch to input and the sampling, in that order, and returns the sampler's outcome |
| `Driver.Dht11.GetReading` | src/dht11.rs:35-46 | returns the reading of the first successful attempt, after one 500 ms back-off and one fresh attempt for each earlier failure, keeping the discipline |

## Left out

- Pin acquisition (`Gpio::new`, `get`, `into_io`) and its `unwrap` panics (src/dht11.rs:49-58) are not modelled: they are foreign hardware calls that fail only at construction. The constructor assumes the pin was claimed as an output.
- Pin level reads and the clock are not modelled. `is_low`/`is_high`, `Instant::now` and `elapsed` are replaced by the event sequence, and the `as_millis() > 100` checks become the two timeout events. How the polling loops measure time is not modelled.
- Pulse widths are whole microseconds. `Duration` has sub-microsecond resolution, so a 30.4 µs pulse, which the code reads as a 1, has no exact counterpart. The 30 µs and 80 µs comparisons are otherwise the code's own.
- The high-wait's timeout boundary is fixed at 101 000 µs. The real busy-polling loop notices a phase of just over 101 ms only if it polls before the line falls; that jitter of one poll is not modelled.
- Sleep durations are kept only as numbers in the trace. Nothing is modelled about real time passing.
- The `f32` values `int as f32 + dec as f32 / 10.0` (src/dht11.rs:136-137) are kept as integer tenths, `10 * int + dec`. Floating-point rounding is not modelled.
- Driver.Dht11.GetReading: requires that some attempt in the given finite sequence succeeds. If every attempt fails, the source loops forever, and the model does not cover that case.
- Running out of events before the sampling loop ends is a modelling artefact. The model treats it as a failed attempt, like a timeout.
- The sensor's checksum byte (bits 32–39) is sampled but never checked, as in the source. `Decoding.FrameIgnoresChecksum` states this gap.
- The `pin_number` numbering scheme and the `Option<IoPin>` plumbing are not modelled. The model holds the pin number as a constant and the pin as always present.
