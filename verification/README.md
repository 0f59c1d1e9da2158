# The two-way CAN data path, verified

This project models the telemetry program's CAN data path and proves what it keeps:

- **Signal codec** (`Bits`, `Layout`, `Physical`, `FrameBuffer`, `Codec`, `CanHandler`, `RoundTrip`,
  `Reencode`): a command becomes the 64 bits of a frame, a frame becomes a list of physical
  values. Little- and big-endian ranges, signed and unsigned words, multiplexing, range clamping
  and truncating conversion are all in. `CanHandler` holds the handler's methods with their nested
  loops over an in-place bit buffer, proved against the functions of `Codec`; the theorems are
  about those functions.
- **DBC store** (`DbcFile`): filling the store from parsed definitions.
- **Command parsing** (`FrameIds`, `CommandParser`): frame identifiers in text, and the conversion of
  a decoded payload whose signal table is iterated in arbitrary order.
- **Gamepad** (`Gamepad`, `EndToEnd`): button normal form, stick and control quantisation, signal
  tables, and the path from gamepad state to the `GamepadMsg` frame and back.
- **Latch and uplink** (`Aggregation`, `Latching`, `Config`, `Uplink`): the aggregator, the
  whitelist, and the listeners, queues and publisher as a step machine with histories.
- **Downlink** (`Downlink`): callback, command queue and transmit worker as a step machine.

A run is a sequence of events, each enabled in its turn; the theorems about runs hold for every
such sequence. The uplink and the downlink share nothing but the cancellation signal, so each is a
machine of its own in which cancellation may happen at any time. What one event does is the same
function that the corresponding method (`Handler.Receive`, `Publisher.OnCan`, `Publisher.OnGps`,
`TxWorker.OnCommand`) is proved to compute.

What a function computes is stated a second time without naming it: encoding and decoding by the
definition's fields and the bits of the frame (`EncodeMeaning`, `DecodeMeaning`, `FrameBit`,
`ParsedExactly`), the store by the entries of the file (`StoredFields`, `FileDecodes`), a command by
its payload (`CommandMeans`), the control value by the axis (`ToSignals`), the latch by the
configuration and the consumed messages (`LatchRefinement`).

`dafny verify dfyconfig.toml` checks everything.

## Conventions

- Numbers are reals. With `float64`, scaled decimals round: `0.3/0.1` falls just below 3 and
  truncates to 2. The `GamepadMsg` path uses small integers with scale 1, so its results hold there
  too. NaN and infinity do not occur in JSON (section 6 of RFC 8259).
- go.einride.tech/can is not part of this model; its contract is written out. A setter
  overwrites exactly the bits of its range. `FromPhysical` clamps to Min/Max when either is nonzero,
  removes offset and scale, and saturates to the bit width. Decoding is the affine map followed by
  the same clamp, except that a one-bit signal decodes as its bit. The multiplexer signal is the
  first definition marked as switch.
- Go leaves the conversion of a negative or too large float to `uint` to the implementation.
  Decoding asks that the switch of a multiplexed message never decodes to such a value (`FitsUint`);
  encoding and decoding ask that bit ranges lie inside 64 bits and that scales are not zero.

## Findings

- Encode, decode, encode gives the first raw value for every signal of more than one bit. A one-bit
  signal is decoded as its bit, without scale or range, so it survives exactly when the bit, taken as
  0 or 1, falls on the same side again (`EncodeDecodeEncodeExact`): always for an unsigned one with
  scale 1 and offset 0, as in every shipped DBC file; for a signed one with these settings and no
  range exactly above -1, since -1 is stored as a set bit, read back as 1 and saturates to 0
  (`SignedOneBitLosesItsValue`). Re-encoding a parsed frame twice equals re-encoding it once exactly
  when the reports of its active one-bit signals survive (`RebuildIdempotentExact`).
- Parsing and re-encoding a frame keeps the bits of an active signal exactly when the value it
  decodes to truncates or saturates back to its raw value (`KeepsRaw`, `KeptActiveExact`). In range
  this always holds (`InRangeIsKept`). Out of range it may fail, as for the shipped `brake`, where
  raw values above 250 come back as 250 (`OutOfRangeIsNotKept`), or hold (`OutOfRangeYetKept`).
- The encoder writes every named signal, active or not. Naming an inactive one can overwrite active
  bits and change the parsed list (`InactiveSignalOverwrites`). A signal reads back its own word
  exactly when whoever writes each of its bits last writes the bit it wants
  (`ReadBackExact`), and the parsed list is the commanded one exactly when the words so left on the
  wire decode to the commanded values (`FrameRoundTripExact`). A command that names active signals
  only always qualifies (`FrameRoundTrip`), and the switch arrives for every command (`SwitchArrives`).
- The frame depends neither on the iteration order of the signal table, even with overlapping
  definitions, nor, when definitions are disjoint, on their order.

## Model

| member | source | states |
|---|---|---|
| Layout.WalkOrder | src/internal/canhandler/handler.go:227-244 | both bit numberings as a walk: Intel upwards from the start bit, Motorola downwards from it along the sawtooth |
| Layout.BitAtIsInverse | src/internal/canhandler/handler.go:227-244 | a range occupies exactly the bits its weights enumerate, each once |
| FrameBuffer.SetUnsignedBitsLittleEndian | src/internal/canhandler/handler.go:243 | each bit of the range becomes the bit of the value at its weight, all other bits keep their value |
| FrameBuffer.SetSignedBitsLittleEndian | src/internal/canhandler/handler.go:240 | the same for two's complement: bit `w` of the range is `value / 2^w % 2`, rounding down below zero |
| FrameBuffer.SetUnsignedBitsBigEndian | src/internal/canhandler/handler.go:234 | the same along a Motorola range, unsigned |
| FrameBuffer.SetSignedBitsBigEndian | src/internal/canhandler/handler.go:231 | the same along a Motorola range, two's complement |
| Physical.WordBits | src/internal/canhandler/handler.go:225-243 | the stored word of any raw value bit by bit, negative values in two's complement |
| Physical.RawBits | src/internal/canhandler/handler.go:195 | a word stands for exactly the raw value in range that has its bits |
| Physical.EncodeMeaning | src/internal/canhandler/handler.go:225-243 | encoding from the definition's fields: into the declared range (minimum first where limits cross), through the affine map, fraction dropped, limits of the word where it is exceeded |
| Physical.DecodeMeaning | src/internal/canhandler/handler.go:195 | decoding from the definition's fields: a single bit as itself, else the affine map of the raw value with the word's bits, moved into the declared range |
| Physical.EncodeRaw | src/internal/canhandler/handler.go:225-243 | the truncated raw value always fits the signal's width |
| Physical.EncodeDecodeEncode | src/internal/canhandler/handler.go:195-243 | encode, decode, encode gives the first raw value, for any scale and any Min/Max alignment, one-bit signals plain |
| Physical.EncodeDecodeEncodeExact | src/internal/canhandler/handler.go:195-243 | for every signal and input it does if and only if the signal has more than one bit or 0 and 1 fall on the stored side |
| Physical.QuantisationError | src/internal/canhandler/handler.go:195-243 | the decoded value is less than one scale step from the clamped and saturated input |
| Physical.OneBitError | src/internal/canhandler/handler.go:195-243 | the same bound for a plain one-bit signal |
| Physical.InRangeIsIdeal | src/internal/canhandler/handler.go:225 | inside the declared and raw range the clamped and saturated form is the input itself |
| Physical.DecodeEncode | src/internal/canhandler/handler.go:195-243 | words that decode inside the declared range survive decode and encode |
| Physical.DecodeEncodeExact | src/internal/canhandler/handler.go:195-243 | a word survives decode and encode if and only if its decoded value truncates or saturates back to its raw value |
| Physical.ExactInteger | src/internal/canhandler/handler.go:195-243 | integers in range of a scale-1 signal are carried exactly |
| Physical.ExactMultiple | src/internal/canhandler/handler.go:195-243 | whole multiples of the scale step in range are carried exactly |
| Physical.SignedOneBitLosesItsValue | src/internal/canhandler/handler.go:195-243 | the signed one-bit signal: -1 is read as 1 and 1 encodes to 0; exactly the inputs above -1 survive |
| Codec.LatestIsLast | src/internal/canhandler/handler.go:223-224 | a name gets the value of its last occurrence in the command |
| Codec.FrameBit | src/internal/canhandler/handler.go:221-248 | by positions: a frame bit is that of the last definition there that the command names, in the raw value of the last entry of that name |
| Codec.BlankBit | src/internal/canhandler/handler.go:212-221 | a bit no named definition covers is zero |
| Codec.ParsedExactly | src/internal/canhandler/handler.go:177-202 | by positions: in order and once each, exactly the definitions that are not multiplexed or carry the value of the first switch, with name, value and unit |
| Codec.ValueInFrame | src/internal/canhandler/handler.go:195 | a signal's value told from the frame bits at its positions and its own fields |
| Codec.EncodedBit | src/internal/canhandler/handler.go:212-248 | each frame bit comes from the last named definition covering it, or is zero |
| Codec.NonInterference | src/internal/canhandler/handler.go:221-248 | commands that agree on the definitions covering a bit agree on the bit |
| Codec.OrderOfDefinitions | src/internal/canhandler/handler.go:221-248 | permuting disjoint definitions leaves the frame unchanged |
| CanHandler.SetSignal | src/internal/canhandler/handler.go:225-245 | the four-way choice writes the signal's word to the signal's range |
| CanHandler.Handler.MakeFrame | src/internal/canhandler/handler.go:206-260 | the nested in-place loops build the specified frame: identifier and extended flag of the definition, length 8, data frame; or the error for a missing store or definition |
| CanHandler.Handler.ParseFrame | src/internal/canhandler/handler.go:166-203 | the loop returns the active signals in DBC order, nothing without store or definition |
| CanHandler.Handler.Receive | src/internal/canhandler/handler.go:119-129 | a received frame becomes a message exactly when its decode is not empty |
| CanHandler.Handler.SendFrame | src/internal/canhandler/handler.go:146-163 | a frame goes out exactly when the command encodes and the socket takes it, and it is that encoding |
| RoundTrip.FrameRoundTrip | src/internal/canhandler/handler.go:166-260 | a command naming only signals its switch value activates parses back as itself, quantised, even when inactive signals share bits |
| RoundTrip.PlainRoundTrip | src/internal/canhandler/handler.go:166-260 | without multiplexing every command does: one entry per definition, in DBC order, zero bits where unnamed |
| RoundTrip.MultiplexedRoundTrip | src/internal/canhandler/handler.go:178-248 | with the switch supplied as a fitting integer exactly the signals of that value are parsed |
| RoundTrip.SwitchArrives | src/internal/canhandler/handler.go:182-191 | for every command the receiver sees the switch value the command put on the wire |
| RoundTrip.UnmultiplexedReadBack | src/internal/canhandler/handler.go:221-248 | an unmultiplexed signal arrives whatever else the command names |
| RoundTrip.ReadBackExact | src/internal/canhandler/handler.go:221-248 | for any definitions and command, a signal reads back its word if and only if each of its bits was last written as it wants |
| RoundTrip.ActiveReadBackExact | src/internal/canhandler/handler.go:178-248 | the same for all active signals of a message at once |
| RoundTrip.FrameRoundTripExact | src/internal/canhandler/handler.go:166-260 | for every command the parsed list is the commanded one if and only if the word on the wire of each active signal decodes to its value; undisturbed signals suffice |
| RoundTrip.HandlerRoundTrip | src/internal/canhandler/handler.go:166-260 | the same for whole frames and the store |
| RoundTrip.MultiplexedExample | src/internal/canhandler/handler.go:179-192 | a mixed-endian message with overlapping modes meets the hypotheses |
| RoundTrip.InactiveSignalOverwrites | src/internal/canhandler/handler.go:221-248 | a named inactive signal overwrites bits of the active one and the parsed list differs from the commanded one |
| Reencode.RebuildIsProjection | src/internal/canhandler/handler.go:166-260 | re-encoding keeps active bits and clears all others if and only if every active raw value comes back to itself; it then parses to the same list |
| Reencode.KeptActiveExact | src/internal/canhandler/handler.go:195-248 | the same for the bits of one active signal |
| Reencode.InRangeIsKept | src/internal/canhandler/handler.go:195-225 | frames whose active values decode in range meet that condition |
| Reencode.ParsesAlikeExact | src/internal/canhandler/handler.go:166-260 | the re-encoded frame parses to the same list if and only if each reported value encodes and decodes to itself |
| Reencode.FixedPointsExact | src/internal/canhandler/handler.go:166-260 | re-encoding leaves a frame alone if and only if its active raw values come back and no other bit is set |
| Reencode.RebuildIdempotentExact | src/internal/canhandler/handler.go:166-260 | re-encoding twice is re-encoding once if and only if the reports of the active one-bit signals survive |
| Reencode.RebuildIdempotent | src/internal/canhandler/handler.go:166-260 | with plain one-bit signals re-encoding again changes nothing, for every frame |
| Reencode.RebuildClearsTheRest | src/internal/canhandler/handler.go:212-248 | bits outside the active signals become zero |
| Reencode.FixedPointsAreBuiltFrames | src/internal/canhandler/handler.go:166-260 | re-encoding leaves a frame alone if and only if some complete command builds it |
| Reencode.OutOfRangeIsNotKept | config/can0.dbc:42 | raw brake values above 250 come back as 250, in every message that has the signal |
| Reencode.OutOfRangeYetKept | src/internal/canhandler/handler.go:195-225 | raw 3 below a range starting at 3.5 is out of range and kept |
| DbcFile.ParseDbcFile | src/internal/canhandler/parser.go:31-76 | the store holds, for each identifier, the message of its last definition, and nothing else; `StoredFields` says field by field what that is |
| DbcFile.StoredFields | src/internal/canhandler/parser.go:40-70 | every stored message and signal has the fields of its entry in the file, bit numbers and sizes cut to eight bits, the flag bit of the identifier told apart |
| DbcFile.StoredIsDefined | src/internal/canhandler/parser.go:36-73 | an identifier is stored if and only if some definition has it |
| DbcFile.VersionIsLast | src/internal/canhandler/parser.go:38-39 | the version is that of the last version definition, empty without one |
| DbcFile.FileDecodes | src/internal/canhandler/handler.go:166-203 | from file to parsed frame: exactly the entries that are not multiplexed or whose switch value is the one read from the first entry marked as switch |
| DbcFile.PopulatedIsUnique | src/internal/canhandler/parser.go:36-75 | the file fixes the store |
| DbcFile.PopulatedStoreIsDecodable | src/internal/canhandler/parser.go:36-75 | a file of decodable messages fills a store the handlers can use |
| FrameIds.ParseUint | src/internal/mq/command_parser.go:73-76 | digits are read with a 32-bit bound and no 64-bit overflow; anything else is refused |
| FrameIds.ParseFrameId | src/internal/mq/command_parser.go:63-78 | the imperative parser computes the specified result, below 2^32 |
| FrameIds.WhiteSpace | src/internal/mq/command_parser.go:64 | the characters trimmed are those with the Unicode property White_Space |
| FrameIds.DigitsMean | src/internal/mq/command_parser.go:73 | the digits are 0-9, a-f and A-F, each standing for its position |
| FrameIds.LeadingDigit | src/internal/mq/command_parser.go:73 | a number in digits is its first digit at its place value, and the number after it |
| FrameIds.SpellingParses | src/internal/mq/command_parser.go:63-78 | every decimal or hexadecimal spelling, with white space around it, parses to its number or, past 32 bits, is refused |
| FrameIds.ParsedIsSpelling | src/internal/mq/command_parser.go:63-78 | whatever parses is such a spelling of its result |
| FrameIds.LeadingZero | src/internal/mq/command_parser.go:73 | leading zeros do not change the number |
| FrameIds.LetterCase | src/internal/mq/command_parser.go:73 | letter case does not change the number |
| FrameIds.FormatParses | src/internal/mq/command_parser.go:63-78 | each 32-bit number has a decimal, a 0x and a 0X spelling that parse to it |
| CommandParser.ParseControlCommand | src/internal/mq/command_parser.go:27-60 | accepts exactly the payloads with a bus and an identifier that are not blank, the identifier valid, and no value of another type, whatever the iteration order; which error a refused one gets |
| CommandParser.AcceptedExactly | src/internal/mq/command_parser.go:27-52 | the same condition for the payloads the downlink accepts |
| CommandParser.CommandMeans | src/internal/mq/command_parser.go:46-60 | the command has one entry for each key, with the float itself, the integer as a float, or 1 and 0 for true and false, and no other entry |
| CommandParser.EnumerationValues | src/internal/mq/command_parser.go:46-60 | any iteration order yields the values of the table |
| CommandParser.IterationOrderIrrelevant | src/internal/mq/command_parser.go:46-60 | two iteration orders give the same frame, overlapping definitions included |
| Gamepad.ButtonState.UnmarshalJSON | src/internal/gamepad/mapper.go:22-58 | each accepted form gives its button, normal in every case; a refused one changes nothing |
| Gamepad.NormalFormIsFixed | src/internal/gamepad/mapper.go:46-57 | the normalised button written as an object is a fixed point and clamping leaves it alone |
| Gamepad.StickAccuracy | src/internal/gamepad/mapper.go:293-312 | stick values lie in [-128, 127], within one half of the axis scaled to 127, or 128 below zero, exact halves away from zero |
| Gamepad.AxisMeans | src/internal/gamepad/mapper.go:294-297 | the axis clamped to [-1, 1], zero when missing |
| Gamepad.ClampNearest | src/internal/gamepad/mapper.go:328-336 | clamping gives the nearest point of the interval |
| Gamepad.RoundNearest | src/internal/gamepad/mapper.go:338-344 | rounding gives a nearest integer, exact halves away from zero |
| Gamepad.StickMonotone | src/internal/gamepad/mapper.go:293-312 | monotone across the change of scale at zero |
| Gamepad.StickOnto | src/internal/gamepad/mapper.go:293-312 | every signed byte is reached |
| Gamepad.ToSignals | src/internal/gamepad/mapper.go:113-131 | the command flag is the first button's; the control value is zero inside the dead zone or without a Y axis, else the multiple of 0.1 nearest to the reversed axis times the maximum, for every mapper |
| Gamepad.ControlAccuracy | src/internal/gamepad/mapper.go:104-131 | the default mapper: within 0.05 of -100 times the axis outside a dead zone of 0.12, zero inside |
| Gamepad.ControlRange | src/internal/gamepad/mapper.go:104-131 | so it is zero in the dead zone, 12 to 100 in magnitude outside, against the axis |
| Gamepad.ControlAntitone | src/internal/gamepad/mapper.go:104-131 | the control value never grows with the axis |
| Gamepad.TenthAccuracy | src/internal/gamepad/mapper.go:338-344 | rounding gives a multiple of 0.1 within 0.05 and is idempotent |
| Gamepad.ThousandthAccuracy | src/internal/gamepad/mapper.go:338-344 | at three decimal places a multiple of 0.001 within 0.0005, exact halves away from zero |
| Gamepad.WholeAccuracy | src/internal/gamepad/mapper.go:338-341 | without decimal places the nearest integer |
| Gamepad.PaddedDigits | src/internal/gamepad/mapper.go:248 | names carry their number in two digits, padded with a zero |
| Gamepad.AxisSignalMap | src/internal/gamepad/mapper.go:244-256 | one distinct name per axis number of the range, with the clamped and rounded value |
| Gamepad.AxisTableMeans | src/internal/gamepad/mapper.go:244-256 | each `AxisNN` entry is within 0.0005 of the clamped axis |
| Gamepad.ButtonPressedSignalMap | src/internal/gamepad/mapper.go:258-266 | one distinct name per button number, with its state |
| Gamepad.PressedTableMeans | src/internal/gamepad/mapper.go:258-266 | each `BtnNN_P` entry is the state of that button, released when missing |
| Gamepad.ButtonValueSignalMap | src/internal/gamepad/mapper.go:268-276 | one distinct name per button number, with the clamped and rounded value |
| Gamepad.ValueTableMeans | src/internal/gamepad/mapper.go:268-276 | each `BtnNN_V` entry is within 0.0005 of the clamped button value, zero when missing |
| Gamepad.GamepadMsgSignalMap | src/internal/gamepad/mapper.go:278-290 | exactly the four sticks and sixteen buttons |
| Gamepad.StickTableMeans | src/internal/gamepad/mapper.go:278-284 | each stick entry under its name is an integer within one half of the scaled axis |
| Gamepad.ButtonTableMeans | src/internal/gamepad/mapper.go:285-288 | each `BtnNN_P` entry is the state of that button |
| EndToEnd.GamepadWellFormed | config/gamepad_all_inputs.dbc:37-57 | the shipped message is decodable, unmultiplexed and free of overlaps |
| EndToEnd.GamepadAccepted | src/internal/mq/command_parser.go:27-60 | the gamepad payload is always accepted |
| EndToEnd.GamepadEndToEnd | src/internal/gamepad/mapper.go:278-319 | any gamepad state, encoded for identifier 0x210 and decoded, gives its stick bytes and button bits exactly; bytes 6 and 7 are zero |
| EndToEnd.GamepadFrameBits | config/gamepad_all_inputs.dbc:37-57 | the frame of a gamepad state bit by bit: bit `8k + j` is bit `j` of stick `k` in two's complement, bit `32 + i` is button `i`, the rest is zero |
| EndToEnd.GamepadRebuilt | config/gamepad_all_inputs.dbc:37-57 | parsing any GamepadMsg frame and encoding the parsed list gives that frame with its last two bytes cleared |
| EndToEnd.GamepadInjective | src/internal/gamepad/mapper.go:278-319 | frames are equal if and only if the quantised states are |
| EndToEnd.GamepadLatched | src/cmd/telemetry/main.go:182-192 | a publisher that latches the frame reports every stick and button of the state |
| EndToEnd.ControlCarriedExactly | config/can0.dbc:44-46 | every control value the default mapper produces arrives unchanged through the shipped tenths signal |
| Aggregation.Aggregator.UpdateCAN | src/internal/dispatcher/telemetry.go:34-41 | the bus's entry is overlaid with the message's last values, all else unchanged |
| Aggregation.LatchCanMeans | src/internal/dispatcher/telemetry.go:34-41 | only the message's bus changes, and there only the names it carries, each to its last value |
| Aggregation.Aggregator.UpdateGPS | src/internal/dispatcher/telemetry.go:43-46 | the location is replaced, the vehicle unchanged |
| Aggregation.Aggregator.MarshalSnapshot | src/internal/dispatcher/telemetry.go:48-62 | the snapshot is the latch; it has a location only when there is one, coordinate by coordinate |
| Latching.Publisher.OnCan | src/cmd/telemetry/main.go:182-192 | whitelisted messages are latched; unknown buses and other identifiers change nothing |
| Latching.Publisher.OnGps | src/cmd/telemetry/main.go:180-181 | a GPS record replaces the location |
| Latching.LastWriteWins | src/internal/dispatcher/telemetry.go:34-41 | a signal is latched if and only if an accepted message of its bus carried it, with the last such value |
| Latching.LastGpsWins | src/internal/dispatcher/telemetry.go:43-46 | the location is the last GPS record |
| Latching.BusesAreIndependent | src/internal/dispatcher/telemetry.go:34-41 | a bus's entry depends on that bus's messages alone |
| Latching.Confluence | src/cmd/telemetry/main.go:176-193 | any interleaving of the same per-bus and GPS sequences leaves the same latch |
| Config.BuildWhitelist | src/cmd/telemetry/main.go:89-96 | every configured bus is listed, and an identifier is in its set if and only if it is configured for it |
| Uplink.RunKeeps | src/cmd/telemetry/main.go:105-193 | the invariant of queues, histories and latch in every reachable state |
| Uplink.UplinkConservation | src/internal/canhandler/handler.go:119-137 | per bus, decodes are consumed, queued or pending in order, without loss or duplication; queues stay within 200 and 100; after cancellation at most one message per bus is missing; GPS records are never lost |
| Uplink.LatchRefinement | src/cmd/telemetry/main.go:176-193 | in every reachable state a name is latched on a bus if and only if a consumed message of that bus with a configured identifier carried it, with the value of the last such message |
| Uplink.LocationRefinement | src/cmd/telemetry/main.go:180-181 | the location is the last GPS record consumed, absent without one |
| Uplink.BlockedExactly | src/internal/canhandler/handler.go:119-137 | a listener receives unless it has a message to send or has stopped; its send waits only while 200 are queued |
| Uplink.GpsBlockedExactly | src/cmd/telemetry/main.go:76 | a GPS record waits only while 100 are queued |
| Uplink.NothingIsStuck | src/cmd/telemetry/main.go:105-193 | from every reachable state before cancellation, sends and receipts alone lead to one where all that was decoded and reported is consumed, in order |
| Uplink.SchedulingIrrelevant | src/cmd/telemetry/main.go:105-193 | drained runs with the same decodes per bus and the same GPS records end with the same latch |
| Uplink.BoundedLatch | src/cmd/telemetry/main.go:89-96 | latched buses are configured ones, latched names those of whitelisted DBC messages, and their number is bounded by these |
| Uplink.KeysNeverDisappear | src/internal/dispatcher/telemetry.go:34-41 | a latched signal stays latched for the rest of the run |
| Downlink.TxWorker.OnCommand | src/cmd/telemetry/main.go:153-161 | a command goes to the handler of its own bus; unknown buses and failures are passed over |
| Downlink.RunKeeps | src/cmd/telemetry/main.go:131-164 | the invariant of queue, numbering and transmissions in every reachable state |
| Downlink.CommandsInOrder | src/cmd/telemetry/main.go:131-164 | taken commands are a prefix of the enqueued, which are the accepted in order; at most 100 are queued |
| Downlink.NoneIsMissing | src/cmd/telemetry/main.go:131-143 | before cancellation the enqueued commands and the one waiting are the accepted ones, one for one |
| Downlink.BlockedExactly | src/cmd/telemetry/main.go:131-152 | a callback waits only while 100 commands are queued; the worker takes whenever there is one |
| Downlink.NothingIsStuck | src/cmd/telemetry/main.go:131-164 | from every reachable state before cancellation the worker can come to take every accepted command, in order |
| Downlink.DownlinkSafety | src/cmd/telemetry/main.go:145-164 | every transmitted frame encodes an accepted payload on its own bus, each at most once, in order of acceptance |
| Downlink.TransmittedExactly | src/cmd/telemetry/main.go:149-163 | the transmissions are exactly those of the taken commands with a handler and an encoding that the socket accepts, in order |
| Downlink.TakenIsTransmitted | src/cmd/telemetry/main.go:149-163 | a taken command with a handler and an encoding that the socket accepts has been transmitted |
| Downlink.TransmittedFrameParses | src/internal/canhandler/handler.go:146-163 | what is transmitted parses to the payload's signal table, quantised |

## Left out

- `float64` rounding: see Conventions.
- Sockets, SocketCAN device setup, MQTT, AMQP and gpsd sessions: receipt and transmission are events or parameters.
- DBC text, JSON and YAML syntax: the model starts from parsed definitions and decoded values.
- Extended multiplexing, bit ranges beyond the frame, overlapping signals that are active together: preconditions where a theorem needs them.
- `ToCommandMaps` beyond the `GamepadMsg` frame: a list of independent optional frames built from the modelled builders.
- Timestamps, units of receivers (`ReceiverNodes`), logging, topics, configuration defaults, the web server.
- Fairness and shutdown: `NothingIsStuck` says what the processes can always still do, not that a scheduler does it; after cancellation, to which Go's `select` gives no priority, only safety is proved.
- The GPS session's reconnection loop: a produced record blocks its callback until the queue has room, which is modelled; connecting is not.
- The periodic publish (`Tick`) changes no modelled state; the published value is `MarshalSnapshot`'s.
