# regtable: a verified model

regtable describes a device as a table of typed registers and serves that one table over several wires: a command line, Modbus
(RTU and TCP) and MQTT. A Python host client talks to the command line, and a generator turns a description into the table. This
project models those parts in Dafny and proves what they promise each other.

The model follows the program's structure, one module a file:

- `Words`, `Seqs`, `Bitwise`, `Bitmap`, `Float32`, `Binary32`: 32-bit words as bounded integers, the bit operations the C code uses
  (defined bit by bit), a word array read as a set of indices, binary32 patterns in IEEE 754 order, and the numbers some of them stand
  for.
- `Registers`, `Core`, `Text`, `TextForms`, `Fingerprint`, `KnownFingerprint`: entries and the variables behind them,
  validate-and-commit, the table object with its dirty bitmap and deferred hooks, parsing and printing and which texts that means, the
  table's fingerprint on the device and on the host, its byte layout and a known value.
- `Crc`, `CrcGenerator`, `ModbusMap`, `ModbusSlave`, `ModbusProps`, `ModbusAnswers`: CRC-16 and which one, the register map and its
  tiling, the slave object, what a Modbus master may rely on, and what goes over the wire byte by byte.
- `MqttTopics`, `MqttSync`, `MqttValues`, `Json`, `Appender`, `MqttMeta`, `Mqtt`, `MqttRuns`: topics, the shadow that works as an
  outbox, what a poll publishes of a register, JSON escaping, the bounded buffer the self-description is built in, the adapter object,
  and whole runs of it.
- `JsonObject`, `MqttReadable`, `MqttRetained`: reading the self-description back, and what a host can reconstruct from retained
  messages.
- `CliLine`, `Cli`, `CliCommands`, `CliJson`: the line editor, the tokeniser, the commands, the session object, what each line comes
  to, and the JSON it is answered with.
- `Client`, `ClientAnswers`, `ClientChecks`, `Discover`, `Contract`, `FloatChecks`: the host's request/answer protocol, what its calls
  come to against the device, its local checks, the schema it reads off a device, and verify().
- `CSource`, `Generator`, `Generated`, `Describable`: string literals in C, which descriptions are accepted and which of them make a
  device every adapter accepts, the generated client against the generated device, and which tables have a description.
- `System`: all adapters together over whole runs.

Code that changes state in place is modelled by classes and methods (`Core.RegTable`, `ModbusSlave.RegModbus`, `Mqtt.RegMqtt`,
`Appender.Appender`, `Cli.RegCli`, `Client.RegtableClient`), each method tied to a specification function; the properties are
lemmas about those functions. A `Device` is the content of the registers' variables together with the set of dirty entries.
Application hooks are parameters: `Hooks` holds what on_write answers and on_read leaves in the entry's own variable, a `Script` says
which writes, reads and marks each on_change hook performs. The network is an oracle that accepts a message, refuses it although
it arrived, or refuses and loses it. The C library is a parameter as well (`Text.Libc`): the largest `unsigned long`, the texts of
floats, and `strtod`.

Some promises hold only under a condition, and the condition is part of the result:

- What the generator accepts, every init should accept. It does exactly when names are full matches of the name pattern and every
  text fits: `Generator.EveryInitIff` for any prefix and buffer sizes, `Generator.AcceptedIff` at default sizes, where it comes to
  metadata bodies of at most 138 characters, a length `Generator.BodySizeIs` computes from the entry. With at most a hundred
  registers the names decide (`Generator.BelowHundredIff`). Both halves can fail: `a` and a newline pass the pattern, whose `$`
  matches before a final newline, and registers.c then holds a string literal that does not end (`Generator.NewlineNameRefused`);
  the last of 101 registers can have a body of 139 (`Generator.LongBodyRefused`).
- A schema read back through the listing is hashed to the device's bytes exactly when no FLOAT bound is a negative zero
  (`Fingerprint.EncodingsAgreeIff`); then the fingerprints are equal (`Fingerprint.FingerprintsAgree`), and with exactly one such
  bound anywhere in the table they differ (`Fingerprint.NegativeZeroDisagrees`). With several, the hashed bytes differ and the
  32-bit results may still collide.
- A generated client keeps a negative zero. It and the generated device hash the same bytes exactly when C and Python round every
  FLOAT limit to the same pattern (`Generated.GeneratedFingerprint`), and its verify() then finds nothing to report, which it does
  exactly when the two read every FLOAT limit as the same number (`Generated.GeneratedVerifies`). They need not: a limit halfway
  between two binary32 is written with its shortest decimal, which C may round the other way (`Generated.HalfwayDiffers`).
- verify() of any client has nothing to report exactly when its schema holds the device's registers, each once and key by key the
  same (`Contract.VerifiesIff`); their order is not compared.
- A client built from a device's own listing holds that device's table exactly when names are distinct and values and ranges are
  ones a host can read (`Discover.DiscoversTableIff`). The largest binary32 is not: its nine digits read back above it
  (`Discover.LargestRefused`).
- The host's local check of an integer agrees with the device exactly when the bounds fit the register's type
  (`ClientChecks.ChecksAgreeIff`; `ClientChecks.LimitBeyondType` where they do not), and that of a FLOAT exactly when the number is
  not a nonzero one that becomes a zero the register may hold (`FloatChecks.FloatChecksAgreeIff`, `FloatChecks.TinyDisagrees`).
- A checked value reaches its register exactly when the command fits the device's line buffer (`ClientChecks.CheckedValueArrives`).
- The run-flushing JSON writer passes its length through a 16-bit argument; `Json.CliJsonStr` states exactly when the output is
  right, and `Json.LongRunExists` that it can be wrong.

## Model

| member | source | states |
|---|---|---|
| `Words.SignedUnsigned` | src/regtable_core.c:356-366 | a value of int32_t survives the trip through uint32_t and back |
| `Bitwise.OrBit` | src/regtable_core.c:164 | bit k of a bitwise or is set exactly when it is set in one of the words |
| `Bitwise.AndNotBit` | src/regtable_core.c:176 | bit k of a & ~b is set exactly when it is set in a and not in b |
| `Bitwise.AndMask` | src/regtable_core.c:173-174 | w & (1 << k) is nonzero exactly when bit k of w is set |
| `Bitmap.SetMembers` | src/regtable_core.c:163-164 | setting bit i % 32 of word i / 32 adds exactly index i to the set the bitmap stands for |
| `Bitmap.ClearMembers` | src/regtable_core.c:173-176 | clearing it removes exactly index i |
| `Bitmap.EmptyMembers` | src/regtable_core.c:109 | an all-zero bitmap stands for the empty set |
| `Float32.LessIsNumericOrder` | src/regtable_core.c:225-229 | the sign-magnitude comparison of two patterns is the order of the numbers they stand for, and false as soon as one is NaN |
| `Float32.RoundsWithin` | python/regtable/client.py:225-245 | a rounding that keeps order and the largest numbers takes everything within them to a finite number, and only what is below the largest to less than it |
| `Binary32.Landmarks` | python/regtable/client.py:218-245 | the patterns of 1, of the largest binary32 and of the smallest normal one stand for exactly these numbers |
| `Registers.VerdictMeaning` | src/regtable_core.c:189-236 | the ordered checks pass exactly when the entry is writable and the normalised value is in the type's domain (finite for FLOAT) and numerically within the limits |
| `Registers.VerdictRefusals` | src/regtable_core.c:189-236 | which refusal comes out, in numbers: read-only for every read-only entry, then invalid value for a FLOAT that is NaN or infinite, then out of range for whatever its type or its limits do not hold |
| `Registers.SetRawResult` | src/regtable_core.c:189-249 | the one result of a write, in this order: read-only, invalid value, out of range, rejected by the hook (asked about the normalised value), OK |
| `Registers.LoadReads` | src/regtable_core.c:55-73 | what is loaded is what a C variable of the type holds, in two's complement for the signed ones |
| `Registers.LoadStore` | src/regtable_core.c:55-92 | loading after storing gives every in-domain raw value back, for all eight types |
| `Registers.SetRawEffect` | src/regtable_core.c:189-249 | a refused write changes neither variables nor dirty bits; it is accepted exactly when writable, legal and approved; then the entry reads back as the normalised value, no other entry changes, and it is marked dirty exactly when its value changed |
| `Registers.GetRawEffect` | src/regtable_core.c:251-258 | a read returns the value on_read left in the variable, or without on_read the one that was there, leaves it in the variable, and touches no other variable and no dirty bit |
| `Registers.SetRawGuarded` | src/regtable_core.c:189-249 | one write never leaves an entry without on_read changed, unless it is writable and now holds a legal value |
| `Registers.GetRawGuarded` | src/regtable_core.c:251-258 | neither does one read |
| `Registers.Find` | src/regtable_core.c:140-148 | the first entry of that name, none exactly when there is none |
| `Core.RegTable.constructor` | src/regtable_core.h:104-108 | an unbound handle of fixed capacity |
| `Core.RegTable.Init` | src/regtable_core.c:96-111 | binds exactly the tables that fit, with every entry clean; a table too large leaves the handle unbound |
| `Core.RegTable.FindEntry` | src/regtable_core.c:140-148 | the search loop finds the first entry of the name |
| `Core.RegTable.MarkDirty` | src/regtable_core.c:152-165 | marks the entry; a pointer outside the bound table, or an unbound handle, changes nothing |
| `Core.RegTable.SetRaw` | src/regtable_core.c:189-249 | the in-place write path yields device and result of the specified write |
| `Core.RegTable.GetRaw` | src/regtable_core.c:251-258 | the in-place read yields device and value of the specified read, whose effect is `Registers.GetRawEffect` |
| `Core.RegTable.Perform` | src/regtable_core.c:180 | a hook body or main-loop code has the effect of its actions in order |
| `Core.RegTable.TakeBit` | src/regtable_core.c:173-176 | reports whether the entry was dirty and clears that bit only |
| `Core.RegTable.PollEntry` | src/regtable_core.c:172-182 | one turn: clear first, then run the hook if there is one |
| `Core.RegTable.PollBound` | src/regtable_core.c:167-185 | the loop over the bitmap words does what the specified poll does to the set of dirty entries, and counts the hooks it ran |
| `Core.RegTable.Poll` | src/regtable_core.c:167-185 | the same, and nothing at all on an unbound handle |
| `Core.PollOrder` | src/regtable_core.c:172-183 | one poll runs each hook at most once, in table order, whatever the hooks write or mark |
| `Core.PollCovers` | src/regtable_core.c:172-183 | every entry with a hook that is dirty when the poll begins has it run |
| `Core.QuietPoll` | src/regtable_core.c:167-185 | if hooks leave the table alone, a poll runs exactly the hooks of the dirty entries, changes no variable and leaves nothing dirty |
| `Core.ActAllKeepsDirty` | src/regtable_core.c:242-246 | no write, read or mark ever clears a dirty bit |
| `Core.RecordPollErases` | src/regtable_core.c:167-185 | the history kept to state the next result does not influence device or hook order |
| `Core.NoLostChange` | src/regtable_core.c:152-185 | over any run of writes, reads, direct writes, marks and polls whose hooks do the same: an entry with on_change, no on_read, a clear dirty bit and no unannounced direct write holds the value its hook last saw |
| `Text.ReadMagnitude` | src/regtable_core.c:325-333 | prefix, first digit, strtoul and end check together accept exactly the numerals: decimal with leading zeros staying decimal, hexadecimal behind 0x, and behind a second 0x |
| `Text.ParseUnsigned` | src/regtable_core.c:315-341 | verdict and value of an unsigned text, the same for every width of unsigned long |
| `Text.ParseSigned` | src/regtable_core.c:343-368 | the same for signed texts, INT32_MIN included |
| `TextForms.UnsignedForms` | src/regtable_core.c:315-341 | of an unsigned text: white space (six characters), a plus or nothing, and a numeral within 32 bits; a minus is no value |
| `TextForms.SignedForms` | src/regtable_core.c:343-368 | of a signed one: the same with either sign, within int32_t |
| `TextForms.NumeralForms` | src/regtable_core.c:302-337 | a numeral is decimal digits, leading zeros included, or hexadecimal ones behind 0x or 0X, once or twice |
| `TextForms.FloatForms` | src/regtable_core.c:398-409 | which result each outcome of strtod comes to |
| `Text.SameIgnoringCase` | src/regtable_core.c:294-300 | true exactly when the two texts agree up to case |
| `Text.ParseBool` | src/regtable_core.c:377-383 | true/1 and false/0 in any case, nothing else |
| `TextForms.BoolForms` | src/regtable_core.c:377-383 | a text is true if it is 1 or spells true in any case, false if it is 0 or spells false, and otherwise no value |
| `Text.SetStr` | src/regtable_core.c:370-413 | parses per type, then writes through the raw path; device and result are those of the specified text write |
| `Text.SetTextGuarded` | src/regtable_core.c:370-413 | a refused text changes nothing; an accepted one leaves the register reading as the value the text stands for |
| `Text.DecimalReads` | src/regtable_core.c:268 | a printed number consists of digits and reads as that number |
| `Text.DecimalLength` | src/regtable_core.c:268 | a number below 10^k prints in at most k characters |
| `Text.UnsignedTextOfDecimal` | src/regtable_core.c:315-341 | the parser reads a printed natural number as itself, or refuses it as out of range |
| `Text.SignedTextOfDecimal` | src/regtable_core.c:343-368 | the parser reads a printed integer as itself, or refuses it as out of int32_t |
| `Text.PrintThenParse` | src/regtable_core.c:262-284 | for every integer type and BOOL, parsing what was printed gives the same raw value |
| `TextForms.PrintedForms` | src/regtable_core.c:262-284 | a register prints as plain decimal without leading zeros, a minus in front when negative, as true or false, or as `%.6g` |
| `Fingerprint.MixText` | src/regtable_core.c:120-123 | the string loop folds in the characters and the NUL |
| `Fingerprint.TableSchema` | src/regtable_core.c:113-138 | the device's loop is the FNV-1a fold of the table's byte encoding |
| `Fingerprint.SchemaFingerprint` | python/regtable/client.py:305-336 | the host's function is the same fold of the schema's byte encoding, strings in UTF-8, a FLOAT bound given as an integer rounded |
| `Fingerprint.EncodingsAgreeIff` | python/regtable/client.py:302-336 | of a table of ASCII texts read back as a schema, the host hashes the bytes the device hashes if and only if no FLOAT bound is a negative zero |
| `Fingerprint.FingerprintsAgree` | python/regtable/client.py:302-336 | and then the fingerprints are equal |
| `Fingerprint.NegativeZeroDisagrees` | python/regtable/client.py:320-327 | a table with exactly one negative zero bound, lower or upper, in any entry, gets another fingerprint on the host |
| `Fingerprint.EncodingDecodable` | src/regtable_core.c:113-138 | two tables with the same encoding have the same entries, field by field, up to NULL versus empty description |
| `Fingerprint.EncodingOfShapes` | src/regtable_core.c:132 | and entries equal up to that have the same encoding |
| `Fingerprint.MixInjective` | src/regtable_core.c:121 | one step of the hash loses neither the state nor the byte |
| `Fingerprint.OneByteChangesHash` | src/regtable_core.c:113-138 | changing any single encoded byte always changes the 32-bit result |
| `KnownFingerprint.EntryLayout` | src/regtable_core.c:113-138 | where each field of an entry stands among the hashed bytes, and what it is encoded as |
| `KnownFingerprint.EncodedInOrder` | src/regtable_core.c:117 | entries are hashed in table order |
| `KnownFingerprint.KnownTable` | src/regtable_core.c:113-138 | the table of one read-only U8 called a has the fingerprint 5b122d4c, an empty one 2166136261 |
| `Crc.Compute` | src/regtable_modbus.c:21-32 | the byte and bit loops compute the shift register's remainder of the data, least significant bit first; which register that is, `CrcGenerator` says |
| `Crc.FeedLinear` | src/regtable_modbus.c:23-30 | the register is linear in start value and input |
| `Crc.StepParity` | src/regtable_modbus.c:26-29 | one shift keeps the parity of the register's set bits |
| `Crc.ValidIffResidueZero` | src/regtable_modbus.c:278-282 | a frame is valid exactly when running all of it, CRC included, leaves the register at 0 |
| `Crc.ErrorsSlipThroughIff` | src/regtable_modbus.c:278-282 | a corrupted copy of a valid frame passes exactly when the error pattern alone leaves 0 |
| `Crc.OddErrorsDetected` | src/regtable_modbus.c:278-282 | any odd number of flipped bits is noticed |
| `Crc.BurstDetected` | src/regtable_modbus.c:278-282 | any nonzero error burst of at most 16 bits is noticed, CRC bytes included |
| `CrcGenerator.ShiftTapped` | src/regtable_modbus.c:25-28 | one bit shifts the register down and, if what falls out differs from it, changes bits 15, 13 and 0 |
| `CrcGenerator.GeneratorAlone` | src/regtable_modbus.c:21-32 | a pattern of 17 bits that begins with an error leaves nothing exactly when it is x^16 + x^15 + x^2 + 1 |
| `CrcGenerator.UndetectedBurst` | src/regtable_modbus.c:278-282 | of all bursts of 17 bits in a frame, exactly the one of that shape is not noticed |
| `CrcGenerator.CheckValue` | src/regtable_modbus.c:21-32 | the CRC of the characters 1 to 9 is 0x4B37 |
| `ModbusMap.CheckMap` | src/regtable_modbus.c:256-269 | accepts exactly the maps whose spans fit 16-bit addresses and do not overlap |
| `ModbusMap.EntryAt` | src/regtable_modbus.c:48-55 | the first entry whose span starts at the address |
| `ModbusMap.SpanCovered` | src/regtable_modbus.c:57-69 | for an accepted map the greedy walk, with its narrowing lookup, succeeds exactly when every word of the span belongs to a mapped entry lying wholly inside; such a span ends by 0x10000 |
| `ModbusMap.TilesContiguous` | src/regtable_modbus.c:57-69 | a covered span is tiled by entries one after the other from its first word to its last |
| `ModbusMap.HeadTile` | src/regtable_modbus.c:147-154 | the entry found at the cursor is the next tile, and the cursor fits 16 bits |
| `ModbusMap.WordsRoundTrip` | src/regtable_modbus.c:73-107 | in either word order, packing the value the wire words stand for gives the words back, BOOL as 0 or 1; all eight types |
| `ModbusMap.RawRoundTrip` | src/regtable_modbus.c:73-107 | unpacking what was packed gives every value of the type back, in either word order, and the words carry its number |
| `ModbusMap.WordsAreNumber` | src/regtable_modbus.c:91-107 | the words are read as the number on the wire: high byte first, high word first unless swapped, two's complement for the signed types |
| `ModbusSlave.ReadSpan` | src/regtable_modbus.c:145-154 | the read loop reads the tiles in order, each with its on_read |
| `ModbusSlave.WriteSpan` | src/regtable_modbus.c:206-218 | the write loop writes the tiles in order and stops at the first refusal |
| `ModbusSlave.DoRead` | src/regtable_modbus.c:125-156 | device and response of a read request, every exception included |
| `ModbusSlave.DoWriteSingle` | src/regtable_modbus.c:158-184 | device and response of a write-single request |
| `ModbusSlave.DoWriteMultiple` | src/regtable_modbus.c:186-227 | device and response of a write-multiple request |
| `ModbusSlave.PduHandle` | src/regtable_modbus.c:229-245 | dispatch by function code; broadcasts of anything but writes do nothing |
| `ModbusAnswers.ErrorCodeIs` | src/regtable_modbus.c:116-123 | the function code with its top bit set |
| `ModbusAnswers.UnknownFunction` | src/regtable_modbus.c:242-243 | an unknown function code is answered with exception 01 |
| `ModbusAnswers.WrongLength` | src/regtable_modbus.c:129-131 | a read or write-single of the wrong length with exception 03 |
| `ModbusAnswers.ReadAnswer` | src/regtable_modbus.c:125-156 | a read of no register or more than 125 with exception 03, one of a span that is not tiled with exception 02, any other with a byte count and that many bytes |
| `ModbusAnswers.ReadCarries` | src/regtable_modbus.c:125-156 | in the answer to a read, the words of a register are those of the value it yields, on_read included, and that value is left in its variable |
| `ModbusAnswers.ReadLeaves` | src/regtable_modbus.c:125-156 | a read marks nothing dirty and changes only variables of registers in its span that have an on_read |
| `ModbusAnswers.WordsWritten` | src/regtable_modbus.c:91-107 | a register takes its words exactly when it is writable, the number on the wire is legal for it and its hook allows that number; then it holds it |
| `ModbusAnswers.SingleWriteAnswer` | src/regtable_modbus.c:158-184 | so with a write-single: the request comes back exactly then, and otherwise exception 04 with nothing changed |
| `ModbusAnswers.SingleWriteNowhere` | src/regtable_modbus.c:166-170 | exception 02 where no register of one word starts |
| `ModbusAnswers.MultipleWriteRefused` | src/regtable_modbus.c:186-201 | a write-multiple whose quantity, byte count and length do not agree gets exception 03, one for a span that is not tiled exception 02 |
| `ModbusAnswers.MultipleWriteAnswer` | src/regtable_modbus.c:186-227 | any other: register after register takes the number the wire has for it; the first five bytes come back if all do, exception 04 at the first that does not |
| `ModbusAnswers.FrameLayout` | src/regtable_modbus.c:291-297 | an RTU frame is address, PDU, and the CRC with its low byte first |
| `ModbusAnswers.AduLayout` | src/regtable_modbus.c:318-326 | a TCP ADU is transaction, protocol 0, length, unit, PDU |
| `ModbusAnswers.FramesIgnored` | src/regtable_modbus.c:275-285 | frames shorter than 4 or longer than 256 bytes, damaged, or for another slave have no effect |
| `ModbusAnswers.AdusIgnored` | src/regtable_modbus.c:300-316 | nor have ADUs shorter than 8 or longer than 260 bytes, of another protocol, with a wrong length field, or without room for a header |
| `ModbusAnswers.FrameToAll` | src/regtable_modbus.c:284-292 | a frame for address 0 is carried out as a broadcast and never answered |
| `ModbusSlave.ReplySize` | src/regtable_modbus.c:109-114 | no response is longer than the room for it, nor than the largest read answer |
| `ModbusSlave.RegModbus.Init` | src/regtable_modbus.c:249-270 | accepts exactly a unicast address and a lawful map |
| `ModbusSlave.RegModbus.Envelop` | src/regtable_modbus.c:291-297 | address, PDU and CRC low byte first; nothing is sent for a broadcast |
| `ModbusSlave.RegModbus.Process` | src/regtable_modbus.c:272-298 | frame check, address filter, PDU, envelope; writes nothing beyond the capacity, and nothing beyond the response except for a refused broadcast |
| `ModbusSlave.RegModbus.ProcessTcp` | src/regtable_modbus.c:300-327 | MBAP checks, PDU, echoed identifiers; nothing beyond the response is touched |
| `ModbusProps.CorruptedFrameIgnored` | src/regtable_modbus.c:275-282 | a valid frame hit by an odd number of bit errors or one burst of up to 16 bits gets no response and changes nothing |
| `ModbusProps.ResponsesAreValid` | src/regtable_modbus.c:293-297 | every RTU response is a valid frame from this slave |
| `ModbusProps.SilenceMeansNothing` | src/regtable_modbus.c:171-204 | a non-broadcast request that is not answered has changed nothing |
| `ModbusProps.RtuSilence` | src/regtable_modbus.c:272-298 | the same for whole RTU frames |
| `ModbusProps.TcpSilence` | src/regtable_modbus.c:300-327 | the same for whole TCP ADUs |
| `ModbusProps.BroadcastEffect` | src/regtable_modbus.c:173-179 | a broadcast write has the effect of the unicast one with room to answer; any other broadcast has none |
| `ModbusProps.RtuCarries` | src/regtable_modbus.c:287-297 | an RTU exchange carries exactly the PDU exchange |
| `ModbusProps.TcpCarries` | src/regtable_modbus.c:311-326 | so does a TCP exchange, transaction and unit identifier echoed |
| `ModbusProps.EnvelopesAgree` | src/regtable_modbus.c:229-327 | the same PDU with the same room gives the same device and the same response PDU over RTU and TCP |
| `ModbusProps.WriteStops` | src/regtable_modbus.c:206-218 | the write loop leaves exactly the tiles before the first refused one written |
| `ModbusProps.MultipleWriteOutcome` | src/regtable_modbus.c:206-227 | exception 04 to a multi-register write means exactly that; a normal answer means all were written |
| `ModbusProps.WriteThenRead` | src/regtable_modbus.c:125-227 | after a normally answered write-multiple, reading any covered part without on_read returns the bytes written, BOOL words as 0 or 1, and changes nothing; both word orders, all types |
| `ModbusProps.SingleWriteThenRead` | src/regtable_modbus.c:158-184 | the same for a write-single |
| `MqttTopics.TopicsDistinct` | src/regtable_mqtt.c:57-76 | all state, command and metadata topics of an accepted table are pairwise distinct |
| `MqttTopics.TopicsSpelled` | src/regtable_mqtt.c:27-37 | the topics as a subscriber spells them |
| `MqttTopics.LawfulTexts` | src/regtable_mqtt.c:45-66 | which prefixes and names are lawful, character by character |
| `MqttTopics.CommandIs` | src/regtable_mqtt.c:146-163 | the parser extracts a name exactly from prefix/name/set with one level of 1 to 31 characters |
| `MqttTopics.ParseCommand` | src/regtable_mqtt.c:149-163 | the topic checks compute that parser |
| `MqttTopics.Handle` | src/regtable_mqtt.c:146-171 | device and result of the specified command handling |
| `MqttTopics.HandleResolves` | src/regtable_mqtt.c:146-171 | the command topic of an entry writes to that one entry; every state and metadata topic is NOT_FOUND, prefix/$meta/set included |
| `MqttSync.AcceptedPollConverges` | src/regtable_mqtt.c:109-138 | after one poll with every publish accepted, every topic holds exactly the raw value that poll sampled |
| `MqttSync.SentIff` | src/regtable_mqtt.c:119-135 | an entry is sent if and only if it is not synced, or what the poll samples of it, on_read included, differs from its shadow |
| `MqttSync.QuietPoll` | src/regtable_mqtt.c:119 | a further poll without change sends nothing |
| `MqttSync.AcceptedThenQuiet` | src/regtable_mqtt.c:109-138 | after a poll with every publish accepted, a poll that samples nothing new hands nothing over |
| `MqttSync.RefusedIsResent` | src/regtable_mqtt.c:128-132 | a refused value is resent by the next poll even if the register has gone back to what the shadow holds |
| `MqttValues.PayloadShows` | src/regtable_mqtt.c:126-127 | a payload is the register's value in plain decimal, as true or false, or as `%.6g`, never cut |
| `MqttValues.PayloadReads` | src/regtable_mqtt.c:126-128 | parsing it as the device would gives the value back |
| `MqttValues.PollSends` | src/regtable_mqtt.c:109-138 | a poll samples the value a register yields, on_read included; hands it over exactly when it is not what the broker is known to have; what arrives under prefix/name shows that value; an accepted one is remembered, a refused one is not |
| `MqttValues.ResendSendsAll` | src/regtable_mqtt.c:140-144 | a full resend hands over every register |
| `Json.CliJsonStr` | src/regtable_cli.c:102-120 | the run-flushing writer emits the JSON string exactly when no run of plain characters reaches 65536 |
| `Json.LongRunExists` | src/regtable_cli.c:102-120 | a C string with such a run: 65536 letters |
| `Json.EscapeRoundTrip` | src/regtable_cli.c:86-120 | decoding the escaped text gives the string back and stops at the closing quote: no earlier quote is unescaped |
| `Json.BodyLength` | src/regtable_mqtt.c:211-230 | escaping never shortens a text and at most multiplies its length by six |
| `Appender.Appender.constructor` | src/regtable_mqtt.c:295 | an empty text in a buffer of that size |
| `Appender.Appender.PutC` | src/regtable_mqtt.c:184-189 | appends the character, or sets the flag; what was written stays |
| `Appender.Appender.PutS` | src/regtable_mqtt.c:191-194 | the flag stays clear exactly when it was clear and the text fits, and then the text follows in full |
| `Appender.Appender.Print` | src/regtable_mqtt.c:196-209 | the same, all or nothing |
| `Appender.Appender.PutJson` | src/regtable_mqtt.c:211-230 | the same for a JSON string: character by character it is the text the CLI's writer produces |
| `Appender.Appender.Rollback` | src/regtable_mqtt.c:275-279 | the text before the mark, the flag clear |
| `Appender.WroteThen` | src/regtable_mqtt.c:248-281 | appending in pieces is appending the whole |
| `MqttMeta.PutMeta` | src/regtable_mqtt.c:248-269 | the body without description is appended as one text |
| `MqttMeta.PutDescription` | src/regtable_mqtt.c:270-280 | the description is there in full exactly when it fits, otherwise absent, and the flag is clear |
| `MqttMeta.BuildMeta` | src/regtable_mqtt.c:345-349 | body, description in full or absent, and schema trailer; the payload always fits its buffer |
| `MqttMeta.MetaFits` | src/regtable_mqtt.c:306-314 | says exactly whether the body fits less the 21 characters reserved for the trailer |
| `MqttMeta.BuildIdentity` | src/regtable_mqtt.c:288-304 | the identity text when it fits, otherwise nothing; what it says is `MqttReadable.IdentityReads` |
| `Mqtt.AcceptsNames` | src/regtable_mqtt.c:57-81 | the entry-by-entry checks mean lawful, pairwise distinct names and texts that fit |
| `Mqtt.AcceptsExactly` | src/regtable_mqtt.c:45-81 | regmqtt_init accepts exactly lawful prefixes and names whose every topic, and whose every metadata text with its trailer, fits its buffer |
| `Mqtt.CheckEntry` | src/regtable_mqtt.c:57-80 | the checks on one entry, the search for an earlier namesake included |
| `Mqtt.CheckTable` | src/regtable_mqtt.c:45-81 | accepts exactly lawful prefixes and tables of which every entry passes |
| `Mqtt.NoIdentityFits` | src/regtable_mqtt.c:292-304 | a NULL identity's $id takes at most 84 characters and so always fits |
| `Mqtt.HeadSendable` | src/regtable_mqtt.c:325-339 | descriptor and identity fit their buffers whenever Init and SetIdentity accepted |
| `Mqtt.MetaWhole` | src/regtable_mqtt.c:341-353 | every meta of an accepted table fits, is closed by its trailer, and has its description in full or not at all |
| `Mqtt.RegMqtt.Init` | src/regtable_mqtt.c:39-90 | accepts exactly what CheckTable does; nothing is synced, no identity set; a refusal changes nothing |
| `Mqtt.RegMqtt.SetIdentity` | src/regtable_mqtt.c:95-107 | accepts exactly the identities whose $id fits; a refusal keeps the old one |
| `Mqtt.RegMqtt.SetSynced` | src/regtable_mqtt.c:16-25 | adds or removes exactly that entry from the synced set |
| `Mqtt.RegMqtt.Offer` | src/regtable_mqtt.c:126-134 | the topic goes out untruncated; shadow and synced flag are updated as specified for each fate of the message |
| `Mqtt.RegMqtt.Poll` | src/regtable_mqtt.c:109-138 | the loop over words and shadow does what the specified poll does, and counts what was accepted |
| `Mqtt.RegMqtt.PublishAll` | src/regtable_mqtt.c:140-144 | forgets what is synced, then polls |
| `Mqtt.RegMqtt.Announce` | src/regtable_mqtt.c:316-355 | whatever the network does, exactly the count + 2 announcement messages are handed over, in order, none skipped, none cut |
| `Mqtt.RegMqtt.AnnounceMetas` | src/regtable_mqtt.c:341-353 | the metas of all entries, in table order |
| `Mqtt.AllAccepted` | src/regtable_mqtt.c:316-355 | the count announce returns is that of all messages exactly when every one was accepted, and 0 exactly when none was |
| `MqttRuns.AnnounceKeeps` | src/regtable_mqtt.c:316-355 | an announcement, whatever arrives of it, leaves every state topic as it is |
| `MqttRuns.SyncedMeansRetained` | src/regtable_mqtt.c:109-144 | in every state reachable by register changes, polls, full resends and announcements, with refused publishes delivered or not, a synced entry's retained payload is the text of its shadow |
| `JsonObject.ParseRender` | src/regtable_mqtt.c:248-281 | reading a flat JSON object gives back exactly the members it was written from |
| `MqttReadable.MetaReads` | src/regtable_mqtt.c:248-281 | a meta payload reads back as its entry: name, type, permission, index, limits, Modbus address, description if sent, fingerprint |
| `MqttReadable.DescriptorReads` | src/regtable_mqtt.c:328-329 | the descriptor reads back as count and fingerprint |
| `MqttReadable.IdentityReads` | src/regtable_mqtt.c:288-304 | $id reads back as device, fw, hash and chip, each there exactly when set and with its own string, then build, version, register count and fingerprint |
| `MqttReadable.Hex8Reads` | src/regtable_mqtt.c:240-241 | a fingerprint prints as eight lower-case hexadecimal digits that read as that number |
| `MqttRetained.Hex8Injective` | src/regtable_mqtt.c:240-241 | two fingerprints print alike exactly when they are equal |
| `MqttRetained.RunFrom` | src/regtable_mqtt.h:73-83 | whatever arrived, every retained message under $meta was announced by one of the builds |
| `MqttRetained.KeptDescribes` | src/regtable_mqtt.h:75-83 | a meta the host keeps belongs to the table the descriptor is about |
| `MqttRetained.NeverMixed` | src/regtable_mqtt.h:75-83 | for any builds announcing with any subset of their messages arriving: the host keeps nothing foreign to one announced table, and when complete has all of it, up to dropped descriptions, if equal fingerprints mean equal tables |
| `MqttRetained.FullAnnounceReconstructs` | src/regtable_mqtt.h:75-87 | after a fully accepted announce the host is complete and reconstructs exactly the current table |
| `MqttRetained.IdentityNow` | src/regtable_mqtt.c:333-339 | after a fully accepted announce the identity retained under prefix/$meta/$id reads back as that |
| `CliLine.LinesOfSent` | src/regtable_cli.c:532-576 | lines sent one after the other are executed exactly as sent |
| `CliLine.OutgrewNext` | src/regtable_cli.c:570-575 | a line counts as cut from the first moment it outgrows the buffer, whatever is erased later |
| `CliLine.TakenBack` | src/regtable_cli.c:559-568 | backspace and delete take back one character, and nothing on an empty line |
| `CliLine.EitherEnds` | src/regtable_cli.c:540 | newline and return both end a line |
| `CliLine.NextWord` | src/regtable_cli.c:237-245 | skipping blanks and scanning to the next blank finds the next word |
| `CliLine.SplitJoined` | src/regtable_cli.c:226-252 | splitting words joined by spaces gives the words back |
| `CliLine.BlankSeparates` | src/regtable_cli.c:237-245 | a space or a tab separates what comes before it from what comes after |
| `CliLine.WithoutFlagNext` | src/regtable_cli.c:247 | every word is kept in order, except the flag |
| `Cli.SkipBlanks` | src/regtable_cli.c:239 | stops at the first character that is not blank |
| `Cli.WordEnd` | src/regtable_cli.c:243-244 | stops at the first blank or the end |
| `Cli.TakeWord` | src/regtable_cli.c:245-249 | ends the word in place by a NUL, keeps it unless it is the flag, disturbs nothing found before |
| `Cli.Split` | src/regtable_cli.c:231-252 | argv points at the line's words in order with --json removed wherever it sits; too many exactly beyond four |
| `Cli.CommandFrom` | src/regtable_cli.c:495-502 | the first command of that name, with no earlier one, and none exactly when there is none |
| `Cli.FindCommand` | src/regtable_cli.c:495-502 | the search loop finds it |
| `Cli.RegCli.List` | src/regtable_cli.c:256-282 | reads every register once, in table order |
| `Cli.RegCli.Run` | src/regtable_cli.c:503-512 | each command has the specified effect and answer |
| `Cli.RegCli.Process` | src/regtable_cli.c:481-513 | a line does exactly what its words spell out: wrong argument counts and unknown commands change nothing |
| `Cli.RegCli.Edit` | src/regtable_cli.c:559-575 | the buffer keeps holding what was typed with backspaces applied, until the line is cut |
| `Cli.RegCli.EndLine` | src/regtable_cli.c:539-557 | runs the line read up to its first NUL, unless it is empty or was cut |
| `Cli.RegCli.Feed` | src/regtable_cli.c:532-576 | after any stream of bytes the lines executed are exactly those the stream amounts to; a line that ever outgrew the buffer is never executed, even if later erased |
| `Cli.LineFed` | src/regtable_cli.c:532-576 | a typed line of plain characters and a line end execute that line if it is shorter than the buffer, and otherwise change nothing and answer too long |
| `CliCommands.GetLine` | src/regtable_cli.c:297-314 | get answers with the value the register yields, on_read included, and changes nothing else |
| `CliCommands.InfoLine` | src/regtable_cli.c:326-370 | so does info |
| `CliCommands.ListLine` | src/regtable_cli.c:256-282 | list answers with what every register yields, in table order, and changes nothing else |
| `CliCommands.SetLine` | src/regtable_cli.c:316-324 | set writes the text to the register of that name |
| `CliCommands.UnknownName` | src/regtable_cli.c:298-302 | a name no register has is not found, and nothing changes |
| `CliCommands.InformationLine` | src/regtable_cli.c:503-512 | id, fetch and help touch no register |
| `CliCommands.MisfitLine` | src/regtable_cli.c:485-502 | neither does a line with more than four words or a command with a wrong count, whichever applies first |
| `CliCommands.UnknownLine` | src/regtable_cli.c:511 | nor a line whose first word is none of the seven commands |
| `CliJson.ErrorReads` | src/regtable_cli.c:207-213 | an error reads as one member with its message |
| `CliJson.GetReads` | src/regtable_cli.c:297-308 | the answer to get reads as one member with the register's number, truth value, or null |
| `CliJson.EntryReads` | src/regtable_cli.c:166-197 | a register's JSON reads as exactly its name, type, permission and value, and its limits, Modbus address and description as far as it has them |
| `Client.ArriveInOrder` | python/regtable/client.py:14-18 | whatever noise comes in between, answers stay in the order of their commands |
| `Client.ReadPairs` | python/regtable/client.py:395-409 | the reading loop gets the answer to the last line written, with no other answer left, or gives up |
| `Client.NoiseSkipped` | python/regtable/client.py:398-409 | seven lines of noise before an answer are read past, the eighth ends the connection |
| `Client.CmdPairs` | python/regtable/client.py:387-409 | one command: its own answer or none; a dead client writes nothing; giving up closes the transport once |
| `Client.SilentOnceDead` | python/regtable/client.py:373-409 | over any run, once a client gave up or was closed no further line is written, and the transport is closed exactly once |
| `Client.AnswersArePaired` | python/regtable/client.py:373-447 | over any run, with any delays, noise, timeouts and exceptions, every result is what the call makes of the device's answer to that very command; what that is, `ClientAnswers` says |
| `Client.RegtableClient.GiveUp` | python/regtable/client.py:373-385 | dead, transport closed |
| `Client.RegtableClient.CloseTransport` | python/regtable/client.py:655-663 | closes once; afterwards nothing |
| `Client.RegtableClient.SendCommand` | python/regtable/client.py:387-409 | the loop over at most eight lines refines the specified exchange |
| `Client.RegtableClient.CheckList` | python/regtable/client.py:449-472 | accepts exactly the lists all of whose entries have the right shape, and returns them with FLOAT values rounded to binary32 |
| `Client.RegtableClient.Do` | python/regtable/client.py:411-472 | answers of the wrong shape close the connection; refusals and values do not |
| `ClientAnswers.SetOutcome` | python/regtable/client.py:433-446 | against the device: a set is done exactly when the device's own write of that text to that register is, and otherwise raises RemoteError with the device's reason, each result its own |
| `ClientAnswers.GetOutcome` | python/regtable/client.py:420-431 | a get returns the number, truth value or float the register yields, on_read included; a float no host can read ends the connection |
| `ClientAnswers.GetUnknown` | python/regtable/client.py:424-425 | a name the device does not have raises RemoteError |
| `ClientAnswers.SnapshotOutcome` | python/regtable/client.py:449-472 | a snapshot holds every register in table order under its name with the value it yields, or ends the connection if some float has a value no host can read |
| `ClientAnswers.MalformedRefused` | python/regtable/client.py:411-472 | an answer of the wrong shape, missing, foreign or outside the type's domain, is never taken for an outcome |
| `ClientAnswers.SetInRun` | python/regtable/client.py:387-446 | over any run with any noise, delays and failures, a set ends with the connection or with the outcome of the device's write made on its own behalf |
| `ClientAnswers.GetInRun` | python/regtable/client.py:387-431 | and a get with the connection, or with what that register yielded on its own behalf |
| `ClientChecks.ChecksAgreeIff` | python/regtable/client.py:247-287 | for an integer register, the local check accepts exactly the integers the device makes a legal value of, if and only if the bounds fit the type |
| `ClientChecks.LimitBeyondType` | python/regtable/client.py:247-287 | a U8 limited to 300 by its table: the local check lets 256 out, the device takes no such value |
| `ClientChecks.CheckedIsTaken` | python/regtable/client.py:278-287 | what the check lets out is the very value the device parses, and legal; integers and bools |
| `ClientChecks.SetReachesRegister` | python/regtable/client.py:433-441 | the line a set sends makes the CLI write that text to that register |
| `ClientChecks.CheckedValueArrives` | python/regtable/client.py:528-534 | typed byte by byte into the line editor, the command of a checked value leaves the register reading as the number the caller gave if it is shorter than the buffer, and otherwise is dropped whole |
| `FloatChecks.FloatChecksAgreeIff` | python/regtable/client.py:259-277 | local check and device agree on a number for a FLOAT register if and only if it is not a nonzero one that rounds to a zero the register may hold |
| `FloatChecks.CheckedFloatIsTaken` | python/regtable/client.py:433-438 | the text of what the FLOAT check lets out parses to that very pattern, which is legal |
| `FloatChecks.TinyDisagrees` | python/regtable/client.py:272-273 | 1e-46: the host refuses to send what the device would store as zero |
| `Discover.ReadSchema` | python/regtable/client.py:547-567 | the loop over the listing yields the specified schema, or refuses at the first duplicate or malformed entry |
| `Discover.DiscoverTable` | python/regtable/client.py:539-571 | one command goes out; the schema is that of the device's answer to it, or the connection is closed, once |
| `Discover.FloatReadable` | python/regtable/client.py:238-245 | in_domain accepts the printed text of a finite binary32 exactly when it is not one of the two of largest magnitude |
| `Discover.PrintedOrder` | python/regtable/client.py:556-557 | printed numbers are in the order of the binary32 values printed |
| `Discover.ShapedIff` | python/regtable/client.py:449-472 | a register's listing passes the shape checks exactly when its value is in its type and, for FLOAT, finite and not of the largest magnitude |
| `Discover.ReadEntryIff` | python/regtable/client.py:548-567 | a register's listing becomes its schema entry exactly when its range is none, or one of such bounds in order on a type other than BOOL |
| `Discover.DiscoversTableIff` | python/regtable/client.py:539-571 | discover ends up with exactly the device's table if and only if every value and every range is such a one and names are distinct |
| `Discover.LargestRefused` | python/regtable/client.py:238-245 | the largest binary32 is a legal value and a bound of a FLOAT register, and a listing that holds it either way is refused |
| `Discover.DiscoveredFingerprint` | python/regtable/client.py:305-336 | of a discovered table the host hashes the device's bytes exactly when no FLOAT bound is a negative zero, and then its fingerprint is the device's |
| `Discover.DiscoveredChecksAgree` | python/regtable/client.py:278-287 | and the local check of an integer register accepts exactly what the device makes a legal value of |
| `Contract.Collect` | python/regtable/client.py:477-483 | the loop over the listing keeps the last register of each name and finds exactly the names listed twice |
| `Contract.Compare` | python/regtable/client.py:484-516 | the differences found are exactly those there are: names listed twice, missing, extra, and keys that differ |
| `Contract.NoDifferenceIff` | python/regtable/client.py:474-518 | there is none if and only if every register is listed once, under the schema's names, each the same key by key |
| `Contract.Verify` | python/regtable/client.py:474-518 | one command goes out; what is found of the device's answer to it is nothing exactly when there is no difference, or the connection is closed, once |
| `Contract.VerifiesIff` | python/regtable/client.py:474-518 | against a device's listing verify has nothing to report if and only if the device's names are distinct and the schema holds exactly its entries, FLOAT limits compared as numbers |
| `Generator.ValidateAll` | python/regtable/gen.py:412-511 | the loop over seen_names and spans accepts exactly when every register is fresh: own checks passed, no earlier namesake, no overlap |
| `Generator.Validate` | python/regtable/gen.py:382-511 | accepts exactly the non-empty lists within the entry limit of which that holds |
| `Generator.MapAccepted` | src/regtable_modbus.c:256-269 | regmb_init accepts the map of every accepted description |
| `CSource.LiteralOfCString` | python/regtable/gen.py:552-557 | a compiler, trigraphs and escapes included, reads back from what c_string writes any text without a newline |
| `CSource.CStringNext` | python/regtable/gen.py:556-557 | the three replacements escape each character on its own, none the output of another |
| `CSource.LiteralOfPlain` | python/regtable/gen.py:673 | a text written as it is, without backslash and question mark, reads as itself unless a newline or quote is in it, and then is no literal |
| `Generator.BuiltIff` | python/regtable/gen.py:664-692 | registers.c compiles if and only if every name is a full match, and then makes the table the description asks for |
| `Generator.NamesAccepted` | src/regtable_mqtt.c:57-76 | fully matched names of an accepted description are lawful topic levels and pairwise distinct |
| `Generator.EveryInitIff` | src/regtable_mqtt.c:45-81 | for every prefix and buffer sizes, an accepted description makes a device and every init accepts its table if and only if names are full matches, the prefix is lawful and every topic and metadata text fits |
| `Generator.BodySizeIs` | src/regtable_mqtt.c:248-269 | the length of a metadata body from its pieces |
| `Generator.BodyLength` | src/regtable_mqtt.c:240-246 | no body below index 100 takes more than 138 characters |
| `Generator.LongestBody` | src/regtable_mqtt.c:240-246 | the longest entry takes all 138 up to index 99, exactly the room there is, and 139 from index 100 on |
| `Generator.AcceptedIff` | src/regtable_mqtt.c:45-81 | at default sizes, under a prefix of at most 25 characters: if and only if names are full matches and bodies take at most 138 characters |
| `Generator.BelowHundredIff` | src/regtable_mqtt.c:45-81 | with at most a hundred registers: if and only if names are full matches |
| `Generator.AcceptedEverywhere` | python/regtable/gen.py:382-541 | so with fully matched names and at most a hundred registers the core, regmb_init and regmqtt_init accept what the generator accepts, at default sizes |
| `Generator.NewlineNameRefused` | python/regtable/gen.py:81 | one letter and a newline pass the generator, and registers.c does not compile |
| `Generator.LongBodyRefused` | src/regtable_mqtt.c:248-269 | 101 registers with fully matched names that the generator accepts and that compile, the last with a body of 139 characters: regmqtt_init of default size refuses the table |
| `Generator.StartsLegal` | python/regtable/gen.py:477-496 | a generated device starts with every register legal for its own checks, for any order-keeping rounding of its constants |
| `Describable.OrdinaryAccepted` | python/regtable/gen.py:412-511 | an entry without hooks whose name, description, limits, address and initial value a description can spell has a description, which is accepted and makes that very entry and value |
| `Describable.AcceptedIsOrdinary` | python/regtable/gen.py:412-511 | and under a fully matched name the generator accepts nothing else |
| `Describable.EveryTableDescribed` | python/regtable/gen.py:382-511 | so has every table of such entries with distinct names and a map regmb_init accepts: nothing ordinary is refused |
| `Generated.GeneratedVerifies` | python/regtable/client.py:474-518 | verify() of a generated client on its own device reports nothing if and only if C and Python read every FLOAT limit of the description as the same number |
| `Generated.GeneratedFingerprint` | python/regtable/gen.py:783-792 | generated client and generated device hash the same bytes if and only if C and Python round every FLOAT limit to the same pattern, and then compute the same fingerprint; negative zeros included |
| `Generated.HalfwayDiffers` | python/regtable/gen.py:546-549 | a description with a limit halfway between two binary32, rounded up from its shortest decimal by C and to even by Python, makes a client whose bytes differ and whose verify() reports its own device |
| `System.ExecuteGuarded` | src/regtable_cli.c:481-513 | no CLI line leaves a register in a state the core refuses |
| `System.PduGuarded` | src/regtable_modbus.c:229-245 | neither does any Modbus request |
| `System.MessageGuarded` | src/regtable_mqtt.c:146-171 | neither does any MQTT message |
| `System.PollReadsAll` | src/regtable_mqtt.c:115-118 | to the registers an MQTT poll is one read of each, in order |
| `System.RunGuarded` | src/regtable_core.c:187-249 | over any interleaving of CLI bytes, RTU frames, TCP ADUs, MQTT messages and polls, an entry without on_read changes only if writable, and then to a legal value |
| `System.StaysLegal` | src/regtable_core.c:187-249 | from legal values, every writable register stays in its type's domain and range, never NaN or infinite, and every read-only register without on_read keeps its variable |
| `System.RefusedWritesChangeNothing` | src/regtable_core.c:189-249 | a write refused over CLI, MQTT or Modbus 06 leaves variables and dirty bits exactly as they were |

## Left out

- NULL arguments of the C functions other than an unbound table handle and a NULL identity.
- Interrupts that write registers, volatile hardware pointers, and two entries sharing storage: the README assigns these to the application; the model gives every entry its own variable.
- What a synchronous hook may do: on_write and on_read may look at every variable but change none but the entry's own; on_change hooks may do anything except start another poll.
- Decimal formatting and reading of floats: `%.6g`, `%.9g`, `strtod` and rounding to binary32 are functions the model knows nothing about except where a lemma says so (a length, no comma or brace, a rounding that keeps order, zero and the largest numbers).
- Signalling NaNs, whose bits some processors change on a load.
- Characters beyond one byte in C: C strings are sequences of bytes. Host strings are encoded in UTF-8, and what compares the two sides requires ASCII texts, since the serial transport replaces other bytes before the host sees them.
- ModbusSlave.DoRead: the handlers return the response PDU as a value, and the envelope stores it in the caller's buffer; the buffer while a response is being assembled is not modelled.
- Cli.Split: pointers into the line are offsets, and a word is read out before it is compared.
- Cli.RegCli.Run: an answer is a value saying what is reported; its text is modelled only with --json, for results, values and registers; the plain text of every command, id, fetch and help, the line ends and the echo are not.
- ClientAnswers.SnapshotOutcome: the brackets and commas of the list around the registers' objects are not modelled; the host hears one object a register.
- CliJson.GetReads: how json.loads reads the text of a number that is not a plain integer is a function the model knows nothing about; what is asked of it is what `Discover.RoundTrips` says.
- AVR string placement, transports, clocks and threads.
- Asynchronous exceptions in the host client, which its handlers do not catch.
- Client.ArriveInOrder: that no line of noise parses as a JSON answer is an assumption of the pairing results; lines carry a tag saying which they are.
- Client.RegtableClient.SendCommand: the search for JSON within a line is that tag.
- Client.RegtableClient.Do: identity, watch and record are not modelled beyond the exchange they consist of.
- Contract.Compare: the order and wording of the differences, and an infinite or NaN bound on either side, which is taken for a difference.
- FloatChecks.FloatChecksAgreeIff: that strtod reads a number's text and rounds it to float as the host's f32 rounds the number is an assumption; limits are finite.
- Discover.DiscoversTableIff: that `%.9g` of a binary32 rounds back to that binary32 (a negative zero to zero), and prints the largest as 3.40282347e+38, is an assumption of the lemma.
- Generator.Validate: hooks, top-level keys and SVD blocks are not modelled, and reserved names are an arbitrary predicate; these checks only make the generator refuse more. Of what it emits, the table with its names and descriptions as C literals, the initial values and the client's schema are modelled.
- Generator.AcceptedEverywhere: the MQTT prefix is the application's; it is stated for prefixes of up to 25 characters, which leave room for the longest name, and for FLOAT texts of at most 15 characters, which is what `%.9g` produces.
- MqttRetained.NeverMixed: that different announced tables have different fingerprints is an assumption; a 32-bit hash cannot guarantee it.
- ModbusProps.WriteThenRead: registers with on_read in the span are excluded, since reading them samples anew.
- Registers.GetRawEffect: what on_read leaves is taken to be a value of the register's type that does not depend on the other variables' on_reads; `Registers.Yields` spells that out.
- Describable.EveryTableDescribed: subnormal floats, hooks and reserved names are outside what a description can say.
- Core.NoLostChange: an entry written directly and not marked is excluded until it is marked, as the library cannot see it.
- Example programs, the web panel, Markdown and Python emitters, YAML and SVD parsing.
