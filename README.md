# UOS-Interface hardware layer in Dafny

This project models the host side of UOS-Interface, the software that talks to UOS
microcontroller firmware over a serial link. It covers:

- the NPC packet codec: the LRC checksum and the `[0x3E, to, from, len, payload…, lrc, 0x3C]`
  frame;
- the USB serial transport (`NPCSerialPort`): its byte-stream parser, its read loop and its
  open/closed state;
- the capability schema: `UOS_SCHEMA`, `Pin`, `Device.get_compatible_pins`, the Arduino Nano 3
  definition and its aliases;
- the device orchestrator `UOSDevice`: definition look-up, construction, the lazy open/close
  bracket, validation, the wire path and the special-action path, checksum verification and the
  single retry;
- the legacy copy of the codec and orchestrator, with its connection-string split and its
  whole-packet checksum check;
- the two web-layer rules: `check_privileges`, and `check_required_args` in its current and its
  legacy form.

Files:

| file | module | contents |
|---|---|---|
| `outcomes.dfy` | `Outcomes` | `Option`, `Result`, `Outcome` and the Python exception kinds the code raises |
| `npc_codec.dfy` | `NpcCodec` | checksum, frame builder, `ComResult`, `InstructionArguments`, the base interface contract |
| `usb_serial.dfy` | `UsbSerial` | `decode_and_capture`, the `read_response` loop, class `NpcSerialPort` |
| `uos_config.dfy` | `UosConfig` | schema, `Pin`, class `Device`, the Nano 3 definition, class `Registry` of aliases |
| `uos_hardware.dfy` | `UosHardware` | definition look-up, the transport `Link`, checksum verification, class `UosDevice` |
| `legacy_hardware.dfy` | `LegacyHardware` | legacy codec contract, connection split, class `LegacyDevice` |
| `web_auth.dfy` | `WebAuth` | `check_privileges` |
| `api_util.dfy` | `ApiUtil` | `check_required_args`, current and legacy |

Modelling choices:

- **Transport.** The orchestrators talk to a transport through a `Link` value. A `Link` holds the
  replies the transport will give to each kind of call (open, close, execute, read, special
  action) and a trace of the calls made. The orchestrators are classes whose `link` field is
  updated in place. Each orchestrator method is proved equal to a specification function
  (`ExecuteSpec`, `LegacyExecuteSpec`). The lemmas about call order and counts are stated on
  that function's trace.
- **Serial reads.** The serial port reads a finite sequence of polls; each poll is a batch of
  bytes or a `SerialException`. The wall-clock timeout becomes the end of that sequence.
- **Integers.** Python's `& 0xFF` on an integer of either sign is the Euclidean remainder
  modulo 256, which is Dafny's `%`.
- **`get_npc_packet`.** It returns a `Result`. Its range guard checks only the upper bounds.
  An in-range negative address, or an in-range payload element outside 0..255, makes `bytes(...)`
  raise `ValueError`, and the model returns that error.
- **Transport names.** The code names transports in three ways: an `Interface` enum imported
  from a module that does not define it, plain strings in `config.py`, and the names
  `ComResult` and `COMresult` for one record. The model uses one `Interface = USB | STUB`
  datatype and one `ComResult` record.
- **`True` in `functions_enabled`.** A device definition passed in as an object rather than
  looked up by name keeps the value `True` there. Python treats that value as the address 1,
  and the model does the same (`WireAddress`).
- **Parser.** The parser follows the code rather than the written description of
  resynchronisation. After every byte, `read_response` adds one to the index, so the index -1
  ("hunting for a start byte") lasts for one byte only. A frame whose end byte is wrong
  restarts capture with that wrong byte as the first byte of the next packet, one place ahead
  of the index. The end offset of that packet is then read from the next frame's
  from-address instead of its length (`BadEndThenFrame`). A resynchronising parser that drops
  the bad frame whole is modelled beside it (`ResyncRoundTrip`; see "## Findings").

## Model

| member | source | states |
|---|---|---|
| NpcCodec.FailedResult | src/uosinterface/hardware/uosabstractions.py:14-22 | `ComResult(False, exception=...)` has status false, the given message and no packets |
| NpcCodec.RunningLrc | src/uosinterface/hardware/uosabstractions.py:162-164 | the running accumulator `(lrc + byte) & 0xFF` always stays within 0..255 |
| NpcCodec.Finalize | src/uosinterface/hardware/uosabstractions.py:165 | the finalisation yields the two's complement of the accumulator: accumulator plus result is 0 mod 256 |
| NpcCodec.FinalizeXorForm | src/uosinterface/hardware/uosabstractions.py:165 | the source's `((lrc ^ 0xFF) + 1) & 0xFF`, with `^` as Python's integer XOR, equals that two's complement for every accumulator value |
| NpcCodec.XorMask | src/uosinterface/hardware/uosabstractions.py:165 | XOR with the all-ones mask of k bits turns any k-bit number x into 2^k - 1 - x, by induction on k |
| NpcCodec.XorAllOnes | src/uosinterface/hardware/uosabstractions.py:165 | XOR with 0xFF on an octet is 255 minus the octet |
| NpcCodec.RunningLrcIsSumMod | src/uosinterface/hardware/uosabstractions.py:162-164 | the checksum loop's accumulator is the plain sum of the data mod 256 |
| NpcCodec.LrcCancels | src/uosinterface/hardware/uosabstractions.py:154-165 | LRC cancellation: the checksum is in 0..255 and the data plus its checksum sum to 0 mod 256 |
| NpcCodec.GetNpcChecksum | src/uosinterface/hardware/uosabstractions.py:154-165 | the checksum loop computes the LRC, a value in 0..255 that cancels the data's sum mod 256 |
| NpcCodec.KnownRunningLrcs | src/uosinterface/hardware/uosabstractions.py:162-164 | accumulator values for the test inputs, including the wrap-around of 256+256 |
| NpcCodec.KnownChecksums | src/tests/testhardware/test_package.py:158-204 | the test vectors: checksum([255]) = 1, [0] = 0, [0,1,1,1] = 253, [64,0,6,13,0,1,12,1,0] = 159, [256,256,0] = 0 |
| NpcCodec.GetNpcPacket | src/uosinterface/hardware/uosabstractions.py:131-151 | no bytes exactly when an address or the payload length is 256 or more; otherwise a frame with start, to, from, length, payload, LRC of everything from to-address through the payload, and end byte; `ValueError` exactly when the guard passes but a field is not an octet |
| NpcCodec.FrameChecksumCancels | src/uosinterface/hardware/uosabstractions.py:144-150 | in every built frame the LRC byte cancels `packet[1:-2]` mod 256 |
| NpcCodec.KnownPackets | src/tests/testhardware/test_package.py:95-117 | the test frames `>\x00\x01\x01\x01\xfd<`, `>\x40\x00\x06…\x9f<` and `b""` for addresses 256; a negative address raises `ValueError` |
| NpcCodec.BaseInterfaceCall | src/uosinterface/hardware/uosabstractions.py:47-127 | every operation of the base interface raises `UOSUnsupportedError`, and the message names the operation |
| UsbSerial.DecodeAndCapture | src/uosinterface/hardware/usbserial/__init__.py:227-257 | while hunting, only `>` starts a packet (index 0); inside a packet, bytes are appended until the end offset `5 + packet[3]`; there `<` completes the frame (-2) and any other byte restarts the packet with that byte (-1) |
| UsbSerial.ReadResult | src/uosinterface/hardware/usbserial/__init__.py:139-186 | a closed port reads nothing and fails; success means exactly the expected number of terminated frames with the ACK first; with no serial fault, a failure is the "did not receive all the expected data" shortfall with the partial packet appended |
| UsbSerial.StepKeeps | src/uosinterface/hardware/usbserial/__init__.py:160-175 | each byte step keeps the reader's state coherent: the ACK and every stored data packet are terminated frames, there is one data packet per frame after the ACK, and a finished reader holds exactly the expected number of frames |
| UsbSerial.FeedBatchKeeps | src/uosinterface/hardware/usbserial/__init__.py:160-175 | a whole batch of bytes keeps the reader's state coherent |
| UsbSerial.RunPollsKeeps | src/uosinterface/hardware/usbserial/__init__.py:155-186 | the poll loop keeps the reader's state coherent and, without serial faults, reports no exception |
| UsbSerial.FeedFrameTail | src/uosinterface/hardware/usbserial/__init__.py:160-175 | feeding the rest of a started frame ends in the state after that frame, whatever follows |
| UsbSerial.FeedFrame | src/uosinterface/hardware/usbserial/__init__.py:160-175 | a whole frame fed to a reader that is ready for one is captured and stored |
| UsbSerial.FeedFrames | src/uosinterface/hardware/usbserial/__init__.py:160-175 | a run of frames is captured one after another, in arrival order |
| UsbSerial.CollectedAfterFirst | src/uosinterface/hardware/usbserial/__init__.py:165-170 | the first completed frame becomes the ACK and later ones are appended to the data packets |
| UsbSerial.FeedBatchAppend | src/uosinterface/hardware/usbserial/__init__.py:156-175 | splitting the byte stream into batches does not change what is parsed |
| UsbSerial.RunPollsIsFeed | src/uosinterface/hardware/usbserial/__init__.py:155-176 | without faults, the poll loop parses the concatenated byte stream |
| UsbSerial.NoiseByteDropped | src/uosinterface/hardware/usbserial/__init__.py:153-175 | a single byte other than `>` before the first frame is dropped |
| UsbSerial.FeedExpectedFrames | src/uosinterface/hardware/usbserial/__init__.py:153-175 | the expected frames, after at most one noise byte, leave the reader complete, with the first frame as ACK and the rest as data, and without reading further bytes |
| UsbSerial.ReadFramesRoundTrip | src/uosinterface/hardware/usbserial/__init__.py:139-183 | round trip: frames written to the wire are read back as exactly those frames, ACK first, with status true |
| UsbSerial.EncodeThenRead | src/uosinterface/hardware/usbserial/__init__.py:139-183 | encoder and parser agree: any non-empty frame `get_npc_packet` builds, delivered in any split of fault-free polls, is read back as the ACK of a one-packet read with status true |
| UsbSerial.LaggedTail | src/uosinterface/hardware/usbserial/__init__.py:242-256 | after a bad end byte the packet holds one byte more than its index, so the end byte is expected at `6 + f[2]` bytes into the next frame `f`: the packet closes there, or is still open when `f` is shorter |
| UsbSerial.BadEndThenFrame | src/uosinterface/hardware/usbserial/__init__.py:249-256 | after a frame with a wrong end byte `b`, a well-formed next frame `f` is stored as `[b] + f` exactly when its from-address equals its payload length; a larger from-address swallows `f`'s end byte and keeps capturing, a smaller one closes the packet early |
| UsbSerial.CorruptEndLosesNextFrame | src/uosinterface/hardware/usbserial/__init__.py:139-186 | a corrupted frame from address 1 followed by an intact frame from address 2 makes a one-packet read fail with the shortfall message, while the resynchronising parser reads the intact frame as the ACK |
| UsbSerial.ResyncFrameTail | src/uosinterface/hardware/usbserial/__init__.py:242-256 | the resynchronising parser consumes the rest of a framed run and then stores it (end byte right) or drops it whole (end byte wrong) |
| UsbSerial.ResyncFrame | src/uosinterface/hardware/usbserial/__init__.py:227-256 | from a frame boundary, the resynchronising parser consumes a framed run whole and stores or drops it |
| UsbSerial.ResyncFrames | src/uosinterface/hardware/usbserial/__init__.py:153-175 | from a frame boundary, the resynchronising parser collects a run of well-formed frames as the as-written parser does |
| UsbSerial.ResyncRoundTrip | src/uosinterface/hardware/usbserial/__init__.py:249-256 | round trip after corruption: a garbled frame followed by the expected well-formed frames reads back exactly those frames, ACK first, with status true |
| UsbSerial.FeedShort | src/uosinterface/hardware/usbserial/__init__.py:242-256 | the bytes of a packet's first positions are appended without finishing it |
| UsbSerial.ShortfallKeepsPartial | src/uosinterface/hardware/usbserial/__init__.py:178-181 | when fewer frames arrive than expected, status is false, the exception is the shortfall message and the partial packet is appended |
| UsbSerial.NpcSerialPort.constructor | src/uosinterface/hardware/usbserial/__init__.py:36-49 | a new port is closed, records whether the port was found, and has written nothing |
| UsbSerial.NpcSerialPort.Open | src/uosinterface/hardware/usbserial/__init__.py:51-93 | opening succeeds exactly when the port is present and opening does not fault, and then holds a device at the configured or default baud rate |
| UsbSerial.NpcSerialPort.Close | src/uosinterface/hardware/usbserial/__init__.py:95-114 | closing a closed port succeeds and changes nothing; closing an open port always clears the device and fails only on a fault |
| UsbSerial.NpcSerialPort.ExecuteInstruction | src/uosinterface/hardware/usbserial/__init__.py:116-137 | a closed port fails with "Connection must be opened first." and writes nothing; an open port writes `get_npc_packet(address, 0, payload)` once, resets the output buffer once, and reports success exactly when every byte was written |
| UsbSerial.NpcSerialPort.ReadResponse | src/uosinterface/hardware/usbserial/__init__.py:139-186 | the nested read loop computes `ReadResult` for the current open state |
| UsbSerial.NpcSerialPort.HardReset | src/uosinterface/hardware/usbserial/__init__.py:188-201 | a closed port fails; an open port toggles DTR twice, so DTR ends where it started, and succeeds |
| UosConfig.SchemaAddresses | src/uosinterface/hardware/config.py:22-53 | every schema address table is keyed by volatility 0 alone, and `hard_reset` is the only function with a negative address |
| UosConfig.WireAddress | src/uosinterface/hardware/__init__.py:318-322 | a resolved entry stands for its address; an unresolved `True` stands for 1 |
| UosConfig.Device.constructor | src/uosinterface/hardware/config.py:79-87 | a device definition holds exactly the given name, interfaces, function table, pins and auxiliary parameters |
| UosConfig.Device.GetCompatiblePins | src/uosinterface/hardware/config.py:89-107 | an unknown function raises `UOSUnsupportedError`; no pins when requirements are None; otherwise a sub-map of the analogue pins if `adc_in` is required, else of the digital pins, whose pins have every required attribute |
| UosConfig.CompatiblePinsAreWholeMap | src/uosinterface/hardware/config.py:63-107 | since `hasattr` holds for every `Pin` field name, the result is the whole selected pin map |
| UosConfig.NanoFunctionsConsistent | src/uosinterface/hardware/config.py:113-121 | the Nano enables exactly the schema's functions, each at volatility 0 only |
| UosConfig.NanoDigitalPinRange | src/uosinterface/hardware/config.py:122-207 | the Nano's digital pins are 2 to 19, all able to drive outputs |
| UosConfig.NanoAnaloguePinRange | src/uosinterface/hardware/config.py:208-218 | the Nano's analogue pins are 0 to 8, all with an ADC |
| UosConfig.NanoOutputPins | src/tests/testhardware/test_config.py:17-27 | on the Nano, the pins offered to `set_gpio_output` are exactly digital pins 2 to 19, all with `gpio_out` |
| UosConfig.NanoAdcPins | src/tests/testhardware/test_config.py:17-27 | on the Nano, the pins offered to `get_adc_input` are exactly analogue pins 0 to 8, all with `adc_in` |
| UosConfig.PinlessFunctions | src/tests/testhardware/test_config.py:29-34 | `hard_reset`, `reset_all_io` and `get_system_info` are offered no pins; an unknown name is refused |
| UosConfig.Registry.constructor | src/uosinterface/hardware/config.py:110-226 | the three aliases all refer to one Nano 3 object, which starts with every function set to `True` |
| UosHardware.Upper | src/uosinterface/hardware/__init__.py:44 | `str.upper()` keeps the length and upper-cases each character in place |
| UosHardware.UpperIdempotent | src/uosinterface/hardware/__init__.py:44 | upper-casing twice is upper-casing once |
| UosHardware.ResolveIdempotent | src/uosinterface/hardware/__init__.py:46-50 | resolution keeps every function and volatility key and maps each to its schema address; the result is still consistent, and resolving again changes nothing |
| UosHardware.ResolveSingleVolatility | src/uosinterface/hardware/__init__.py:46-50 | a table enabling every function at volatility 0 alone resolves each to that volatility on its schema address |
| UosHardware.NanoResolved | src/uosinterface/hardware/__init__.py:46-50 | after look-up, each Nano function maps volatility 0 to its schema address, and only `hard_reset` has a negative address |
| UosHardware.GetDeviceDefinition | src/uosinterface/hardware/__init__.py:36-53 | a definition is found exactly when the upper-cased identity is an alias; it is the shared Nano object, whose function table has been resolved in place; otherwise nothing changes |
| UosHardware.CheckPacketsMeaning | src/uosinterface/hardware/__init__.py:329-347 | the checksum loop raises `IndexError` exactly when a packet is shorter than 2 bytes; otherwise status is the read status AND every packet's checksum matching its `packet[-2]` |
| UosHardware.VerifyChecksums | src/uosinterface/hardware/__init__.py:329-347 | the loop over the ACK and data packets computes that verification |
| UosHardware.EncodedFramePasses | src/uosinterface/hardware/__init__.py:337-347 | every frame `get_npc_packet` builds passes the `packet[1:-2]` check |
| UosHardware.WellFormedResponsePasses | src/uosinterface/hardware/__init__.py:329-347 | a response made of well-formed frames keeps its status through verification |
| UosHardware.CorruptedByteFails | src/uosinterface/hardware/__init__.py:337-347 | the `packet[1:-2]` check detects every single-byte corruption of an encoded frame: changing any byte from the to-address through the checksum byte to another octet makes it fail |
| UosHardware.CorruptedFrameFails | src/uosinterface/hardware/__init__.py:337-347 | the tests' frame of payload `[1]` with its payload byte changed to 2 fails the check, an instance of the general lemma |
| UosHardware.Validate | src/uosinterface/hardware/__init__.py:300-314 | an instruction is accepted exactly when the function and volatility are enabled and any pin to check is compatible; a refusal is `UOSUnsupportedError` |
| UosHardware.WirePathCalls | src/uosinterface/hardware/__init__.py:318-328 | the wire path transmits once and reads `(expected_rx_packets, 2)` only after a successful transmit |
| UosHardware.AttemptCalls | src/uosinterface/hardware/__init__.py:315-351 | one attempt makes at most one transmission, never more reads than transmissions, and a read exactly when the open succeeded, the address is non-negative and the transmit succeeded; an eager device neither opens nor closes; a lazy one opens first and, on success, closes last |
| UosHardware.WirePathResult | src/uosinterface/hardware/__init__.py:318-347 | a successful wire result is the read response with every checksum matching; such a response is always returned as is |
| UosHardware.ValidationFirst | src/uosinterface/hardware/__init__.py:300-314 | a refused instruction raises before any transport call |
| UosHardware.ExecuteCalls | src/uosinterface/hardware/__init__.py:282-358 | a public call makes at most two transmissions with retry (one without), never more reads than transmissions; eager devices never open or close; a lazy success closes as often as it opens |
| UosHardware.RetryOnce | src/uosinterface/hardware/__init__.py:352-358 | an attempt that raises or succeeds is final; a failed one is retried exactly once and the second result is returned; a final failure made exactly two transmissions |
| UosHardware.SuccessfulAttemptTransmits | src/uosinterface/hardware/__init__.py:318-349 | an attempt that returns made exactly one transmission |
| UosHardware.UosDevice.constructor | src/uosinterface/hardware/__init__.py:93-131 | the device records its identity, address, definition, interface, loading mode, baud rate and transport |
| UosHardware.UosDevice.Create | src/uosinterface/hardware/__init__.py:93-131 | no definition raises `UOSUnsupportedError`; an interface the device lacks raises `UOSCommunicationError`; a missing default baud rate raises `KeyError`; an eager device opens during construction and a failed open raises; only a named alias resolves the shared table |
| UosHardware.UosDevice.Open | src/uosinterface/hardware/__init__.py:258-268 | `UOSCommunicationError` exactly when the transport's open returns false |
| UosHardware.UosDevice.Close | src/uosinterface/hardware/__init__.py:270-280 | `UOSCommunicationError` exactly when the transport's close returns false |
| UosHardware.UosDevice.ExecuteInstruction | src/uosinterface/hardware/__init__.py:282-358 | the method's result and the transport's new state are those of `ExecuteSpec`: validation, the lazy bracket, the wire or special path, checksum verification and one retry |
| UosHardware.UosDevice.Perform | src/uosinterface/hardware/__init__.py:134-256 | each public instruction runs the orchestrator with its own function name and arguments, with retry |
| UosHardware.ArgumentsFollowSchema | src/uosinterface/hardware/__init__.py:134-256 | each public instruction asks for one ACK plus the schema's data frames, checks a pin exactly when the schema has pin requirements, and fixes the payload elements the schema fixes |
| UosHardware.NanoOutputEnabled | src/uosinterface/hardware/config.py:113-121 | before and after look-up, the Nano enables `set_gpio_output` at volatility 0 alone |
| UosHardware.NanoOutputValidation | src/uosinterface/hardware/__init__.py:300-314 | on the Nano, `set_gpio_output` passes validation exactly at volatility 0 on pins 2 to 19 |
| LegacyHardware.LegacyBaseCall | src/UARTOSInterface/HardwareCOM/UOSInterface.py:11-62 | every legacy base operation raises `NotImplementedError`, with the current message |
| LegacyHardware.LegacyPacketContract | src/UARTOSInterface/HardwareCOM/UOSInterface.py:66-80 | the legacy builder, written with its own `bytes(...)` octet check, equals the current codec on every input: empty outside the guard, `ValueError` for an in-range field that is not an octet, otherwise the same frame |
| LegacyHardware.Split | src/UARTOSInterface/HardwareCOM/__init__.py:53 | `str.split(sep)` always yields at least one part |
| LegacyHardware.SplitJoin | src/UARTOSInterface/HardwareCOM/__init__.py:53 | split yields one more part than separators, no part contains the separator, and joining the parts gives back the string |
| LegacyHardware.WellFormedConnection | src/UARTOSInterface/HardwareCOM/__init__.py:53-57 | `"USB\|" + port`, for any port text without a separator (such as the tests' `/dev/ttyUSB0`), splits into exactly the interface and the port |
| LegacyHardware.OverlongConnection | src/UARTOSInterface/HardwareCOM/__init__.py:53-55 | `"USB\|" + port + "\|" + extra` splits into three parts, so construction raises `ValueError` |
| LegacyHardware.LoadingModes | src/UARTOSInterface/HardwareCOM/__init__.py:172-178 | lazy is an absent or upper-case "LAZY" loading, eager an upper-case "EAGER"; other values are neither |
| LegacyHardware.LegacyValidate | src/UARTOSInterface/HardwareCOM/__init__.py:141-145 | accepted exactly when the function and volatility are in the table; a refusal is `NotImplementedError` |
| LegacyHardware.LegacyWirePathCalls | src/UARTOSInterface/HardwareCOM/__init__.py:148-156 | a missing payload raises before transmitting; a read follows only a successful transmit with `expected_packets` present |
| LegacyHardware.LegacyValidationFirst | src/UARTOSInterface/HardwareCOM/__init__.py:141-147 | a refused instruction raises `NotImplementedError` before the device is opened |
| LegacyHardware.LegacyExecuteCalls | src/UARTOSInterface/HardwareCOM/__init__.py:133-170 | no retry: at most one transmission per call, reads only after a successful transmit; eager devices never open or close; a lazy success opens once and closes once, last |
| LegacyHardware.WholePacketCheckAsWritten | src/UARTOSInterface/HardwareCOM/__init__.py:159-165 | on a well-formed frame the whole-packet checksum is always 134, so the check passes only when the frame's LRC byte happens to be 134 |
| LegacyHardware.WholePacketRejectsValidFrame | src/UARTOSInterface/HardwareCOM/__init__.py:159-165 | the codec's own frame for (0, 1, [1]) fails the whole-packet check but passes the `packet[1:-2]` check |
| LegacyHardware.LegacyDevice.constructor | src/UARTOSInterface/HardwareCOM/__init__.py:38-47 | the device records its identity, connection, table, loading mode, port and transport |
| LegacyHardware.LegacyInitAsWritten | src/UARTOSInterface/HardwareCOM/__init__.py:38-58 | the constructor as written always raises: the same refusals as `Create` for a missing table, a bad split and a non-USB interface, and `TypeError` exactly when all three guards pass, because the imported serial driver class cannot be instantiated |
| LegacyHardware.UsbConstructionRaises | src/UARTOSInterface/HardwareCOM/__init__.py:53-55 | every `"USB\|" + port` with a port free of separators, such as the tests' `USB\|/dev/ttyUSB0`, passes the guards and makes the as-written constructor raise `TypeError` |
| LegacyHardware.LegacyDevice.Create | src/UARTOSInterface/HardwareCOM/__init__.py:38-62 | the constructor as intended: an empty table raises `NotImplementedError` before the string is parsed; a split into other than two parts raises `ValueError` naming the count; a first part other than USB raises `AttributeError`; otherwise a device bound to the port is made, and an eager device opens during construction |
| LegacyHardware.LegacyDevice.Open | src/UARTOSInterface/HardwareCOM/__init__.py:114-123 | `RuntimeError` exactly when the transport's open returns false |
| LegacyHardware.LegacyDevice.Close | src/UARTOSInterface/HardwareCOM/__init__.py:125-131 | `RuntimeError` exactly when the transport's close returns false |
| LegacyHardware.LegacyDevice.ExecuteInstruction | src/UARTOSInterface/HardwareCOM/__init__.py:133-170 | the method's result and the transport's new state are those of `LegacyExecuteSpec` |
| LegacyHardware.LegacyDevice.Perform | src/UARTOSInterface/HardwareCOM/__init__.py:64-112 | each legacy public instruction behaves as `LegacyPerformSpec` says |
| LegacyHardware.LegacyBrokenInstructions | src/UARTOSInterface/HardwareCOM/__init__.py:100-112 | `get_adc_input` and `reset_all_io` raise `TypeError` without touching the transport; `hard_reset` always ends in an error |
| WebAuth.CheckPrivileges | src/uosinterface/webapp/auth/__init__.py:62-91 | access is granted exactly by the rule, and privileges are looked up exactly when the user is signed in and the view names privileges |
| WebAuth.SignedOutRefused | src/uosinterface/webapp/auth/__init__.py:74-75 | a signed-out user is refused |
| WebAuth.AdminSeesEverything | src/uosinterface/webapp/auth/__init__.py:84-90 | a signed-in ADMIN is granted every view |
| WebAuth.MorePrivilegesNeverRefuse | src/uosinterface/webapp/auth/__init__.py:84-90 | naming more privileges on a view never refuses a user it let in, and the order of held privileges does not matter |
| WebAuth.OrdinaryUser | src/uosinterface/webapp/auth/__init__.py:84-91 | a signed-in user without ADMIN is let into a view that names privileges exactly when holding one of them |
| WebAuth.AuthorisationCases | src/tests/testwebapp/test_auth/test_package.py:20-34 | the test's first four situations (empty list, named privilege, ADMIN, signed out) and, fifth, the outcome its last case evidently intends: a privilege the user does not hold is refused |
| ApiUtil.Put | src/uosinterface/webapp/api/util.py:31-37 | `dict(d, **{k: v})` keeps the key order well formed and sets the key |
| ApiUtil.Prepared | src/uosinterface/webapp/api/util.py:30-37 | adding the device arguments yields a well-formed table |
| ApiUtil.PreparedAddsDeviceArguments | src/uosinterface/webapp/api/util.py:30-37 | with `add_device`, a new table has the caller's keys plus `identity` and `connection` as required strings, and every other argument is unchanged |
| ApiUtil.CheckRequiredArgs | src/uosinterface/webapp/api/util.py:26-62 | the loop computes the check over the table with the device arguments added |
| ApiUtil.VetKeeps | src/uosinterface/webapp/api/util.py:39-52 | the keys and their order are kept, and no argument before the current position is touched |
| ApiUtil.VetSkipsOptional | src/uosinterface/webapp/api/util.py:47-48 | an argument that is not required is never given a value, even when the request has it |
| ApiUtil.VetStatus | src/uosinterface/webapp/api/util.py:39-62 | the check succeeds exactly when every required argument is present and converts |
| ApiUtil.VetStores | src/uosinterface/webapp/api/util.py:49-52 | each required argument up to the first one rejected holds `arg_type(found)`, even when the check then fails |
| ApiUtil.VetFails | src/uosinterface/webapp/api/util.py:40-61 | a failure names the first rejected argument in key order, with the missing-argument or type message |
| ApiUtil.FirstMissingNamed | src/uosinterface/webapp/api/util.py:40-46 | of two missing required arguments, the first in key order is named |
| ApiUtil.LegacyCheckRequiredArgs | src/UARTOSInterface/WebApp/API/util.py:4-13 | the legacy loop computes the legacy check |
| ApiUtil.LegacyVetKeeps | src/UARTOSInterface/WebApp/API/util.py:5-12 | the legacy check keeps the keys and their order and never touches an argument before the current position |
| ApiUtil.LegacyVetStatus | src/UARTOSInterface/WebApp/API/util.py:5-13 | the legacy check succeeds exactly when every declared argument is present, required or not; a failure names the first missing one |
| ApiUtil.LegacyVetStores | src/UARTOSInterface/WebApp/API/util.py:5-12 | every argument up to the first missing one holds the request's value unconverted, and keeps it after the failure |
| ApiUtil.CurrentRefinesLegacy | src/uosinterface/webapp/api/util.py:39-62 | with every argument required and conversion as the identity, the current check behaves as the legacy one |

## Left out

- UosHardware.UosDevice.Create: the STUB transport's `errored` keyword is not a parameter. A stub
  that errors is a `Link` whose scripted replies fail. `Identity.Missing` stands for an identity
  that is neither a name nor a definition, which finds no definition.
- Serial plumbing: `serial.Serial` stays outside the model, along with the port-listing scan
  (`check_port_exists`, `enumerate_devices`, `enumerate_system_devices`), the termios HUPCL
  workaround in `open`, `time_ns`, `sleep` and the 0.2 s DTR hold. Flags passed to the methods
  stand for what they observe: whether the port is listed, whether opening, closing or writing
  faults, and how many bytes were written.
- `NPCStub` is not part of this model. Its place is taken by the `Link` transport abstraction,
  so the STUB interface connects through the same `Link`.
- Special actions: `getattr(self.__device_interface, function_name)()` becomes the datatype
  `SpecialAction`, whose one member is `hard_reset`. Any other name gives `AttributeError`.
- UosHardware.Upper: upper-cases ASCII letters only; Unicode case mapping is not modelled.
- Error messages show an identity given as a definition object by its name, not by Python's
  `repr` of the object.
- `aux_data` of `COMresult`, and `com_data` of `APIresult`, are not modelled.
- The legacy `_locate_device_definition` reads an ini file with ConfigParser and
  `literal_eval`. The legacy device takes its look-up table as an input instead.
- LegacyHardware.LegacyDevice.Create: models the constructor as its tests intend it, with the
  device bound to a `Link` transport that honours the `UOSInterface` contract. The serial
  driver class actually imported (src/UARTOSInterface/HardwareCOM/USBSerialDriver/__init__.py)
  cannot be built (see "## Findings"). Its `execute_instruction` returns a tuple and its
  `read_response` returns nothing, so the legacy instruction path is modelled against the
  interface contract, not against that driver.
- LegacyHardware.LegacyInitAsWritten: the `TypeError` message is CPython 3.8's wording for an
  abstract class; later versions word it differently. Only the kind is stated as a property.
- LegacyHardware.LegacyDevice.Open: the `AttributeError` branch for a missing transport cannot
  be reached, because construction always builds a serial transport or raises first.
- Logging (`Log(...)`, `register_logs`) is left out; it has no effect on results.
- `check_required_args` is modelled on values. The argument table is returned as a new value,
  so sharing of the caller's `APIargument` objects between the input and output dictionaries
  (aliasing) is not captured. The type constructor `arg_type(value)` becomes a `Converter`
  function given as a parameter; `None` stands for `ValueError`. An exception other than
  `ValueError` from the constructor is not modelled.
- `check_privileges` reads privileges through `get_user_privileges`. That database query is
  replaced by a function parameter from user id to privilege names. The last test case names
  `PrivilegeNames.READ`, a member the enum (src/uosinterface/webapp/auth/__init__.py:22-25)
  does not define, so it raises `AttributeError` before `check_privileges` is called.
  `AuthorisationCases` states the outcome that case evidently intends, with a name the user
  does not hold: it is refused.
- The web routing, forms, database layer and browser scripts are not part of this model.

## Findings

| source | as written | input that shows it | evidently intended | confidence | as-written member | corrected member |
|---|---|---|---|---|---|---|
| src/UARTOSInterface/HardwareCOM/__init__.py:161-165 | the legacy orchestrator checks `get_npc_checksum(packet) == packet[-2]` over the whole packet, start byte, LRC and end byte included; for any well-formed frame that checksum is 134, so every frame whose LRC is not 134 is rejected | the frame `get_npc_packet(0, 1, (1,))` = `>\x00\x01\x01\x01\xfd<` read back as the ACK turns a successful read into status false, on a device constructed as intended (see the next row) | check the LRC over `packet[1:-2]`, as the current orchestrator does (src/uosinterface/hardware/__init__.py:337-339) | high; not executed | LegacyHardware.WholePacketCheckAsWritten, LegacyHardware.WholePacketRejectsValidFrame | UosHardware.EncodedFramePasses, UosHardware.WellFormedResponsePasses |
| src/UARTOSInterface/HardwareCOM/__init__.py:57 | the legacy `__init__` builds `NPCSerialPort(connection_params[1], baudrate=...)`, but the class imported is the one in src/UARTOSInterface/HardwareCOM/USBSerialDriver/__init__.py, which leaves the interface's abstract `hard_reset` unimplemented (and takes no `baudrate`), so the call raises `TypeError` and no legacy device is ever constructed | `UOSDevice(identity="Arduino Nano 3", connection="USB\|/dev/ttyUSB0")`, the construction the package test expects to succeed | construct the device on a serial transport that implements the interface | high; not executed | LegacyHardware.LegacyInitAsWritten, LegacyHardware.UsbConstructionRaises | LegacyHardware.LegacyDevice.Create |
| src/uosinterface/hardware/usbserial/__init__.py:249-256 | when the end byte is wrong, `decode_and_capture` resets the index to -1 and the packet to empty, then appends the wrong byte anyway; `read_response` then adds one to the index, so the next packet's bytes sit one place ahead of the index, and its end offset is read from the from-address byte instead of the length byte | a one-packet read of `>\x00\x01\x01\x01\xfd\x00` (a frame whose end byte was lost) followed by the intact frame `>\x00\x02\x01\x01\xfc<` swallows the intact frame's end byte and returns status false with the shortfall message | drop the bad packet and go back to hunting, so that later valid frames are read at their own offsets | high; not executed | UsbSerial.BadEndThenFrame, UsbSerial.CorruptEndLosesNextFrame | UsbSerial.ResyncRoundTrip |
