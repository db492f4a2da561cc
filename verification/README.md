# Fuzzing harness verification

A Dafny model of the code this repository puts around its fuzz targets, and proofs about it. Four
parts of the repository are modelled:

- **MQTT fuzz transport and seed encoder** (`examples/10_afl_mqtt`). `RemainingLength`, `Packets`,
  `Framing`, `PublishCodec` and `AckCodec` model the encoder of `gen_seeds.py`; `TransportSpec`, `Transport`,
  `TransportRuns`, `Autopilot`, `Interleaving`, `Subscriptions` and `DynamicMode` model
  `esp_transport_fuzz.c`. The two are halves of
  one protocol: the transport decodes the lengths the encoder writes, its canned replies are packets
  the encoder builds, and its dynamic mode undoes the selector prefix of the seed writer.
- **lwIP fuzz pool and generator** (`examples/09_aflnet_dhcp_server/fuzz_common.c`). `PoolSpec`,
  `FuzzPool`, `PoolRuns` and `PoolInterference` model the cursor that the framing loop shares with
  the TCP and UDP callbacks; `FuzzRand` models the linear congruential generator.
- **IoT message parser** (`projects/sample/iot_parser.c`). `CStrings`, `IotParser` and `FlatJson`.
- **Event groups** (`examples/10_afl_mqtt/mocks/include/freertos/event_groups.h`).
  `EventGroupSpec`, `EventGroupRuns`, `EventGroupAtomic` and `EventGroupProgress` model the mock as a
  state machine over sets of bits; `EventGroup` is the C code line by line, on `Mask32` masks and the
  queue of the condition variable, and refines it; `EventGroupRest` runs it until nothing can move.

`Bytes` holds the shared datatypes, and `Bits` defines the bitwise operators and proves what the
masks in the code compute.

Where the C code changes fields or buffers in place, the model is a class whose methods do the same
and are proved against a function on values (`FuzzTransport` against `TransportSpec.Step`, `Cursor`
against `PoolSpec`, `Generator` against `FuzzRand.After`), or executed line by line as a refinement of
a state machine that knows no masks, lines or queue (`Group` of `EventGroupSpec.Next`). The
properties of whole runs are lemmas about those functions, and the class invariants say that every
object is where a run of the function leads.

How the environment enters the model:

- `realloc` inside a transport write may fail: each `Write` carries the outcome as `grown`.
- `netif->input` runs any finite sequence of the two `*_app_fuzz_input` callbacks: `env(i)` is the
  sequence of turn `i`, and every statement holds for every `env`.
- `pbuf_alloc` returns any chain of fresh segments whose lengths sum to the request.
- `sys_check_timeouts` consumes no pool bytes. `LWIP_FUZZ_SYS_NOW` is defined.
- Threads of an event group are interleaved line by line, with spurious wakeups.

Facts of the code that its documentation does not show, and which the model keeps: with autopilot on,
PINGREQ is answered in every mode, although `examples/10_afl_mqtt/README.md` says that handshake mode
never replies (`Autopilot.HandshakeAnswersPing` is the input, `Autopilot.HandshakeSilentExactly` the
exact condition); writes queue replies before any connect and close discards nothing; `poll_read` looks
at the input only; a reply queued while an input packet is half read comes out in the middle of it
(`Interleaving.SplicedReply`; `Interleaving.UnbrokenExactly` is the exact condition, and
`Interleaving.SplicedUnnoticed` shows that the bytes alone need not betray it); a SUBACK carries one
return code whatever was subscribed to (`Subscriptions.OneReturnCode`); values stored under a JSON key
are found exactly when the key has at most 32 characters (`FlatJson.KeyLimit`; at 33 every value is
lost, `FlatJson.OneOverTheLimit`); and the search for a key such as ":" stops between two strings
(`FlatJson.KeyExact` says which keys are safe in every object); and a number loses what follows its
integer part, 23.5 in the sample message becoming "23" (`FlatJson.SampleTemperature`).

`dafny verify dfyconfig.toml` checks the whole project.

## Model

| member | source | states |
|---|---|---|
| RemainingLength.EncRemainingLength | examples/10_afl_mqtt/gen_seeds.py:28-40 | the encoder loop raises on a negative length and otherwise returns the base-128 groups of n, least significant first, with continuation bits |
| RemainingLength.ParseVarintRemaining | examples/10_afl_mqtt/src/esp_transport_fuzz.c:96-114 | the decoder loop, which stops after four bytes or at the end of the buffer, returns the value and byte count of the four-byte parse, and never leaves the int range |
| RemainingLength.ParseEncode | examples/10_afl_mqtt/src/esp_transport_fuzz.c:96-114 | decoding an encoded n followed by any tail gives n modulo 128^4 and consumes min(4, encoded length) bytes; it is an exact inverse if and only if n is below 128^4 |
| RemainingLength.PrefixFree | examples/10_afl_mqtt/gen_seeds.py:31-40 | no encoded length is a prefix of another: equal concatenations have equal lengths and tails |
| RemainingLength.EncodeLengthExact | examples/10_afl_mqtt/gen_seeds.py:31-40 | k bytes exactly for 128^(k-1) <= n < 128^k, one byte for everything below 128 |
| RemainingLength.Shortest | examples/10_afl_mqtt/gen_seeds.py:31-40 | no terminated varint of the same value is shorter than the encoder's |
| RemainingLength.Canonical | examples/10_afl_mqtt/src/esp_transport_fuzz.c:98-113 | re-encoding a parsed terminated varint gives back its bytes if and only if it is one byte long or its last byte is not zero |
| RemainingLength.EncodeTable | examples/10_afl_mqtt/gen_seeds.py:31-40 | the bytes for 0..127, 128..16383, 16384..2097151 and 2097152..268435455, as in the table of section 2.2.3 of MQTT 3.1.1 |
| RemainingLength.ParseTable | examples/10_afl_mqtt/src/esp_transport_fuzz.c:96-114 | value and byte count for any four bytes or more, in numbers: seven bits a byte, the fourth byte taken whatever its high bit |
| RemainingLength.ParseTruncated | examples/10_afl_mqtt/src/esp_transport_fuzz.c:96-114 | the same for buffers of at most three bytes: a missing byte ends the length |
| Packets.PktPublish | examples/10_afl_mqtt/gen_seeds.py:92-121 | the step-by-step 3.1.1 PUBLISH builder returns the specified frame, and returns at all if and only if qos is 0, 1 or 2, the topic has at most 0xFFFF bytes and, above qos 0, a packet id in 0..0xFFFF is given |
| Packets.Pkt5Publish | examples/10_afl_mqtt/gen_seeds.py:151-179 | the same for MQTT 5.0, with the property block behind its own variable byte length |
| Packets.PublishBuilt | examples/10_afl_mqtt/gen_seeds.py:100-118 | which arguments make a PUBLISH, and otherwise which error: OverflowError exactly when the packet id alone is out of range, else ValueError |
| Packets.PublishBytes | examples/10_afl_mqtt/gen_seeds.py:103-121 | the bytes of a PUBLISH: control byte 48 + 8 dup + 2 qos + retain, length, big-endian topic length, topic, big-endian id above qos 0, properties behind their length, payload |
| Packets.ConnackBytes | examples/10_afl_mqtt/gen_seeds.py:54-58 | CONNACK is 20 02, session flag, code; ValueError when the code is no byte |
| Packets.AckBytes | examples/10_afl_mqtt/gen_seeds.py:65-83 | PUBACK, PUBREC, PUBREL and PUBCOMP are 40, 50, 62 and 70, then 02 and the big-endian id; OverflowError beyond 16 bits |
| Packets.SubackBytes | examples/10_afl_mqtt/gen_seeds.py:86-89 | SUBACK is 90, length, big-endian id, grants; a grant that is no byte raises ValueError before the id is looked at |
| Packets.Connack5Bytes | examples/10_afl_mqtt/gen_seeds.py:126-130 | the MQTT 5.0 CONNACK with its property block, and its error |
| Packets.Suback5Bytes | examples/10_afl_mqtt/gen_seeds.py:133-137 | the MQTT 5.0 SUBACK with its property block, and its errors in order |
| Packets.Ack5Bytes | examples/10_afl_mqtt/gen_seeds.py:140-148 | the MQTT 5.0 acknowledgements with and without reason code, and their errors in order |
| PublishCodec.PublishRoundTrip | examples/10_afl_mqtt/gen_seeds.py:92-121 | topic, payload, qos, dup, retain, properties and, above qos 0, the packet id are recovered from a PUBLISH followed by any tail, if and only if its Remaining Length is below 128^4 |
| PublishCodec.PublishInjective | examples/10_afl_mqtt/gen_seeds.py:151-179 | both PUBLISH builders are injective up to the packet id of a qos 0 message, with no bound on size |
| AckCodec.AckRoundTrip | examples/10_afl_mqtt/gen_seeds.py:54-148 | every field of a CONNACK, SUBACK, acknowledgement or PINGRESP of either protocol version is recovered from its bytes followed by any tail, if and only if its Remaining Length is below 128^4 |
| Framing.SplitWire | examples/10_afl_mqtt/gen_seeds.py:50-51 | a concatenation of framed packets splits back by control byte and Remaining Length into exactly that list if and only if every body is shorter than 128^4 bytes |
| Framing.WireInjective | examples/10_afl_mqtt/gen_seeds.py:50-51 | two lists of framed packets with the same concatenation are the same list, whatever their sizes |
| Framing.BuiltIsPacket | examples/10_afl_mqtt/gen_seeds.py:54-148 | whatever a builder returns, the hand-written PINGRESP included, is one control byte, the encoded length of the rest, and the rest |
| Framing.CoalescedSplits | examples/10_afl_mqtt/gen_seeds.py:371 | coalesced outputs of a list of builder calls split into exactly those outputs, in order, if and only if every Remaining Length is below 128^4 |
| Framing.CoalescedUnique | examples/10_afl_mqtt/gen_seeds.py:371 | no other list of builder outputs, of whatever sizes, has the same bytes |
| Transport.FuzzTransport.constructor | examples/10_afl_mqtt/src/esp_transport_fuzz.c:204-247 | opening sets the mode, and in dynamic mode takes it from the low nibble of the first byte, which reads then skip |
| Transport.FuzzTransport.PushRx | examples/10_afl_mqtt/src/esp_transport_fuzz.c:33-50 | the array buffer behaves as a queue: its unread bytes grow by exactly the data, or stay as they were when realloc fails; between calls the reset branch does not fire |
| Transport.FuzzTransport.ReadCall | examples/10_afl_mqtt/src/esp_transport_fuzz.c:61-94 | a read fills the caller's buffer from pending replies first, else from the input, at most min(frag, len) bytes and never from both; otherwise it times out and leaves the buffer alone |
| Transport.FuzzTransport.WriteCall | examples/10_afl_mqtt/src/esp_transport_fuzz.c:116-174 | a write returns its length, always, and queues the answer the mode prescribes, connected or not |
| Transport.FuzzTransport.PollReadCall | examples/10_afl_mqtt/src/esp_transport_fuzz.c:176-181 | polling reports unread input only and changes nothing |
| Transport.FuzzTransport.BytesAccountedFor | examples/10_afl_mqtt/src/esp_transport_fuzz.c:33-94 | for every object ever reached: the array holds the replies queued and not delivered, the read position accounts for the input delivered, what callers received merges the two, and rx_off < rx_len or both are zero, within capacity, so the reset branch of push_rx is never taken |
| TransportRuns.Conservation | examples/10_afl_mqtt/src/esp_transport_fuzz.c:33-94 | over every run of calls, replies delivered plus pending are the replies queued in write order, input delivered is a stretch of the input, and the stream is a merge of the two |
| TransportRuns.InputOnlyWhenNothingPending | examples/10_afl_mqtt/src/esp_transport_fuzz.c:70-93 | an input byte is delivered only at a moment when every reply queued so far has been delivered |
| TransportRuns.TimeoutsExplained | examples/10_afl_mqtt/src/esp_transport_fuzz.c:65-87 | in any run a read times out if and only if the last connect or close was not a connect, or every queued reply and the whole input have been delivered |
| TransportRuns.ReadSizes | examples/10_afl_mqtt/src/esp_transport_fuzz.c:73-93 | in any run a delivering read takes min(frag, len) bytes or all its source has left |
| TransportRuns.PollTellsUnread | examples/10_afl_mqtt/src/esp_transport_fuzz.c:176-181 | in any run polling answers 1 if and only if some input has not been delivered, whatever is pending |
| TransportRuns.ReturnValues | examples/10_afl_mqtt/src/esp_transport_fuzz.c:116-188 | in every run from every valid state each write returns its length, whatever the autopilot, mode, connection and realloc, and connect and close return 0 |
| TransportRuns.QueuesOnlyIf | examples/10_afl_mqtt/src/esp_transport_fuzz.c:116-122 | in any run only a write with autopilot on, at least one byte and a successful realloc queues anything |
| TransportRuns.LastErrnoTells | examples/10_afl_mqtt/src/esp_transport_fuzz.c:65-87 | last_errno is 1 after a run with a timeout and otherwise what it was |
| TransportRuns.DrainInOrder | examples/10_afl_mqtt/src/esp_transport_fuzz.c:70-93 | while nothing is written or closed, bytes read followed by bytes left stay the same, for every frag and every choice of lengths |
| TransportRuns.DrainedStream | examples/10_afl_mqtt/src/esp_transport_fuzz.c:70-93 | reads that empty the transport deliver the same stream whatever frag and the lengths were |
| TransportRuns.DrainCount | examples/10_afl_mqtt/src/esp_transport_fuzz.c:70-93 | with a fixed length, exactly ceil(pending/cap) + ceil(unread/cap) reads succeed and all later ones time out |
| Autopilot.AnswerIsEncoderPacket | examples/10_afl_mqtt/src/esp_transport_fuzz.c:124-172 | for a request with Remaining Length below 128^4 the hard-coded reply is byte for byte what the encoder builds, with the packet id of the request; silence exactly when the mode does not answer |
| Autopilot.HeaderExact | examples/10_afl_mqtt/src/esp_transport_fuzz.c:143-149 | the fixed header of a request is measured correctly if and only if its Remaining Length is below 128^4 |
| Autopilot.AnswerIsPacket | examples/10_afl_mqtt/src/esp_transport_fuzz.c:116-174 | whatever bytes are written, an answer is nothing or one whole packet |
| Autopilot.RepliesToAnyBytes | examples/10_afl_mqtt/src/esp_transport_fuzz.c:124-222 | the reply to any bytes, byte for byte, by the mode number of the init function (1 connected, 2 subscribe, 3 qos, 4 mqtt5, all others PINGREQ only), with the id found behind at most four length bytes |
| Autopilot.RepliesByNumber | examples/10_afl_mqtt/src/esp_transport_fuzz.c:124-172 | for a framed request the same with the two bytes behind its Remaining Length |
| Autopilot.HandshakeAnswersPing | examples/10_afl_mqtt/src/esp_transport_fuzz.c:137-140 | the input on which handshake mode is not silent: a PINGREQ gets the encoder's PINGRESP |
| Autopilot.HandshakeSilentExactly | examples/10_afl_mqtt/src/esp_transport_fuzz.c:116-174 | with autopilot on, a run in handshake mode, or in dynamic mode opened without input, queues no reply if and only if it writes no PINGREQ while the buffer can grow |
| Autopilot.RepliesSplit | examples/10_afl_mqtt/src/esp_transport_fuzz.c:116-174 | for any interleaving of framed requests, reads, polls, connects and closes, replies read plus pending split into exactly one encoder packet per answered request, in order |
| Autopilot.DrainedReplies | examples/10_afl_mqtt/src/esp_transport_fuzz.c:70-82 | once drained, the reply bytes the client has read are exactly those packets |
| Autopilot.AnyRepliesSplit | examples/10_afl_mqtt/src/esp_transport_fuzz.c:116-174 | for any calls, whatever bytes they write, replies read plus pending split into exactly one packet per write that got an answer, in order |
| Interleaving.UnbrokenExactly | examples/10_afl_mqtt/src/esp_transport_fuzz.c:70-93 | for an input made of packets, the received stream, with the source of every byte, is a sequence of whole packets of one source each if and only if no write queues a reply while an input packet is half read |
| Interleaving.AlignedSplits | examples/10_afl_mqtt/src/esp_transport_fuzz.c:70-93 | in that case the received bytes split by length prefix into the input packets and one reply per answered write, each in order |
| Interleaving.SplicedReply | examples/10_afl_mqtt/src/esp_transport_fuzz.c:70-93 | an input on which it fails: a PINGRESP comes inside a CONNACK and no length prefix fits any more |
| Interleaving.SplicedUnnoticed | examples/10_afl_mqtt/src/esp_transport_fuzz.c:70-93 | an input on which a PINGRESP comes inside a PUBLISH and the bytes still split into the two packets: splitting does not decide alignment |
| Subscriptions.OneReturnCode | examples/10_afl_mqtt/src/esp_transport_fuzz.c:141-158 | the SUBACK decodes to the packet id of the SUBSCRIBE, and to as many return codes as it had topic filters if and only if it had one |
| DynamicMode.SeedSelectsMode | examples/10_afl_mqtt/gen_seeds.py:194-198 | a dynamic transport on a seed with selector 0..4 and one opened in that mode on the payload produce the same events on every sequence of calls; selectors 5..15 act as handshake |
| DynamicMode.EmptySeedIsHandshake | examples/10_afl_mqtt/src/esp_transport_fuzz.c:226-238 | with an empty input dynamic mode acts as handshake |
| DynamicMode.SelectorsDecide | examples/10_afl_mqtt/src/esp_transport_fuzz.c:215-238 | no caller can tell two seeds with the same payload apart if and only if autopilot is off or their low nibbles select the same mode |
| FuzzPool.FillChain | examples/09_aflnet_dhcp_server/fuzz_common.c:209-212 | the copy loop over any pbuf chain leaves the source bytes in the chain, segment after segment, and returns the advanced offset |
| FuzzPool.Cursor.TcpAppFuzzInput | examples/09_aflnet_dhcp_server/fuzz_common.c:284-317 | consumes a length word and at most 65495 bytes; what is passed to altcp_write is what is consumed, empty when the connection is closed |
| FuzzPool.Cursor.UdpAppFuzzInput | examples/09_aflnet_dhcp_server/fuzz_common.c:487-540 | consumes a length word and at most 65507 bytes, which the chain that is sent contains |
| FuzzPool.Cursor.InputPkt | examples/09_aflnet_dhcp_server/fuzz_common.c:197-220 | refuses more than 0xFFFF bytes, else moves the cursor past the frame before the callbacks run and hands over a chain that concatenates to the frame |
| FuzzPool.Cursor.Run | examples/09_aflnet_dhcp_server/fuzz_common.c:222-272 | the framing loop terminates and leaves the cursor at the end of the bytes it and the callbacks used |
| PoolRuns.PoolPartition | examples/09_aflnet_dhcp_server/fuzz_common.c:222-272 | whatever the callbacks consume, headers, frames, callback words, sent data and the unread tail are in order exactly the input, each chunk within its size limit, and the tail is no longer than a header |
| PoolRuns.CallbacksSend | examples/09_aflnet_dhcp_server/fuzz_common.c:287-315 | a sequence of callbacks sends exactly the messages written one after the other behind length words, each by its own callback, and leaves what follows, if and only if every message fits one packet and the last length word is not the end of the pool |
| PoolRuns.CallbackSends | examples/09_aflnet_dhcp_server/fuzz_common.c:287-315 | behind the bytes hi, lo and something more, a callback sends the least of 256 hi + lo, its limit (65495 or 65507) and what is left |
| PoolRuns.NoWord | examples/09_aflnet_dhcp_server/fuzz_common.c:287-287 | a callback leaves the pool alone if and only if it has at most two bytes |
| PoolRuns.QuietLoopDecodes | examples/09_aflnet_dhcp_server/fuzz_common.c:234-270 | without callbacks the loop delivers the decoded frames and adds their delays to the clock modulo 2^32 |
| PoolRuns.DecodeExtends | examples/09_aflnet_dhcp_server/fuzz_common.c:249-256 | the frames of x are the first frames of x + y, except that the last may be a prefix of its counterpart |
| PoolRuns.HeaderDecoded | examples/09_aflnet_dhcp_server/fuzz_common.c:234-270 | one header with length word 0x800 k + n, k < 32: nothing handed over for n = 0, else the next n bytes, cut at 1514 and at the end of the input, with the big-endian delay in front; decoding goes on behind them |
| PoolRuns.DecodeEncode | examples/09_aflnet_dhcp_server/fuzz_common.c:234-270 | encoding frames as big-endian length (and delay) plus bytes, with anything in the five high bits of the length words, and decoding gives the same list if and only if every frame has 1..1514 bytes and no delay is lost |
| PoolRuns.InputPktsDelivers | examples/09_aflnet_dhcp_server/fuzz_common.c:222-272 | input_pkts on such an encoding, whatever the high bits, delivers exactly the frames, advances the clock by the sum of the delays modulo 2^32 and leaves nothing unread |
| PoolRuns.ClockWraps | examples/09_aflnet_dhcp_server/fuzz_common.c:258-261 | the addition on the clock is addition modulo 2^32 |
| PoolRuns.SinglePacket | examples/09_aflnet_dhcp_server/fuzz_common.c:228-229 | a single packet of up to 0xFFFF bytes is handed over whole whatever the callbacks do, a longer one not at all |
| PoolInterference.CallbacksOnlyTakeBytes | examples/09_aflnet_dhcp_server/fuzz_common.c:222-317 | with any callbacks, the frames and the clock are those of a run without callbacks on the input with the callback bytes removed |
| FuzzRand.Generator.Rand | examples/09_aflnet_dhcp_server/fuzz_common.c:787-794 | each call returns (old state as 32 bits * 1103515245 + 12345) mod 2^31, the n-th state after 0xdeadbeef, without overflow of 64 bits; the first call returns 469847548 |
| FuzzRand.FirstOutputs | examples/09_aflnet_dhcp_server/fuzz_common.c:787-794 | the first three outputs are 469847548, 523840645 and 1791404762 |
| FuzzRand.ExactPeriod | examples/09_aflnet_dhcp_server/fuzz_common.c:790-791 | d steps bring the low k bits back to where they were if and only if 2^k divides d |
| FuzzRand.FullPeriod | examples/09_aflnet_dhcp_server/fuzz_common.c:787-794 | for k up to 31 and every start, each residue of the low k bits occurs exactly once in any 2^k successive states, then the cycle repeats |
| FuzzRand.EveryOutputOnce | examples/09_aflnet_dhcp_server/fuzz_common.c:787-794 | all 2^31 outputs occur exactly once in any 2^31 successive calls |
| IotParser.ExtractJsonValue | projects/sample/iot_parser.c:42-71 | the pointer loop finds the value the substring search specifies, writes it with its terminator or leaves the buffer alone, and returns the characters read |
| FlatJson.ExtractPrinted | projects/sample/iot_parser.c:42-71 | on every printed flat object and for every key that KeyExact admits, the result is the value of the first pair with the key and its length, a text as it stands and anything else as strtol reads it; 0 and nothing written when the key is absent |
| FlatJson.ZeroMeans | projects/sample/iot_parser.c:47-70 | 0 is returned if and only if the key is absent, its first value is the empty string, or its first value stands without quotes and does not begin with a number |
| FlatJson.NumberFound | projects/sample/iot_parser.c:62-69 | of any value that begins with an optional sign and digits, exactly those are counted and their number printed, whatever follows |
| FlatJson.SampleTemperature | projects/sample/iot_parser.c:62-69 | the temperature 23.5 of the sample message comes back as "23" with length 2 |
| FlatJson.UnclosedText | projects/sample/iot_parser.c:52-61 | a text without its closing quote is not delivered: 0 is returned and nothing written |
| FlatJson.KeyLimit | projects/sample/iot_parser.c:43-49 | the value under a key without a quote is found, whatever text it is, if and only if the key has at most 32 characters |
| FlatJson.KeyExact | projects/sample/iot_parser.c:42-71 | extraction is right about a key without a quote in every printed flat object if and only if the key has at most 32 characters and is neither a colon or comma followed by white space nor begins with a colon and ends in a comma and white space |
| FlatJson.OneOverTheLimit | projects/sample/iot_parser.c:43-49 | a key one character over the limit yields "0" and length 0 for every value |
| FlatJson.MessageToValue | projects/sample/iot_parser.c:31-71 | from a topic and a printed object sent as one line, topic split and extraction recover the topic and the value |
| CStrings.StrToLPrinted | projects/sample/iot_parser.c:64-68 | strtol reads a printed long back and stops right after it |
| CStrings.StrToLExact | projects/sample/iot_parser.c:65-68 | strtol on an optional sign and digits reads them all and saturates at -2^63 and 2^63 - 1 |
| CStrings.NoDigits | projects/sample/iot_parser.c:65-68 | strtol without a digit behind the optional sign returns 0 and reads nothing |
| CStrings.WhiteSpace | projects/sample/iot_parser.c:50-50 | the white space skipped is blank, tab, newline, vertical tab, form feed and carriage return |
| IotParser.SplitSpaceExact | projects/sample/iot_parser.c:32-37 | the split found is the only one with a space-free left half, and none is found only when there is no space |
| IotParser.MqttMessage.ParseTopic | projects/sample/iot_parser.c:31-39 | topic and payload receive the two halves with terminators; without a space the message is unchanged |
| IotParser.SplitRequestExact | projects/sample/iot_parser.c:78-92 | method, path and body are the only space-free, space-free, arbitrary split of the request |
| IotParser.SplitRequestShort | projects/sample/iot_parser.c:78-93 | with a single space only the method is delivered, and without one nothing |
| IotParser.HttpMessage.ParseRequest | projects/sample/iot_parser.c:74-97 | cutting the heap copy with terminators delivers method, path and body; a missing second space leaves path and body unchanged |
| EventGroup.Group.ExecuteLine | examples/10_afl_mqtt/mocks/include/freertos/event_groups.h:43-83 | a thread at any line of the four functions executes it on the uint32_t mask, mutex and wait queue; under the abstraction to sets of bits this is one step of the state machine, or none and the thread is further on in its function, and it fails exactly when the state machine has no step |
| EventGroup.BlockedMeans | examples/10_afl_mqtt/mocks/include/freertos/event_groups.h:74-74 | the C while condition holds if and only if a wanted bit is missing (all) or no wanted bit is set (any) |
| EventGroup.Group.SleepersBlocked | examples/10_afl_mqtt/mocks/include/freertos/event_groups.h:74-75 | whenever a thread is in the queue of the condition variable, the present mask lacks one of the bits it waits for, or all of them if any would do, unless the mutex owner is at the broadcast |
| EventGroup.Group.ResultsAsPromised | examples/10_afl_mqtt/mocks/include/freertos/event_groups.h:51-83 | bit by bit: the local about to be returned has every bit a wait for all wanted, one of those a wait for any wanted, all bits a set was given and none a clear was given |
| EventGroup.Group.MaskLeft | examples/10_afl_mqtt/mocks/include/freertos/event_groups.h:77-81 | bit by bit: a wait that clears on exit leaves in the mask what it returns without the bits it wanted, every other call leaves what it returns |
| EventGroup.Group.AtRestExactly | examples/10_afl_mqtt/mocks/include/freertos/event_groups.h:43-83 | no thread can execute a line if and only if each is outside or in the queue with one of the bits it waits for missing from the mask, or all of them if any would do |
| Mask32.MaskEquality | examples/10_afl_mqtt/mocks/include/freertos/event_groups.h:74 | comparing masks in C decides equality of the sets of bits they stand for |
| EventGroupRuns.NoLostWakeup | examples/10_afl_mqtt/mocks/include/freertos/event_groups.h:51-83 | in every interleaving of any number of threads, a thread asleep and not signalled has a false wait condition, unless a set is one unblockable statement away from waking it |
| EventGroupRuns.SatisfiedMeans | examples/10_afl_mqtt/mocks/include/freertos/event_groups.h:74-74 | a wait may go on when all wanted bits are set, or one of them if any will do |
| EventGroupRuns.StuckExactly | examples/10_afl_mqtt/mocks/include/freertos/event_groups.h:70-83 | no thread can move if and only if every thread is outside, asleep wanting all of some bits one of which is missing, or asleep wanting any of some bits none of which is set |
| EventGroupRuns.ReturnsAsPromised | examples/10_afl_mqtt/mocks/include/freertos/event_groups.h:51-83 | every wait for all returned every bit it wanted, every wait for any one of them; a set returned its bits set, a clear its bits clear |
| EventGroupRuns.TakenAtMostGiven | examples/10_afl_mqtt/mocks/include/freertos/event_groups.h:51-82 | clearing waits that returned bit b, plus b itself if still set, never outnumber the sets that included b |
| EventGroupRuns.MutualExclusion | examples/10_afl_mqtt/mocks/include/freertos/event_groups.h:43-83 | at most one thread is inside a critical section |
| EventGroupProgress.ScheduleBounded | examples/10_afl_mqtt/mocks/include/freertos/event_groups.h:43-83 | from any reachable state, under any schedule, the number of steps taken without a new call or spurious wakeup is at most a measure of the program counters |
| EventGroupProgress.ComesToRest | examples/10_afl_mqtt/mocks/include/freertos/event_groups.h:43-83 | and every schedule can be continued to rest, where each thread has returned or sleeps on a condition that is false; no fairness is assumed |
| EventGroupProgress.EveryStateRests | examples/10_afl_mqtt/mocks/include/freertos/event_groups.h:43-83 | every reachable state, whatever its threads, can run on to rest |
| EventGroupRest.RunToRest | examples/10_afl_mqtt/mocks/include/freertos/event_groups.h:43-83 | executing lines of the C program for any enabled thread, chosen arbitrarily, terminates; then each thread is outside or queued for bits that the mask lacks, and the steps were a schedule no longer than the work there was |
| EventGroupAtomic.Linearizable | examples/10_afl_mqtt/mocks/include/freertos/event_groups.h:43-83 | the returned calls, in return order, replay as single atomic steps with the same results, and whenever the mutex is free they account for the bits |
| EventGroupAtomic.LeavesBehind | examples/10_afl_mqtt/mocks/include/freertos/event_groups.h:77-81 | a clearing wait about to unlock has taken exactly its wanted bits out of those it returns; every other call returns the bits as they are |

## Left out

- Unicode: `enc_utf8` is modelled on the UTF-8 bytes of the topic; the encoding of characters is not part of this model.
- Transport.FuzzTransport.ReadCall: negative read lengths are excluded by the type, since the C code would copy past the caller's buffer; `errno` is not a field, only `last_errno` is.
- FlatJson.ExtractPrinted: the keys and texts of the printed objects, and the key searched for, contain no quote; escapes are not part of the printer.
- Buffer sizes of `iot_parser.c`, which the C code does not check, are preconditions; its printing functions and `main` are not part of this model.
- The glibc table variant of `lwip_fuzz_rand`: a cyclic read of twenty constants.
- The timed framing without `LWIP_FUZZ_SYS_NOW`: it skips the delay word and differs in the clock only.
- The lwIP stack behind `netif->input`, netif setup, sockets, pcap dumps and command-line handling of `fuzz_common.c`.
- `vEventGroupDelete`, failed allocation in the create functions, and the ignored `ticks` argument.
- Progress of one event group thread while the others keep making calls: it would need fairness of the mutex and the scheduler. Without new calls and spurious wakeups, progress is `EventGroupProgress`.
- `main` and the `gen_*` functions of `gen_seeds.py`: calls with fixed arguments.
- The harness, the other mocks, the boofuzz scripts and the mDNS and angr examples.
