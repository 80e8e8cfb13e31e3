# LightifyMe gateway client, modelled in Dafny

LightifyMe talks to a home-lighting gateway over one TCP socket with a small binary protocol.
This project models the two pieces of that client that carry the protocol logic:

- **The bulb record decoder** (`BulbBuilder`). It collects bytes with `AddBytes`, then `Build`
  reads fixed little-endian fields at fixed offsets into a `Bulb`. It yields no bulb when the
  MAC address reads as zero, and it empties its buffer afterwards.
- **The gateway session** (`GatewayController`). It holds a 32-bit session counter (a C# `int`
  that wraps). It builds the request frames: discovery, all on/off, on/off, brightness and
  colour. It slices the discovery reply into 50-byte records and feeds them through its shared
  builder. After each per-bulb command it updates the caller's `Bulb` to match what it just sent.

Modules, in dependency order:

- `Wrappers`: `Option` and `Result`.
- `Bytes`: byte and integer widths and the little-endian codec of .NET's `BitConverter`, with
  round-trip lemmas. It also holds two's-complement reinterpretation and the wrapping `int` increment.
- `Bulbs`: the `Bulb` entity as a class with mutable fields, and `BulbState`, a snapshot of
  every field as a value.
- `Builders`: the pure record decoder (`DecodeFields`, `Decode`), an independent encoder of the
  record layout (`EncodeRecord`) with round trips both ways, and the `BulbBuilder` class.
- `Frames`: every request frame as a function of the session id, the MAC address and the payload,
  with lemmas on where each field sits.
- `Gateway`: the `GatewayController` class. The socket is a `connected` flag and a ghost transcript
  of `Sent`/`Received` events. Each reply the gateway would send is a parameter of the command.
  Discovery is specified by `Discovered`, the bulbs a sequence of builder inputs yields.

Behaviour of the code that the model keeps:

- Only `GetBulbs` checks that the socket is connected. The other commands bump the counter
  (where they use one) and then fail in `Socket.Send`. The model returns `SocketNotConnected`
  there, with the counter already incremented.
- `TurnAllOn` and `TurnAllOff` do not use or change the session counter.
- `Build` accepts any buffer of at least 25 bytes. A shorter buffer fails before
  the buffer is cleared, so its bytes stay in the builder.
- The controller's builder is shared and keeps its buffer between calls. Bytes left in it are
  decoded as a prefix of the first discovery record. `BuilderInputs` models this, and with a
  clean builder the inputs are exactly the records (`CleanBuilderInputs`).

## Model

| member | source | states |
|---|---|---|
| Bytes.LeValue | LightifyMe/Core/Builders/BulbBuilder.cs:30-38 | the little-endian value of n bytes is below 256^n |
| Bytes.LeBytes | LightifyMe/Core/GatewayController.cs:139 | `BitConverter.GetBytes` at width n yields exactly n bytes |
| Bytes.LeValueOfLeBytes | LightifyMe/Core/GatewayController.cs:139 | writing a value that fits in n bytes and reading it back gives the value |
| Bytes.LeBytesOfLeValue | LightifyMe/Core/Builders/BulbBuilder.cs:30-38 | reading bytes and writing the value back at the same width gives the bytes |
| Bytes.LeValueZero | LightifyMe/Core/Builders/BulbBuilder.cs:44 | a little-endian value is zero exactly when every byte is zero |
| Bytes.LeValueAppend | LightifyMe/Core/Builders/BulbBuilder.cs:31 | a byte appended at the top adds its value times 256^length |
| Bytes.LeValueSplit | LightifyMe/Core/Builders/BulbBuilder.cs:31 | a little-endian value is its low k bytes plus 256^k times the rest |
| Bytes.TopByteOfU64 | LightifyMe/Core/Builders/BulbBuilder.cs:31-32 | the last of eight bytes is the 64-bit value shifted right by 56 |
| Bytes.ToInt16 | LightifyMe/Core/Builders/BulbBuilder.cs:38 | the signed reading of 16 bits is congruent to them modulo 2^16 |
| Bytes.FromInt16 | LightifyMe/Core/Builders/BulbBuilder.cs:38 | the bit pattern of a signed 16-bit value reads back as that value |
| Bytes.Wire32 | LightifyMe/Core/GatewayController.cs:66 | an `int` goes on the wire as itself when non-negative, plus 2^32 when negative |
| Bytes.Inc32 | LightifyMe/Core/GatewayController.cs:133 | unchecked `++` adds one below `int.MaxValue`; its wire value is the old one plus one modulo 2^32 |
| Bytes.Int32Bytes | LightifyMe/Core/GatewayController.cs:66 | a session id goes on the wire as four bytes |
| Bytes.Int32BytesRoundTrip | LightifyMe/Core/GatewayController.cs:66 | the four wire bytes read back as the wire value and, reinterpreted, as the id |
| Bytes.ToInt32 | LightifyMe/Core/GatewayController.cs:66 | reinterpreting 32 bits as an `int` inverts `Wire32` |
| Bulbs.Bulb.constructor | LightifyMe/Core/Builders/BulbBuilder.cs:28-40 | the new bulb holds exactly the given field values |
| Builders.U16AtIsLeValue | LightifyMe/Core/Builders/BulbBuilder.cs:30-38 | the reader `U16At`, which models `BitConverter.ToUInt16` for the id (line 30), group id (35) and temperature (38), is the little-endian value of the two bytes at its offset |
| Builders.U32AtIsLeValue | LightifyMe/Core/Builders/BulbBuilder.cs:33 | the reader `U32At`, which models `BitConverter.ToUInt32` for the firmware version, is the little-endian value of the four bytes at its offset |
| Builders.U64AtIsLeValue | LightifyMe/Core/Builders/BulbBuilder.cs:31 | the reader `U64At`, which models `BitConverter.ToUInt64` for the MAC address, is the little-endian value of the eight bytes at its offset |
| Builders.U16AtOfLeBytes | LightifyMe/Core/Builders/BulbBuilder.cs:35 | `ToUInt16` reads back a value written with `GetBytes` |
| Builders.U32AtOfLeBytes | LightifyMe/Core/Builders/BulbBuilder.cs:33 | `ToUInt32` reads back a value written with `GetBytes` |
| Builders.U64AtOfLeBytes | LightifyMe/Core/Builders/BulbBuilder.cs:31 | `ToUInt64` reads back a value written with `GetBytes` |
| Builders.LeBytesOfU16At | LightifyMe/Core/Builders/BulbBuilder.cs:35 | writing back what `ToUInt16` read gives the two bytes it read |
| Builders.LeBytesOfU32At | LightifyMe/Core/Builders/BulbBuilder.cs:33 | writing back what `ToUInt32` read gives the four bytes it read |
| Builders.LeBytesOfU64At | LightifyMe/Core/Builders/BulbBuilder.cs:31 | writing back what `ToUInt64` read gives the eight bytes it read |
| Builders.DecodeFields | LightifyMe/Core/Builders/BulbBuilder.cs:30-40 | the name is everything after offset 25, so a 25-byte record has an empty name |
| Builders.Decode | LightifyMe/Core/Builders/BulbBuilder.cs:25-47 | a record fails exactly when it is shorter than 25 bytes; a decoded bulb never has MAC address 0 |
| Builders.TypeIsMacTopByte | LightifyMe/Core/Builders/BulbBuilder.cs:31-32 | the bulb type equals the MAC address shifted right by 56, since both read byte 9 |
| Builders.DecodeAbsentIffMacBytesZero | LightifyMe/Core/Builders/BulbBuilder.cs:44-45 | `Decode`, and so `Build`, yields no bulb exactly when bytes 2..10 are all zero |
| Builders.EncodeRecord | LightifyMe/Core/Builders/BulbBuilder.cs:30-40 | the reference encoder writes 25 bytes of fields, then the name |
| Builders.DecodeEncode | LightifyMe/Core/Builders/BulbBuilder.cs:30-40 | decoding an encoded bulb with a non-zero MAC address gives back every field |
| Builders.EncodeDecode | LightifyMe/Core/Builders/BulbBuilder.cs:30-40 | re-encoding a decoded record gives the record back when both flag bytes are 0 or 1 |
| Builders.BulbBuilder.constructor | LightifyMe/Core/Builders/BulbBuilder.cs:13-16 | a new builder holds no bytes |
| Builders.BulbBuilder.AddBytes | LightifyMe/Core/Builders/BulbBuilder.cs:18-22 | the bytes are appended in order and the same builder is returned |
| Builders.BulbBuilder.Build | LightifyMe/Core/Builders/BulbBuilder.cs:25-48 | fails exactly when `Decode` of the old buffer fails, and then keeps its bytes; otherwise the buffer is emptied and the result is null exactly when `Decode` yields no bulb, else a fresh bulb whose state is the bulb `Decode` yields |
| Frames.DiscoveryFrame | LightifyMe/Core/GatewayController.cs:62-67 | the discovery request is 13 bytes, its first byte being its length minus two |
| Frames.AllFrame | LightifyMe/Core/GatewayController.cs:107-110 | the broadcast request is 17 bytes, its first byte being its length minus two |
| Frames.OnOffFrame | LightifyMe/Core/GatewayController.cs:134-140 | the on/off request is 17 bytes, its first byte being its length minus two |
| Frames.BrightnessFrame | LightifyMe/Core/GatewayController.cs:175-182 | the brightness request is 19 bytes, its first byte being its length minus two |
| Frames.ColorFrame | LightifyMe/Core/GatewayController.cs:195-202 | the colour request is 22 bytes, its first byte being its length minus two |
| Frames.AllFramesDifferOnlyInLastByte | LightifyMe/Core/GatewayController.cs:105-127 | the all-on and all-off frames agree on bytes 0..16 and end in 01 and 00 |
| Frames.SessionField | LightifyMe/Core/GatewayController.cs:138 | bytes 4..8 of every addressed frame are the session id, recoverable as an `int` |
| Frames.DiscoveryIdsConsecutive | LightifyMe/Core/GatewayController.cs:66-81 | the second discovery request's id field is the first's plus one, modulo 2^32 |
| Frames.MacField | LightifyMe/Core/GatewayController.cs:139 | bytes 8..16 of every per-bulb frame are the MAC address, recoverable as a 64-bit value |
| Frames.PayloadField | LightifyMe/Core/GatewayController.cs:140 | after the MAC come the on/off byte; the percentage and two zeros; alpha, blue, green, red and two zeros |
| Frames.FrameMacMatchesRecord | LightifyMe/Core/GatewayController.cs:139 | a command for a decoded bulb repeats bytes 2..10 of its record verbatim |
| Frames.ColorFrameReversesRecord | LightifyMe/Core/GatewayController.cs:201 | a decoded colour sent back puts record bytes 24, 23, 22, 21 on the wire, the reverse of the record |
| Gateway.RecordAt | LightifyMe/Core/GatewayController.cs:89-90 | the i-th slice of the discovery body is 50 bytes |
| Gateway.BuilderInputs | LightifyMe/Core/GatewayController.cs:87-94 | one builder input per record, each at least 50 bytes long |
| Gateway.Discovered | LightifyMe/Core/GatewayController.cs:87-98 | discovery yields at most one bulb per input and never a bulb with MAC address 0 |
| Gateway.DiscoveredStep | LightifyMe/Core/GatewayController.cs:96-97 | one more input adds its decoded bulb, or nothing when its MAC reads as zero |
| Gateway.DiscoveredStepDecode | LightifyMe/Core/GatewayController.cs:92-97 | the same step in terms of `Decode`, which `Build` is specified by: one more input adds the bulb `Decode` yields for it, or nothing when `Decode` yields none |
| Gateway.DiscoveredPrefixStep | LightifyMe/Core/GatewayController.cs:96-97 | the same step, on successive prefixes of one input list |
| Gateway.DiscoveredAllValid | LightifyMe/Core/GatewayController.cs:87-98 | when `Decode` yields a bulb for every input, discovery yields exactly those bulbs, one per record, in record order |
| Gateway.DiscoveredIgnoresZeroRecord | LightifyMe/Core/GatewayController.cs:96-97 | removing a record for which `Decode` yields no bulb (its MAC reads as zero) does not change what discovery yields |
| Gateway.CleanBuilderInputs | LightifyMe/Core/GatewayController.cs:89-93 | with an empty builder, the inputs are exactly the 50-byte records |
| Gateway.CleanBuilderInputsPair | LightifyMe/Core/GatewayController.cs:87-93 | with an empty builder, a 100-byte body gives exactly its two records as inputs |
| Gateway.DiscoveredPair | LightifyMe/Core/GatewayController.cs:92-97 | a valid input followed by one that `Decode` maps to no bulb yields exactly the first bulb |
| Gateway.DiscoveredDropsZeroRecord | LightifyMe/Core/GatewayController.cs:87-98 | a valid record followed by one with MAC 0 yields exactly the first bulb |
| Gateway.GatewayController.constructor | LightifyMe/Core/GatewayController.cs:23-31 | the session starts disconnected, with counter 0 and the injected builder |
| Gateway.GatewayController.WithNewBuilder | LightifyMe/Core/GatewayController.cs:33-34 | the default constructor uses a fresh, empty builder |
| Gateway.GatewayController.Init | LightifyMe/Core/GatewayController.cs:36-45 | an unparsable address fails without connecting; otherwise it succeeds exactly when the transport connects |
| Gateway.GatewayController.Shutdown | LightifyMe/Core/GatewayController.cs:47-51 | afterwards the session is disconnected |
| Gateway.GatewayController.Exchange | LightifyMe/Core/GatewayController.cs:69-70 | one send and one receive are logged exactly when the socket is connected |
| Gateway.GatewayController.GetBulbs | LightifyMe/Core/GatewayController.cs:53-101 | not connected: fails and nothing changes; else the counter goes up by one, the two discovery frames use the old and new id, and the result is fresh, distinct bulbs whose states are `Discovered` of the builder inputs |
| Gateway.GatewayController.BuildBulbs | LightifyMe/Core/GatewayController.cs:87-98 | the record loop returns fresh, distinct bulbs in record order whose states are `Discovered` of the builder inputs |
| Gateway.GatewayController.BuildRecord | LightifyMe/Core/GatewayController.cs:92-94 | one chained `AddBytes(...).Build()` on the builder's bytes plus the record: the buffer is emptied, and the result is null exactly when the MAC reads as zero, else a fresh bulb holding the decoded fields |
| Gateway.GatewayController.TurnAllOn | LightifyMe/Core/GatewayController.cs:105-115 | sends the all-on frame, leaves the counter alone, fails when not connected |
| Gateway.GatewayController.TurnAllOff | LightifyMe/Core/GatewayController.cs:117-127 | sends the all-off frame, leaves the counter alone, fails when not connected |
| Gateway.GatewayController.TurnOn | LightifyMe/Core/GatewayController.cs:129-146 | the counter goes up first; after a round trip with the new id and the bulb's MAC, the bulb is on and no other field changes |
| Gateway.GatewayController.TurnOff | LightifyMe/Core/GatewayController.cs:148-165 | the counter goes up first; after the round trip the bulb is off and no other field changes |
| Gateway.GatewayController.SetBrightness | LightifyMe/Core/GatewayController.cs:167-188 | above 100: fails with counter, transcript and bulb unchanged; else the counter goes up, the brightness frame is sent and only the brightness changes |
| Gateway.GatewayController.SetColor | LightifyMe/Core/GatewayController.cs:190-208 | the counter goes up, the colour frame is sent, then only the bulb's colour changes |

## Left out

- Socket construction and its 5-second timeouts (LightifyMe/Core/GatewayController.cs:26-30) are not modelled. A timeout would be a transport failure, which the model does not have.
- `Receive` is not modelled as a call that can fail or return fewer bytes than the buffer holds. Each reply is a parameter already of the buffer's size, and the acknowledgement's contents are ignored, as in the source.
- `IPAddress.TryParse` and `ConnectAsync` are foreign code. `Init` takes their outcomes as two booleans.
- Gateway.GatewayController.Shutdown: `Socket.Disconnect(false)` throws on a socket that is not connected. The model simply marks the session disconnected. A later `Init` is modelled as a fresh connection attempt, whereas a real socket cannot be reused after `Disconnect(false)`.
- Gateway.GatewayController.TurnOn, Gateway.GatewayController.TurnOff, Gateway.GatewayController.SetBrightness, Gateway.GatewayController.SetColor: the bulb parameter cannot be null. In the source a null bulb still increments the counter (LightifyMe/Core/GatewayController.cs:133, 152, 174, 194). It then throws `NullReferenceException` at `bulb.MacAddress` (lines 139, 158, 180, 200) before anything is sent. The model does not have this path.
- `Encoding.Default.GetString` is a platform text codec, so the name is kept as the raw bytes from offset 25 on.
- `System.Drawing.Color` is replaced by its four channel bytes (alpha, red, green, blue).
- The `Task`/`async` plumbing of `Init` and `Shutdown` has no logic beyond sequencing.
- The `IBulbBuilder` interfaces hold no logic. The controller is modelled against the concrete `BulbBuilder`.
- The alternate single-bulb revision of the controller is not part of this model.
- Builders.BulbBuilder.Build: the source sets the new bulb's properties one at a time. The model decodes all fields first and creates the bulb holding them. The resulting object is the same.
