# Actr: a verified model of its codecs, registries and protocols

Actr is a distributed actor framework with bindings for several languages. This project models the parts
of it that carry state or bytes across a boundary, and proves what they promise.

| files | subject |
|---|---|
| `Bits.dfy`, `Doubles.dfy`, `Varint.dfy` | JavaScript integer operators and the conversion to a double; the varint, zigzag and fixed-width helpers the TypeScript generator emits |
| `Protobuf.dfy`, `ProtobufRecords.dfy`, `ProtobufRoundTrip.dfy`, `ProtobufFields.dfy`, `ProtobufTheorems.dfy`, `ProtobufMerge.dfy`, `ProtobufRedecode.dfy`, `ProtobufCodec.dfy` | the emitted `encode` and `decode`, as an interpreter over any schema, then as the loops they are |
| `Uniffi.dfy`, `UniffiBytes.dfy`, `UniffiExact.dfy`, `UniffiCodec.dfy` | the buffer converters of the Swift bindings, over any type built from integers, strings, data, options, sequences, records and enums |
| `HandleMap.dfy`, `AsyncCall.dfy` | the handle map of the Swift bindings and the asynchronous calls that share it |
| `Registry.dfy`, `PortPipeline.dfy` | the web service worker: its client registry under interleaved handlers, and the message chain of one port |
| `NodeLifecycle.dfy` | the runtime node under concurrent `create_network_event_handle` and `start` |
| `ConfigMerge.dfy`, `LockVerify.dfy` | the command line tool: layered TOML configuration, and fingerprints against the lock file |
| `Json.dfy`, `JsonText.dfy`, `ErrorPayload.dfy` | errors packed into JSON by the native binding and unpacked in TypeScript |

`dafny verify dfyconfig.toml` checks all of it.

## How the model is built

Byte codecs are written twice: once as functions on byte sequences, about which the laws are proved, and once
as methods with the loops, offsets and bit operators of the emitted or generated code, proved equal to those
functions. JavaScript's `<<`, `>>`, `>>>`, `&`, `|` and `^` are defined on two's complement integers with the
32-bit coercions of section 7.1 of ECMA-262 written out; the BigInt forms are unbounded.

Concurrent code is a state machine. One action is one section that runs without giving up control: up to the next
`await` in the service worker, one lock operation in the runtime node, one callback or resumption in the Swift
bindings. A run is any sequence of actions, an action that is not enabled changes nothing, and outcomes of calls
into code outside the model are part of the action. Every theorem about runs therefore covers every interleaving
and every outcome.

## Where a promise does not hold

These are theorems about the code as it is; each comes with the exact condition under which the promise holds.

- A protobuf message survives `decode(encode(m))` exactly when it holds no negative `int32`, `int64`, `sfixed32` or
  `sfixed64`, no enum value, and only defaults in fields numbered 2^28 or above (`RoundTripExactly`). A negative
  `sfixed64` makes `encode` throw; enum fields are not written at all; the tag is split with a signed shift.
  `LostMessages` and `RefusedMessages` show one message of each kind.
- An embedded message that occurs twice is replaced, where the Protocol Buffers encoding specification ("Last One
  Wins") merges the two. Decoding two encodings back to back gives the prescribed merge exactly when every embedded
  message of the first that the second also has is silent under it (`MergesExactly`): no repeated element, no
  submessage the second lacks. `ReplacedNotMerged` shows a pair that differs.
- Decoding accepts numbers outside the field's type: 2^40 in an `int32` decodes as such and is written again as 0
  (`OverflowLost`); from 2^53 on it is refused, which includes the way other encoders write a negative `int32`
  (`ForeignMinusOne`). A decoded message is well typed exactly when the records that count are in range
  (`MessageTypedExactly`), and then encoding it and decoding again gives the same message (`Redecodes`).
- An unknown field is skipped only if some declared field has its wire type (`UnknownFieldIgnored`); otherwise
  `decode` throws (`UnusedWireTypeRejected`).
- `lift` accepts only what `lower` produces exactly for types without a boolean (`ExactExactly`): any boolean byte
  other than 0 reads as true.
- A browser mapping always names a client with a port exactly when no client id is announced by two browsers
  (`SafeExactly`).
- A message on a port is processed exactly when the `.catch` callback of its predecessor did not throw in the run
  (`LostExactly`); `LosesMessage` is a run that loses one.
- Three configuration layers may be regrouped exactly when no non-table stands between a table and a later table that
  leaves part of it out (`AssociativeExactly`); `NotAssociative` shows three that may not.
- A retry hint arrives unchanged exactly when it fits the significand of a double (`RetryExactly`); 2^53 + 1 arrives as
  2^53 (`RetryRounded`).

Code and documentation disagree in three places, and the model follows the code. `create_network_event_handle` is
documented as having to be called before `start()`, but returns the cached handle afterwards (`CreatesAgree`). The error
bridge speaks of ten variants and has eleven. Its escaping is said to use `char::escape_unicode`, but writes four
hexadecimal digits itself.

## Model

| member | source | states |
|---|---|---|
| `Bits.AndIsBitwise` | bindings/typescript/scripts/codegen.js:594 | The `&` of the emitted code, defined arithmetically, is conjunction of every two's complement bit |
| `Bits.OrIsBitwise` | bindings/typescript/scripts/codegen.js:618 | The bitwise or is disjunction of every bit, also of negative numbers |
| `Bits.XorIsBitwise` | bindings/typescript/scripts/codegen.js:637-652 | `^` is exclusive or of every bit, also of negative numbers |
| `Bits.AndMask` | bindings/typescript/scripts/codegen.js:452 | Masking with 2^k - 1 is reduction modulo 2^k, for negative numbers too |
| `Bits.RoundingExact` | bindings/typescript/scripts/codegen.js:448 | Converting an integer to a JavaScript number keeps it exactly when it is below 2^53 or its excess low bits are zero |
| `Doubles.RoundIsNearest` | bindings/typescript/scripts/codegen.js:448 | The conversion yields an integer of at most 53 significant bits, none such is nearer, and of two equally near ones it is the even one |
| `Doubles.FirstLost` | bindings/typescript/scripts/codegen.js:448 | 2^53 + 1 and 2^53 convert to the same number |
| `Doubles.CoercionLaw` | bindings/typescript/scripts/codegen.js:448-452 | The 32-bit coercion of a converted tag lies in int32 and is congruent to the nearest double modulo 2^32 |
| `Doubles.HugeIsZero` | bindings/typescript/scripts/codegen.js:448-452 | Every tag from 2^85 on is seen as field 0 with wire type 0 |
| `Varint.EncodeVarint` | bindings/typescript/scripts/codegen.js:590-599 | The 32-bit loop emits the base-128 digits of the value modulo 2^32 |
| `Varint.EncodeVarintBigint` | bindings/typescript/scripts/codegen.js:601-610 | The BigInt loop emits the base-128 digits; a negative value falls through as one truncated byte |
| `Varint.DecodeVarint` | bindings/typescript/scripts/codegen.js:612-626 | The shift-and-or loop at any offset reads the first varint of the rest of the buffer, or fails when the bytes run out |
| `Varint.ReadAfterWrite` | bindings/typescript/scripts/codegen.js:590-626 | Reading a written varint followed by anything returns the value and exactly its length |
| `Varint.ReadIsLocal` | bindings/typescript/scripts/codegen.js:612-626 | A varint depends on its own bytes only, and every proper prefix of it is rejected |
| `Varint.WriteIsMinimal` | bindings/typescript/scripts/codegen.js:590-610 | No byte string that reads as a value is shorter than the one written for it |
| `Varint.LengthBound` | bindings/typescript/scripts/codegen.js:590-610 | A value takes at most k bytes exactly when it is below 2^(7k) |
| `Varint.WidthBound` | bindings/typescript/scripts/codegen.js:590-610 | At most five bytes for 32-bit and ten for 64-bit values |
| `Varint.ZigZag32` | bindings/typescript/scripts/codegen.js:637-648 | Zigzag and its inverse cancel on all of int32, through the unsigned coercion of the varint between them |
| `Varint.ZigZag32Encode` | bindings/typescript/scripts/codegen.js:637-639 | The 32-bit zigzag is 2n for n >= 0 and -2n-1 below, despite the overflow of the shift |
| `Varint.ZigZag64` | bindings/typescript/scripts/codegen.js:641-652 | The same law and the same inverse on all of int64 |
| `Varint.FixedRoundTrip` | bindings/typescript/scripts/codegen.js:654-685 | Little-endian writing and reading keeps exactly the low bits of the width |
| `Protobuf.Target` | bindings/typescript/scripts/codegen.js:480-495 | The switch picks a field with that number and wire type, and its default only if there is none |
| `ProtobufFields.EmptyBuffer` | bindings/typescript/scripts/codegen.js:215-244 | An empty buffer decodes to the literal default of every field's kind |
| `ProtobufFields.VarintField` | bindings/typescript/scripts/codegen.js:356-367 | A varint field takes every varint n, as n, as n != 0 or as the inverse zigzag; the kinds that go through a number refuse it if and only if n >= 2^53 |
| `ProtobufFields.LengthField` | bindings/typescript/scripts/codegen.js:468-478 | A length that promises more bytes than there are is cut silently, and one from 2^53 on is refused |
| `ProtobufFields.FixedField` | bindings/typescript/scripts/codegen.js:527-556 | A fixed-width field is the little-endian sum of its bytes, and too few bytes are refused |
| `ProtobufFields.ForeignMinusOne` | bindings/typescript/scripts/codegen.js:628-635 | The ten-byte varint that other encoders write for the int32 -1 is refused |
| `ProtobufRecords.RecordLocal` | bindings/typescript/scripts/codegen.js:446-478 | A record that lies inside a buffer is read the same whatever follows it |
| `ProtobufRecords.ParseConcat` | bindings/typescript/scripts/codegen.js:445-578 | Concatenated buffers of whole records hold the concatenated records |
| `ProtobufRecords.DecodeWholeThenRest` | bindings/typescript/scripts/codegen.js:445-578 | Decoding whole records followed by arbitrary bytes folds the records and goes on with the rest |
| `ProtobufRecords.FieldsIndependent` | bindings/typescript/scripts/codegen.js:480-576 | Decoding succeeds exactly when each field's own records decode, and every field is the fold of its own records |
| `ProtobufRecords.OrderBetweenFieldsIrrelevant` | bindings/typescript/scripts/codegen.js:438-585 | Two buffers with the same record sequence per field decode to the same message, or both fail |
| `ProtobufRecords.UnknownFieldIgnored` | bindings/typescript/scripts/codegen.js:480-497 | A whole record of an undeclared field inserted at any record boundary, before any bytes, leaves the result unchanged |
| `ProtobufRecords.UnusedWireTypeRejected` | bindings/typescript/scripts/codegen.js:577 | A tag whose wire type no declared field has makes decoding fail |
| `ProtobufRoundTrip.TagWritten` | bindings/typescript/scripts/codegen.js:410 | The tag goes onto the wire as 8 times the number plus the wire type, also where the shift overflows |
| `ProtobufRoundTrip.TagSeen` | bindings/typescript/scripts/codegen.js:448-452 | The signed shift recovers the number below 2^28 and a negative number from there on; the wire type survives |
| `ProtobufRoundTrip.TargetOfField` | bindings/typescript/scripts/codegen.js:409-411 | A field's own tag leads back to that field exactly when its number is below 2^28 |
| `ProtobufRoundTrip.EncodeParses` | bindings/typescript/scripts/codegen.js:402-437 | An encoding splits into whole records, one per written value, in field and element order |
| `ProtobufRoundTrip.ValueRoundTrip` | bindings/typescript/scripts/codegen.js:266-384 | Every codable value of every kind, nested to any depth, decodes from its record body to itself |
| `ProtobufRoundTrip.SlotsRoundTrip` | bindings/typescript/scripts/codegen.js:402-588 | Every codable message decodes from its encoding to itself: absent messages stay absent, repeated elements keep their order |
| `ProtobufTheorems.DecodedFaithful` | bindings/typescript/scripts/codegen.js:438-588 | Whatever bytes are decoded, the message has no negative number in a field without zigzag, no enum value, and only defaults in fields numbered 2^28 or above |
| `ProtobufTheorems.FaithfulSlotsEncode` | bindings/typescript/scripts/codegen.js:405-437 | Encoding a well-typed faithful message never throws |
| `ProtobufTheorems.RoundTripExactly` | bindings/typescript/scripts/codegen.js:402-588 | For every schema with distinct numbers and every well-typed message: encoding succeeds and decoding gives the message back if and only if it is faithful |
| `ProtobufTheorems.BackToBack` | bindings/typescript/scripts/codegen.js:438-585 | Decoding two concatenated encodings takes singular fields from the second (from the first where the second has no message) and appends repeated elements |
| `ProtobufTheorems.LostMessages` | bindings/typescript/scripts/codegen.js:290-294 | A negative int32 and a field numbered 2^28 are concrete messages that do not survive |
| `ProtobufTheorems.RefusedMessages` | bindings/typescript/scripts/codegen.js:328-343 | A negative sfixed64 makes encoding throw, and an enum value is gone after decoding |
| `ProtobufMerge.SilentExactly` | bindings/typescript/scripts/codegen.js:480-492 | Merging a message under another leaves the other as it is if and only if the first is silent under it |
| `ProtobufMerge.MergesExactly` | bindings/typescript/scripts/codegen.js:438-585 | Decoding two concatenated encodings gives the merge the Protocol Buffers specification prescribes if and only if every embedded message both have is silent in the first |
| `ProtobufMerge.ReplacedNotMerged` | bindings/typescript/scripts/codegen.js:489 | A concrete pair whose merge keeps an element that the decoder drops |
| `ProtobufRedecode.ScalarTypedExactly` | bindings/typescript/scripts/codegen.js:347-384 | A decoded scalar is a value of its field's type if and only if the number on the wire is in range |
| `ProtobufRedecode.MessageTypedExactly` | bindings/typescript/scripts/codegen.js:438-588 | A decoded message is well typed if and only if the records that count, the last of a singular field and all of a repeated one, are in range at every depth |
| `ProtobufRedecode.Redecodes` | bindings/typescript/scripts/codegen.js:402-588 | For every buffer in range, whoever wrote it: the decoded message encodes without a throw and decodes to itself again |
| `ProtobufRedecode.OverflowLost` | bindings/typescript/scripts/codegen.js:358-360 | 2^40 in an int32 field decodes as such, is not an int32, and is written again as 0 |
| `ProtobufCodec.EncodeExpression` | bindings/typescript/scripts/codegen.js:266-345 | The emitted lines for one value produce its record, or throw exactly for a negative sfixed64 inside it |
| `ProtobufCodec.EncodeField` | bindings/typescript/scripts/codegen.js:412-432 | The loop over a repeated field, or the guarded single value, produces the field's records or throws |
| `ProtobufCodec.EncodeMessage` | bindings/typescript/scripts/codegen.js:405-437 | The emitted encode produces the records of all fields in order or throws |
| `ProtobufCodec.SplitTag` | bindings/typescript/scripts/codegen.js:451-452 | Signed shift and mask are floor division by 8 and its remainder, for negative tags too |
| `ProtobufCodec.ReadRecordAt` | bindings/typescript/scripts/codegen.js:446-478 | One turn of the loop at an absolute offset reads the first record of the rest, with every error |
| `ProtobufCodec.DecodeExpression` | bindings/typescript/scripts/codegen.js:347-384 | The emitted right-hand sides, with their range and length checks, compute the decoded value of every kind |
| `ProtobufCodec.DecodeMessage` | bindings/typescript/scripts/codegen.js:438-588 | The emitted loop terminates on every byte string and computes the fold that the laws are about |
| `Uniffi.ReadWrite` | bindings/swift/ActrBindings/Actr.swift:85-149 | For every type, value and suffix, reading an encoding followed by the suffix gives the value and stops where the suffix begins |
| `Uniffi.ReadStable` | bindings/swift/ActrBindings/Actr.swift:85-114 | A successful read is determined by the bytes it consumes |
| `Uniffi.ReadCut` | bindings/swift/ActrBindings/Actr.swift:85-114 | Cutting any readable buffer before the end of its value is reported as buffer overflow |
| `Uniffi.PrefixOverflows` | bindings/swift/ActrBindings/Actr.swift:85-114 | Every proper prefix of an encoding fails with buffer overflow and never gives another value |
| `Uniffi.PrefixFree` | bindings/swift/ActrBindings/Actr.swift:139-150 | If two encodings start the same buffer, the values and the remainders are equal |
| `Uniffi.LiftExact` | bindings/swift/ActrBindings/Actr.swift:195-215 | `lift` undoes `lower` and rejects an encoding followed by anything |
| `Uniffi.ReadInverse` | bindings/swift/ActrBindings/Actr.swift:85-149 | Whatever reads is a value of the type whose encoding has the size consumed and, without booleans, is the bytes consumed |
| `Uniffi.LiftAcceptsExactly` | bindings/swift/ActrBindings/Actr.swift:195-215 | For a type without booleans `lift` accepts a buffer if and only if `lower` produces it |
| `Uniffi.BooleanBytesDiffer` | bindings/swift/ActrBindings/Actr.swift:527-546 | The byte 2 lifts to true, which is lowered to another byte |
| `UniffiBytes.Ranges` | bindings/swift/ActrBindings/Actr.swift:431-522 | The values of each number type are its literal range |
| `UniffiBytes.NumberBytes` | bindings/swift/ActrBindings/Actr.swift:147-150 | Each number type is written in its one, two, four or eight bytes, most significant first, in two's complement |
| `UniffiBytes.FlagBytes` | bindings/swift/ActrBindings/Actr.swift:535-537 | A boolean is the byte 1 or 0 |
| `UniffiBytes.OctetBytes` | bindings/swift/ActrBindings/Actr.swift:582-604 | Strings and data are a four-byte count and the bytes themselves |
| `UniffiBytes.OptionBytes` | bindings/swift/ActrBindings/Actr.swift:6561-6567 | An absent option is the byte 0, a present one the byte 1 and the value |
| `UniffiBytes.SequenceBytes` | bindings/swift/ActrBindings/Actr.swift:6651-6657 | A sequence is a four-byte count and the encodings of its items in order |
| `UniffiBytes.CaseBytes` | bindings/swift/ActrBindings/Actr.swift:4073-4096 | An enum is the number of its case from 1 on in four bytes and the encoding of its fields |
| `UniffiBytes.RealmBytes` | bindings/swift/ActrBindings/Actr.swift:463-474 | A realm is its identifier in four bytes |
| `UniffiBytes.DataChunkBytes` | bindings/swift/ActrBindings/Actr.swift:2593-2599 | A data chunk is name, number, payload, metadata and time stamp in this order |
| `UniffiBytes.LifecycleBytes` | bindings/swift/ActrBindings/Actr.swift:4082-4084 | A lifecycle event is two case numbers and an eight-byte time |
| `UniffiExact.ExactExactly` | bindings/swift/ActrBindings/Actr.swift:195-215 | For every type whose enums have cases: `lift` accepts only lowered buffers if and only if no boolean occurs in the type |
| `UniffiExact.NetworkEventInexact` | bindings/swift/ActrBindings/Actr.swift:4050-4098 | Some buffer lifts to a network event that no network event lowers to |
| `UniffiTypes.DataChunkExact` | bindings/swift/ActrBindings/Actr.swift:2581-2600 | A buffer lifts to a data chunk if and only if some data chunk lowers to it |
| `UniffiCodec.WriteInt` | bindings/swift/ActrBindings/Actr.swift:147-150 | Shifting and masking from the most significant byte on appends the big-endian two's complement of the width |
| `UniffiCodec.WriteValue` | bindings/swift/ActrBindings/Actr.swift:431-605 | Appends exactly the encoding of the value, for every type |
| `UniffiCodec.WriteElements` | bindings/swift/ActrBindings/Actr.swift:6651-6657 | The loop of a sequence converter appends the encodings of the items in order |
| `UniffiCodec.ReadInt` | bindings/swift/ActrBindings/Actr.swift:85-99 | Reads at the offset and advances it, or throws and leaves it |
| `UniffiCodec.ReadBytes` | bindings/swift/ActrBindings/Actr.swift:577-598 | Length prefix and bytes at the offset; too short throws, a negative length traps |
| `UniffiCodec.ReadLeaf` | bindings/swift/ActrBindings/Actr.swift:431-605 | The converters of integers, floats, booleans, strings and data read at the offset what the format says |
| `UniffiCodec.ReadOptional` | bindings/swift/ActrBindings/Actr.swift:6561-6567 | Tag 0 is absent, tag 1 a value, any other tag an error |
| `UniffiCodec.ReadSequence` | bindings/swift/ActrBindings/Actr.swift:6659-6667 | Count and items at the offset, a negative count traps |
| `UniffiCodec.ReadVariants` | bindings/swift/ActrBindings/Actr.swift:4053-4071 | Tags 1 to the number of cases select a case, any other tag is an error |
| `UniffiCodec.ReadValue` | bindings/swift/ActrBindings/Actr.swift:431-605 | The reader with its moving offset agrees with reading the rest of the data, for every type and error |
| `UniffiCodec.ReadElements` | bindings/swift/ActrBindings/Actr.swift:6659-6667 | The loop of a sequence converter reads that many items or fails as the first failing item does |
| `UniffiCodec.LiftBuffer` | bindings/swift/ActrBindings/Actr.swift:199-207 | Reads one value and rejects data with bytes left over |
| `HandleMap.UniffiHandleMap.constructor` | bindings/swift/ActrBindings/Actr.swift:358-367 | A new map is empty and starts numbering at 1 |
| `HandleMap.UniffiHandleMap.Insert` | bindings/swift/ActrBindings/Actr.swift:369-373 | One step of the map specification: the object under a new handle, or an overflow trap |
| `HandleMap.UniffiHandleMap.DoInsert` | bindings/swift/ActrBindings/Actr.swift:376-381 | Stores under the current number and advances it by 2, or traps and changes nothing |
| `HandleMap.UniffiHandleMap.Get` | bindings/swift/ActrBindings/Actr.swift:383-390 | Returns the object of a live handle or reports it stale, changing nothing |
| `HandleMap.UniffiHandleMap.Clone` | bindings/swift/ActrBindings/Actr.swift:392-399 | A live handle's object under a new handle, a stale one changes nothing |
| `HandleMap.UniffiHandleMap.Remove` | bindings/swift/ActrBindings/Actr.swift:402-409 | Removes exactly that handle and returns its object, or reports it stale |
| `HandleMap.HandlesFresh` | bindings/swift/ActrBindings/Actr.swift:358-381 | In every run issued handles are odd, below 2^64 and strictly increasing, so never reused |
| `HandleMap.LiveUntilRemoved` | bindings/swift/ActrBindings/Actr.swift:369-409 | From its issue a handle denotes its object until a remove names it, whatever else runs |
| `HandleMap.LookupExact` | bindings/swift/ActrBindings/Actr.swift:383-390 | In every run a lookup succeeds if and only if the handle was issued and not removed since, and returns the object it was issued for |
| `HandleMap.StaleForever` | bindings/swift/ActrBindings/Actr.swift:402-409 | A removed handle fails for the rest of the run |
| `HandleMap.CloneIndependent` | bindings/swift/ActrBindings/Actr.swift:392-399 | A clone is a different handle and keeps its object when the original is removed |
| `HandleMap.IssuesNext` | bindings/swift/ActrBindings/Actr.swift:376-381 | The k-th handle issued in a run is 2k - 1; insert and the clone of a live handle trap only when that plus 2 reaches 2^64 |
| `AsyncCall.ContinuationsResumedOnce` | bindings/swift/ActrBindings/Actr.swift:6691-6716 | Whatever callbacks arrive, repeated or stale, no round of a call and no handle is resumed twice, and none while its call is not suspended on it |
| `AsyncCall.HandleMeansSuspended` | bindings/swift/ActrBindings/Actr.swift:6710-6716 | Every handle in the map belongs to a call suspended on it in that round |
| `AsyncCall.ProtocolFollowed` | bindings/swift/ActrBindings/Actr.swift:6674-6706 | Each call completes its future only right after READY, frees it only right after completing, each once, and is resumed only by the handle it last polled with |
| `AsyncCall.ReturnedCleanly` | bindings/swift/ActrBindings/Actr.swift:6686-6706 | A call that has returned has freed its future and left no handle in the map |
| `AsyncCall.ReturnedOnce` | bindings/swift/ActrBindings/Actr.swift:6686-6706 | The events of a returned call contain exactly one completion and exactly one free, in this order and last |
| `AsyncCall.CanReturn` | bindings/swift/ActrBindings/Actr.swift:6690-6706 | From every reachable state with handles left, a continuation in which Rust wakes each suspended call with READY lets every call return |
| `AsyncCall.CallsExactly` | bindings/swift/ActrBindings/Actr.swift:6685 | The calls are exactly those created in the run |
| `AsyncCall.WakeupDelivered` | bindings/swift/ActrBindings/Actr.swift:6710-6716 | The callback for a suspended call's handle always resumes that call with that result |
| `AsyncCall.LanguageMeaning` | bindings/swift/ActrBindings/Actr.swift:6674-6706 | What the protocol language says event by event: which event may precede which, and what comes last |
| `AsyncCall.RunInv` | bindings/swift/ActrBindings/Actr.swift:6672-6716 | In every reachable state the live handles are exactly the suspended awaits and every call is at its place in the protocol |
| `NodeLifecycle.MadeThenTaken` | bindings/ffi/src/runtime.rs:148-177 | In every interleaving the handle is made at most once, the node taken at most once, and never made after taken |
| `NodeLifecycle.OneStartWins` | bindings/ffi/src/runtime.rs:237-253 | At most one start obtains the node |
| `NodeLifecycle.StartWonExactly` | bindings/ffi/src/runtime.rs:238-244 | A finished start obtained the node if and only if it is the call that took it |
| `NodeLifecycle.StartTakesNode` | bindings/ffi/src/runtime.rs:238-244 | Once any start has finished exactly one call has taken the node, and a start that lost, lost to another call |
| `NodeLifecycle.CreateFailsExactly` | bindings/ffi/src/runtime.rs:161-164 | A finished create fails if and only if the node was taken and no handle had been made |
| `NodeLifecycle.ArrivalsExactly` | bindings/ffi/src/runtime.rs:148-253 | The calls are those that arrived, each of the kind it arrived as |
| `NodeLifecycle.CreatesAgree` | bindings/ffi/src/runtime.rs:148-177 | All finished creates return the same result: the one handle, or failure only if the node was taken before any handle was made |
| `NodeLifecycle.Settled` | bindings/ffi/src/runtime.rs:148-177 | Results of finished calls never change afterwards |
| `NodeLifecycle.SomeoneMoves` | bindings/ffi/src/runtime.rs:149-161 | No reachable state is a deadlock, although a create waits for the node lock holding the handle lock |
| `NodeLifecycle.MovesAreProgress` | bindings/ffi/src/runtime.rs:148-177 | Every move brings its own call nearer its end and leaves the others where they are |
| `NodeLifecycle.MovesBounded` | bindings/ffi/src/runtime.rs:148-253 | Once no call arrives, any schedule makes at most as many effective moves as the calls have steps left |
| `NodeLifecycle.CanFinish` | bindings/ffi/src/runtime.rs:148-253 | From every reachable state some schedule of moves finishes every call |
| `NodeLifecycle.RunInv` | bindings/ffi/src/runtime.rs:148-253 | In every reachable state lock owners, cached handle, node and pending results fit together |
| `PortPipeline.InOrderNoOverlap` | cli/assets/web-runtime/actor.sw.js:704-712 | Messages of a port start in arrival order and each ends before the next starts |
| `PortPipeline.LostExactly` | cli/assets/web-runtime/actor.sw.js:704-712 | A settled message was processed if and only if it is the first or the `.catch` callback of the message before it did not throw in the run |
| `PortPipeline.RejectedExactly` | cli/assets/web-runtime/actor.sw.js:706-711 | A link ends up rejected if and only if its `.catch` callback was called in the run and threw |
| `PortPipeline.StatusTells` | cli/assets/web-runtime/actor.sw.js:704-712 | In every run the status of a link tells whether its processing and its callback returned or threw |
| `PortPipeline.ReturnSettles` | cli/assets/web-runtime/actor.sw.js:706-711 | A message whose processing returned is settled and fulfilled, and its `.catch` callback is never called |
| `PortPipeline.CatchRanExactly` | cli/assets/web-runtime/actor.sw.js:706-711 | The callback of a settled message was called if and only if its processing or the callback before it threw |
| `PortPipeline.LosesMessage` | cli/assets/web-runtime/actor.sw.js:704-712 | A run of seven steps after which the second message is settled and was never started |
| `PortPipeline.NothingLost` | cli/assets/web-runtime/actor.sw.js:627-712 | While no `.catch` callback throws, every settled message was processed, also behind failing and dropped ones |
| `PortPipeline.NeverStuck` | cli/assets/web-runtime/actor.sw.js:704-712 | The first unsettled link can always take a step |
| `PortPipeline.CanSettle` | cli/assets/web-runtime/actor.sw.js:704-712 | From every reachable state some continuation without arrivals and throws settles every message |
| `PortPipeline.MessagesKept` | cli/assets/web-runtime/actor.sw.js:704-712 | A queued message keeps its place and content |
| `PortPipeline.QueueIsArrivals` | cli/assets/web-runtime/actor.sw.js:704-706 | The chain holds exactly the messages that arrived, in their order |
| `PortPipeline.RunInv` | cli/assets/web-runtime/actor.sw.js:627-712 | In every reachable state the log is the trace of the chain, everything before an active link is settled, and a link ran exactly when its predecessor was fulfilled |
| `Registry.SafeExactly` | cli/assets/web-runtime/actor.sw.js:122-146 | Every mapping names a client with a port, except while that browser is being remapped, in all interleavings if and only if no client id is announced by two browsers |
| `Registry.RunSafe` | cli/assets/web-runtime/actor.sw.js:547-609 | Without shared ids that holds after every run of inits, remaps, unregisters and cleanups cut at their awaits |
| `Registry.SharedBreaks` | cli/assets/web-runtime/actor.sw.js:126-138 | For any two browsers sharing an id there is a run that leaves one mapped to a client without a port |
| `Registry.RunStructure` | cli/assets/web-runtime/actor.sw.js:126-146 | In every reachable state browsers are mapped once and every entry a pass has gone by is gone or active |
| `Registry.PassEndsClean` | cli/assets/web-runtime/actor.sw.js:126-146 | When a cleanup pass ends, every browser still mapped was in its snapshot, whatever was mapped between its awaits |
| `Registry.PassRemovesStale` | cli/assets/web-runtime/actor.sw.js:131-141 | A section of a pass removes at most one mapping, of a browser outside the snapshot, with its port, and nothing else |
| `Registry.UnregisterForgets` | cli/assets/web-runtime/actor.sw.js:547-564 | When an unregistration goes on after its await, its client is in neither map and all else is unchanged; over the client's own port a failed await changes nothing |
| `Registry.UnregisterRequest` | cli/assets/web-runtime/actor.sw.js:547-561 | A request to unregister, then its await, forgets the client |
| `Registry.PortUnregisterRequest` | cli/assets/web-runtime/actor.sw.js:682-691 | The same over the client's own port |
| `Registry.InitInstalls` | cli/assets/web-runtime/actor.sw.js:578-609 | An initialisation maps the client to the announced port and the browser to the client at once, unless the browser has another client: that one's port goes first |
| `Registry.RemapInstalls` | cli/assets/web-runtime/actor.sw.js:597-609 | After the await of a remap the same is installed |
| `Registry.ReadyExactly` | cli/assets/web-runtime/actor.sw.js:126-127 | The worker is ready if and only if its WASM module was loaded in the run |
| `Registry.PassesNeedWasm` | cli/assets/web-runtime/actor.sw.js:126-127 | No cleanup pass exists before that |
| `Registry.TimerStartsPass` | cli/assets/web-runtime/actor.sw.js:126-129 | Once ready, a timer starts a pass and changes neither map |
| `Registry.PassWithoutSnapshot` | cli/assets/web-runtime/actor.sw.js:143-145 | A pass that does not get its snapshot ends and changes nothing |
| `Registry.PassCompletes` | cli/assets/web-runtime/actor.sw.js:131-142 | Left to itself a pass with a snapshot ends, and then only browsers in it are mapped |
| `ConfigMerge.MergeValues` | cli/src/commands/config.rs:212-225 | The in-place merge computes the merge function whatever order the overlay's entries come in |
| `ConfigMerge.GetNestedValue` | cli/src/commands/config.rs:227-236 | The loop over the dotted parts looks up the path they form |
| `ConfigMerge.SplitJoin` | cli/src/commands/config.rs:229 | Splitting a key yields dot-free parts that join to it again |
| `ConfigMerge.JoinSplit` | cli/src/commands/config.rs:229 | Every non-empty list of dot-free parts is the split of its join |
| `ConfigMerge.LookupAfterMerge` | cli/src/commands/config.rs:212-236 | For every path: an overlay non-table wins, one on the way hides the path, two tables give their merge, an uncovered path gives the base's answer |
| `ConfigMerge.EmptyIsIdentity` | cli/src/commands/config.rs:212-225 | The empty table is an identity on both sides for tables |
| `ConfigMerge.Idempotent` | cli/src/commands/config.rs:212-225 | Merging a document into itself changes nothing |
| `ConfigMerge.AbsorbsExactly` | cli/src/commands/config.rs:212-225 | A layer below adds nothing if and only if the layer above speaks about each of its paths |
| `ConfigMerge.AssociativeExactly` | cli/src/commands/config.rs:212-225 | Three layers may be regrouped if and only if no non-table stands between a table and a later table that leaves part of it out |
| `ConfigMerge.SameShapeChains` | cli/src/commands/config.rs:212-225 | Layers in which no path is a table in one and a non-table in the next meet that condition |
| `ConfigMerge.NotAssociative` | cli/src/commands/config.rs:223 | The smallest configuration layers that cannot be regrouped: a section, a number in its place, the section without its key |
| `ErrorPayload.JsonEscape` | bindings/typescript/src/error.rs:75-93 | The loop escapes character by character |
| `ErrorPayload.EscapeSeals` | bindings/typescript/src/error.rs:75-93 | Escaped text has no control character and no quote but an escaped one |
| `ErrorPayload.ReadEscaped` | bindings/typescript/src/error.rs:75-93 | Read as a JSON string (section 7 of RFC 8259), escaped text ends at its closing quote and is the original text |
| `Json.ReadDecimal` | bindings/typescript/src/error.rs:95-99 | A decimal integer before a comma or brace reads as `RoundToDouble` of that integer, its nearest double by `RoundIsNearest` |
| `ErrorPayload.BuildPayload` | bindings/typescript/src/error.rs:103-128 | The pushed fields joined by commas are the payload text |
| `ErrorPayload.ReadFields` | bindings/typescript/src/error.rs:110-127 | Any list of readable members joined by commas reads as the object they spell, a repeated name keeping its last value |
| `ErrorPayload.PayloadReadBack` | bindings/typescript/typescript/error.ts:99-133 | Every payload parses and maps back to its kind, code, message, service name and hint |
| `ErrorPayload.ErrorReadBack` | bindings/typescript/src/error.rs:27-137 | The same for each of the eleven errors; retryable and dead-letter answers agree on both sides |
| `ErrorPayload.WhatArrives` | bindings/typescript/src/error.rs:27-67 | Kind, code, message, service name and hint of each of the eleven errors as literal texts, and which are retryable or for the dead letter queue |
| `ErrorPayload.TakenExactly` | bindings/typescript/typescript/error.ts:99-107 | An object printed from any readable members is taken for an error if and only if its kind, code and message are strings |
| `ErrorPayload.LeftAlone` | bindings/typescript/typescript/error.ts:118-120 | A message that does not start with a brace is passed on unchanged |
| `JsonText.ParseShown` | bindings/typescript/typescript/error.ts:123 | Every document printed with any white space between its parts parses to its value |
| `JsonText.ShowReads` | bindings/typescript/typescript/error.ts:123 | The reader stops where the document does |
| `JsonText.TrailingText` | bindings/typescript/typescript/error.ts:123 | A document followed by anything but white space is rejected, and only then |
| `JsonText.UnicodeReads` | bindings/typescript/typescript/error.ts:123 | A four-digit escape is its character, a pair of surrogates the character they spell |
| `JsonText.ControlInString` | bindings/typescript/typescript/error.ts:123 | A control character inside a string is rejected |
| `JsonText.Escapes` | bindings/typescript/typescript/error.ts:123 | The eight one-letter escapes of section 7 of RFC 8259, and no others |
| `JsonText.HexDigits` | bindings/typescript/typescript/error.ts:123 | Hexadecimal digits of either case |
| `JsonText.UnclosedString` | bindings/typescript/typescript/error.ts:123 | A string without its closing quote is rejected |
| `JsonText.FractionReads` | bindings/typescript/typescript/error.ts:123 | A fraction belongs to the number's literal |
| `JsonText.ExponentReads` | bindings/typescript/typescript/error.ts:123 | So does an exponent, with or without a sign |
| `JsonText.PointWantsDigits` | bindings/typescript/typescript/error.ts:123 | A point without digits after it is rejected |
| `JsonText.ExponentWantsDigits` | bindings/typescript/typescript/error.ts:123 | A signed exponent mark without digits after it is rejected |
| `JsonText.LeadingZero` | bindings/typescript/typescript/error.ts:123 | A number with a leading zero is rejected |
| `JsonText.BrokenRecord` | bindings/typescript/typescript/error.ts:123 | A record that neither goes on with a comma nor ends with its brace is rejected |
| `JsonText.BrokenList` | bindings/typescript/typescript/error.ts:123 | A list that neither goes on with a comma nor ends with its bracket is rejected |
| `ErrorPayload.RetryExactly` | bindings/typescript/typescript/error.ts:114-133 | The retry hint arrives unchanged if and only if it is below 2^53 or its excess low bits are zero |
| `ErrorPayload.RetryRounded` | bindings/typescript/typescript/error.ts:114-133 | The hints 2^53 + 1 and 2^53 both arrive as 2^53 |
| `ErrorPayload.ErrorsStayDistinct` | bindings/typescript/typescript/error.ts:114-133 | Two errors arrive as the same typed error if and only if they are equal, even where rounding merges their hints |
| `ErrorPayload.HintArrives` | core/protocol/src/error.rs:45-48 | The hint made from elapsed time and timeout arrives as the time left to the nearest double, exactly so below 2^53, and as null exactly when the timeout has passed |
| `LockVerify.CheckRecord` | cli/src/commands/fingerprint.rs:641-690 | The search loop reports nothing or one mismatch for a record, by the first file of its path |
| `LockVerify.CheckFiles` | cli/src/commands/fingerprint.rs:635-693 | The file loop skips incomplete entries and reports the others in order |
| `LockVerify.CheckService` | cli/src/commands/fingerprint.rs:614-630 | The loop stops at the first service fingerprint and reports it if it is not the current one |
| `LockVerify.VerifyAgainstLock` | cli/src/commands/fingerprint.rs:595-711 | The whole procedure, with a missing or unreadable lock file, computes the verdict |
| `LockVerify.ReportExactly` | cli/src/commands/fingerprint.rs:641-690 | A record is reported, once and under its own path, if and only if it does not hold |
| `LockVerify.AllRecordsComplete` | cli/src/commands/fingerprint.rs:633-640 | The records looked at are exactly the file entries with both texts |
| `LockVerify.ServiceExactly` | cli/src/commands/fingerprint.rs:614-630 | The service is reported if and only if the first dependency with a service fingerprint has another one |
| `LockVerify.NamesServiceMeans` | cli/src/commands/fingerprint.rs:617-619 | A dependency names a service if and only if its fingerprint starts with `service_semantic:` |
| `LockVerify.ServiceMismatch` | cli/src/commands/fingerprint.rs:620-627 | The service's mismatch has a fixed name, the first such dependency's fingerprint as expected and the current one as actual |
| `LockVerify.PassedExactly` | cli/src/commands/fingerprint.rs:595-711 | Verification passes if and only if the lock file parses, every record holds and the service fingerprint is the current one |
| `LockVerify.WrittenLockVerified` | cli/src/commands/fingerprint.rs:595-711 | A lock file written with any dependencies and files passes if and only if each file has its recorded fingerprint and the first service fingerprint is the current one |
| `LockVerify.FailedExactly` | cli/src/commands/fingerprint.rs:697-710 | Otherwise the mismatches are the failing records once each in lock order, then the service |
| `LockVerify.ExplanationDiffers` | cli/src/commands/fingerprint.rs:657-668 | A reported actual fingerprint is the computed one, and differs from the expected one exactly when the record does not hold |

## Left out

- ProtobufTheorems.RoundTripExactly: strings and byte fields of 2^32 bytes and more, whose length prefix wraps, are excluded by `FitsSlots`.
- ProtobufTheorems.BackToBack: stated for messages the codec can carry and whose lengths fit, because the others do not survive even alone.
- ProtobufMerge.MergesExactly: likewise stated for messages the codec can carry.
- ProtobufRedecode.Redecodes: the second decoding is stated for messages whose lengths fit 32 bits. Numbers out of range are re-encoded by the code too; only `OverflowLost` says what happens then.
- Uniffi.Lift: this is the `lift` of the buffer converters; a bare string, integer or boolean is lifted by functions of its own, which are not modelled.
- Doubles.RoundIsNearest: the upper end of the range of a double is not modelled.
- UniffiExact.ExactExactly: an enum without cases, which Swift cannot construct, is excluded by `Solid`.
- ErrorPayload.PayloadReadBack: the code is copied without escaping, so it must be plain text; `ErrorReadBack` shows that all codes are.
- ErrorPayload.JsonEscape: text is Unicode scalar values; JavaScript's UTF-16 code units are not modelled.
- Json.ReadDecimal: numbers with a fraction or an exponent keep their literal, and integers beyond the range of a double are not turned into infinity.
- A lone surrogate escape is rejected by the JSON reader here and accepted by JavaScript; no payload contains one.
- UTF-8 validity: strings are their bytes, so a Swift reader's trap on invalid UTF-8 does not occur.
- Floating point: floats and doubles are their bit patterns, and rounding a number to a float is not modelled.
- Malformed JavaScript messages: values are those of the field's protobuf type; `null` is treated like `undefined`.
- The generator's templates, file discovery and client stubs, and `renderPbJs`, which repeats the logic of `renderPbTs`.
- Foreign calls: `RustBuffer` allocation, vtables, checksums, object handles, lifting of call results and errors.
- Payload content in the service worker: WASM loading, configuration, logging and the calls themselves are outcomes of actions.
- Order of entries in a merged TOML table, reading and writing configuration files, and setting or removing single keys.
- The computation of fingerprints: a function from file content to a fingerprint or a failure.
- Identity and stack of a JavaScript error that is passed on unchanged.
- Starting the node, registration, and what the event handle does: only the two mutex-guarded options are modelled.
- Commands of the command line tool other than configuration and fingerprint verification: they drive processes, networks and databases.
