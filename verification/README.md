# Verified model of libddwaf-java's serialization and conversion core

libddwaf-java hands Java object graphs to a native web application firewall and turns native results back into Java
strings. This project models the code that does so, in the form the code has, and proves what it is for:

- **Serializer** (`Truncation`, `Budget`, `Pruning`, `Overrun`, `Surplus`, `Bump`, `Records`, `OffHeap`, `Arena`,
  `Layout`, `Serializer`, `Serialization`, `Recycling`). A Java map is flattened into 40-byte records that refer to each
  other and to NUL-terminated strings by raw addresses. `Truncation.Ser` says, as a value, what is written under the
  limits on depth, elements and string size, and `Pruning.Shows` what the tree then shows of the input;
  `Records.Decode` follows addresses and lengths through memory. `SerializeMore` is the imperative code over off-heap
  memory; what it leaves in memory decodes to exactly the truncated input.
- **Leases and contexts** (`Leases`, `WafContext`, `Protocol`). The pool of arenas over real memory, where every root of
  every open lease stays decodable whatever other leases do, and a step machine for all interleavings of threads.
- **Transcoder** (`Unicode`, `Transcoder`, `JsonSegments`, `JsonTranscoder`, `Bits`). The lenient UTF-8 and UTF-16
  decoders and writers, the growing buffer, and the 256-byte window that slides over a list of segments.
- **JSON** (`WafObjects`, `JsonText`, `JsonPrinter`, `JsonUnits`, `JsonParser`, `JsonDecode`). The recursive printer over
  segments, the text as bytes and as the string the Java caller receives, and a parser for both.
- **Base64** (`Base64`, `Base64Encoder`, `Attributes`). The resumable state machine, its unrolled fast loop, and the
  attributes that are printed, compressed, encoded and made a Java string.
- **Debug printer** (`Rendering`, `LineReader`, `Doubles`, `Hstring`). The growing buffer, the printer that reads the
  serializer's records, and a reader of its text.
- **Native converter** (`JavaValues`, `Converter`, `NativeTrees`, `Agreement`). The second, budgeted conversion of Java
  values, what its trees show of them, and for which values it agrees with the serializer.

Code that works in place is a class or a method over arrays with loops; what it computes is stated by functions on
values (`Unicode`, `JsonText`, `Truncation`, `Records`, `Rendering`), and the laws are lemmas about those functions. What
such a function computes is said a second time without it: by a relation on its results (`Pruning`, `NativeTrees`), by a
parser, reader or decoder with constants of its own (`JsonParser`, `LineReader`, `Base64.Decode`), or number by number.

## What does not hold as one might expect

- `_write_utf16_codeunits` keeps only the low 16 bits of a code point, so UTF-16 to UTF-8 and back is faithful exactly
  when no code point is 0x20000 or above (`Unicode.RoundTripFaithfulIff`, `Unicode.RoundTripLosesPlane2`).
- The scratch buffer for doubles in `_hstring_write_pwargs` is one byte short for negative numbers with an exponent of
  three digits: a double is printed without a value exactly if it is finite, negative, and at least 10^100 or else
  nonzero and below 10^-99 in magnitude (`Doubles.FloatDroppedIff`, `Doubles.SmallestNegativeIsDropped`).
- The limit on elements is a limit on records exactly when it is 1 or 2, or positive with a depth limit of 0 or below
  (`Overrun.LimitHoldsIff`): otherwise an inner container can use up what was left, and its siblings are still written,
  as empty maps. `Overrun.NeverMoreThanIff` gives the exact maximum for all limits.
- The too-large metric counts the records written beyond the budget and not the elements left out. It stays 0 exactly
  when the budget runs out at a last element (`Surplus.SurplusIsNotCountedIff`), however many nodes are lost; in a
  container without inner containers it always does (`Surplus.FlatSurplusIsNotCounted`).
- Serializing and converting test for classes in different orders, and `_convert_checked` reads primitive arrays as
  arrays of objects. It also reads a `CharBuffer` over an array without its array offset: the slice "cdef" of an array
  with "abcdef" is serialized as "cdef" and converted to "abcd" (`Agreement.SliceDiffers`). The two agree exactly on the
  values all of whose objects are of one known kind and can be read, and whose buffers read the same with and without
  the offset (`Agreement.ConvertersAgreeIff`, `JavaValues.Alike`). An object of an unknown class is null for
  `doSerialize`; for `_convert_checked`, which logs that it is encoded as invalid, it is an empty map.
- Nothing keeps a lease from being used after its `close`, or by another thread during it; then a pooled arena may not be
  reset (`Protocol.LateUseDirtiesPool`, `Protocol.RacingUseDirtiesPool`), or an arena already leased again is written
  (`Protocol.LateUseReachesOther`). If each thread uses only the leases it got, pooled arenas are reset and leased ones
  hold only what was written through their lease, exactly while no lease is used after its `close` has begun
  (`Protocol.UnmixedIff`).
- FLOAT and NULL nodes are printed as nothing, so the text of a tree with one parses to another value or not at all
  (`JsonParser.PrintThenParse`, `JsonParser.Reading`).
- The tests for non-shortest forms of two bytes and for a short output are dead branches (`Transcoder.NextOfTwo`,
  `Transcoder.JavaUtf8ToJString`, `JsonTranscoder.DecodeAll`).

## Reading the model

- Bytes, code units and 64-bit fields are integers of the right range. The shifts and masks of C are functions of `Bits`,
  defined bit by bit; `Transcoder` and `Base64Encoder` use them where the code does, and the specifications are in
  quotients and remainders.
- Off-heap memory is one byte sequence indexed by address, little-endian. A direct buffer is a range of addresses that
  was in no buffer before; it is never freed. `Heap.Addressable` says that addresses are 64-bit numbers; what a method
  leaves in memory is promised under it. A ghost field records which segment an address was handed to.
- A range of memory is *taken* between two moments when it was open, or did not exist, and is not open any more. A tree
  is represented by `ObjectAt`, which also says which addresses it lies in.
- Java objects are a finite map from identities to values, and may refer to each other in cycles. The serializer's
  graphs give each object by the branch that takes it; `JavaValues` derives that branch, and the native one, from the
  classes of the object.
- In `Protocol` any thread may use any lease at any moment, one event being one access to its arena; the state records
  what each arena holds through which lease. A lease is closed by its owner alone.
- A thrown exception is a result (`None`, `Threw`, `Stopped`, `ok == false`).

## Model

| member | source | states |
|---|---|---|
| Unicode.NextUtf8Exact | src/main/c/utf16_utf8.c:81-162 | A decoding step succeeds if and only if the bytes start with a well-formed sequence of section 4 of RFC 3629; encoding the scalar value again gives the consumed bytes |
| Unicode.NextUtf8FailureIsMaximal | src/main/c/utf16_utf8.c:85-88 | A failed step takes at most the bytes its first byte announces, stops before the first later byte that is ASCII or from C2 to F4, and not earlier |
| Unicode.DecodeWritten | src/main/c/utf16_utf8.c:164-192 | Decoding what was encoded gives the code point back and consumes exactly its bytes, whatever follows |
| Unicode.Utf8ToUtf16Length | src/main/c/utf16_utf8.c:263-265 | Decoding produces at most one code unit per byte |
| Unicode.Utf16ToUtf8Length | src/main/c/utf16_utf8.c:212-215 | Encoding produces at most three bytes per code unit |
| Unicode.NextUtf8AtBoundary | src/main/c/utf16_utf8.c:81-162 | A decoding step is the same at the end of the input and before a byte that could start a character |
| Unicode.DecodeConcat | src/main/c/utf16_utf8.c:279-294 | Lenient decoding of a + b is that of a followed by that of b, for arbitrary bytes, when b is empty or starts with a lead byte |
| Unicode.WritePair | src/main/c/utf16_utf8.c:194-204 | A surrogate pair is written back with only the low six bits of its lead |
| Unicode.WriteUtf16Reads | src/main/c/utf16_utf8.c:194-204 | The units written for a supplementary k read as 0x10000 + (k mod 0x10000), which is k if and only if k is below 0x20000 |
| Unicode.RoundTripExact | src/main/c/utf16_utf8.c:224-294 | UTF-16 to UTF-8 and back, for every input: unpaired surrogates replaced by U+FFFD and the lead of every pair narrowed |
| Unicode.RoundTripFaithfulIff | src/main/c/utf16_utf8.c:194-294 | The round trip only replaces unpaired surrogates if and only if every code point is below 0x20000 |
| Unicode.RoundTripLosesPlane2 | src/main/c/utf16_utf8.c:200 | U+20000 comes back as U+10000 |
| Unicode.EncodeUnit | src/main/c/utf16_utf8.c:164-181 | A code unit that is no surrogate is encoded in one, two or three bytes, given number by number |
| Unicode.EncodePair | src/main/c/utf16_utf8.c:41-79 | A surrogate pair is encoded in the four bytes of its code point, given number by number |
| Unicode.EncodeUnpaired | src/main/c/utf16_utf8.c:224-252 | Any other surrogate is encoded as EF BF BD |
| Unicode.DecodeIllFormed | src/main/c/utf16_utf8.c:279-294 | An ill-formed sequence, as far as the failed step goes, is decoded to one FFFD |
| Bits.Decoded2 | src/main/c/utf16_utf8.c:108 | The masks and shifts of the two-byte form, taken bit by bit, give the number `Unicode.Value2` |
| Bits.Decoded3 | src/main/c/utf16_utf8.c:126-127 | The same for three bytes and `Unicode.Value3` |
| Bits.Decoded4 | src/main/c/utf16_utf8.c:149-150 | The same for four bytes and `Unicode.Value4` |
| Bits.Written2 | src/main/c/utf16_utf8.c:174-176 | The two bytes the UTF-8 writer computes with shifts, masks and ors are the quotient and the remainder with their marks |
| Bits.Written3 | src/main/c/utf16_utf8.c:178-181 | The same for three bytes |
| Bits.Written4 | src/main/c/utf16_utf8.c:183-187 | The same for four bytes |
| Bits.Written16 | src/main/c/utf16_utf8.c:200-201 | The units the UTF-16 writer computes keep the low 16 bits of the code point |
| Bits.FirstGroup | src/main/c/base64.c:116-119 | The character and the carry of a first byte are its upper six and lower two bits |
| Bits.SecondGroup | src/main/c/base64.c:129-131 | With the carry of two bits: the upper four bits complete a character, and the lower four are carried |
| Bits.ThirdGroup | src/main/c/base64.c:141-143 | With the carry of four bits: the upper two complete a character, and the lower six are another |
| Bits.TwelveBits | src/main/c/base64.c:201-206 | The four indices are the four 12-bit digits of the 64-bit word from its bit 16 on |
| Transcoder.GetNextCodepointUtf16 | src/main/c/utf16_utf8.c:41-79 | Cursor, status and code point are those of one step over ill- or well-formed UTF-16 |
| Transcoder.GetNextCodepointUtf8 | src/main/c/utf16_utf8.c:81-162 | The branches of the decoder agree with the step defined by the table of well-formed sequences and by the run of non-lead bytes |
| Transcoder.NextOfTwo | src/main/c/utf16_utf8.c:101-112 | The two-byte branch, with its test for non-shortest forms dead |
| Transcoder.NextOfThree | src/main/c/utf16_utf8.c:113-133 | The three-byte branch with its rejected forms |
| Transcoder.NextOfFour | src/main/c/utf16_utf8.c:134-155 | The four-byte branch with its rejected forms |
| Transcoder.WriteUtf8CodeUnits | src/main/c/utf16_utf8.c:164-192 | Appends the shortest UTF-8 form and returns its length |
| Transcoder.WriteUtf16CodeUnits | src/main/c/utf16_utf8.c:194-204 | Appends the code units as the code writes them |
| Transcoder.EnsureFourFree | src/main/c/utf16_utf8.c:225-236 | One doubling always leaves four free bytes, and keeps what was written |
| Transcoder.JavaUtf16ToUtf8 | src/main/c/utf16_utf8.c:206-257 | The result is the lenient encoding with a NUL after it, in a block whose size is bounded by the input's |
| Transcoder.JavaUtf8ToJString | src/main/c/utf16_utf8.c:259-306 | The result is the lenient decoding, or one of the two size errors; the room never runs out |
| JsonSegments.JsonSegEnsure | src/main/c/json.h:82-103 | The last segment with enough room; nothing already stored changes |
| JsonSegments.JsonAppend | src/main/c/json.h:105-117 | The bytes of the list grow by exactly the data, wherever it is stored |
| JsonSegments.JsonLength | src/main/c/json.h:30-37 | The length is that of the concatenated bytes |
| JsonSegments.JsonIterator.Read | src/main/c/json.h:39-59 | A read of any size gives the next bytes of the concatenation, fewer only at its end |
| JsonTranscoder.Window.Compact | src/main/c/utf16_utf8.c:404-406 | The regions of the copy do not overlap; the bytes still to decode stay the same |
| JsonTranscoder.Window.Refill | src/main/c/utf16_utf8.c:404-416 | After the refill there are four bytes to look at, or the input has ended |
| JsonTranscoder.Window.WindowIsEnough | src/main/c/utf16_utf8.c:403-427 | Decoding one code point of the window is decoding one code point of all that is left |
| JsonTranscoder.Window.DecodeNext | src/main/c/utf16_utf8.c:421-433 | One turn of the loop writes what the whole-buffer decoder would write and moves the window on |
| JsonTranscoder.DecodeAll | src/main/c/utf16_utf8.c:398-434 | The window loop writes the decoding of all bytes and never finds the output too short |
| JsonTranscoder.JavaJsonToJString | src/main/c/utf16_utf8.c:379-447 | The result on a list of segments equals that of the whole-buffer conversion on the concatenated bytes |
| JsonSegments.JsonSegNew | src/main/c/json.h:61-80 | An empty segment of the size asked for, but of at least the minimum size, if the size is a 32-bit number |
| WafObjects.DecimalFits | src/main/c/debug_helpers.c:151-172 | The decimal text of every 64-bit number has at most 20 characters |
| JsonText.EscapeShortcut | src/main/c/json.h:172-182 | Escaping keeps the length if and only if it changes nothing, if and only if no byte needs an escape |
| JsonText.ControlEscape | src/main/c/json.h:143-166 | The six bytes of an escaped control character, with capital hexadecimal digits |
| JsonText.PrintableIff | src/main/c/output.c:531-541 | What the recursion prints is exactly the sound trees no node of which is deeper than level 20 |
| JsonPrinter.JsonStrEncodedSize | src/main/c/json.h:129-142 | The size is that of the escaped string |
| JsonPrinter.JsonEncodeStrAt | src/main/c/json.h:143-166 | Writes the escaped string and nothing else |
| JsonPrinter.JsonEncodeStr | src/main/c/json.h:168-186 | Appends the escaped string through either path, or fails when it is too long |
| JsonPrinter.ConvertJson | src/main/c/output.c:531-601 | Appends the text of the tree, or fails exactly on the trees that cannot be printed at this depth |
| JsonPrinter.OutputConvertJson | src/main/c/output.c:516-529 | Succeeds if and only if the tree is sound and no deeper than 20; the segments then hold its text |
| JsonUnits.TextIsPrinted | src/main/c/output.c:531-601 | The text in code units, taken for bytes, is the text that is printed |
| JsonParser.ParseReading | src/main/c/output.c:531-601 | The text of any tree, read as JSON whatever follows it: the reading of the tree, in which a FLOAT or NULL node is a syntax error or, alone in an array, nothing |
| JsonParser.ReadingIsValueIff | src/main/c/output.c:537-598 | What is read is the value of the tree if and only if no node in it is printed as nothing |
| JsonParser.ParseText | src/main/c/output.c:531-601 | The text of a tree of signed, unsigned, string, bool, array and map parses to its value, whatever follows, among bytes and among the units of a Java string |
| JsonParser.PrintThenParse | src/main/c/output.c:516-601 | Parsing the whole printed text gives the reading of the tree, and gives its value if and only if no node in it is printed as nothing |
| JsonParser.StringThenParse | src/main/c/waf_jni.c:2184-2196 | The same for the Java string and the value with each string leniently decoded |
| JsonDecode.DecodeEscape | src/main/c/json.h:143-166 | Escaping commutes with lenient decoding, for arbitrary bytes |
| JsonDecode.DecodeText | src/main/c/output.c:531-601 | Decoding the printed text decodes each string by itself and leaves the structure around it alone |
| JsonDecode.ResultString | src/main/c/waf_jni.c:2184-2196 | Printing a tree and reading the segments as a Java string gives none exactly when printing fails; a string that is not too long parses to the value with each string leniently decoded, if and only if the tree has one |
| Attributes.EncodeJsonGzipBase64 | src/main/c/output.c:661-700 | A string exactly for printable trees of at most 2500 bytes of text whose compression succeeds; it is the encoding of the compressed bytes |
| Attributes.EncodedString | src/main/c/output.c:687-699 | Decoding the encoding as UTF-8 changes no character, and the compressed bytes can be recovered from it |
| Base64.DecodeEncode | src/main/c/base64.c:42-56 | A reference decoder for section 4 of RFC 4648 recovers every input |
| Base64.CapacityIsExact | src/main/c/output.c:687 | The capacity computed by the caller is exactly the length of the encoding |
| Base64.StreamThenTrailer | src/main/c/base64.c:58-78 | The characters of the stream and the trailer for the pending bytes make the encoding |
| Base64.PendingStep | src/main/c/base64.c:111-146 | How one byte changes the number of pending bytes and the carry |
| Base64.FedAllExtendsStream | src/main/c/base64.c:88-150 | The characters of a sequence of calls are the stream of the concatenated chunks |
| Base64.ChunkIndependence | src/main/c/base64.c:58-150 | However the input is split, the calls and the trailer give the one-shot encoding |
| Base64Encoder.EncLoopInner | src/main/c/base64.c:190-217 | An eight-byte load within bounds gives the eight characters of the first six bytes |
| Base64Encoder.EncLoop | src/main/c/base64.c:219-265 | The unrolled loop does exactly (slen - 2) / 6 rounds from eight bytes on, none before, and writes their characters |
| Base64Encoder.Base64State.EncodePlain | src/main/c/base64.c:88-150 | Writes what the fed history determines; afterwards the state holds the pending bytes of the longer history |
| Base64Encoder.Base64State.EncodeFinal | src/main/c/base64.c:58-78 | Writes the trailer of what was fed |
| Base64Encoder.Base64Encode | src/main/c/base64.c:42-56 | Writes the encoding of section 4 of RFC 4648 |
| Records.DecodeObject | src/main/java/com/datadog/ddwaf/ByteBufferSerializer.java:587-609 | Where a tree is represented in memory, following addresses and lengths from its record gives exactly that tree |
| Records.RecordLayout | src/main/java/com/datadog/ddwaf/ByteBufferSerializer.java:600-722 | Where a tree is represented: the offsets of name, length, value, number of entries and type, little-endian, the code of each type, and the NUL after each text |
| Records.ObjectKept | src/main/java/com/datadog/ddwaf/ByteBufferSerializer.java:587-609 | A tree stays represented as long as the bytes it lies in stay |
| Budget.SerConserves | src/main/java/com/datadog/ddwaf/ByteBufferSerializer.java:109-136 | The nodes written are what the budget lost, and the too-large counter rises by how far the budget fell below zero, on cyclic graphs too |
| Pruning.SerIff | src/main/java/com/datadog/ddwaf/ByteBufferSerializer.java:88-259 | A call ends with a tree if and only if the tree shows its input: every name and string as the encoding of exactly its first maxStringSize code units, "" for a null key, the first elements there is budget for in order, each kind of value, and an empty map beyond the budget or the depth; in all other cases it throws |
| Pruning.SerTakes | src/main/java/com/datadog/ddwaf/ByteBufferSerializer.java:88-259 | The tree determines what is left of the budget, the three counters (tooLong by one for each cut name or string, tooLarge and tooDeep by one for each node beyond budget or depth), and the memory asked for |
| Pruning.TruncateIff | src/main/java/com/datadog/ddwaf/ByteBufferSerializer.java:68-86 | The same for a whole run |
| Pruning.StringIsCut | src/main/java/com/datadog/ddwaf/ByteBufferSerializer.java:142-156 | A string is written as the encoding of its first maxStringSize code units, and counted once if that is not all of it |
| Pruning.NameIsCut | src/main/java/com/datadog/ddwaf/ByteBufferSerializer.java:97-107 | So is a name |
| Pruning.NullKeyIsEmptyName | src/main/java/com/datadog/ddwaf/ByteBufferSerializer.java:221-236 | An entry with a null key has the empty name |
| Pruning.NeverThrows | src/main/java/com/datadog/ddwaf/ByteBufferSerializer.java:364-375 | With a string limit that is not negative, and three bytes for each unit and a NUL within an int, no run throws |
| Overrun.SerOverrun | src/main/java/com/datadog/ddwaf/ByteBufferSerializer.java:166-247 | How far one call can overdraw its budget: by what each level can still write after an inner container has taken the rest |
| Overrun.RunBudget | src/main/java/com/datadog/ddwaf/ByteBufferSerializer.java:68-136 | For a run: the remaining budget, the too-large counter, and bounds on the number of records, one of them elements + depth * (elements - 2) |
| Overrun.SelfOverruns | src/main/java/com/datadog/ddwaf/ByteBufferSerializer.java:109-136 | A list that contains itself overdraws every budget by exactly that much |
| Overrun.NeverMoreThanIff | src/main/java/com/datadog/ddwaf/ByteBufferSerializer.java:109-136 | No input at all makes a run write more than n records if and only if n is at least Most of the limits |
| Overrun.LimitHoldsIff | src/main/java/com/datadog/ddwaf/ByteBufferSerializer.java:109-136 | The limit on elements limits the records of every run if and only if it is 1 or 2, or positive with a depth limit of 0 or below |
| Surplus.EntriesLostIff | src/main/java/com/datadog/ddwaf/ByteBufferSerializer.java:166-247 | For every container that is entered, of any kind: entries are left out if and only if there are more than the budget has left, and the too-large counter stays 0 if and only if the budget runs out cleanly |
| Surplus.FlatSurplusIsNotCounted | src/main/java/com/datadog/ddwaf/ByteBufferSerializer.java:166-247 | In a container without inner containers left-out entries never raise the too-large counter |
| Surplus.SerCutsCleanly | src/main/java/com/datadog/ddwaf/ByteBufferSerializer.java:109-136 | The budget of a call is not overdrawn if and only if all admitted elements but the last fit, and the last one is cut cleanly itself |
| Surplus.SurplusIsNotCountedIff | src/main/java/com/datadog/ddwaf/ByteBufferSerializer.java:68-136 | A run loses nodes and counts none of them if and only if the value has more nodes than the limit and the budget runs out cleanly; it then writes exactly as many records as the limit |
| Budget.SerHeight | src/main/java/com/datadog/ddwaf/ByteBufferSerializer.java:118-136 | The tree has at most depth + 1 levels below its root, on cyclic graphs too |
| Budget.SerLossless | src/main/java/com/datadog/ddwaf/ByteBufferSerializer.java:88-259 | Within all limits the tree is that of the input and nothing is counted |
| Budget.UnfoldStable | src/main/java/com/datadog/ddwaf/ByteBufferSerializer.java:88-259 | The tree of an input that fits in a depth is the same at every greater depth |
| Bump.PlacesAfter | src/main/java/com/datadog/ddwaf/ByteBufferSerializer.java:497-518 | Every range handed out lies inside its segment and after what was used |
| Bump.FirstFit | src/main/java/com/datadog/ddwaf/ByteBufferSerializer.java:401-436 | The segment chosen is the first from the current one on with enough left, or else a new one of exactly the size asked for or the minimum |
| Bump.ServedFirst | src/main/java/com/datadog/ddwaf/ByteBufferSerializer.java:497-518 | The range lies at the start of what is left there, and the next one after it |
| Bump.PlacesDisjoint | src/main/java/com/datadog/ddwaf/ByteBufferSerializer.java:401-436 | Any two ranges handed out since the last reset share no byte |
| Bump.ReplayAfterReset | src/main/java/com/datadog/ddwaf/ByteBufferSerializer.java:318-330 | After a reset, requests served before get the same segments and offsets, and no segment is made |
| Recycling.RunInputs | src/main/java/com/datadog/ddwaf/ByteBufferSerializer.java:68-86 | Runs on one lease make exactly the requests their inputs determine, in order, with their roots where the allocation rule puts them |
| Recycling.SecondLeaseReplays | src/main/java/com/datadog/ddwaf/ByteBufferSerializer.java:318-436 | On an arena that has the segments already, the same inputs put their roots at the same addresses and add no segment |
| Recycling.Replay | src/main/java/com/datadog/ddwaf/ByteBufferSerializer.java:440-484 | Lease, inputs, any other inputs that may throw, close, lease again, the same inputs: same root addresses and no new segment |
| Leases.RangesOfLease | src/main/java/com/datadog/ddwaf/ByteBufferSerializer.java:401-436 | Every record array and every string handed out on a lease lies inside its segment, the former a whole number of records from the start, and no two share a byte |
| OffHeap.SegmentList.ChangeSegment | src/main/java/com/datadog/ddwaf/ByteBufferSerializer.java:414-436 | The next segment, made anew only at the end of the list |
| OffHeap.SegmentList.MakeRoom | src/main/java/com/datadog/ddwaf/ByteBufferSerializer.java:401-412 | The loop stops at the first segment from the current one on with enough left, and only open memory may have changed |
| OffHeap.SegmentList.Allocate | src/main/java/com/datadog/ddwaf/ByteBufferSerializer.java:401-412 | The range handed out was open or new, is open no more, and lies where the allocation rule says |
| OffHeap.SegmentList.Store | src/main/java/com/datadog/ddwaf/ByteBufferSerializer.java:762-787 | The bytes are at the returned address and nothing outside open memory was written |
| OffHeap.SegmentList.Reset | src/main/java/com/datadog/ddwaf/ByteBufferSerializer.java:318-330 | All segments are kept, empty, and the first is current |
| Arena.Arena.constructor | src/main/java/com/datadog/ddwaf/ByteBufferSerializer.java:313-316 | A new arena has one segment of each kind, of the minimum sizes |
| Arena.Arena.WriteStringUnlimited | src/main/java/com/datadog/ddwaf/ByteBufferSerializer.java:364-391 | The UTF-8 text and a NUL in memory that was open or new; null, and nothing changed, when three bytes per unit and one exceed an int |
| Arena.GetSlot | src/main/java/com/datadog/ddwaf/ByteBufferSerializer.java:564-576 | Whatever stale views the array keeps, the view returned covers exactly record i; its base, which native code asks for, is the start of the array if that was made from a slice, and else the start of the segment |
| Arena.Arena.TakeView | src/main/java/com/datadog/ddwaf/ByteBufferSerializer.java:497-518 | A recycled or new array buffer denotes exactly the records at the position; arrays in use are not disturbed |
| Arena.Arena.AllocatePWArgsBuffer | src/main/java/com/datadog/ddwaf/ByteBufferSerializer.java:393-412 | An array of num records in memory that was open or new, which segment was used first, and the base its views will have: the array itself if it is to be address compatible, and else the start of the segment |
| Arena.Arena.Get | src/main/java/com/datadog/ddwaf/ByteBufferSerializer.java:564-576 | The view of record i of a reference and its base, with every other array in use kept |
| Arena.Arena.Reset | src/main/java/com/datadog/ddwaf/ByteBufferSerializer.java:318-330 | Everything is open again, no byte is cleared, and the cached buffers are unused but keep their stale state |
| Layout.Proceed | src/main/java/com/datadog/ddwaf/ByteBufferSerializer.java:275-282 | Writing record i of an array leaves the first i records, and all they refer to, as they are |
| Serializer.PutParameterName | src/main/java/com/datadog/ddwaf/ByteBufferSerializer.java:709-722 | Address and length of the name, or two zeros; false exactly when the name cannot be stored |
| Serializer.WriteScalar | src/main/java/com/datadog/ddwaf/ByteBufferSerializer.java:623-675 | The record is that of a value without entries under the name, and only it and open memory were written |
| Serializer.WriteString | src/main/java/com/datadog/ddwaf/ByteBufferSerializer.java:645-659 | The record is that of the string under the name |
| Serializer.WriteArrayOrMap | src/main/java/com/datadog/ddwaf/ByteBufferSerializer.java:685-707 | The record refers to a new array of n records that lies apart from the name |
| Serializer.ContainerRecord | src/main/java/com/datadog/ddwaf/ByteBufferSerializer.java:261-286 | Once all entries are written the container record represents the container |
| Serialization.CutParameterName | src/main/java/com/datadog/ddwaf/ByteBufferSerializer.java:97-107 | The name cut to the limit, with its count; an exception for a negative limit |
| Serialization.SerializeElements | src/main/java/com/datadog/ddwaf/ByteBufferSerializer.java:275-285 | The loop over elements leaves in the array the trees the specification gives for them, one after another |
| Serialization.SerializeIterable | src/main/java/com/datadog/ddwaf/ByteBufferSerializer.java:261-286 | The record and all its entries represent the container; the budget and the counters are those of the specification |
| Serialization.SizeWithin | src/main/java/com/datadog/ddwaf/ByteBufferSerializer.java:166-202 | The number of elements serialized is the smaller of their number and the budget, also when they must be counted |
| Serialization.SerializeLeaf | src/main/java/com/datadog/ddwaf/ByteBufferSerializer.java:138-165 | The branches for null, strings, numbers, booleans and unknown values |
| Serialization.IgnoreElement | src/main/java/com/datadog/ddwaf/ByteBufferSerializer.java:115-136 | Beyond the budget, or else the depth, an empty map and one count |
| Serialization.DoSerialize | src/main/java/com/datadog/ddwaf/ByteBufferSerializer.java:88-259 | The record represents the specified tree, with the specified budget, counters and memory requests; it throws exactly when the specification does; only the record and open memory were written |
| Serialization.SerializeMore | src/main/java/com/datadog/ddwaf/ByteBufferSerializer.java:68-86 | The base of the returned buffer is the root, which represents the truncated map in memory that was open or new, at the address the allocation rule gives, with the limits applied to this run alone |
| Serialization.FirstRoot | src/main/java/com/datadog/ddwaf/ByteBufferSerializer.java:332-337 | The first root on an arena with nothing handed out lies at the start of the first segment used |
| Leases.RootStays | src/main/java/com/datadog/ddwaf/ByteBufferSerializer.java:455-484 | A root stays through any step that writes open memory of other arenas or of its own |
| Leases.LeaseStays | src/main/java/com/datadog/ddwaf/ByteBufferSerializer.java:455-484 | What one arena does leaves all roots of leases on other arenas as they are |
| Leases.ArenaPool.SerializeMore | src/main/java/com/datadog/ddwaf/ByteBufferSerializer.java:471-473 | A run adds one root for the truncated map, keeps every earlier root of every open lease, and gives up no range or segment |
| Leases.ArenaPool.GetFirstPWArgsByteBuffer | src/main/java/com/datadog/ddwaf/ByteBufferSerializer.java:467-469 | The buffer is that of the first root, when the first run on the lease made one; an exception when nothing was written |
| Leases.ArenaPool.GetLease | src/main/java/com/datadog/ddwaf/ByteBufferSerializer.java:445-452 | A lease on the first pooled arena, or on a new one, that no other open lease has |
| Leases.ArenaPool.Close | src/main/java/com/datadog/ddwaf/ByteBufferSerializer.java:475-483 | The arena comes back reset, once, with all its segments; closing again changes nothing |
| WafContext.RootDecodes | src/main/java/com/datadog/ddwaf/ByteBufferSerializer.java:68-86 | Every root of an open lease decodes to its tree |
| WafContext.WafContext.Encode | src/main/java/com/datadog/ddwaf/WafContext.java:105-117 | Both buffers are those of the truncated maps, the second on a lease of its own; fails exactly when one map cannot be serialized |
| WafContext.WafContext.Run | src/main/java/com/datadog/ddwaf/WafContext.java:87-152 | When each outcome occurs, exceptions of the native call included; native code is called exactly when nothing failed before, and finds the truncated maps at the bases of the buffers; the ephemeral lease has come back however the call ends; the metrics grow by what both serializations count |
| WafContext.WafContext.Close | src/main/java/com/datadog/ddwaf/WafContext.java:167-201 | The context's lease comes back even if clearing the native context throws, and that exception is thrown on; a second close throws and changes nothing |
| Protocol.RunKeeps | src/main/java/com/datadog/ddwaf/WafContext.java:98-185 | The invariant of leases, contexts and threads holds after every interleaving |
| Protocol.ArenasAreExclusive | src/main/java/com/datadog/ddwaf/ByteBufferSerializer.java:440-484 | In every reachable state no arena is in two leases that are not back, in one and in the pool, or twice in the pool, whoever uses which lease when |
| Protocol.NoneAfterResetUnmixed | src/main/java/com/datadog/ddwaf/ByteBufferSerializer.java:471-483 | Until a lease is used after its arena was reset, in every prefix of a run pooled arenas are reset and leased ones hold only what was written through their lease, in whatever way threads share leases |
| Protocol.UnmixedIff | src/main/java/com/datadog/ddwaf/ByteBufferSerializer.java:471-483 | When each thread uses only the leases it got, that holds in every prefix of a run if and only if no lease is used once its `close` has begun |
| Protocol.LateUseDirtiesPool | src/main/java/com/datadog/ddwaf/ByteBufferSerializer.java:471-483 | A thread that uses its lease after closing it leaves a pooled arena that is not reset |
| Protocol.RacingUseDirtiesPool | src/main/java/com/datadog/ddwaf/ByteBufferSerializer.java:475-483 | So does a thread that uses the lease of another between `reset` and `addFirst` |
| Protocol.LateUseReachesOther | src/main/java/com/datadog/ddwaf/ByteBufferSerializer.java:445-483 | After a late use all pooled arenas may be reset in every prefix, and another lease has what was written |
| Protocol.NativeReadsOpenLeases | src/main/java/com/datadog/ddwaf/WafContext.java:98-147 | Whatever the interleaving, the native library is called only while no lease it reads has begun to close |
| Protocol.WholeRun | src/main/java/com/datadog/ddwaf/WafContext.java:98-147 | The whole effect of a call of `run` on an open context: which leases it uses in which order, that the native call is made exactly if no serialization threw, and that its ephemeral lease is back |
| Protocol.RunOffline | src/main/java/com/datadog/ddwaf/WafContext.java:98-99 | A call of `run` on a context that is offline changes nothing |
| Protocol.CloseEffect | src/main/java/com/datadog/ddwaf/WafContext.java:167-201 | The whole effect of a call of `close`, on an online context and on one that is not |
| Protocol.NewContextEffect | src/main/java/com/datadog/ddwaf/WafContext.java:47-58 | A new context is online and has an open lease on the first pooled arena or on a new one |
| Protocol.LastBackFirstOut | src/main/java/com/datadog/ddwaf/ByteBufferSerializer.java:445-483 | The arena given back last is leased first |
| Protocol.EphemeralComesBackOnce | src/main/java/com/datadog/ddwaf/WafContext.java:111-147 | Once the thread is idle its ephemeral leases have been given back exactly once, whether or not something threw |
| Protocol.ContextLease | src/main/java/com/datadog/ddwaf/WafContext.java:169-185 | A context's lease is given back at most once, only after the context is offline, and is back once no thread is inside |
| Protocol.GivenBackAtMostOnce | src/main/java/com/datadog/ddwaf/ByteBufferSerializer.java:475-483 | Repeated closes give an arena back at most once for each lease |
| Protocol.MonitorExcludes | src/main/java/com/datadog/ddwaf/WafContext.java:98-99 | A thread is inside a context if and only if it holds its monitor |
| Protocol.NeverStuck | src/main/java/com/datadog/ddwaf/WafContext.java:98-185 | A thread in the middle of something can go on if and only if it does not wait for a monitor that is taken |
| Protocol.NoArenaIsLost | src/main/java/com/datadog/ddwaf/ByteBufferSerializer.java:440-484 | Every arena ever made is in the pool or in a lease still to give it back |
| Rendering.DoubleDroppedIff | src/main/c/debug_helpers.c:173-181 | A formatted double is dropped if and only if it is finite, negative and has a decimal exponent of three digits |
| Doubles.ExponentIff | src/main/c/debug_helpers.c:175-176 | A nearest decimal of 19 digits has an exponent of three digits if and only if the double itself is at least 10^100 or else nonzero and below 10^-99 in magnitude: rounding never crosses these bounds |
| Doubles.FloatDroppedIff | src/main/c/debug_helpers.c:173-181 | For all bits and every rounding to a nearest decimal: nothing is printed for the value if and only if it is finite, negative and of such a magnitude |
| Doubles.ScientificText | src/main/c/debug_helpers.c:175 | The parts of a formatted double, byte by byte |
| Doubles.NextDouble | src/main/c/debug_helpers.c:173-181 | The next bits are the next number: the magnitude grows by the power of two that the exponent field gives |
| Doubles.BitsOfZeroAndOne | src/main/c/debug_helpers.c:173-181 | The bits of 0 and 1, and which bits are no finite number |
| Doubles.SmallestNegativeIsDropped | src/main/c/debug_helpers.c:175-179 | The double with the bits 0x8000000000000001 is -2^-1074; its nearest number of 19 digits leaves no text, and that of 2^-1074 does |
| Rendering.IntegersShown | src/main/c/debug_helpers.c:151-172 | The scratch buffers of integers are never too small |
| Rendering.RenderObject | src/main/c/debug_helpers.c:132-213 | Printing the records of a tree gives the text of the tree, cut off below depth 25 |
| LineReader.ReadRendered | src/main/c/debug_helpers.c:132-213 | A reader of the text recovers the level, name, type and value of every node down to level 25, in order, when no name or value can be taken for something else |
| LineReader.NameComesFirst | src/main/c/debug_helpers.c:138-143 | The text of a named node starts with two spaces for each level, the name, a colon and a space, whatever the name |
| LineReader.UnknownLine | src/main/c/debug_helpers.c:208-211 | The line of a record of any other type |
| Hstring.HString.EnsureExtraCapacity | src/main/c/debug_helpers.c:79-97 | There is room for the data and the contents stay |
| Hstring.HString.Append | src/main/c/debug_helpers.c:98-111 | The contents grow by the data |
| Hstring.HString.Repeat | src/main/c/debug_helpers.c:117-130 | The contents grow by the repeated character |
| Hstring.WritePwargs | src/main/c/debug_helpers.c:132-213 | On readable memory the contents grow by exactly the text of the record at the address, unknown types included |
| Hstring.PwArgsBufferToString | src/main/c/debug_helpers.c:37-63 | The Java string is the decoding of that text |
| Hstring.RootPrints | src/main/c/debug_helpers.c:37-63 | A serialized map prints as the text of its truncation |
| Converter.ConvertChecked | src/main/c/waf_jni.c:1387-1748 | The shared budget, the depth, the order of the class tests and the loops give the specified tree, exception or undefined read |
| NativeTrees.ConvertIff | src/main/c/waf_jni.c:1387-1748 | A call ends with a tree, and with what is left of its budget, if and only if the tree is what the value becomes: the class that is tested first decides, every string and key is the encoding of exactly its first max_string_size code units or of all for a negative limit, loops end at the last element or an exhausted budget, containers at the last level are empty |
| NativeTrees.PairsIff | src/main/c/waf_jni.c:1448-1540 | The same for the entries of a map, each under the prefix of the text of its key |
| Converter.ConvertElements | src/main/c/waf_jni.c:1448-1590 | The loops stop at the end or before the first element beyond the budget |
| Converter.ConvertBudget | src/main/c/waf_jni.c:1410-1425 | A call within the depth never reports that it is too deep, writes as many nodes as it takes from the budget, never overdraws a positive one, and stays within the depth |
| Converter.ConvertWithinLimits | src/main/c/waf_jni.c:987-991 | From level 0 the result has at most max(1, elements) nodes and no node deeper than the limit |
| Converter.ConvertSucceeds | src/main/c/waf_jni.c:1422-1425 | From a level within the depth the guard "Maximum recursion level exceeded" is never reached, whatever the value; what can be read is converted |
| Agreement.NotAlikeDiffers | src/main/c/waf_jni.c:1427-1740 | An object of several kinds, of none, with elements that cannot be read, or a buffer that reads otherwise without its offset makes the converted tree differ from the serialized one |
| Agreement.BufferTrees | src/main/c/waf_jni.c:1606-1633 | A buffer over an array within the limits is serialized as its characters and converted as the characters of the array from its position to its limit |
| Agreement.SliceDiffers | src/main/c/waf_jni.c:1771-1812 | For the slice of the last four of six letters these are different strings |
| Agreement.WholeArrayAlike | src/main/c/waf_jni.c:1791-1812 | Without an array offset they are the same |
| Unicode.SameEncodingIff | src/main/c/utf16_utf8.c:206-252 | Two strings have the same UTF-8 form if and only if they are the same once unpaired surrogates are replaced |
| Agreement.ConvertLosslessIff | src/main/c/waf_jni.c:1387-1748 | Within all limits a value is converted to the tree that is serialized for it if and only if every object in it is of one known kind and can be read, and every buffer over an array reads the same with and without its offset |
| Agreement.ConvertersAgreeIff | src/main/c/waf_jni.c:1387-1748 | Within the limits serializing and converting give the same tree, and leave the same budget, under exactly that condition |

## Left out

- Memory exhaustion: `malloc`, `realloc` and `allocateDirect` always succeed in the model, and sizes do not wrap around.
- Serialization.DoSerialize: the remaining number of elements is an unbounded integer, so a Java int falling below its minimum is not modelled; after an exception the budget and the counters are not stated, as no caller reads them.
- Serialization.SerializeMore: the collection whose size and iteration disagree is left out, so is its exception; graphs are fixed.
- Leases.ArenaPool.SerializeMore: whole runs follow one another here; interleavings inside a run are in the step machine of `Protocol`, whose states carry no memory.
- Arena.Arena.AllocatePWArgsBuffer: views of a segment (`PWArgsArrayBuffer`, `PWArgsBuffer`) are values in the arena's fields; the position a put leaves in a cached view is not kept, since each use resets it.
- Arena.Arena.WriteStringUnlimited: Java's encoder is taken as given; it replaces each unpaired surrogate with EF BF BD.
- Serializer.WriteScalar: `writeNull`, `writeBool`, `writeLong`, `writeDouble` and the empty containers differ only in value and type and are one method.
- JsonParser.ParseText: the parser reads integers only, as the printer writes no other numbers.
- Base64.Encode: the table of 4096 pairs is taken by its formula and not as literal data.
- Base64Encoder.Base64State.EncodePlain: the jump into the loop is the value of `bytes`, and the unrolled runs are methods of their own.
- Hstring.WritePwargs: the rounding of a double to 19 digits is a parameter of the model; `Doubles` states what it may be.
- Converter.ConvertChecked: reading a primitive array, calling a null key and cutting a character sequence to a negative limit are one outcome, since JNI leaves them undefined or throws; a direct buffer in native order, whose memory is read, gives its characters like any other sequence.
- WafContext.WafContext.Run: the native library's result, the clock and the cause of its exceptions are parameters or left out.
- Agreement.ConvertersAgreeIff: nothing is stated beyond the limits, where one leaves a container empty and the other writes its elements as empty maps.
- Protocol.RunKeeps: a lease is closed only by the thread that got it, its call or its context; a lease closed by two threads at once, and liveness beyond the absence of stuck threads, are not covered.
- JavaValues.Serialized: a character sequence whose `length`, `subSequence` and `toString` contradict one another is left out.
- `_encode_gzip`, the native library itself, the builder and handle calls: not part of this model; gzip output is arbitrary bytes.
- Class loading, reference and method caching, logging, leak detection and the reachability fence: they have no algorithmic content.
- `compat.c`, diagnostics counters, error-code mapping and time budgets: they would only add easy members.
