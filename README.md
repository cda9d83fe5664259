# MessagePack codec model

A Dafny model of the codec at the heart of a small Go command-line tool. It has two parts:

- **decoder**: `decodeMessagePack` with its helpers `decodeArray`, `decodeMap` and `decodeString`. It turns a byte buffer into one dynamically typed value and returns the bytes left after it.
- **encoder**: `encodeMessagePack` with `writeString` and `writeValue`. It writes a flat string-keyed map into a growing `bytes.Buffer`.

Modules:

- `Bytes` (`bytes.dfy`) covers bytes and big-endian fixed-width numbers, as Go's `encoding/binary.BigEndian` reads and writes them. It also covers two's-complement readings (Go's `intN(...)` conversions) and Go's bitwise `|`.
- `Decoder` (`decode.dfy`) has the value and error types and the format-byte switch. `Decode`, `DecodeItems`, `DecodePairs` and `DecodeEntries` are mutually recursive specification functions. The methods `DecodeMessagePack`, `DecodeArray` and `DecodeMap` keep Go's loops and are proved equal to those functions.
- `DecoderProperties` (`decode_props.dfy`) states what each format byte decodes to. It also proves:
  - every successful decode returns a proper suffix of its input;
  - how arrays and maps split, and that the first failing element, key or value, or the first non-string key, at any position, aborts the container with that error;
  - which keys a decoded map has and which value wins for a repeated key;
  - the worked examples `92 01 02` and `81 a1 61 c3`.
- `Encoder` (`encode.dfy`) has a `Buffer` class, the methods `WriteString`, `WriteValue` and `EncodeMessagePack` proved against the byte-layout function `Encoding`, and lemmas on the header byte, the layout of each value and the output length.
- `CodecProperties` (`codec_props.dfy`) states what the decoder makes of the encoder's output.

The encoder is modelled as the code is written, not as a standard MessagePack encoder:

- the header is `0x80 | byte(len)` for any number of entries;
- strings get a bare length byte and no format tag;
- ints are written as four untagged bytes of `int32(v)`;
- float64 values are written as eight untagged bytes;
- bools and nil are written as the one-byte formats `0xc3`/`0xc2` and `0xc0`;
- a value of a type the switch has no case for (anything but int, float64, string, bool and nil) writes nothing.

A general round-trip law therefore does not hold. `CodecProperties` instead proves:

- which sizes give a fixmap header;
- that the empty map round-trips;
- that a short first key is rejected as a non-string key;
- that encoded bools and nil decode back to the same value;
- that an int's and a float64's bytes, and a string's when it is shorter than 256 bytes, are exactly the payload of the matching MessagePack format.

## Model

| member | source | states |
|---|---|---|
| Bytes.BigEndian | cmd/decode.go:94 | a big-endian reading of n bytes is below 256^n |
| Bytes.ToBigEndian | cmd/encode.go:84-87 | `binary.Write` in big-endian order writes exactly w bytes for a w-byte number |
| Bytes.BigEndianOfToBigEndian | cmd/encode.go:84-87 | writing a number as w big-endian bytes and reading them back gives the number modulo 256^w |
| Bytes.ToBigEndianOfBigEndian | cmd/decode.go:119-120 | reading w bytes and writing the number back as w bytes gives the same bytes |
| Bytes.BitOr | cmd/encode.go:56 | Go's bitwise or on unsigned numbers is at least each operand and at most their sum |
| Bytes.BitOrTopBit | cmd/encode.go:56 | or-ing bit 2^k into a number below 2^(k+1) gives 2^k plus the number modulo 2^k |
| Bytes.Signed | cmd/decode.go:141-173 | Go's `int8(..)`, `int16(..)`, `int32(..)`, `int64(..)` of an unsigned reading: negative exactly when the sign bit is set |
| Bytes.SignedRange | cmd/decode.go:141-173 | the two's-complement reading of w bytes lies in the signed w-byte range and agrees with the unsigned reading modulo 256^w |
| Bytes.SignedOfTruncation | cmd/encode.go:84 | a value in the signed w-byte range survives truncation to w bytes followed by the signed reading |
| Decoder.FormatOf | cmd/decode.go:51-240 | every fixed-width format has a payload of 1, 2, 4 or 8 bytes, and the integer formats at least one |
| Decoder.DecodeString | cmd/decode.go:287-295 | succeeds exactly when length <= the bytes left; the string is the next `length` bytes and the rest follows; otherwise the error is ShortString |
| Decoder.ContainerHead | cmd/decode.go:180-182 | what a length-prefixed string, array or map leaves is never longer than its input |
| Decoder.FixedHead | cmd/decode.go:89-173 | a fixed-width payload leaves no more bytes than it was given |
| Decoder.PrefixedHead | cmd/decode.go:175-236 | a length field and what it announces leave no more bytes than they were given |
| Decoder.PayloadHead | cmd/decode.go:51-240 | the switch on one format byte never returns more bytes than follow the byte |
| Decoder.ToMap | cmd/decode.go:281 | inserting pairs gives at most as many keys as pairs |
| Decoder.Decode | cmd/decode.go:43-49 | empty input is EmptyInput; every success consumes at least the format byte |
| Decoder.Dispatch | cmd/decode.go:51-240 | the switch, containers included, never returns more bytes than follow the format byte |
| Decoder.DecodeItems | cmd/decode.go:243-257 | a decoded array of n elements has exactly n elements and leaves no more bytes than its input |
| Decoder.DecodePairs | cmd/decode.go:259-285 | a decoded map of n entries has exactly n key/value pairs |
| Decoder.DecodeEntries | cmd/decode.go:259-285 | the decoded map has at most n keys and leaves no more bytes than its input |
| Decoder.DecodeMessagePack | cmd/decode.go:43-241 | the imperative decoder returns exactly Decode(data) |
| Decoder.DecodeArray | cmd/decode.go:243-257 | decodeArray's loop returns exactly DecodeItems(data, length) |
| Decoder.DecodeMap | cmd/decode.go:259-285 | decodeMap's loop, key check and map insertion return exactly DecodeEntries(data, length) |
| Decoder.ItemsStep | cmd/decode.go:247-254 | one round of decodeArray's loop keeps the loop invariant |
| Decoder.PairsStep | cmd/decode.go:263-282 | one round of decodeMap's loop keeps the loop invariant |
| Decoder.ItemsUnfold | cmd/decode.go:247-253 | a non-empty array is its first element followed by the remaining elements |
| Decoder.PairsUnfold | cmd/decode.go:263-281 | a non-empty map with a string first key is that pair followed by the remaining entries |
| Decoder.ToMapSnoc | cmd/decode.go:281 | inserting one more pair is a map update that overwrites the key |
| DecoderProperties.AfterFormatByte | cmd/decode.go:48-49 | decoding a buffer is the switch on its first byte applied to the rest |
| DecoderProperties.EmptyInputFails | cmd/decode.go:44-46 | decoding nothing is the EmptyInput error |
| DecoderProperties.SingleByteForms | cmd/decode.go:52-87 | positive fixint b gives Int(b), negative fixint gives Int(b - 256), 0xc0/0xc2/0xc3 give nil/false/true, and the rest is untouched |
| DecoderProperties.NegativeFixIntIsSigned | cmd/decode.go:56-58 | a negative fixint is the int8 reading of its byte, between -32 and -1 |
| Decoder.FixedValue | cmd/decode.go:89-173 | the result of each fixed-width case: float32/float64 keep the payload bits, uintN gives the unsigned number, intN gives an Int in the N-bit signed range congruent to the payload modulo 2^N |
| DecoderProperties.FixedHeads | cmd/decode.go:89-173 | a fixed-width format with too few bytes fails naming the format; otherwise it reads exactly Width() bytes |
| DecoderProperties.FloatCodes | cmd/decode.go:89-105 | 0xca is the float32 format and 0xcb the float64 format |
| DecoderProperties.Float32Form | cmd/decode.go:89-96 | 0xca: fewer than 4 bytes is an error, else the next 4 bytes are the float32 bits |
| DecoderProperties.Float64Form | cmd/decode.go:98-105 | 0xcb: fewer than 8 bytes is an error, else the next 8 bytes are the float64 bits |
| DecoderProperties.IntegerCodes | cmd/decode.go:107-173 | 0xcc-0xcf are uint8-64 and 0xd0-0xd3 int8-64 with widths 1, 2, 4, 8 |
| DecoderProperties.UnsignedForm | cmd/decode.go:107-139 | uintN: too few bytes is an error, else the next w bytes read big-endian |
| DecoderProperties.SignedForm | cmd/decode.go:141-173 | intN: too few bytes is an error, else the two's-complement reading of the next w bytes, in the signed range and equal to the unsigned reading modulo 256^w |
| DecoderProperties.FixStrForms | cmd/decode.go:70-75 | fixstr: the low five bits are the length; a string past the end is ShortString, else the next bytes |
| DecoderProperties.LengthCodes | cmd/decode.go:175-236 | the format bytes and length-field widths of str8/16/32, array16/32, map16/32 |
| DecoderProperties.StrForm | cmd/decode.go:175-200 | str8/16/32: a cut-short length field fails naming the format, a string past the end is ShortString, else the string and the rest |
| DecoderProperties.FixArrayForm | cmd/decode.go:65-68 | fixarray: the low four bits count the elements decoded from what follows |
| DecoderProperties.WideArrayForm | cmd/decode.go:202-218 | array16/32: a cut-short count fails naming the format, else the count and then the elements |
| DecoderProperties.FixMapForm | cmd/decode.go:60-63 | fixmap: the low four bits count the entries decoded from what follows |
| DecoderProperties.WideMapForm | cmd/decode.go:220-236 | map16/32: a cut-short count fails naming the format, else the count and then the entries |
| DecoderProperties.NotSupportedCodes | cmd/decode.go:238-239 | the bytes without a case in the switch are exactly 0xc1, 0xc4-0xc9 and 0xd4-0xd8 |
| DecoderProperties.UnsupportedFormats | cmd/decode.go:238-239 | the switch reports Unsupported(code) exactly for those bytes, and decoding them fails with it |
| DecoderProperties.ContainerSuffix | cmd/decode.go:180-182 | a length-prefixed string leaves a suffix of its input |
| DecoderProperties.PayloadSuffix | cmd/decode.go:51-240 | every branch of the switch leaves a suffix of the bytes after the format byte |
| DecoderProperties.DecodeSuffix | cmd/decode.go:43-241 | a successful decode leaves a proper suffix of its input: the value is decoded from a non-empty prefix of the buffer |
| DecoderProperties.DispatchSuffix | cmd/decode.go:51-240 | the switch, containers included, leaves a suffix of the bytes after the format byte |
| DecoderProperties.ItemsSuffix | cmd/decode.go:243-257 | an array's elements leave a suffix of their input |
| DecoderProperties.FirstItem | cmd/decode.go:247-253 | a decoded non-empty array has a first element decoded from its input and the others after it |
| DecoderProperties.PairsSuffix | cmd/decode.go:259-285 | a map's entries leave a suffix of their input |
| DecoderProperties.FirstPair | cmd/decode.go:263-281 | a decoded non-empty map has a string first key, its value, and the other entries after them |
| DecoderProperties.PairSuffix | cmd/decode.go:263-279 | one key and its value leave a proper suffix of their input |
| DecoderProperties.DecodeItemsSplit | cmd/decode.go:247-256 | decoding a + b elements is decoding a elements, then b more from what they left |
| DecoderProperties.ItemsHeadError | cmd/decode.go:249-252 | an array whose first element fails fails with that element's error |
| DecoderProperties.ItemsChain | cmd/decode.go:247-253 | element i of a decoded array is decoded from exactly the bytes the first i elements left |
| DecoderProperties.ItemsFirstError | cmd/decode.go:249-252 | the first element that fails aborts the whole array with its error |
| DecoderProperties.DecodePairsSplit | cmd/decode.go:262-282 | decoding a + b map entries is decoding a entries, then b more from what they left; an error in the first a is the result |
| DecoderProperties.PairsSplitStep | cmd/decode.go:263-281 | once the first entry is unfolded, the split of a + b entries follows from the split of the rest |
| DecoderProperties.PrependThenPairs | cmd/decode.go:281 | pairs decoded before a split stay in front of everything decoded after it |
| DecoderProperties.PairsHeadFails | cmd/decode.go:264-279 | a map whose first key fails, is not a string, or whose first value fails, fails with that key error, NonStringKey(key) or that value error, whatever its entry count |
| DecoderProperties.PairsErrorAt | cmd/decode.go:262-282 | entries that fail after the first i decode fail the whole map with the same error |
| DecoderProperties.NonStringKeyAborts | cmd/decode.go:270-273 | a key that is not a string, at any entry i after i entries decoded, fails the map with NonStringKey(key), whatever follows |
| DecoderProperties.PairsKeyError | cmd/decode.go:264-268 | a key that fails to decode, at any entry i, fails the map with the key's error |
| DecoderProperties.PairsValueError | cmd/decode.go:275-279 | a value that fails to decode after a string key, at any entry i, fails the map with the value's error |
| DecoderProperties.ToMapKeys | cmd/decode.go:281 | the map's keys are exactly the keys of the decoded pairs |
| DecoderProperties.ToMapLastWins | cmd/decode.go:281 | a repeated key keeps the value of its last occurrence |
| DecoderProperties.DecodedMapKeys | cmd/decode.go:259-285 | a decoded map's keys are those of its pairs, at most as many as the header announced |
| DecoderProperties.ArrayExample | cmd/decode.go:65-68 | `92 01 02` decodes to [1, 2] with nothing left |
| DecoderProperties.MapExample | cmd/decode.go:60-63 | `81 a1 61 c3` decodes to {"a": true} with nothing left |
| DecoderProperties.FixStrAsWritten | cmd/decode.go:70-75 | the fixstr slices as written: they panic exactly when the length exceeds the input, else split it |
| DecoderProperties.FixStrAgreement | cmd/decode.go:70-75 | on every fixstr input, the code as written panics exactly where the model reports ShortString, and otherwise both give the same string and rest |
| DecoderProperties.FixStrTruncatedPanics | cmd/decode.go:73-74 | the input `a1` panics as written, while the model returns ShortString |
| Encoder.Buffer.constructor | cmd/encode.go:53 | a new buffer is empty |
| Encoder.Buffer.Write | cmd/encode.go:77 | writing appends the bytes and changes nothing already written |
| Encoder.HeaderByte | cmd/encode.go:56 | the header, 0x80 or-ed with `byte(len(data))`, always has its top bit set |
| Encoder.HeaderByteValue | cmd/encode.go:56 | the header, byte(len) with its top bit or-ed in, is 0x80 + len mod 128 |
| Encoder.StringBytes | cmd/encode.go:72-78 | writeString's bytes are one more than the string's length |
| Encoder.Int32Bytes | cmd/encode.go:84 | `binary.Write` of `int32(v)` writes four bytes |
| Encoder.ValueBytes | cmd/encode.go:80-105 | writeValue's bytes for a value are as many as ValueSize gives for its type |
| Encoder.Encoding | cmd/encode.go:52-70 | encodeMessagePack's output is never empty and starts with a byte of at least 0x80, the map header |
| Encoder.StringBytesLayout | cmd/encode.go:72-78 | writeString appends 1 + len bytes: len mod 256, then the string's bytes |
| Encoder.Int32BytesLayout | cmd/encode.go:82-84 | an int is 4 bytes, the low 32 bits big-endian; read as int32 they give the value wrapped into the int32 range, and the value itself when it fits |
| Encoder.ValueBytesLayout | cmd/encode.go:80-105 | writeValue appends 4, 8, 1 + len, 1, 1 or 0 bytes by type; bool is c3/c2, nil is c0 and an unsupported type appends nothing |
| Encoder.Float64BytesLayout | cmd/encode.go:85-87 | a float64 is its 8 bit-pattern bytes big-endian, which read back give the bits |
| Encoder.EntriesSizeSnoc | cmd/encode.go:61-67 | the size of the entries counted from the last one equals the size counted from the first |
| Encoder.EncodedLength | cmd/encode.go:52-70 | the output is 1 byte plus 1 + len(key) + the value's size for each entry |
| Encoder.EncodingHeader | cmd/encode.go:55-56 | the output starts with 0x80 + count mod 128, followed by the entries |
| Encoder.EntriesPrefix | cmd/encode.go:61-67 | after i entries the output so far is a prefix, and entry i is appended to it |
| Encoder.EntriesFront | cmd/encode.go:61-67 | the entries' bytes start with the first entry's key and value |
| Encoder.WriteString | cmd/encode.go:72-78 | writeString appends exactly the length byte and the string |
| Encoder.WriteValue | cmd/encode.go:80-105 | writeValue appends exactly the bytes for the value's dynamic type |
| Encoder.EncodeMessagePack | cmd/encode.go:52-70 | the output is the header, then every entry's key and value in iteration order |
| CodecProperties.HeaderFormat | cmd/encode.go:56 | the header reads as a fixmap of the right size exactly when there are fewer than 16 entries; with 16 to 31 entries mod 128 it reads as a fixarray |
| CodecProperties.EmptyMapRoundTrip | cmd/encode.go:52-70 | the empty map encodes as `80` and decodes back to the empty map |
| CodecProperties.FirstKeyIsFixInt | cmd/encode.go:61-78 | the encoded entries start with the first key's length byte, which below 0x80 decodes as the fixint of that length |
| CodecProperties.EncodedKeyRejected | cmd/encode.go:61-74 | with a fixmap header, a first key shorter than 128 bytes mod 256 decodes as a fixint and the map fails with NonStringKey |
| CodecProperties.BoolAndNilRoundTrip | cmd/encode.go:91-100 | encoded bools and nil are MessagePack values and decode back, leaving what follows |
| CodecProperties.IntPayload | cmd/encode.go:82-84 | an int's four bytes are an int32 payload: behind 0xd2 they decode to int32(v), which is v in range |
| CodecProperties.Float64Payload | cmd/encode.go:85-87 | a float64's eight bytes are a float64 payload: behind 0xcb they decode to the same bits |
| CodecProperties.StringPayload | cmd/encode.go:72-78 | a string shorter than 256 bytes is a str8 payload: behind 0xd9 it decodes to the same string |

## Left out

- The command-line layer is not part of this model: argument parsing, hex and JSON conversion, printing of results and errors.
- The printf in writeValue's default case (cmd/encode.go:103) is output only. The model appends nothing there.
- Floats are raw IEEE-754 bit patterns (`uint32`/`uint64`). `math.Float32frombits`/`Float64frombits` are identities on the bits, and no float arithmetic is done.
- Go's dynamic result types are merged:
  - positive and negative fixint, int8, int16 and int32 come back as Go `int` (converted with `int(...)`), and int64 as `int64`; the model makes both `Int`;
  - uint8, uint16 and uint32 come back as Go `uint`, and uint64 as `uint64`; the model makes both `UInt`;
  - a nil slice and an empty slice are both `Arr([])`.
- A failed decode returns only the error, not the placeholder values Go returns with it (nil, or `""` from decodeString).
- Go strings are byte sequences. No UTF-8 validity is checked, and the code does not check it either.
- Go's `map[string]interface{}` argument to encodeMessagePack is a sequence of entries with distinct keys, in the order the `range` loop happens to visit them. Every order is allowed, since Go randomises it.
- Values of dynamic type int can be of any size (Go's int is 64-bit). Only the low 32 bits are written, so the output does not depend on this.
- The error results of binary.Write in encodeMessagePack (cmd/encode.go:57-59) and its helpers are never non-nil when writing into a bytes.Buffer. The model has no error result there.
- Nested arrays and maps passed to writeValue take the default case, as in the code. The encoder does not recurse, so this model has no recursive encoder.
- The encoder is not a tag-selecting MessagePack encoder, and the model does not make it one. It has no fixstr/str8 tags, no integer tags, no array encoding and no length-dependent map header. The model follows cmd/encode.go as written.
- There is no nesting-depth limit, as in the code. Recursion is bounded by the input length.

## Findings

| source | as written | input that shows it | evidently intended | confidence | as-written member | corrected member |
|---|---|---|---|---|---|---|
| cmd/decode.go:70-75 | the fixstr case slices `data[:length]` and `data[length:]` without checking the length against the input | the one-byte input `a1` (a one-byte string with no byte after it): the slice is out of range and the program panics | a cut-short fixstr fails with the same "insufficient bytes for string" error as str8/16/32 (decodeString, cmd/decode.go:288-290) | not executed | DecoderProperties.FixStrTruncatedPanics | DecoderProperties.FixStrForms |
