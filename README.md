# ts-abi-utils: ABI descriptors and their codecs, in Dafny

This project models the core of `ts-abi-utils`. That core describes Solidity
ABI types as plain descriptors: elementary kinds, arrays, enums and structs,
each with an optional bit `size`, a `dynamic` flag and, for arrays, an
optional `length`. Values are converted between three forms:

- **typed field values**: booleans, strings, JavaScript numbers, Buffers,
  BNs, lists and maps;
- **JSON values**: `encodeJson`, `decodeJson`, `decodeObject`;
- **packed binary**: `encodeABIPacked` and `decodeABIPacked`. Fields and
  elements are laid end to end with no offsets or length prefixes. A struct
  may be sliced back only when the `isStructAllowed` layout rule holds.

The descriptor helpers give a descriptor's name and JSON definition in the
ABI's JSON dialect (`toTypeName`, `abiTypeToJson`) and round a bit count up
to whole bytes (`bitsRequired`). The coercions of `src/lib/to.ts` (`toInt`,
`toBn`, `toHex`, `toBool`, `toBuf`, `toNonPrefixed`, `isHex`) are what every
codec branch goes through.

Layout:

| file | models |
|---|---|
| `wrappers.dfy` | `Option` and `Result`. A thrown JavaScript error is an `Err`. |
| `primitives.dfy` | Bytes, big-endian numbers, decimal and hex text. These stand in for the parts of `ethereumjs-util`, `bn.js` and JavaScript number printing that the core uses. |
| `types.dfy` | `src/abi/types.ts`: descriptors, field values, JSON values, `value[key]` and truthiness. |
| `to.dfy` | `src/lib/to.ts` |
| `helpers.dfy` | `src/abi/helpers.ts`. `isStructAllowed` is a loop with early returns, proved against a recursive rule. |
| `coder.dfy` | `src/abi/coder.ts`. The JSON codec, the packed encoder and a specification function `Unpacked` of packed decoding. `decodeABIPacked` itself is a method: its cursor loops are proved to compute `Unpacked`. |
| `packed_proofs.dfy` | Lemmas: packed widths, fixed lengths, what packed decoding yields, and the packed round trip. |
| `plain_proofs.dfy` | Lemmas: the JSON round trip, the keys and fields of decoded structs, and the wide-uint finding. |

A JavaScript error becomes one of the `Error` values of `types.dfy`. These
are: an unrecognised value type, a number that bn.js cannot read, a value too
large for its width, a non-list for an array, and the packed-layout errors
described under "Left out".

## Model

| member | source | states |
|---|---|---|
| Types.Meta | src/abi/types.ts:18-51 | Each descriptor carries exactly one of the four `meta` tags, and the tag tells the four kinds apart. |
| Types.Member | src/abi/coder.ts:26 | `value[name]` fails exactly on undefined. On a map it yields the entry under that name. A name missing from the map, or any other value that is not a map, yields undefined. |
| Helpers.BitLength | src/abi/helpers.ts:4 | `ceil(log2(n + 1))` is the least `a` with `n < 2^a`. |
| Helpers.BitsRequired | src/abi/helpers.ts:3-7 | The result is a multiple of 8, at least the bit length of `n` and less than 8 above it, and `n < 2^result`. |
| Helpers.BitsRequiredIsLeast | src/abi/helpers.ts:3-7 | No smaller multiple of 8 bits holds `n`. |
| Helpers.TypeName | src/abi/helpers.ts:20-21 | A struct is named `tuple`. An array without a length (absent or 0) is its element's name followed by `[]`. An array with a length is its element's name, then `[`, text that reads back as that length, then `]`. |
| Helpers.TypeNameShape | src/abi/helpers.ts:9-23 | Every name is non-empty. A name ends in `]` exactly when the descriptor is an array, and an array's name begins with its element's name. |
| Helpers.EnumNamedAsUint | src/abi/helpers.ts:22 | An enum is named as the uint of the same size: `uint<size>`. |
| Helpers.BytesNamedByByteCount | src/abi/helpers.ts:16 | A `bytes` of `8k` bits is named `bytes<k>`, and one without a size `bytesNaN`. |
| Helpers.NameableTypesHaveCanonicalNames | src/abi/helpers.ts:9-23 | A descriptor whose uints, enums and `bytes` carry whole-byte sizes is named in the ABI's grammar: `uint<N>`, `bytes<N>`, `bool`, `byte`, `address`, `tuple`, `T[]`, `T[N]`. |
| Helpers.UnsizedUintName | src/abi/helpers.ts:13 | A uint without a size is named `uintundefined`, which the ABI grammar rejects. |
| Helpers.ToJson | src/abi/helpers.ts:25-35 | The definition's `type` is `toTypeName`. Scalars carry nothing else. An array carries its element's `name` and `components`. A struct carries its name and one component per field, in order, each named after its field. |
| Helpers.ComponentsJson | src/abi/helpers.ts:32 | The components list the fields from position `i` on, in order: each is the field type's definition with the field's name. |
| Helpers.ArrayJsonKeepsElementShape | src/abi/helpers.ts:30 | Arrays nested to any depth keep the innermost element's `name` and `components`. |
| Helpers.IsStructAllowed | src/abi/helpers.ts:42-56 | The loop with its early returns answers exactly the packed-layout rule `PackedLegal`: every dynamic field is the last one, is not an array of dynamic elements, and is not a struct that breaks the rule itself. The five lemmas below state its parts. |
| Helpers.EarlyDynamicFieldIsIllegal | src/abi/helpers.ts:47-49 | A dynamic field anywhere but last makes a struct unpackable. |
| Helpers.DynamicArrayOfDynamicTailIsIllegal | src/abi/helpers.ts:51 | A dynamic last field that is an array of dynamic elements makes a struct unpackable. |
| Helpers.NestedStructTailDecides | src/abi/helpers.ts:52 | When a struct's only dynamic field is a struct at the end, that nested struct alone decides the outer struct's layout rule. |
| Helpers.StaticFieldsDoNotMatter | src/abi/helpers.ts:45-55 | Structs whose fields agree on dynamism, and on each dynamic field, agree on the rule. |
| Helpers.StaticStructIsLegal | src/abi/helpers.ts:45-55 | A struct with no dynamic field is always allowed. |
| To.IsHex | src/lib/to.ts:10 | True exactly when the text contains an `x` or a lower-case `a` to `f`. |
| To.DigitsAreNotHex | src/lib/to.ts:10 | Text made only of decimal digits is never taken for hex. |
| To.ToBn | src/lib/to.ts:12-16 | A falsy value (undefined, `false`, 0, NaN, empty text) is 0. A number is kept when its magnitude is below 2^53 and fails otherwise. A BN is kept and a Buffer reads as its big-endian number. Non-empty text is read by `ReadBnText` in base 16 when `isHex` holds and in base 10 otherwise, so decimal text reads as its number. `true` fails as an invalid number, and lists and maps fail as unrecognised. |
| To.ReadBnText | src/lib/to.ts:14 | Text of hex digits reads as its base-16 number in hex mode. In decimal mode, decimal digits read as their number and `-` followed by digits as its negation. Every failure is an invalid number. |
| To.SpacesAreIgnored | src/lib/to.ts:14 | White space anywhere in the text does not change what is read. |
| To.ToInt | src/lib/to.ts:18-27 | It fails exactly on values that are not number, string, Buffer or BN. A number is kept, a Buffer reads big-endian and a BN is its number. Text that `isHex` accepts is `parseInt(s, 16)` (`ParseInt16`), other text is unary plus (`ParseNumber`). |
| To.ParseInt16 | src/lib/to.ts:21 | Hex digits read as their base-16 number, also after `0x` and with a leading `-` negating them. |
| To.ParseNumber | src/lib/to.ts:22 | Decimal digits read as their number, and with a leading `-` as its negation. `0x`/`0X` followed by hex digits, `0b`/`0B` by binary digits and `0o`/`0O` by octal digits read as the number those digits denote in that base. |
| To.UpperCasePrefixIsRead | src/lib/to.ts:22-32 | Unary plus reads `"0X1F"` as 31, and `toHex` hands that text to it and gives `"1f"`, since the text lacks the lower-case `0x` prefix. |
| To.UpperCasePrefixIsNumber | src/lib/to.ts:10-22 | `toInt("0X1F")` is 31: `isHex` looks only for lower-case letters, so the text goes to unary plus. |
| To.BinaryPrefixIsRead | src/lib/to.ts:29-32 | `toHex("0b11")` is `"3"`: text without the `0x` prefix goes through unary plus, which reads binary. |
| To.ToHex | src/lib/to.ts:29-38 | It fails exactly on values that are not buffer-like. `0x` text is kept. A Buffer becomes `0x` and two lower-case digits per byte. Numbers and BNs never come out `0x`-prefixed. |
| To.NotPrefixed | src/lib/to.ts:30 | The base-16 text of a number or BN never begins with `0x`. |
| To.ToBuffer | src/lib/to.ts:41 | A Buffer is kept. A non-negative number or BN becomes its shortest big-endian bytes. Even-length `0x` hex becomes its bytes, and undefined the empty buffer. |
| To.ToBuf | src/lib/to.ts:40-49 | Without a length this is `toBuffer`. With a length it fails exactly when the bytes, leading zeros removed, exceed the length. Otherwise the result has exactly that length and the same number. |
| To.ToNonPrefixed | src/lib/to.ts:51-54 | Putting `0x` back in front of the result gives the input when it was prefixed. Otherwise the input is unchanged. |
| To.ToBool | src/lib/to.ts:56-59 | A boolean is kept. Anything else fails exactly when `toInt` fails, and is otherwise the truthiness of `toInt`'s number. |
| To.BufferHexReadsBack | src/lib/to.ts:18-38 | `toInt(toHex(buf))` is the big-endian number of a non-empty Buffer. |
| To.EmptyBufferHexIsNaN | src/lib/to.ts:18-38 | `toInt(toHex(empty Buffer))` is NaN. |
| Primitives.MinimalBytes | src/lib/to.ts:41 | The bytes a number becomes hold that number, have no leading zero byte unless the number is 0, and are never empty. |
| Primitives.MinimalBytesFit | src/lib/to.ts:41-46 | A number below 256^k becomes at most k bytes. |
| Primitives.SetLengthKeepsValue | src/lib/to.ts:46 | When the bytes without leading zeros fit, `setLength` keeps the number. |
| Primitives.DecimalRoundTrip | src/abi/coder.ts:33 | Reading back the decimal text of a number gives the number. |
| Primitives.HexToBytesRoundTrip | src/lib/to.ts:35-41 | Even-length lower-case hex turned into bytes and back into hex is unchanged. |
| Primitives.LowerHex | src/lib/to.ts:35 | Lower-casing hex text keeps its length and each digit's value, and leaves only lower-case digits. |
| Primitives.HexToBytesLowers | src/lib/to.ts:35-41 | Hex text of any case turned into bytes and back into hex is its lower-case form. |
| Primitives.ByteHexValue | src/lib/to.ts:21-35 | The hex text of a buffer denotes the buffer's big-endian number. |
| Coder.EncodeElementaryJson | src/abi/coder.ts:14-17 | A bool becomes its truthiness. A narrow uint (`size < 53`) becomes `toInt`'s number and fails exactly on non-buffer-like values. A wide uint becomes decimal text that reads back as `toBn`'s number (the corrected form, see Findings). Other kinds become `toHex`'s text. |
| Coder.EncodeElementaryJsonAsWritten | src/abi/coder.ts:14-17 | Agrees with the corrected form on every kind but the wide uint. A wide uint becomes `toHex`'s text, and fails exactly on non-buffer-like values. |
| Coder.EncodeJson | src/abi/coder.ts:12-29 | Scalars are as above and enums are `toInt`'s number. An array needs a list and encodes each element, keeping the length. A struct's keys are stated in `PlainProofs.EncodedStructKeys`. |
| Coder.EncodeJsonItems | src/abi/coder.ts:20 | Element `j` of the result is the encoding of element `i + j` of the input, and no element is dropped. |
| Coder.DecodeJson | src/abi/coder.ts:39-41 | A value already in decoded form comes back unchanged: a boolean for a bool, `0x` text for the hex kinds, a number for an enum or narrow uint. Decimal text for a wide uint becomes a BN of its number. An array needs a list, and a struct decodes to a map. |
| Coder.DecodeElementary | src/abi/coder.ts:31-37 | A narrow uint goes through `toInt`, a wide uint through `toBn` and a bool through `toBool`. Every other kind goes through `toHex`. Each fails exactly when its coercion fails. |
| Coder.DecodeObject | src/abi/coder.ts:103-119 | An elementary type decodes as `decodeElementary`, an enum as `toInt`. An array needs a list and keeps its length. |
| Coder.DecodeItems | src/abi/coder.ts:111 | Element `j` of the result is the decoding of element `i + j` of the input. |
| Coder.CeilDiv8 | src/abi/coder.ts:49 | The least whole number of bytes that holds `n` bits. |
| Coder.EncodePacked | src/abi/coder.ts:43-61 | A scalar is `toBuf` at its kind's width. A bool is one byte of its truthiness. An array needs a list. |
| Coder.ArrayLayout | src/abi/coder.ts:76-77 | The element count is the given length and the element width is the element's byte size. When either is missing, count times width is the whole buffer: with a length and no element size the width is `n / length`, and a length that does not divide `n` fails. Without a length, an element byte size that is not 0 decides success: the layout works exactly when that size divides `n`. With no length and no element byte size, the layout is unknown. |
| Coder.UnpackFieldsStep | src/abi/coder.ts:95-98 | One step of the field loop decodes field `i` from its slice, stores it under the field's name and moves the cursor past the slice. |
| Coder.Unpacked | src/abi/coder.ts:63-101 | A declared size that disagrees with the byte count fails. A decoded array is a list of the declared length. A struct that breaks the layout rule fails. |
| Coder.UnpackElements | src/abi/coder.ts:78-83 | A successful decode appends exactly one element per remaining slice and keeps the ones already decoded. |
| Coder.DecodePacked | src/abi/coder.ts:63-101 | `decodeABIPacked` fails with `toBuf`'s error, or computes `Unpacked` of `toBuf`'s bytes. |
| Coder.DecodePackedArray | src/abi/coder.ts:74-84 | The cursor loop over fixed-width slices computes the array case of `Unpacked`. |
| Coder.DecodePackedStruct | src/abi/coder.ts:85-99 | The `isStructAllowed` check and the `sliceBuf` loop compute the struct case of `Unpacked`. |
| PackedProofs.PackedWidths | src/abi/coder.ts:47-54 | The width `PackedWidth` gives each scalar: an address 20 bytes, a bool and a byte 1. A uint `ceil(size / 8)` bytes, the least that hold its bits, or 32 without a size. A `bytes` or enum `size / 8` when it has a size, and no fixed width otherwise. |
| PackedProofs.ElementaryPacksToWidth | src/abi/coder.ts:46-52 | A non-bool scalar packs exactly when its bytes without leading zeros fit the width. It then packs to exactly that width and keeps its number. |
| PackedProofs.BoolPacksToOneByte | src/abi/coder.ts:48 | A bool packs to the single byte 1 when truthy and 0 otherwise. |
| PackedProofs.ItemsStep | src/abi/coder.ts:57 | An array packs to its first element's bytes followed by the rest's. |
| PackedProofs.FieldsStep | src/abi/coder.ts:59 | A struct packs to its first field's bytes followed by the later fields'. |
| PackedProofs.FixedItemsLength | src/abi/coder.ts:57 | Elements of a fixed-size type pack to `size / 8` bytes each. |
| PackedProofs.FixedFieldsLength | src/abi/coder.ts:59 | The fields of a fixed-size struct pack to the sum of their sizes, in bytes. |
| PackedProofs.FixedLength | src/abi/coder.ts:43-61 | Every packed value of a fixed-size descriptor packs to exactly `size / 8` bytes. |
| PackedProofs.PackedArraySlices | src/abi/coder.ts:74-84 | A decoded array has one element per slice of the layout. Element `j` is the decoding of bytes `j*w` to `(j+1)*w`. |
| PackedProofs.UnpackFieldsKeys | src/abi/coder.ts:95-98 | The field loop adds exactly the names of the remaining fields to the map it started from. |
| PackedProofs.PackedStructKeys | src/abi/coder.ts:85-99 | A decoded struct is a map keyed by exactly the field names. |
| PackedProofs.PackedStructSlices | src/abi/coder.ts:85-99 | A struct decodes only when allowed. Each field's value is the decoding of its own consecutive slice: its declared size, or the rest of the buffer. |
| PackedProofs.BoolRoundTrip | src/abi/coder.ts:48 | A boolean packs to one byte that decodes back to it, whether the bool has no size, a size of 0 (which the source treats as none) or a size of 8. |
| PackedProofs.NumberRoundTrip | src/abi/coder.ts:49-54 | A uint or enum value below 2^size packs to `size / 8` bytes that decode back to it. A narrow uint comes back as a number and a wide one as a BN. |
| PackedProofs.HexRoundTrip | src/abi/coder.ts:47-51 | Lower-case `0x` hex of the declared width packs to bytes that decode back to the same text. An address or byte without a size, or with a size of 0, has its implied width of 20 or 1 bytes, and an unsized `bytes` any even length. |
| PackedProofs.HexPacks | src/abi/coder.ts:47-51 | `0x` hex of any case that fills the kind's width packs to the bytes the digits denote. |
| PackedProofs.MixedCaseAddressRoundTrip | src/abi/coder.ts:47-71 | A 40-digit mixed-case address packs to its 20 bytes, which decode to the lower-case form of the same text. |
| PackedProofs.UnsizedUintRoundTrip | src/abi/coder.ts:49-71 | A uint without a size, or with a size of 0, packs a value below 2^256 to 32 bytes that decode back to it. With a size of 0 the uint counts as narrow (0 < 53), so the value is a number; without a size it is a BN. |
| PackedProofs.WidthRoundTrip | src/abi/coder.ts:49-71 | A uint without a truthy size packs a value that fits its width to exactly that many bytes, which decode back to it: a number when the uint is narrow, a BN otherwise. |
| PackedProofs.UnsizedEnumRoundTrip | src/abi/coder.ts:54-73 | An enum without a size, or with a size of 0, packs a number to its shortest bytes, which decode back to it. |
| PackedProofs.ScalarRoundTrip | src/abi/coder.ts:45-73 | Every scalar value in packed form survives packing and decoding, whether its size is set, absent or 0 (the source treats 0 as absent): a boolean, a number or BN that fits, lower-case hex of the kind's width. |
| PackedProofs.PackedRoundTrip | src/abi/coder.ts:43-101 | For a descriptor packed decoding can handle, decoding the packed bytes of a value gives the value back. Such a descriptor is a scalar whose size is set, absent or 0, an array of fixed-size elements, or a struct that keeps the layout rule with fixed-size fields before a last decodable one, its sizes agreeing. A struct with no fields is included. |
| PackedProofs.ZeroSizeBoolRoundTrip | src/abi/coder.ts:48-71 | A bool with a size of 0 is treated as unsized: a boolean packs to one byte that decodes back to it. |
| PackedProofs.EmptyStructRoundTrip | src/abi/coder.ts:58-99 | A struct with no fields and no truthy size packs the empty map to no bytes, which decode back to the empty map. |
| PackedProofs.ItemsRoundTrip | src/abi/coder.ts:55-84 | The concatenated elements of an array are cut back into the same elements. |
| PackedProofs.StructRoundTrip | src/abi/coder.ts:58-99 | The concatenated fields of a struct are sliced back into the same map. |
| PackedProofs.SmallArrayDecodes | src/abi/coder.ts:74-84 | The bytes 1, 2, 3 decode as a `uint8[3]` to the numbers 1, 2, 3. |
| PlainProofs.EncodeJsonFieldsKeys | src/abi/coder.ts:24-27 | The `reduce` adds exactly the names of the remaining fields to the map it started from. |
| PlainProofs.EncodeJsonFieldsValues | src/abi/coder.ts:24-27 | With unique field names, each field's entry is the encoding of `value[name]`. |
| PlainProofs.DecodeFieldsKeys | src/abi/coder.ts:113-117 | The `reduce` adds exactly the names of the remaining fields to the map it started from. |
| PlainProofs.DecodeFieldsValues | src/abi/coder.ts:113-117 | With unique field names, each field's entry is the decoding of its input: the item at its position in a list, or the property of its name. |
| PlainProofs.EncodedStructKeys | src/abi/coder.ts:23-27 | A struct encodes to a map keyed by exactly its field names. |
| PlainProofs.DecodedStructKeys | src/abi/coder.ts:112-117 | A struct decodes to a map keyed by exactly its field names. |
| PlainProofs.DecodedStructByPosition | src/abi/coder.ts:113-114 | From a list, field `j` is the decoding of item `j`, or of undefined past the end. |
| PlainProofs.DecodedStructByName | src/abi/coder.ts:113-115 | From a map, each field is the decoding of the entry under its name, or of undefined. |
| PlainProofs.MissingWideUintIsZero | src/abi/coder.ts:113-115 | A wide uint field missing from the map decodes to the BN 0. |
| PlainProofs.ElementaryJsonRoundTrip | src/abi/coder.ts:12-37 | Every plain scalar value survives `encodeJson` then `decodeJson`. |
| PlainProofs.JsonRoundTrip | src/abi/coder.ts:12-41 | Every plain value survives `encodeJson` then `decodeJson`, for every descriptor. Plain means booleans, numbers and BNs of the right width, `0x` hex and well-formed lists and maps. |
| PlainProofs.ItemsJsonRoundTrip | src/abi/coder.ts:18-20 | An array of plain values survives the JSON round trip. |
| PlainProofs.StructJsonRoundTrip | src/abi/coder.ts:23-27 | A struct value with unique field names survives the JSON round trip. |
| PlainProofs.WideUintJsonRoundTripFails | src/abi/coder.ts:16-33 | As written, the wide uint 16 encodes to `"10"`, which decodes to 10. |

## Left out

- `encodeABI` and `decodeABI` (src/abi/coder.ts:6-10) call the external `web3-eth-abi` coder, which is not part of this model.
- `src/lib/define-properties.ts` is not part of this model. Neither is the `console.log` in `toTypeName`.
- `ethereumjs-util` (`toBuffer`, `setLength`, `unpad`, `bufferToHex`, `bufferToInt`) and `bn.js` are third-party libraries. They are modelled by small definitions in `primitives.dfy` and `to.dfy` for the inputs the core gives them. `toBuffer` of text that is not `0x` hex, of NaN, of a negative number, of a boolean, or of a list or map is an error.
- JavaScript numbers are integers or NaN. Fractions, infinities, the 53-bit limit of exact integers and `Math.log2` rounding are not modelled.
- `Helpers.BitLength`: defined as the exact bit length, where the source computes it through floating-point `Math.log2`.
- `To.ParseNumber`: unary plus on text trims ASCII white space, then reads `0x`/`0X`, `0b`/`0B` and `0o`/`0O` text in base 16, 2 and 8, or one optional sign and decimal digits. Fractions, exponents, `Infinity`, numeric separators and Unicode white space are not modelled and come out NaN, and `-0` is 0.
- `To.ParseInt16`: `parseInt(s, 16)` skips ASCII white space only, not Unicode white space, and `-0` is 0.
- `To.ToBn`: text with a character that is not a digit of its base, such as `0x`-prefixed text, is an `InvalidNumber` error, as bn.js 5 throws on it. bn.js 4 reads such text into an unspecified number instead. Text that is only `-` or white space is an `InvalidNumber` error, where bn.js builds a malformed BN. Unicode white space is not removed. A list or map is an `UnrecognizedType` error, where bn.js reads a list as bytes.
- `To.ToInt`: a BN or Buffer of more than 53 bits reads as its exact number, where bn.js's `toNumber` throws.
- `To.ToHex`: the contract does not state the digits produced for a number, a BN or non-`0x` text. It states only that they carry no prefix.
- `Types.Member`: property reads on strings, arrays, Buffers and BNs, and inherited names on maps, such as `"abc"["length"]` or `{}["toString"]`, yield undefined or the map's own entry here. The source yields whatever JavaScript property the name hits.
- Map key order (insertion order of the `reduce`) is not modelled: maps are unordered.
- `Coder.Unpacked`: where `Buffer.copy` would leave an over-long slice zero-filled, the model reports a `ShortBuffer` error. An array with no length whose element has no byte size yields `UnknownElementWidth`. The source returns an empty list there when the element size is absent, or when it is 0 and the buffer is empty. With an element size of 0 and a non-empty buffer the source fails too, since `Buffer.alloc(NaN)` throws. A buffer length that does not divide into elements is `InvalidLength`.
- `Coder.DecodePacked`: the length check compares `8 * bytes` with the size. Sizes that are not multiples of 8 are handled with floor division everywhere else, where the source would compute fractional byte counts.
- `Coder.EncodeJson`: for structs, the keys and values are stated as lemmas (`PlainProofs.EncodedStructKeys`, `PlainProofs.EncodeJsonFieldsValues`, `PlainProofs.StructJsonRoundTrip`) rather than in its own contract.
- `Coder.EncodeJson`: it encodes wide uints with the corrected encoder, as decimal text read through `toBn` (see Findings), so success follows `toBn` rather than the source's `toHex`. They differ as follows. `undefined` and `false` encode as `"0"`, where `toHex` throws. NaN encodes as `"0"`, where `toHex` gives `"NaN"`. A number of magnitude 2^53 or more fails, where `toHex` renders it. Text that `To.ReadBnText` cannot read fails, such as any `0x` text, where `toHex` keeps `0x` text as it is and renders other text through unary plus. Both succeed on Buffers, BNs, safe numbers and readable text, and both fail on `true`, lists and maps. The source as written is `Coder.EncodeElementaryJsonAsWritten`.
- `Coder.DecodeObject`: for structs, the keys and values are stated as lemmas (`PlainProofs.DecodedStructKeys`, `PlainProofs.DecodedStructByPosition`, `PlainProofs.DecodedStructByName`) rather than in its own contract.
- `Coder.EncodePacked`: for arrays and structs the bytes are stated as lemmas rather than in its own contract. `PackedProofs.ItemsStep` and `PackedProofs.FieldsStep` state the in-order concatenation for every value. `PackedProofs.FixedItemsLength`, `PackedProofs.FixedFieldsLength` and `PackedProofs.FixedLength` state the lengths, for fixed-size descriptors only.
- `PackedProofs.PackedRoundTrip`: arrays whose elements have no fixed size are not covered, even when a length makes the source slice them evenly.

## Findings

| source | as written | input that shows it | evidently intended | confidence | as-written member | corrected member |
|---|---|---|---|---|---|---|
| src/abi/coder.ts:16-17 and src/abi/coder.ts:33 | `encodeJson` renders a uint of 53 bits or more with `toHex`, which gives hex digits with no `0x`. `decodeJson` reads it back with `toBn`, which takes text with only decimal digits as decimal. | `uint256` value BN(16): encodes to `"10"`, which decodes to BN(10). | A wide uint's JSON text reads back as the same number, as `JsonRoundTrip` states. The corrected encoder writes decimal text, because the unchanged `toBn` decoder reads digit-only text as decimal. Keeping hex text would need a change to the decoder as well. | not executed | Coder.EncodeElementaryJsonAsWritten, PlainProofs.WideUintJsonRoundTripFails | Coder.EncodeElementaryJson, PlainProofs.JsonRoundTrip |
