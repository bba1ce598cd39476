# OMRON FINS frame codec: a Dafny model

This project models `DataCreator` from `src/omronfins/datacreator.py`. `DataCreator` is the codec of a small OMRON FINS client. It builds binary frames for two commands:

- MEMORY AREA READ (command code 01 01);
- MEMORY AREA WRITE (command code 01 02).

It also decodes the reply that the PLC returns. Verification proves that the frames are byte-exact. It also proves the codec's round trips and orderings:

- A single value written with a type reads back with that type as itself. For `FLOAT` and `DOUBLE` this holds for the IEEE 754 bit pattern, not for a Python float, which `struct.pack` rounds to the format's precision.
- Several values no wider than a PLC word read back in the order they were written.
- Several wider values read back in the opposite order. The encoder swaps the 16-bit words of each value, but the decoder swaps the whole payload at once.
- ASCII text without NUL characters reads back unchanged, except for text of one character. Text with a NUL is cut at its first NUL.
- A text reply that is not UTF-8 once swapped and reversed is rejected, as `bytes.decode('utf-8')` rejects it.

The project has four files, each a module:

- `wire.dfy` (`Wire`): bytes, big-endian packing in the way of Python's `struct` with `!`, sequence reversal, and the 16-bit word swap.
- `tables.dfy` (`Tables`): the element-type table (`BIT` … `BYTES`, each a struct format with a width) and the memory-area table (area code and element size).
- `codec.dfy` (`Codec`): values and format lists, per-value encoding, reply decoding, and the class `DataCreator`. The class has:
  - the source triple and service id, fixed at construction;
  - the cached header, which `SetDestination` replaces;
  - the encoder loop `ConvertItems`;
  - the frame builders `ReadCommand` and `WriteCommand`.
- `properties.dfy` (`CodecProperties`): lemmas that connect the write path to the read path.

Modelling decisions:

- A reply is modelled as `Response(echo, code, payload)`: twelve echoed bytes, then the completion code big-endian, then the payload.
- `decode_read_data` raises `struct.error` on malformed input. The model returns these raises as `Err` values:
  - `Truncated`: fewer than 14 bytes;
  - `OddWordPayload`: an odd payload where a word swap is needed;
  - `PartialElement`: a payload that is not a whole number of elements;
  - `BadText`: a STR payload that is not UTF-8 after the swap and reversal (the `UnicodeDecodeError` of line 229).
- Because line 215 unpacks the completion code before the length test, a reply shorter than 14 bytes already raises there. The `len(data) < 14` branch at lines 216-217 is therefore unreachable, and `Decode` gives `Err(Truncated)` for every such reply.
- A Python `str` is `Text`. A `bytes` object (a `BYTES` blob, or the one byte of a `CHAR`) is `Raw`. An integer is `Num`.
- `FLOAT` and `DOUBLE` values are carried as their IEEE 754 bit patterns. They are packed and swapped like `UINT` and `ULONGLONG`.
- The encoder packs values with `struct.pack`, which raises for an out-of-range integer. The model states the ranges that `struct.pack` accepts as the subset type `FitItem`. That is a precondition of encoding:
  - header bytes and the bit field are 0..255;
  - addresses and counts are 0..65535;
  - every payload value lies in the range of its format.
- `WriteCommand` needs its payload values to be in range only when it reaches the encoder. A list whose length differs from the count returns `None` before anything is packed.

## Model

| member | source | states |
|---|---|---|
| Wire.ToBigEndian | src/omronfins/datacreator.py:189 | packing an integer that fits `width` bytes with a `!` format yields exactly `width` bytes |
| Wire.FromBigEndian | src/omronfins/datacreator.py:227 | unpacking `n` bytes big-endian yields a number below 256^n |
| Wire.FromToBigEndian | src/omronfins/datacreator.py:227 | unpacking what was packed at the same width gives back the number |
| Wire.ToFromBigEndian | src/omronfins/datacreator.py:189 | packing the number that a byte string denotes gives back the byte string |
| Wire.ReverseAt | src/omronfins/datacreator.py:187 | element i of `s[::-1]` is element `len-1-i` of the input |
| Wire.ReverseReverse | src/omronfins/datacreator.py:229 | reversing twice restores the sequence, which is how the decoder undoes the encoder's reversal of text |
| Wire.ReverseConcat | src/omronfins/datacreator.py:202 | reversing a concatenation reverses each part and exchanges the parts |
| Wire.Unpack16 | src/omronfins/datacreator.py:200-201 | an even byte string splits into half as many big-endian 16-bit words |
| Wire.Pack16 | src/omronfins/datacreator.py:203-204 | n words pack into 2n bytes |
| Wire.Pack16Unpack16 | src/omronfins/datacreator.py:200-204 | re-packing the words of an even byte string gives back the byte string |
| Wire.Unpack16Pack16 | src/omronfins/datacreator.py:221-223 | unpacking packed words gives back the words |
| Wire.Unpack16Concat | src/omronfins/datacreator.py:221 | unpacking a concatenation of even strings concatenates the word lists |
| Wire.Pack16Concat | src/omronfins/datacreator.py:223 | packing concatenated word lists concatenates the packings |
| Wire.WordSwap | src/omronfins/datacreator.py:200-204 | the word swap keeps the length of an even byte string |
| Wire.WordSwapInvolution | src/omronfins/datacreator.py:219-223 | the decoder's word swap undoes the encoder's swap on every even byte string |
| Wire.WordSwapConcat | src/omronfins/datacreator.py:219-223 | a swap over a whole payload swaps each part and exchanges the parts, so values come back in reverse order |
| Wire.WordSwapOneWord | src/omronfins/datacreator.py:219-223 | a one-word payload is left unchanged by the swap |
| Wire.WordSwapAt | src/omronfins/datacreator.py:200-204 | word k of the swapped string is word n-1-k of the input, with its two bytes in their original order |
| Wire.PackAt | src/omronfins/datacreator.py:203-204 | word k occupies bytes 2k and 2k+1 of the packing, high byte first |
| Tables.ElemType.Width | src/omronfins/datacreator.py:19-34 | every element width is 1, 2, 4 or 8, and STR and BYTES have width 1 |
| Codec.ToUnsigned | src/omronfins/datacreator.py:189 | a signed integer in range packs as its two's-complement bit pattern, which lies below 256^width and is either the integer itself or the integer plus 256^width |
| Codec.FromUnsigned | src/omronfins/datacreator.py:227 | reading a bit pattern under a signed or unsigned format gives an in-range integer whose bit pattern is the input |
| Codec.AsciiBytes | src/omronfins/datacreator.py:187 | the UTF-8 encoding of ASCII text has one byte per character, equal to its code |
| Codec.Pack | src/omronfins/datacreator.py:184-189 | a numeric or char value packs to exactly its type's width, and text packs to one byte per character |
| Codec.PadEven | src/omronfins/datacreator.py:195-199 | the padded string is even and at most one byte longer |
| Codec.EncodeValue | src/omronfins/datacreator.py:184-205 | a value of at most two bytes, and any blob, is emitted exactly as packed; a longer value has its length rounded up to even |
| Codec.EncodeValueUnswap | src/omronfins/datacreator.py:193-204 | swapping an encoded long value back gives its packing with one leading zero when the packing is odd |
| Codec.EncodeConcat | src/omronfins/datacreator.py:182-206 | the encoding of a format list is the encodings of its parts, concatenated in list order; nothing is swapped across items |
| Codec.EncodeStep | src/omronfins/datacreator.py:205 | encoding one more item appends that item's bytes |
| Codec.EncodeUChar | src/omronfins/datacreator.py:189 | a UCHAR item encodes to its one byte |
| Codec.EncodeUShort | src/omronfins/datacreator.py:189 | a USHORT item encodes big-endian and is not swapped |
| Codec.EncodeBlob | src/omronfins/datacreator.py:184-185 | a BYTES item encodes verbatim |
| Codec.PreambleBytes | src/omronfins/datacreator.py:258-263 | the command preamble encodes to the command code, the area code, the address big-endian, the bit and the count big-endian |
| Codec.EncodeUChars | src/omronfins/datacreator.py:237-244 | a list of UCHAR items encodes to the bytes themselves |
| Codec.WriteBody | src/omronfins/datacreator.py:279-292 | the body of an accepted write is 01 02, the area code, the address, the bit, the count, and then the payload encodings in caller order |
| Codec.BeforeNul | src/omronfins/datacreator.py:230 | the kept text is a prefix with no NUL, and it stops only at a NUL or at the end |
| Codec.UnpackOne | src/omronfins/datacreator.py:227 | a CHAR element decodes to its one-byte `bytes`; an integer element decodes to an in-range integer whose packing is exactly the element's bytes |
| Codec.UnpackAll | src/omronfins/datacreator.py:226-227 | a payload splits into one value per whole element: length/width values |
| Codec.Shape | src/omronfins/datacreator.py:231-233 | exactly one element comes back bare; any other number comes back as a tuple of all of them |
| Codec.DecodeValues | src/omronfins/datacreator.py:218-233 | a payload decodes exactly when it is even (for STR or types wider than two bytes), a whole number of elements, and, for STR, UTF-8 once swapped and reversed; it fails with `BadText` exactly for an even STR payload that is not; text comes back exactly for STR and holds no NUL |
| Codec.Decode | src/omronfins/datacreator.py:215-233 | a reply shorter than 14 bytes is rejected as truncated; a longer one decodes exactly when its payload does, with the big-endian completion code from bytes 12-13 |
| Codec.DataCreator.constructor | src/omronfins/datacreator.py:115-140 | the source triple and service id are stored, and the header for destination (0, 0, 0) is installed |
| Codec.DataCreator.CreateHeader | src/omronfins/datacreator.py:235-245 | the header is 80 00 02, the destination net, node and unit, the source net, node and unit, and the service id; `delay` has no effect |
| Codec.DataCreator.SetDestination | src/omronfins/datacreator.py:142-168 | the cached header becomes exactly the header for the new destination, and the source fields stay unchanged |
| Codec.DataCreator.ConvertItems | src/omronfins/datacreator.py:170-206 | the encoder loop returns the concatenated encodings of the format list |
| Codec.DataCreator.ReadCommand | src/omronfins/datacreator.py:247-264 | the read frame is the cached header, 01 01, the area code, the address big-endian, the bit and the count big-endian: 18 bytes |
| Codec.DataCreator.WriteCommand | src/omronfins/datacreator.py:266-292 | the write is refused exactly when a list's length differs from the count, and a single value is never checked; otherwise the frame is the header, the write preamble and the payload encodings in caller order |
| CodecProperties.Response | src/omronfins/datacreator.py:215-218 | a reply carries the echoed bytes, the completion code at bytes 12-13, and the payload from byte 14 |
| CodecProperties.PackAll | src/omronfins/datacreator.py:189 | the plain packings of values of one numeric or char type make a whole number of elements |
| CodecProperties.PackAllConcat | src/omronfins/datacreator.py:182-206 | packing two lists one after the other is packing their concatenation |
| CodecProperties.AllFitReverse | src/omronfins/datacreator.py:219-223 | values that the encoder accepts are still accepted when taken in reverse order |
| CodecProperties.FromToUnsigned | src/omronfins/datacreator.py:227 | reading back the bit pattern of an in-range integer gives the integer |
| CodecProperties.UnpackPack | src/omronfins/datacreator.py:227 | unpacking a packed integer or char at its own type gives the value back |
| CodecProperties.UnpackAllPackAll | src/omronfins/datacreator.py:226-227 | splitting consecutive packings gives the values back in order |
| CodecProperties.PackUnpack | src/omronfins/datacreator.py:227 | any element of a numeric or char type read from the wire is a value the encoder accepts, and packing it gives back exactly its bytes |
| CodecProperties.PackAllUnpackAll | src/omronfins/datacreator.py:224-227 | every payload that is a whole number of elements is the plain packing, in order, of the values it splits into, so a reply from PLC memory decodes to exactly the values its bytes hold |
| CodecProperties.EncodeNarrow | src/omronfins/datacreator.py:193 | values of one or two bytes are written as packed, with no swap |
| CodecProperties.WideValue | src/omronfins/datacreator.py:193-204 | a 4- or 8-byte value is written at its width, and swapping it back gives its plain packing |
| CodecProperties.EncodeWideEven | src/omronfins/datacreator.py:193-205 | a payload of 4- or 8-byte values is a whole number of 16-bit words |
| CodecProperties.PackAllSnoc | src/omronfins/datacreator.py:205 | packing one more value at the end appends its packing |
| CodecProperties.EncodeWide | src/omronfins/datacreator.py:193-204 | a payload of 4- or 8-byte values, swapped back as a whole, is the plain packings of the values in reverse order |
| CodecProperties.DecodeResponse | src/omronfins/datacreator.py:215-233 | a reply whose payload decodes gives its completion code and that decoded payload |
| CodecProperties.DecodeResponseFails | src/omronfins/datacreator.py:215-233 | a reply whose payload fails to decode fails with the same error |
| CodecProperties.DecodeEmpty | src/omronfins/datacreator.py:218-233 | a reply of exactly 14 bytes decodes to an empty tuple for numeric and char types and to empty text for STR |
| CodecProperties.DecodeNarrow | src/omronfins/datacreator.py:224-233 | one- and two-byte values written with a type and read with it come back in wire order, bare when there is one |
| CodecProperties.DecodeWide | src/omronfins/datacreator.py:219-233 | several 4- or 8-byte values written with a type and read with it come back in reverse order |
| CodecProperties.ValuesNarrow | src/omronfins/datacreator.py:224-233 | the payload of narrow values decodes to the values in order |
| CodecProperties.ValuesWide | src/omronfins/datacreator.py:219-233 | the payload of wide values decodes to the values in reverse order |
| CodecProperties.RoundTripOne | src/omronfins/datacreator.py:219-233 | one value of any integer or char type, or the bit pattern of a float, survives a write and a read with the same type and comes back bare |
| CodecProperties.BeforeNulStops | src/omronfins/datacreator.py:230 | text without NUL, followed by nothing or by a NUL, is kept whole |
| CodecProperties.TextPayload | src/omronfins/datacreator.py:186-204 | the encoded text is even, and swapping it back and reversing it gives exactly the text bytes, plus one trailing NUL when their number is odd |
| CodecProperties.PaddedTextUtf8 | src/omronfins/datacreator.py:229 | ASCII text, with or without the trailing pad NUL, passes the UTF-8 decode |
| CodecProperties.AsciiUtf8 | src/omronfins/datacreator.py:229 | every byte string whose bytes are all below 0x80 is accepted by the UTF-8 decode |
| CodecProperties.TextValues | src/omronfins/datacreator.py:219-230 | the payload of NUL-free ASCII text of any length except one decodes as STR to exactly the text bytes |
| CodecProperties.TruncatedUtf8Rejected | src/omronfins/datacreator.py:219-229 | the reply payload C3 00 fails as STR with `BadText`, because swapped and reversed it ends inside a two-byte UTF-8 sequence |
| CodecProperties.NulFreeBytes | src/omronfins/datacreator.py:187 | text without a NUL character encodes to bytes without a zero byte |
| CodecProperties.TextUnswap | src/omronfins/datacreator.py:186-204 | swapping encoded text back gives the reversed text bytes, with one zero byte in front when their number is odd |
| CodecProperties.ReversePadded | src/omronfins/datacreator.py:195-199 | reversing the front-padded reversed text gives the text bytes, followed by one NUL exactly when they were odd in number |
| CodecProperties.RoundTripText | src/omronfins/datacreator.py:219-230 | ASCII text with no NUL and of any length except one survives a write and a read as STR; the odd-length pad byte becomes a trailing NUL and is cut off |
| CodecProperties.OneCharTextFails | src/omronfins/datacreator.py:219-223 | a one-character text is written as one unswapped byte, so its reply cannot be word-swapped and does not decode |

## Left out

- `src/omronfins/finsudp.py` is not part of this model. It opens a UDP socket, sends and receives with timeouts, and maps exceptions to codes -1..-4. Its read and write helpers call a `convert_ascii2data` that `DataCreator` does not define.
- Floating point: `FLOAT` and `DOUBLE` values are their IEEE 754 bit patterns. Conversion between a Python float and those bits is not modelled.
- Non-ASCII text on the write side: the encoder reverses characters before UTF-8 encoding, while the decoder reverses bytes before UTF-8 decoding. Only ASCII text, where the two agree, is written.
- Codec.DecodeValues: the decoded text is returned as its UTF-8 bytes rather than as code points. The decoder checks that the bytes are UTF-8, with the byte ranges of Table 3-7 of the Unicode Standard, and cuts them at the first zero byte, which in UTF-8 is exactly the first NUL character.
- Decoding with the `BYTES` type (struct format `p`, a Pascal string) is excluded by `requires !dtype.Bytes?`.
- Codec.Decode: does not model the unreachable `(ret_id, None)` return of lines 216-217. A short reply raises at line 215 first, and the model returns `Err(Truncated)` for it.
- Python exceptions: an encoder value outside its format's range would raise `struct.error`. The model excludes such values by the `FitItem` type instead of modelling the raise.
- Codec.DataCreator.WriteCommand: the payload values must be packable only when the write is not refused, as in the source, because the refusal happens before any packing.
- `delay` is accepted by `CreateHeader` and `SetDestination` but has no effect, as in the source.
- The memory-area table is modelled as constants (area code and element size). Only the area code reaches a frame. Two areas share code 0xbc, as in the source's table.
- `__del__`, the empty `__main__` block and the packaging script are not modelled.
