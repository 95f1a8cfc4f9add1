# R503 command-frame encoder

A Dafny model of the part of the Grow R503 fingerprint-sensor driver that
builds outgoing command frames, and of the session class that holds the
protocol's wire constants.

- `ctypes.dfy` (module `CTypes`) models the ctypes unsigned integers the driver
  uses (`c_uint8`, `c_uint16`, `c_uint32`) as a width and a value.
  - `Make` is the constructor, which wraps silently modulo 256^width as ctypes
    does.
  - `ToBytesBE` and `FromBytesBE` are `int.to_bytes(n, 'big')` and its inverse.
    Lemmas show they round-trip in both directions.
- `grow503.dfy` (module `Grow503`) models `b_array`, `calc_checksum`,
  `send_msg` and the default command fields of grow503.py.
  - `b_array` is a method with a loop (`BArray`). It is proved against the
    specification function `Serialized`.
  - `calc_checksum` and `send_msg` are functions.
  - Lemmas state the frame layout: segment lengths, byte order, which bytes
    the checksum covers, and that the checksum never wraps. They also show
    that the checksum does not depend on the order in which `calc_checksum`
    concatenates its fields.
  - `DefaultFrame` gives the exact 16 bytes the module's defaults produce.
- `r503.dfy` (module `R503`) models the `R503` class: its header and
  packet-type constants, and a constructor that keeps the port and baud rate
  and wraps the password to 32 bits.

Three details of the code that the model keeps:

- The default frame's checksum is 0x01 + 0x00 + 0x07 + 0x13 + four zero bytes
  = 0x1B (`DefaultChecksum`, `DefaultFrame`).
- `send_msg` writes the caller's `pkglen` unchanged (grow503.py:11, 15-16).
  No lemma relates the length field to the payload.
- `calc_checksum` serialises instruction before length (grow503.py:25), while
  the frame has length before instruction. `ChecksumFieldOrder` proves this
  gives the same sum, and `ByteSumPermutation` proves the byte sum ignores
  order in general.

## Model

| member | source | states |
|---|---|---|
| CTypes.Make | grow503.py:8-13 | a `c_uintN(v)` has width N, and keeps v unchanged when v already fits |
| CTypes.MakeWraps | r503.py:18 | the kept value is below 256^width and differs from the argument by a multiple of 256^width (silent wrap, no error) |
| CTypes.ToBytesBE | grow503.py:21 | `to_bytes(n, 'big')` yields exactly n bytes |
| CTypes.DecodeEncode | grow503.py:21 | any value below 256^n encoded in n big-endian bytes decodes back to itself |
| CTypes.EncodeDecode | grow503.py:21 | any byte string is the n-byte encoding of its own value, so the encoding at a fixed width is a bijection |
| Grow503.Enc | grow503.py:21 | one argument's encoding is `sizeof(arg)` bytes long |
| Grow503.EncDecodes | grow503.py:21 | every argument's encoding decodes back to the argument's value |
| Grow503.EncByte | grow503.py:21 | a `c_uint8` encodes to the single byte holding its value |
| Grow503.Serialized | grow503.py:18-22 | the concatenated encoding is as long as the sum of the arguments' widths |
| Grow503.BArray | grow503.py:18-22 | the loop's result is the encodings of all arguments in argument order, and its length is the sum of their widths |
| Grow503.SerializedEmpty | grow503.py:19 | `b_array()` is empty |
| Grow503.TotalWidthAppend | grow503.py:18-22 | widths add up over a concatenation of argument lists |
| Grow503.TotalWidthBound | grow503.py:21 | n arguments take at most 4n bytes |
| Grow503.SerializedOne | grow503.py:20-21 | `b_array(a)` is the encoding of a |
| Grow503.SerializedSnoc | grow503.py:20-21 | adding one argument at the end appends its encoding |
| Grow503.SerializedAppend | grow503.py:19-22 | `b_array(xs ++ ys) == b_array(xs) + b_array(ys)` |
| Grow503.SerializedSegment | grow503.py:21 | argument k occupies the bytes from the widths of the arguments before it, for its own width, and those bytes are its big-endian encoding |
| Grow503.SegmentDecodes | grow503.py:21 | decoding argument k's segment of the output recovers argument k's value |
| Grow503.SerializedSix | grow503.py:16 | the six frame fields serialise to their six encodings in frame order |
| Grow503.ByteSum | grow503.py:26 | `sum` of n bytes is at most 255n |
| Grow503.ByteSumAppend | grow503.py:26 | the byte sum of a concatenation is the sum of the byte sums |
| Grow503.ByteSumRemove | grow503.py:26 | taking one byte out of a string takes its value out of the sum |
| Grow503.ByteSumPermutation | grow503.py:25-26 | byte strings that are permutations of each other have the same sum |
| Grow503.ByteSumOfFour | grow503.py:25-26 | the sum over four serialised fields is the sum of the four fields' byte sums |
| Grow503.ChecksumFieldOrder | grow503.py:24-26 | summing the fields in `calc_checksum`'s order (instruction before length) equals summing them in frame order |
| Grow503.ChecksumNoWrap | grow503.py:24-27 | the byte sum of the four fields is at most 16 * 255, below 65536 |
| Grow503.CalcChecksum | grow503.py:24-27 | the result is a `c_uint16` below 65536, equal to the frame-order byte sum of packet id, length, instruction and payload modulo 65536, and equal to that sum itself |
| Grow503.SendMsg | grow503.py:15-16 | the frame is as long as the six fields' widths plus 2 checksum bytes, and at least header, address and checksum long (its contents are stated by SendMsgFlat and SendMsgSplit) |
| Grow503.SendMsgBody | grow503.py:16 | the serialised fields split into header and address, then the four checksummed fields |
| Grow503.SendMsgSplit | grow503.py:16 | everything after header and address is the four checksummed fields followed by their checksum |
| Grow503.SendMsgFlat | grow503.py:16 | the frame is the six field encodings in order followed by the 2-byte checksum |
| Grow503.SendMsgChecksumCovers | grow503.py:16 | the last two bytes are the big-endian byte sum, modulo 65536, of exactly the bytes between the address and the checksum |
| Grow503.SendMsgField | grow503.py:16 | at any widths, field k sits right after the fields before it and holds its big-endian encoding |
| Grow503.SendMsgHeader | grow503.py:16 | at any widths, the frame starts with the encoded header |
| Grow503.FieldOffsets | grow503.py:8-13 | at the module's widths the fields start at bytes 0, 2, 6, 7, 9, 10 and end at byte 14 |
| Grow503.ModuleField | grow503.py:15-16 | at the module's widths each field after the header sits at its fixed offsets in a 16-byte frame |
| Grow503.SendMsgAddressing | grow503.py:15-16 | at the module's widths the frame is 16 bytes, bytes 0-1 are the header and bytes 2-5 the address |
| Grow503.SendMsgCommandFields | grow503.py:15-16 | at the module's widths byte 6 is the packet id, bytes 7-8 the caller's length, byte 9 the instruction and bytes 10-13 the password |
| Grow503.SendMsgChecksumBytes | grow503.py:15-16 | at the module's widths bytes 14-15 hold the byte sum of bytes 6-13, which is below 65536 and so not truncated |
| Grow503.HeaderAddressIndependence | grow503.py:16 | frames that differ only in header and address (at the same widths) have the same length and agree on every byte after them, checksum included |
| Grow503.DefaultEncodings | grow503.py:8-13 | the default fields encode to EF01, FFFFFFFF, 01, 0007, 13 and 00000000 |
| Grow503.DefaultChecksum | grow503.py:10-13 | the checksum of the default fields is 0x1B |
| Grow503.DefaultFrame | grow503.py:8-16 | the default frame is exactly EF 01 FF FF FF FF 01 00 07 13 00 00 00 00 00 1B |
| R503.R503.constructor | r503.py:15-18 | port and baud rate are stored unchanged; the password is stored as a `c_uint32`, a 32-bit value below 2^32 that equals the argument modulo 2^32 |
| R503.OpenDefault | r503.py:15 | a session built without arguments has port 8, baud rate 57600 and password 0 |
| R503.HeaderValue | r503.py:8 | `HEADER` is 0xEF01, a 16-bit value |
| R503.PacketTypes | r503.py:9-12 | the packet types are 0x01, 0x02, 0x07 and 0x08, one byte each and pairwise distinct |

## Left out

- The serial port, `sleep` and the script body at grow503.py:32-38 are I/O with no logic. `PortNumber` and `BaudRate` are kept as constants only.
- `confirmation_codes = conf_codes()` (r503.py:13) and read_conf.py are left out. They read a JSON file into a lookup table used only for display.
- ctypes is modelled only by width and wrap-around. Its other behaviour (object identity, mutability of `.value`, `sizeof` on other types) is not modelled.
- CTypes.ToBytesBE: Python's `to_bytes` raises `OverflowError` when the value does not fit in n bytes, while the model keeps the low n bytes. The driver only encodes a ctypes value at its own width, or a checksum below 65536 in two bytes, so the error case never arises.
- R503.R503.constructor: the model gives `port` and `baud` type `int`. Python accepts any object there.
- Response decoding, chunked upload and download, the index bitmap and enrollment are not part of this model. No code for them exists in the modelled files.
