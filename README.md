# ICMP Echo codec, modelled in Dafny

This project models the packet codec of a small `ping` tool: the class
`IcmpEcho` in `icmp.py`. The class handles ICMP Echo Request (type 8) and Echo
Reply (type 0) messages, laid out as in RFC 792. On the wire a message is an
8-byte big-endian header followed by the payload:

- type (1 byte)
- code (1 byte)
- checksum (2 bytes)
- identifier (2 bytes)
- sequence number (2 bytes)

The class does four things:

- it serialises a message (`to_bytes`);
- it parses one, rejecting short buffers and foreign types (`from_bytes`);
- it computes the Internet checksum of RFC 1071 over the header, with the checksum field set to 0, and the payload (`calculated_checksum`);
- it compares that checksum with the stored one (`valid_checksum`).

Two modules:

- `checksum.dfy`, module `Checksum`: the RFC 1071 arithmetic on byte strings.
  - Big-endian words (`Word`, `Be16`).
  - Zero padding of an odd-length buffer (`Padded`).
  - The plain word sum (`WordSum`).
  - Folding the carries back in (`Fold`).
  - The 16-bit complement (`Complement`).
  - The receiver's check of RFC 1071, section 1 (`Verifies`: the folded sum over data that includes its checksum is all ones).
  - An independent definition of the ones' complement sum, one end-around-carry addition per word (`OnesAdd`, `OnesSum`).
- `icmp.dfy`, module `Icmp`: the message and its codec.
  - The message is the datatype `Echo`. Its fields are bounded as the wire bounds them: `byte` for type and code, `u16` for the other three.
  - `Encode` is `to_bytes`. `Decode` is `from_bytes`, as a function returning `Result`.
  - `FromBytes` is `from_bytes` written step by step as the source writes it: it starts from a default message and overwrites the fields one at a time. It is proved equal to `Decode`.
  - `CalculatedChecksum` is the checksum as a function. `CalculateChecksum` is the source's imperative computation: pad, a loop that sums word by word, a loop that folds, then complement. It is proved equal to the function.
  - `ValidChecksum` is `valid_checksum`.
  - `NewEcho` builds a message with the constructor's defaults: type 8, every other header field 0, and the given payload.

The message is a value (a `datatype`), not a class. No method of `IcmpEcho` other
than `__init__` changes `self`. `from_bytes` fills in the fields of a new object it has just
made, then returns it, and `FromBytes` keeps that order.

Python operators on the non-negative checksum accumulator are written as
arithmetic:

- `checksum & 0xffff` is `% 0x10000`.
- `checksum >> 16` is `/ 0x10000`.
- `(b1 << 8) + b2` is `b1 * 0x100 + b2`.
- `~checksum & 0xffff` is `(-checksum - 1) % 0x10000`. Dafny's `%` is Euclidean, so this equals Python's mask of a two's-complement negative number.

## Model

| member | source | states |
|---|---|---|
| Icmp.Encode | icmp.py:56-57 | the output is exactly 8 + len(payload) bytes; byte 0 is the type, byte 1 the code, bytes 2-3, 4-5 and 6-7 the big-endian checksum, identifier and sequence number; the stored checksum is written unchanged; the payload follows unchanged with no padding |
| Icmp.Decode | icmp.py:59-73 | a buffer shorter than 8 bytes fails as TooShort, and only such a buffer does; with 8 or more bytes, a type other than 0 or 8 fails as NotEcho and the error carries that type; otherwise the message takes its type and code from bytes 0 and 1, its checksum (kept as read, neither recomputed nor checked), identifier and sequence from the big-endian words at 2, 4 and 6, and its payload is exactly data[8:] |
| Icmp.FromBytes | icmp.py:59-73 | the step-by-step decoder (default message, payload first, then the type check, then the remaining fields) returns exactly what `Decode` returns, including each error |
| Icmp.NewEcho | icmp.py:29-35 | the constructor's defaults: an Echo Request (type 8) whose code, checksum, identifier and sequence number are 0, carrying the given payload |
| Icmp.NewEchoWire | icmp.py:29-35 | a message built with the constructor's defaults encodes as 8 followed by seven zero bytes and then the payload, and decodes back to itself |
| Icmp.PackHeader | icmp.py:57 | `struct.pack('>BBHHH', ...)`: exactly 8 bytes, type at byte 0, code at byte 1, then checksum, identifier and sequence number as big-endian pairs at bytes 2-3, 4-5 and 6-7 |
| Icmp.UnpackHeader | icmp.py:65 | `struct.unpack('>BBHHH', ...)` of any 8 bytes gives fields that pack back to exactly those 8 bytes |
| Icmp.UnpackPack | icmp.py:57-65 | unpacking the packed `>BBHHH` header gives back the five header fields |
| Icmp.DecodeEncode | icmp.py:56-73 | for every message of type 0 or 8, decoding its encoding succeeds and gives back the type, code, checksum, identifier, sequence number and payload |
| Icmp.EncodeDecode | icmp.py:56-73 | every buffer that decodes is re-encoded to exactly the same bytes |
| Icmp.CalculatedChecksum | icmp.py:37-50 | the calculated checksum added to the folded word sum of the encoding with a zero checksum field gives 0xFFFF, i.e. it is the ones' complement of that sum |
| Icmp.CalculateChecksum | icmp.py:37-50 | the source's loops compute the Internet checksum of the header (checksum field 0) plus the payload, padded with one zero byte when odd; the fold loop ends below 0x10000 and the result is in 0..0xFFFF |
| Icmp.ChecksumIgnoresStoredField | icmp.py:38-39 | two messages that differ only in their stored checksum have the same calculated checksum |
| Icmp.ValidChecksum | icmp.py:52-54 | true exactly when the stored checksum equals `CalculatedChecksum`, i.e. when the stored checksum and the folded word sum of the encoding with a zero checksum field add up to 0xFFFF |
| Icmp.StampedIsValid | icmp.py:52-54 | storing the calculated checksum in a message makes `valid_checksum` true, and its encoding then passes the receiver's check of RFC 1071 |
| Icmp.OddLengthPadding | icmp.py:40-41 | when 8 + len(payload) is odd, the payload and the payload plus one zero byte have the same calculated checksum; that the pad byte never reaches the wire is `Encode`'s contract (exactly 8 + len(payload) bytes, payload unchanged after the header) |
| Icmp.WordSumWithChecksum | icmp.py:39 | the word sum over an encoding equals the word sum with the checksum field set to 0, plus the stored checksum |
| Icmp.ValidChecksumVerifies | icmp.py:52-54 | a message whose checksum is valid passes the receiver's check of RFC 1071; one that passes it is valid, except when the calculated checksum is 0 and 0xFFFF is stored (the other ones' complement zero, which the equality test refuses) |
| Icmp.SingleByteChangeDetected | icmp.py:52-57 | changing any one byte of the encoding of a valid message makes it fail the receiver's check; if the changed bytes still decode, the decoded message's checksum is not valid |
| Icmp.KnownVector | icmp.py:38-50 | type 8, code 0, identifier 1, sequence 2 and no payload give the checksum 0xF7FC (the words 0x0800, 0x0000, 0x0001 and 0x0002 sum to 0x0803) |
| Checksum.Padded | icmp.py:40-41 | the summed buffer has even length; it starts with the data; it is at most one byte longer, and any added byte is 0 |
| Checksum.WordOfBe16 | icmp.py:57 | the two big-endian bytes of a 16-bit value make that value again as a word |
| Checksum.Be16OfWord | icmp.py:65 | splitting the word made of two bytes gives back those two bytes |
| Checksum.WordSumAppend | icmp.py:42-46 | the word sum of two even-length buffers laid end to end is the sum of their word sums; the summing loop adds one word per step because of this |
| Checksum.WordSumUpdate | icmp.py:43-46 | changing the byte at index i changes the word sum by the change of that byte, times 256 when i is even (the high byte of its word) |
| Checksum.Fold | icmp.py:47-48 | folding ends below 0x10000; it keeps the value modulo 0xFFFF; it gives 0 only for 0 |
| Checksum.Complement | icmp.py:49 | the complement and the folded sum add up to 0xFFFF |
| Checksum.FoldIsOnesSum | icmp.py:42-48 | the folded word sum equals the ones' complement sum with end-around carry, as RFC 1071 defines it |
| Checksum.ComplementCompletesSum | icmp.py:47-49 | adding the complement of the folded sum to the sum gives a total that folds to 0xFFFF; the only other 16-bit value that does so is 0xFFFF, when that complement is 0 |
| Checksum.ByteChangeBreaksVerification | icmp.py:38-50 | data that passes the receiver's check fails it once any single byte is changed |

## Left out

- `IcmpEcho.__repr__` (icmp.py:75-83): it only formats a string.
- ping.py as a whole is not part of this model. This covers:
  - address lookup;
  - raw socket I/O and timeouts;
  - the random payload from `os.urandom`;
  - clock readings and the floating-point round-trip time;
  - argument parsing and printing.
- Out-of-range field values: `struct.pack` raises an error for them. The model rules them out with bounded field types instead of modelling the error.
- Error messages: the text of the `ValueError`s is not modelled, only the two kinds of failure. The length error carries no value because the message at icmp.py:62 includes no length.
- Buffer types: `data` is modelled as a byte string. Python also accepts other buffer types for `data` (bytearray, memoryview). Those types, and what slicing returns for them, are not modelled.
- Mutability: `IcmpEcho` objects are mutable, and callers may assign their fields. The model treats a message as a value, so aliasing of one object shared between callers is not captured.
