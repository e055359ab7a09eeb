# TOTP code generator, modelled in Dafny

This project models the core of a small C# TOTP generator. `Totp.GetCode`
computes an RFC 6238 time-based one-time password on top of RFC 4226's HOTP.
It uses HMAC-SHA-1, a 30-second time step and 6-digit codes. The pipeline is:

1. the time-step counter, `elapsed / 30`;
2. the counter as 8 bytes, high-order byte first;
3. HMAC-SHA-1 over those bytes with the shared key;
4. dynamic truncation: take the digest's last low nibble as the offset, read
   4 bytes big-endian from there, and clear bit 31;
5. reduce modulo 10^6 and format with `"{0:D6}"`.

The model also covers the command-line program's `HexStringToBytes`, which
decodes the hexadecimal form of the key.

Files and modules:

- `results.dfy` (`Results`): the `Result` type, which stands in for thrown exceptions.
- `byte_order.dfy` (`ByteOrder`): bytes, bitwise and on integers, big-endian
  encoding and decoding, and
  the .NET host-order primitives the source calls. These are
  `BitConverter.GetBytes`, `BitConverter.ToInt32` and
  `IPAddress.HostToNetworkOrder`. The host's byte order is an explicit
  parameter, so the model proves that the results do not depend on it.
- `decimal_format.dfy` (`DecimalFormat`): the `D<width>` numeric format and a
  decimal reader used to state what a formatted code means.
- `totp.dfy` (`Totp`): `totp/Totp.cs`. It also holds a reference definition of
  RFC 4226's dynamic truncation and HOTP, and the published test values.
- `program.dfy` (`Program`): `HexStringToBytes` from `totp/Program.cs`, as a
  method that fills a fresh `array<byte>` in a loop. `DecodeHex` is its
  loop-free specification. `EncodeHex` is the encoding the companion script
  prints with `bytes.hex()`.

Environment inputs become parameters:

- The clock read becomes `elapsed`, the whole seconds since the Unix epoch.
- HMAC-SHA-1 becomes `hmac : (key, message) -> Digest`. This is an arbitrary
  function whose results are 20 bytes long, so every property holds for any
  such function.
- The machine's byte order becomes `host`.

The C# `long` counter and `int` intermediate are modelled as their unsigned
bit patterns. This gives the same results: the counter is never negative, and
clearing bit 31 of a 32-bit pattern gives the same non-negative `int` as
masking the signed value.

The code rejects neither empty keys nor pre-epoch times, and the model adds
no such checks; `elapsed` is a natural number. The code does not check the
digest length either: `hmac[hmac.Length - 1]` and `BitConverter.ToInt32`
throw instead. `Truncate` models these throws as `TruncateError` values and
takes the offset from the last byte of its input, not from byte 19. `Truncate`
is proved to succeed on every 20-byte digest.

## Model

| member | source | states |
|---|---|---|
| `ByteOrder.FromToBigEndian` | totp/Totp.cs:74-76 | reading back the big-endian encoding of a value of n bytes gives the value |
| `ByteOrder.ToFromBigEndian` | totp/Totp.cs:74-76 | encoding a byte sequence's big-endian value at the same width gives the sequence back |
| `ByteOrder.GetBytes` | totp/Totp.cs:76 | `BitConverter.GetBytes` yields n bytes that give `x` back when read high-order byte first on a big-endian host, or low-order byte first on a little-endian one |
| `ByteOrder.FromHostBytes` | totp/Totp.cs:110 | the host-order reading of `BitConverter.ToInt32` fits in the bytes' width, and writing it back in the same order gives the bytes |
| `ByteOrder.HostToNetworkOrder` | totp/Totp.cs:76 | on either host byte order, the host-order bytes of the result are the big-endian bytes of the input, and the result fits the same width |
| `ByteOrder.NetworkOrderOfHostRead` | totp/Totp.cs:110-111 | reading bytes in host order and converting to network order gives their big-endian value on every host |
| `ByteOrder.BitAnd` | totp/Totp.cs:112 | the bitwise and of the low `width` bits fits in `width` bits and is at most each operand |
| `ByteOrder.BitAndLowMask` | totp/Totp.cs:109-112 | the bitwise and of `x` with a mask of k low one bits is `x` modulo 2^k |
| `ByteOrder.ClearSignBit` | totp/Totp.cs:112 | `x & 0x7fffffff` on a 32-bit pattern equals `x` modulo 2^31 |
| `ByteOrder.LowNibble` | totp/Totp.cs:109 | `b & 0xf` equals `b` modulo 16 |
| `DecimalFormat.FormatD` | totp/Totp.cs:43 | `"{0:Dn}"` output is all digits, at least n long, exactly n long for values below 10^n (n >= 1), and reads back as the value |
| `DecimalFormat.ParseDigits` | totp/Totp.cs:114 | the unpadded decimal representation reads back as the value |
| `DecimalFormat.ParseLeadingZeros` | totp/Totp.cs:114 | zero-padding on the left does not change the value |
| `DecimalFormat.ParseInjective` | totp/Totp.cs:114 | two digit strings of one length with equal values are equal, so a 6-digit code is determined by its value |
| `Totp.ModulusIsTenToTheDigits` | totp/Totp.cs:40-44 | `TRUNCATION_MODULUS` is 10^Digit for the format's width of 6 |
| `Totp.GetCounter` | totp/Totp.cs:64-70 | for every reading up to the last second where the source's double arithmetic is exact, the counter is the floor of elapsed seconds over 30, `c*30 <= elapsed < c*30 + 30`, and fits a signed 64-bit counter |
| `Totp.CounterMonotone` | totp/Totp.cs:66-68 | the counter never decreases as elapsed time grows |
| `Totp.CounterWithinWindow` | totp/Totp.cs:66-68 | every second of window k, `[30k, 30k+30)`, has counter k |
| `Totp.SameCounterIffSameWindow` | totp/Totp.cs:66-68 | two readings have the same counter if and only if they start the same 30-second window |
| `Totp.CounterStep` | totp/Totp.cs:66-68 | 30 seconds later the counter is exactly one larger |
| `Totp.GetCounterBytes` | totp/Totp.cs:72-78 | the counter bytes are 8 bytes long, high-order byte first, and decode as big-endian to the counter |
| `Totp.CounterBytesHostIndependent` | totp/Totp.cs:76 | the counter bytes are the same on little- and big-endian hosts |
| `Totp.Offset` | totp/Totp.cs:109 | the offset is the last byte's low nibble, in [0, 15] |
| `Totp.ExtractBinCode` | totp/Totp.cs:109-112 | succeeds exactly when the input is non-empty and the 4-byte window at the offset fits; the value is that window read big-endian, modulo 2^31, below 2^31, on every host; empty input is `EmptyDigest` |
| `Totp.DynamicTruncation` | totp/Totp.cs:91-103 | the RFC 4226 section 5.3 value for a 20-byte digest, below 2^31 |
| `Totp.ExtractBinCodeIsDynamicTruncation` | totp/Totp.cs:91-112 | on a 20-byte digest the window ends by index 18 and the source's extraction equals RFC 4226's dynamic truncation on every host |
| `Totp.ClearTopBit` | totp/Totp.cs:97-101 | clearing bit 31 of a 32-bit big-endian value clears bit 7 of its high-order byte |
| `Totp.Truncate` | totp/Totp.cs:85-115 | fails exactly when the window does not fit and always succeeds on 20 bytes; the code is 6 digits whose value is the window's big-endian value mod 2^31 mod 10^6 |
| `Totp.TruncateHostIndependent` | totp/Totp.cs:110-111 | `Truncate` returns the same result on every host byte order |
| `Totp.Hotp` | totp/Totp.cs:60 | `HOTP(K, C)` is 6 ASCII digits whose value is below 10^6 |
| `Totp.GetCode` | totp/Totp.cs:58-62 | the code is 6 ASCII digits whose value is RFC 4226's truncation of `HMAC(key, bigEndian8(counter))` mod 10^6 |
| `Totp.GetCodeIsHotp` | totp/Totp.cs:58-68 | `GetCode` equals `HOTP(key, floor(elapsed / 30))` on every host |
| `Totp.SameWindowSameCode` | totp/Totp.cs:51-62 | a fixed key gives the same code for readings with the same counter, on any hosts, so the code is deterministic |
| `Totp.Rfc4226Example` | totp/Totp.cs:109-114 | the digest of section 5.4 of RFC 4226 gives offset 10, value 0x50ef7f19 and code "872921" |
| `Totp.FormatSixDigits` | totp/Totp.cs:114 | `"{0:D6}"` of 872921 is "872921" |
| `Totp.Rfc6238CounterAt59` | totp/Totp.cs:66-76 | at Unix time 59 (Appendix B of RFC 6238) the counter is 1 and its bytes are 00 00 00 00 00 00 00 01 |
| `Program.HexDigitValue` | totp/Program.cs:18 | the value of a hex digit is below 16, and it is the digit's position in "0123456789abcdef" once an upper-case letter is made lower-case |
| `Program.PairValue` | totp/Program.cs:18 | `Convert.ToByte` of a two-digit pair is the byte whose high nibble is the first digit's value and whose low nibble is the second's |
| `Program.DecodeHex` | totp/Program.cs:11-21 | empty or odd-length input is `BadHexString`; the decode succeeds exactly when the length is even and non-zero and every character is a hex digit; then it has length/2 bytes whose nibbles are the values of digits 2i and 2i+1 |
| `Program.HexStringToBytes` | totp/Program.cs:11-21 | rejects empty or odd-length input with `BadHexString` and a non-hex pair with `NotHex`; it succeeds exactly when the length is even and non-zero and every character is a hex digit; the result is a fresh array of length/2 whose byte i is 16 × digit 2i + digit 2i+1, equal to `DecodeHex` |
| `Program.HexDigitChar` | totp/base32tohex.py:18 | the digit `bytes.hex()` prints for a value below 16 is a lower-case hex digit of that value |
| `Program.EncodeHex` | totp/base32tohex.py:18 | `bytes.hex()` prints two characters per byte |
| `Program.HexRoundTrip` | totp/Program.cs:16-18 | decoding the script's output gives back every non-empty key |
| `Program.EmptyKeyDoesNotRoundTrip` | totp/Program.cs:13-14 | the empty key prints as "", which the decoder rejects with `BadHexString` |
| `Program.EncodeDecodeHex` | totp/Program.cs:17-18 | every accepted string consists of hex digits, and re-encoding its bytes gives the string with its digits in lower case |

## Left out

- Totp.GetCounter: the clock read `DateTime.UtcNow` and the `double` value `TotalSeconds` (totp/Totp.cs:67) are replaced by the whole number `elapsed`. Sub-second fractions are not modelled. The `double` arithmetic of totp/Totp.cs:67-68 is exact for whole seconds e while e * 78125 < 2^53, that is, up to 115292150460 seconds (in the year 5623). The model covers only that range (`MAX_ELAPSED_SECONDS`). Beyond it `TotalSeconds` can round just below a window boundary, and the C# counter can then be one less than e / 30. For example, e = 230585996970 gives 7686199898 instead of 7686199899.
- Pre-epoch clock readings are not modelled, because `elapsed` is a natural number. The code does not reject them. Its truncating cast would yield a counter of 0, or a negative one.
- HMAC-SHA-1 (totp/Totp.cs:82) is a library primitive. It is the parameter `hmac`, constrained only to return 20 bytes.
- A `Totp` object only stores its key, read-only, for `GetCode`. So the object is not modelled as a class: the key is a parameter of `GetCode`.
- `Main` in totp/Program.cs, the credential store access in totp/CredApi.cs and the command-line handling of totp/base32tohex.py are I/O or foreign calls. Python's Base32 decoding, which the script calls, is a library primitive.
- A `null` string cannot be represented as `seq<char>`. The code treats `null` and the empty string alike, and the model covers the empty string.
- Program.HexStringToBytes: the parsing rules of .NET's `Convert.ToByte(s, 16)` beyond two plain hex digits are not modelled. The model accepts only the characters 0-9, a-f and A-F and returns `NotHex` for anything else. It does not distinguish the exception types or messages .NET raises. Lengths count characters, not the UTF-16 code units C# `hex.Length` counts. So for input containing characters outside the Basic Multilingual Plane (the first 65,536 code points), the error kind can differ: "\U{1F600}" is `BadHexString` here but a format error in C#, and "\U{1F600}a" is the other way round. The success condition is unaffected, because every hex digit is one code unit.
