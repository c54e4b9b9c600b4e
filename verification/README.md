# totp: the secret-to-code path

`totp` is a small command that prints the current six-digit TOTP code for a
base32 secret. Its `main` (src/main.rs) does four things in sequence:

1. **Length guard.** It rejects with "Invalid secret" any secret whose length
   in UTF-8 bytes is not 16, 26 or 32.
2. **Normalise and decode.** It upper-cases the secret and decodes it as
   unpadded base32 with the RFC 4648 alphabet. If decoding fails it prints
   "Failed to decode secret".
3. **Counter.** It reads the seconds since the Unix epoch and derives the
   time-step counter, seconds / 30.
4. **Code.** It prints `totp_custom::<Sha1>(30, 6, key, seconds)`, which is
   HOTP (RFC 4226) over HMAC-SHA1 of that counter.

The model is pure: functions and lemmas only, as in the source, with no
state and no loops. It is split into five modules.

- `Bits` (bits.dfy): bit strings, most significant bit first, and big-endian
  byte strings. These are the vocabulary of the other modules. Each pair of
  conversions (numbers and bits, numbers and bytes, bytes and bits) is
  proved inverse in both directions.
- `Text` (text.dfy): Rust's `str::len`, which counts UTF-8 bytes, and
  `str::to_uppercase`.
- `Base32` (base32.dfy): the decoder of section 6 of RFC 4648, defined
  bit by bit. Its partners are:
  - the matching encoder, with the round trip between them;
  - the usual per-block shift-and-mask formulas, proved equal to the
    bit definition.
- `Hotp` (hotp.dfy): the counter, its eight big-endian bytes, dynamic
  truncation, the zero-padded six-digit decimal code, HOTP and TOTP.
  - HMAC-SHA1 is a parameter `mac` of type `Mac`: a function from key and
    message to a 20-byte `Digest`.
- `Program` (program.dfy): `Run`, the whole path from secret and seconds to
  its `Outcome`; `Output`, the line printed; and the properties of the
  path as a whole.

## Model

| member | source | states |
|---|---|---|
| Bits.FromBytesToBytes | src/main.rs:32 | writing a number below 256^n in n big-endian bytes and reading it back gives the number |
| Bits.ToBytesFromBytes | src/main.rs:32 | reading n bytes as a big-endian number and writing it back in n bytes gives the bytes |
| Bits.PackBytesBits | src/main.rs:20-24 | cutting the bits of a byte string, followed by fewer than eight more bits, into bytes gives the byte string |
| Bits.BytesBitsPackBytes | src/main.rs:20-24 | cutting a multiple of eight bits into bytes and writing those as bits gives the bits back |
| Bits.LowBits | src/main.rs:20-24 | the low w bits of x, read back, are x modulo 2^w, for every w |
| Text.Utf8LengthBounds | src/main.rs:14 | `secret.len()` counts UTF-8 bytes: it is never less than the character count, and equals it exactly when every character is ASCII |
| Text.UpperChar | src/main.rs:22 | upper-casing a character gives one to three characters; on ASCII it changes exactly a-z, each to its capital; a result made only of ASCII consists of capitals or of the unchanged ASCII input |
| Text.ToUpperAscii | src/main.rs:22 | on ASCII text, upper-casing keeps length and ASCII-ness, and character i becomes the capital of a lower-case letter or stays as it is |
| Text.ToUpperIdempotent | src/main.rs:22 | upper-casing an upper-cased secret changes nothing |
| Text.ToUpperAppend | src/main.rs:22 | upper-casing works character by character: it distributes over concatenation |
| Text.UpperCharFixed | src/main.rs:22 | the upper-case form of any character is itself fixed by upper-casing |
| Base32.SymbolValue | src/main.rs:21 | each alphabet character encodes the 5-bit value that SymbolChar maps back to it |
| Base32.Symbols | src/main.rs:20-23 | the character values exist exactly when every character is in the alphabet A-Z, 2-7, one value per character |
| Base32.Decode | src/main.rs:20-24 | decoding succeeds if and only if every character is in the alphabet; a success holds floor(5n/8) bytes for n characters |
| Base32.Encode | src/main.rs:20-24 | the unpadded encoding of k bytes is ceil(8k/5) alphabet characters |
| Base32.DecodeEncode | src/main.rs:20-24 | round trip: decoding the unpadded encoding of any key gives the key back |
| Base32.EncodedLengths | src/main.rs:15 | the lengths 16, 26 and 32 that the guard admits are exactly the encoded lengths of 10-, 16- and 20-byte keys |
| Base32.DecodeAppend | src/main.rs:20-23 | a string that starts with whole 8-character blocks decodes block by block: the bytes of the blocks followed by the bytes of the rest |
| Base32.DecodeBlock | src/main.rs:20-23 | an 8-character block decodes to the five bytes given by the per-block shift-and-mask formulas |
| Base32.DecodeExample | src/main.rs:20-24 | JBSWY3DPEHPK3PXP decodes to the ten bytes "Hello!" DE AD BE EF |
| Hotp.Counter | src/main.rs:31-32 | the counter c is the number of whole 30-second steps: c*30 <= seconds < (c+1)*30 |
| Hotp.CounterBytes | src/main.rs:32 | the counter is sent as eight bytes whose big-endian value is the counter |
| Hotp.Offset | src/main.rs:32 | the truncation offset is below 16, so the four bytes read from it lie inside the 20-byte digest |
| Hotp.Truncate | src/main.rs:32 | the truncated value is below 2^31 |
| Hotp.TruncateBytes | src/main.rs:32 | truncation is the big-endian value of the four digest bytes at the offset, modulo 2^31 (top bit masked) |
| Hotp.TruncateExample | src/main.rs:32 | the worked example of RFC 4226 section 5.4: offset 10, value 0x50ef7f19, six-digit value 872921 |
| Hotp.DigitsValue | src/main.rs:32-33 | a string of d digits writes a number below 10^d |
| Hotp.Digits | src/main.rs:32-33 | the padded decimal form has exactly the requested width and only digits |
| Hotp.DigitsValueDigits | src/main.rs:32-33 | the padded digits of n < 10^d read back as n |
| Hotp.DigitsDigitsValue | src/main.rs:32-33 | every digit string is the padded form of the number it writes |
| Hotp.DigitsExample | src/main.rs:32-33 | 42 prints as "000042" |
| Hotp.Hotp | src/main.rs:32 | the code has six digits and reads as the truncated HMAC of the counter bytes modulo 10^6 |
| Hotp.Totp | src/main.rs:32 | TOTP is six digits that read as the truncated HMAC of the bytes of seconds/30, modulo 10^6 |
| Program.Run | src/main.rs:14-32 | "Invalid secret" exactly when the byte length is not 16, 26 or 32; "Failed to decode secret" exactly when the length passes and the upper-cased secret has a non-alphabet character; otherwise a code of six digits |
| Program.Output | src/main.rs:14-33 | a run that produces a code prints the code itself |
| Program.RunCode | src/main.rs:20-32 | a printed code is the TOTP of the decoded upper-cased secret, a key of floor(5n/8) bytes |
| Program.SameKeySameCode | src/main.rs:32 | two secrets that pass the guard and decode to the same key give the same outcome: the code depends on the key and seconds alone |
| Program.SameWindow | src/main.rs:31-32 | two readings in the same 30-second window give the same outcome |
| Program.WindowExample | src/main.rs:31-32 | seconds 30 and 59 are in window 1, and 60 is in window 2 |
| Program.OutputDistinct | src/main.rs:14-33 | the printed line tells the outcomes apart: equal lines mean equal outcomes |
| Program.AlphabetUpper | src/main.rs:14-22 | an alphabet-only secret is ASCII, has byte length equal to its length, and is unchanged by upper-casing |
| Program.CaseInsensitive | src/main.rs:14-22 | an ASCII secret and its upper-cased form have the same outcome |
| Program.AsciiKeyLength | src/main.rs:14-24 | an ASCII secret that yields a code has 16, 26 or 32 characters and decodes to 10, 16 or 20 bytes respectively |
| Program.StandardKey | src/main.rs:14-32 | the base32 text of any 10-, 16- or 20-byte key passes the guard and prints the TOTP of that key |
| Program.DotlessI | src/main.rs:14-22 | the guard counts bytes before upper-casing, so case-insensitivity stops at ASCII: "ı" followed by 14 alphabet characters passes and prints the code of a 9-byte key, while its upper-cased form is rejected as an invalid secret |

## Left out

- Where the secret comes from (src/main.rs:8-12): the command-line argument or the `input` prompt (src/main.rs:36-42). This is I/O; the secret is a parameter of `Run`.
- The clock read `SystemTime::now()` and the panic of its `unwrap` on a clock before the epoch (src/main.rs:31). The seconds are a 64-bit unsigned parameter.
- HMAC-SHA1 and SHA-1 of the `totp_lite` crate: a foreign cryptographic library, modelled as the parameter `mac` returning 20 bytes. The crate's own code is not part of this model. TOTP, HOTP and truncation are defined from RFC 6238 and RFC 4226.
- The `base32` crate's code is not part of this model. `Base32.Decode` follows section 6 of RFC 4648 without padding:
  - `=` is rejected like any other character outside the alphabet;
  - the fewer than eight bits left over at the end are dropped without being checked.
  - The crate's own treatment of trailing `=` and of non-zero leftover bits is not modelled.
- Text.UpperChar: models the upper-case mapping of ASCII exactly. Of non-ASCII characters, it maps only those whose upper-case form is made entirely of ASCII letters (ı, ſ, ß, and the ligatures U+FB00 to U+FB06). Every other non-ASCII character is kept as it is. Their true upper-case forms contain non-ASCII characters, which the decoder rejects either way, so the outcome of `Run` is unaffected.
- `println!` itself: `Output` gives the line's text; the newline and the write to standard output are left out.
