# Attribute-value HTML escaping (htmlescape2 `encode_attribute`)

This project models the attribute-mode escaper of htmlescape2 and proves
what it promises. `src/encode.rs` handles a string one character at a time:

- A character with a named entity is written as that entity.
- Otherwise, a character below U+0100 is written as the numeric reference
  `&#xHH;` (upper-case digits) when it is above U+007F or is not an ASCII
  letter or digit.
- Any other character is written as its own UTF-8 bytes.

`encode_attribute_w` appends these escapes to a writer in input order.
`encode_attribute` does the same into a fresh `Vec<u8>` and turns the buffer
into a `String`.

The project has four modules:

- `Wrappers`: the `Option` type.
- `Utf8` (`utf8.dfy`): UTF-8 as in section 3 of RFC 3629.
  - `EncodeScalar` and `EncodeString` stand for the `write_char` helper and
    for `str::as_bytes`.
  - The validating decoder `DecodeString` stands for `String::from_utf8`.
  - Both directions of the round trip are proved.
- `Sink` (`sink.dfy`): the `Vec<u8>` writer, as a class `ByteWriter` whose
  `bytes` field is appended to.
- `HtmlEncode` (`encode.dfy`): the escaper.
  - Two pure specifications: `CharEscape` for one character and `Escaped`
    for a string.
  - The imperative operations `WriteHex`, `EncodeChar`, `EncodeAttributeTo`
    and `EncodeAttribute`, each proved to append or return exactly what the
    specification says.
  - Lemmas about the specification.

The named-entity table (`lookup_minimal`, from the `entities` module) is a
parameter, `table: map<char, string>`: `c !in table` means `c` has no
entity. The proofs hold for every table. Only the two attribute-safety
lemmas, `CharEscapeAttributeSafe` and `EscapedAttributeSafe`, assume
something of the table: every entity is non-empty and spelled with ASCII
letters, digits, `&`, `#` and `;`. The documentation example assumes
only that `"` maps to `&quot;` and that the other characters of the example
have no entity.

Where the documentation and the code disagree, the model follows the code:

- The doc comment of `encode_attribute` (`src/encode.rs:11-13`) says only
  non-alphanumeric ASCII is hex-encoded.
- The guard at `src/encode.rs:55` also hex-encodes every code point from
  U+0080 to U+00FF that has no entity. `HexEscapeBoundary` states the code's
  boundary.
- The guard's `b > 127` test adds nothing beside `!is_ascii_alnum(c)`,
  because every ASCII letter or digit is below 128. `NeedsHexEscape`
  states the guard without it.

## Model

| member | source | states |
|---|---|---|
| Utf8.EncodeScalar | src/encode.rs:58 | `write_char` writes 1 to 4 bytes; exactly one byte, equal to the code point, when the character is ASCII; otherwise every byte is at or above 0x80; the lead byte announces the length |
| Utf8.DecodeScalar | src/encode.rs:33 | the strict decoder of one sequence (no overlong form, no surrogate, nothing above U+10FFFF) accepts only 1 to 4 bytes whose lead byte announces exactly that length |
| Utf8.DecodeString | src/encode.rs:33 | `String::from_utf8`: a whole byte string decodes, or is rejected, and a decoded text never has more characters than there were bytes |
| Utf8.ScalarRoundTrip | src/encode.rs:58 | every character decodes back from its UTF-8 encoding |
| Utf8.DecodeScalarSound | src/encode.rs:33 | a byte sequence the scalar decoder accepts is exactly the encoding of the character it yields |
| Utf8.StringRoundTrip | src/encode.rs:33 | every string's UTF-8 encoding decodes back to that string |
| Utf8.DecodeStringSound | src/encode.rs:33 | bytes the decoder accepts are exactly the encoding of the string it returns |
| Utf8.EncodeStringAppend | src/encode.rs:52 | the encoding of a concatenation is the concatenation of the encodings |
| Utf8.DecodeStringPrepend | src/encode.rs:33 | one well-formed sequence in front of well-formed bytes decodes to its character in front of their text |
| Utf8.DecodeStringAppend | src/encode.rs:33 | two well-formed byte strings put together decode to the two texts put together |
| Utf8.EncodeStringInjective | src/encode.rs:33 | two strings with the same encoding are equal, so the returned `String` is determined by the buffer |
| Utf8.AsciiEncodeString | src/encode.rs:52 | ASCII text encodes byte for byte, one byte per character |
| Utf8.AsciiDecodes | src/encode.rs:33 | a byte string of ASCII bytes is well-formed UTF-8 |
| Sink.ByteWriter.Empty | src/encode.rs:30 | the buffer starts empty |
| Sink.ByteWriter.WriteAll | src/encode.rs:52 | `write_all` appends all of its data, in order, and nothing else |
| Sink.WriteChar | src/encode.rs:58 | `write_char` appends exactly the UTF-8 encoding of the character |
| HtmlEncode.IsAsciiAlnum | src/encode.rs:76-78 | `is_ascii_alnum` holds only for ASCII characters (its exact range is stated by `AsciiAlnumPassThrough`) |
| HtmlEncode.AsU8 | src/encode.rs:67 | `c as u8` keeps the code point modulo 256, and keeps it unchanged below 256 |
| HtmlEncode.NeedsHexEscape | src/encode.rs:55 | the hex-branch guard holds exactly when the code point is below 256 and the character is not an ASCII letter or digit |
| HtmlEncode.HexReference | src/encode.rs:64-74 | the numeric reference is 6 bytes: `&`, `#`, `x`, two upper-case hex digits and `;`, all ASCII |
| HtmlEncode.HexReferenceRoundTrip | src/encode.rs:67-70 | 16 × (high digit) + (low digit) gives back the byte the reference was made from |
| HtmlEncode.HexReferenceText | src/encode.rs:64-74 | the reference bytes are the ASCII text `&#x`, the digit-table entries for the high and low nibbles, and `;` |
| HtmlEncode.WriteHex | src/encode.rs:64-74 | appends exactly the numeric reference of `c as u8` and nothing else |
| HtmlEncode.CharEscape | src/encode.rs:50-62 | what `encode_char` writes: with no entity, 1 to 6 bytes, starting with `&` exactly when the guard chooses the numeric reference |
| HtmlEncode.CharEscapeCases | src/encode.rs:50-62 | a character with an entity comes out as exactly that entity, even when it would also qualify for a numeric reference; a character in the hex branch comes back whole from its reference, so `c as u8` loses nothing; any other character decodes to itself |
| HtmlEncode.HexEscapeDecodes | src/encode.rs:54-56 | in the hex branch the reference parses back to the full code point, and the bytes are valid UTF-8 |
| HtmlEncode.PlainDecodes | src/encode.rs:58 | a character outside the entity and hex branches is written as bytes that decode to that character |
| HtmlEncode.HexEscapeBoundary | src/encode.rs:54-58 | with no entity, the output is a numeric reference exactly when the code point is below 256 and not an ASCII letter or digit, and it then reads back as the code point; from 256 up the output is the character's UTF-8 |
| HtmlEncode.AsciiAlnumPassThrough | src/encode.rs:76-78 | below U+0080 and with no entity, a character comes out as its own single byte exactly when it is an ASCII letter or digit |
| HtmlEncode.EncodeChar | src/encode.rs:50-62 | appends exactly the escape of `c`: the entity, the numeric reference or the UTF-8 bytes, chosen by the source's guard |
| HtmlEncode.Escaped | src/encode.rs:46-48 | what `encode_attribute_w` writes: with no entity in the way, at least one and at most six bytes per input character |
| HtmlEncode.EscapedAppend | src/encode.rs:46-48 | escaping a concatenation gives the two escapes concatenated, so no character is dropped, added or reordered |
| HtmlEncode.EscapedExtend | src/encode.rs:47 | escaping one more character of a prefix appends exactly that character's escape |
| HtmlEncode.EscapedJoin | src/encode.rs:46-48 | known escapes of two parts combine into the escape of the whole |
| HtmlEncode.PassThroughIdentity | src/encode.rs:58 | text that needs no entity and no reference comes out as its own UTF-8 bytes |
| HtmlEncode.EncodeAttributeTo | src/encode.rs:46-48 | appends the escapes of all characters of `s`, in order; the loop keeps buffer = start + escape of the prefix done so far |
| HtmlEncode.CharEscapeAttributeSafe | src/encode.rs:50-62 | when the entities are attribute-safe, one character's escape has only ASCII letters, digits, `&`, `#`, `;` or non-ASCII bytes |
| HtmlEncode.EscapedAttributeSafe | src/encode.rs:9-16 | when every entity is non-empty and spelled with ASCII letters, digits, `&`, `#`, `;`, the escaped text of any string has only attribute-safe bytes, in particular no `"` and no `'` |
| HtmlEncode.EscapedDecodes | src/encode.rs:33 | the escaped bytes are always valid UTF-8, whatever the entity table, so `from_utf8(..).unwrap()` cannot panic |
| HtmlEncode.EncodeAttribute | src/encode.rs:29-35 | returns the string whose UTF-8 encoding is exactly the escape of `s`; such a string always exists |
| HtmlEncode.ExampleHexPieces | src/encode.rs:26-27 | in the documented example, `,`, space and `.` come out as the references for 0x2C, 0x20 and 0x2E |
| HtmlEncode.ExampleHexSpellings | src/encode.rs:26-27 | those three references read `&#x2C;`, `&#x20;` and `&#x2E;` |
| HtmlEncode.ExampleOtherPieces | src/encode.rs:26-27 | in the documented example, `"` comes out as `&quot;` and the words `No`, `he` and `said` come out unchanged |
| HtmlEncode.DocumentationExample | src/encode.rs:26-27 | with `"` mapped to `&quot;`, escaping `"No", he said.` gives `&quot;No&quot;&#x2C;&#x20;he&#x20;said&#x2E;`, and that is the only string `encode_attribute` can return for it |

## Left out

- `io::Write` errors are not modelled: the writer is an infallible append to a byte sequence. So the error propagation of `try_for_each` and `?` (`src/encode.rs:47`, `src/encode.rs:66`) and the `panic!` on a writer error (`src/encode.rs:32`) are not modelled either.
- `writer.write(b"&#x")` (`src/encode.rs:66`) can write only part of its bytes on a real stream. Into a `Vec` it writes everything, so `WriteHex` appends all three bytes.
- The capacity hint `Vec::with_capacity(s.len() * 3)` (`src/encode.rs:30`) does not affect the output. It is not modelled.
- `lookup_minimal` is not part of this model; the entity table is a parameter. Neither is `write_char` (the `io_support` module): its behaviour is taken to be UTF-8 encoding, `Utf8.EncodeScalar`.
- `decode_html` and `encode_minimal` are not part of this model.
- The source declares a `Cow` result but always builds an owned `String` (`src/encode.rs:33`). The model returns a plain string, and there is no borrowed fast path.
- At `src/encode.rs:31` the arguments of `encode_attribute_w` are passed in the reverse of their declared order (`src/encode.rs:46`). The model follows the evident intent: escape `s` into the buffer.
- HtmlEncode.DocumentationExample: the input and output strings are written as concatenations of their pieces (`"\"" + "No" + ...`). Comparing long string literals as whole values is beyond what the solver settles cheaply. The pieces concatenate to exactly the documented strings.
- `benches/default.rs` is a throughput harness with no logic to model.
