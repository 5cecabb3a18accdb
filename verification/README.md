# string-builder in Dafny

A model of the `Builder` of the `string-builder` crate (`src/lib.rs`): a
growable, append-only byte buffer that accepts strings, characters, single
bytes and byte slices through the `ToBytes` conversion, reports its length
in bytes, and is finalized into a `String` by validating its contents as
UTF-8.

The model is functional. A `Builder` is an immutable sequence of bytes;
every operation is a pure function from the old buffer to the new one.

- `result.dfy` (module `Results`): the `Ok`/`Err` result of finalizing.
- `utf8.dfy` (module `Utf8`): UTF-8 as RFC 3629 defines it. It covers the
  encoding of one Unicode scalar value (section 3 of RFC 3629), the
  well-formedness of a byte sequence (the grammar of section 4), decoding,
  and `FromUtf8`, the model of Rust's `String::from_utf8`. The error of
  `FromUtf8` carries `validUpTo`, the length of the longest valid prefix,
  as Rust's `Utf8Error::valid_up_to` does.
- `builder.dfy` (module `StringBuilder`): the `Builder` itself and the
  appendable values (`Str`, `Byte`, `Char`, `Bytes`), one per `ToBytes`
  implementation in `src/lib.rs`. `ToBytes` is a public trait, but another
  implementation can only hand `append` the bytes its `to_bytes` returns,
  and `Bytes(data)` already stands for any such bytes. It
  holds `ToBytes`, `Append`, `Len` and `Finalize`, the helpers
  `make_copyable_buf` and `slice_to_vec` as loops, and lemmas about
  sequences of appends.
- `examples.dfy` (module `BuilderExamples`): concrete facts.
  `LenOfFour` (src/lib.rs:47-49) and `BuildingAString` (src/lib.rs:63-67)
  restate the doc examples; `AllSupportedTypes`,
  `IndividualUnicodeCharacters` and `ToolAlbum` (src/lib.rs:127-156)
  restate the unit tests. The last four of these are proved through
  lemmas about the same append sequence with arbitrary strings and
  characters. `EmptyFinalizes`, `ThreeByteCharacters`, `TwoByteCharacter`
  and `LoneContinuationRejected` are further witnesses that match no
  example in the source.

Dafny's `char` is exactly a Unicode scalar value, like Rust's `char`, so a
Rust `String` or `&str` is modelled as a Dafny `string`. Its bytes are
`EncodeString` of that string. Bytes are the subset type `byte` (0 to 255)
over `int`.

`ValidUtf8` is the RFC 3629 rule `UTF8-octets`. It splits off the first
character at the width its lead byte announces. `WellFormedWidth` proves
that every well-formed character has exactly that width. `ValidUtf8Cons`
proves that any split into a well-formed character and valid text is
accepted. So the definition accepts exactly the sequences of the grammar.

`test_all_supported_types` (src/lib.rs:131-132) appends `','` as a
`char` and `b' '` as a `u8`, and `AllSupportedTypes` does the same.

## Model

| member | source | states |
|---|---|---|
| StringBuilder.Default | src/lib.rs:12-17 | `Builder::default` starts with no bytes |
| StringBuilder.New | src/lib.rs:19-24 | `Builder::new(size)` starts with no bytes and equals the default builder, for any `size` the allocator can reserve |
| StringBuilder.CapacityIndependent | src/lib.rs:12-24 | the same appends give the same buffer, length and finalized result for any two capacities the allocator can reserve |
| StringBuilder.ToBytes | src/lib.rs:74-121 | a string converts to valid UTF-8 of between 1 and 4 bytes per character; a `u8` to exactly that one byte; a `char` to 1 to `MAX_UNICODE_WIDTH` bytes of valid UTF-8; a byte slice to itself |
| StringBuilder.ToBytesRoundTrip | src/lib.rs:91-121 | string and character bytes validate back to exactly that text; an ASCII byte to its character, any other lone byte to an error at 0; a slice validates as its own bytes |
| StringBuilder.MakeCopyableBuf | src/lib.rs:79-82 | `make_copyable_buf(len)` returns exactly `len` bytes, all zero |
| StringBuilder.SliceToVec | src/lib.rs:84-89 | `slice_to_vec` (zero buffer, then `copy_from_slice`) returns a copy equal to its input |
| StringBuilder.ToBytesVec | src/lib.rs:91-121 | the implementations as written (copying through `slice_to_vec`; `char` via a four-byte scratch buffer) produce exactly the `ToBytes` bytes |
| StringBuilder.Append | src/lib.rs:36-38 | `append` keeps the old bytes unchanged as a prefix, adds exactly the value's bytes after them, and grows the length by their count |
| StringBuilder.AppendAllBytes | src/lib.rs:36-38 | after any sequence of appends the buffer is the old bytes followed by each value's bytes, in call order |
| StringBuilder.LenAfterAppends | src/lib.rs:40-53 | `len` after any appends is the old length plus the sum of the appended values' byte lengths, and earlier bytes are kept |
| StringBuilder.Finalize | src/lib.rs:55-71 | `string` succeeds exactly when the buffer is well-formed UTF-8, and then returns a text whose bytes are the buffer exactly; on failure the error position is the length of the longest valid prefix |
| StringBuilder.TextOf | src/lib.rs:91-121 | a value whose bytes are valid UTF-8 stands for a text whose encoding is those bytes: the string itself, the character itself, or the character of an ASCII byte |
| StringBuilder.AppendEncoded | src/lib.rs:36-38 | appending a textual value to a buffer holding the encoding of `t` gives the encoding of `t` followed by the value's text |
| StringBuilder.FinalizeAppend | src/lib.rs:62-67 | appending a textual value to a builder that finalizes to `t` gives one that finalizes to `t` followed by the value's text |
| StringBuilder.TextualFinalizes | src/lib.rs:55-71 | a builder fed only values with valid bytes finalizes to their texts concatenated in call order, for any capacity |
| StringBuilder.TextOnlyFinalizes | src/lib.rs:62-67 | a builder fed only strings and characters always finalizes successfully |
| Utf8.EncodeScalar | src/lib.rs:109-115 | a scalar value encodes to 1 to `MAX_UNICODE_WIDTH` bytes: 1 up to 0x7F, 2 up to 0x7FF, 3 up to 0xFFFF, else 4; the result is one well-formed character |
| Utf8.DecodeChar | src/lib.rs:69-71 | a well-formed character stands for a scalar value (never a surrogate or above 0x10FFFF), and its width matches the value's range, so there are no overlong forms |
| Utf8.DecodeEncodeScalar | src/lib.rs:109-115 | decoding the encoding of a scalar value gives that value back |
| Utf8.EncodeDecodeChar | src/lib.rs:69-71 | every well-formed character is the encoding of the value it decodes to |
| Utf8.WellFormedWidth | src/lib.rs:69-71 | the lead byte of a well-formed character fixes its width, so no character is a prefix of another |
| Utf8.ValidUtf8Cons | src/lib.rs:69-71 | a well-formed character followed by valid text is valid text |
| Utf8.EncodeString | src/lib.rs:91-101 | a text's bytes are between one and `MAX_UNICODE_WIDTH` per character |
| Utf8.EncodeStringValid | src/lib.rs:91-101 | the bytes of any text are well-formed UTF-8 |
| Utf8.EncodeStringConcat | src/lib.rs:62-67 | the bytes of a concatenation of texts are the concatenation of their bytes |
| Utf8.ValidConcat | src/lib.rs:62-67 | valid UTF-8 stays valid under concatenation |
| Utf8.ValidSuffix | src/lib.rs:69-71 | what follows a valid prefix of valid UTF-8 is valid |
| Utf8.DecodeString | src/lib.rs:69-71 | valid bytes decode to a text whose encoding is those bytes, with no byte dropped or replaced |
| Utf8.DecodeEncodeString | src/lib.rs:69-71 | decoding the bytes of a text gives the text back |
| Utf8.EncodeStringInjective | src/lib.rs:69-71 | different texts have different bytes |
| Utf8.ScanValid | src/lib.rs:69-71 | the validation scan stops at the end or at the first position that does not begin a well-formed character, and everything before that is valid |
| Utf8.ValidPrefixContinues | src/lib.rs:69-71 | a valid prefix can extend past a position only if a well-formed character starts there |
| Utf8.FromUtf8 | src/lib.rs:69-71 | `String::from_utf8` succeeds exactly on valid UTF-8 and then returns exactly the text of those bytes; otherwise `validUpTo` is the length of the longest valid prefix |
| Utf8.FromUtf8Encoded | src/lib.rs:69-71 | the bytes of any text validate to exactly that text |
| BuilderExamples.EmptyFinalizes | src/lib.rs:69-71 | a builder nothing was appended to finalizes to the empty text, for any capacity the allocator can reserve |
| BuilderExamples.LenOfFour | src/lib.rs:47-49 | appending `"four"` gives a length of 4 |
| BuilderExamples.BuildingAString | src/lib.rs:63-67 | `"i am building"`, `' '`, `"a string"` finalize to `"i am building a string"` |
| BuilderExamples.AllSupportedTypes | src/lib.rs:127-137 | `"hello"`, `','`, `b' '`, `"world"`, the bytes of `" it works"` finalize to `"hello, world it works"` |
| BuilderExamples.IndividualUnicodeCharacters | src/lib.rs:139-147 | U+2018, `"starts with and ends with"`, U+2017 finalize to their concatenation in that order |
| BuilderExamples.ThreeByteCharacters | src/lib.rs:142-144 | U+2018 and U+2017 convert to three bytes each (E2 80 98 and E2 80 97) |
| BuilderExamples.ToolAlbum | src/lib.rs:149-156 | U+00C6 followed by `"nima"` finalizes to `"Ænima"` |
| BuilderExamples.TwoByteCharacter | src/lib.rs:152 | U+00C6 converts to the two bytes C3 86 |
| BuilderExamples.LoneContinuationRejected | src/lib.rs:69-71 | a lone continuation byte 0x80 makes finalizing fail at position 0 |

## Left out

- Capacity reservation (`Vec::with_capacity` with 1024 bytes in `Builder::default`, or `size` in `Builder::new`): the builder stores no capacity, because a reservation that succeeds does not change what is appended, measured or finalized.
- New: does not model the failure of the reservation. `Vec::with_capacity(size)` panics with "capacity overflow" when `size` exceeds `isize::MAX` and aborts when the memory cannot be allocated, so `Builder::new` then never returns; `New` returns an empty buffer for every `size`, and `CapacityIndependent` and `EmptyFinalizes` hold only for the capacities that are actually reserved.
- The `io::Result` returned by `append`: writing into a `Vec` never fails, and allocation failure aborts the process, so `Append` is total.
- `FromUtf8Error`: the error keeps only `validUpTo`. `error_len` and the recovery of the bytes through `into_bytes` are not modelled.
- Ownership: `string(self)` consumes the builder in Rust. Here `Finalize` is a pure function of the buffer, and nothing stops a caller from using the builder value again.
- Integer widths: `len` and the capacity are `usize` in Rust and `nat` here. A buffer longer than `usize::MAX` bytes cannot be allocated, so no wrap-around is possible.
- `String` and `&str` are one variant, `Str`, because their conversions are the same.
- `Len`: has no contract of its own. Its meaning is stated by `LenAfterAppends` and `Append`.
- `#[derive(Debug)]` on `Builder`: formatting is not modelled.
