# DER TLV framing: a verified model

This project models the Tag-Length-Value layer of the Rust `der` crate in Dafny and proves properties of the model. The crate implements the Distinguished Encoding Rules of ITU-T X.690. The layer covers:

- the `Header` (tag plus length) and its DER encoding and decoding;
- the `Encode`/`EncodeValue` traits, where a blanket rule turns a value-only encoder into a full TLV encoder;
- `GeneralizedTime`, the one concrete value type. It is fixed at fifteen content octets `YYYYMMDDHHMMSSZ`, the profile in section 4.1.2.5.2 of RFC 5280.

The crate's framing sits on collaborators that are not part of this model: `Tag`, `Length`, `Encoder`, `Decoder`, `DateTime` and the decimal helpers. They are modelled minimally, only as far as the core uses them.

Layout (one module per file):

| file | module | models |
|---|---|---|
| `types.dfy` | `Types` | octets, `Ordering`, slice order, `Tag`, `ErrorKind`, `Result` |
| `decoders.dfy` | `Decoders` | `Decoder`: a cursor over the input, with pure `ByteAt`/`BytesAt` describing its reads |
| `encoders.dfy` | `Encoders` | `Encoder`: a class writing into a window `[start, end)` of a caller's `array` |
| `lengths.dfy` | `Lengths` | `Length`: short/long form of sections 8.1.3 and 10.1 of ITU-T X.690 |
| `tags.dfy` | `Tags` | one-octet tags |
| `headers.dfy` | `Headers` | der/src/header.rs |
| `datetimes.dfy` | `DateTimes` | `DateTime::new`, `encode_decimal`, `decode_decimal` |
| `generalized_time.dfy` | `GeneralizedTimes` | der/src/asn1/generalized_time.rs |
| `encoding.dfy` | `Encoding` | der/src/encode.rs |

Each decoding operation has two forms:

- A pure function `DecodeAt(input, pos)` returns the value and the position after it.
- A method over a `Decoder` is proved to agree with it: `Advance(r, dec.pos) == DecodeAt(dec.input, old(dec.pos))`.

Each encoding method writes through an `Encoder`. Its contract states how far the cursor moves and what the array holds afterwards. The new array contents are the old ones with the encoding spliced in at the cursor (`Spliced`), so no other octet changes.

Rust's trait dispatch is modelled as a closed sum (`Encoding.Value`, `Encoding.Encodable`). The variant `Opaque` is an implementor whose `encode_value` writes a fixed content in one all-or-nothing step. Its `value_len` may disagree with that content, which is the mismatch that `encode_to_vec` checks for.

## Model

| member | source | states |
|---|---|---|
| Types.LexCmpAppend | der/src/header.rs:54-59 | comparing two concatenations whose first parts have equal length is decided by the first parts, and only when they are equal by the rest; this is what makes tag-then-length order the octet order |
| Types.LexCmpEqual | der/src/header.rs:54-59 | the octet order answers Equal exactly for equal strings |
| Types.LexCmpReverse | der/src/header.rs:54-59 | the octet order is antisymmetric |
| Types.Zeros | der/src/encode.rs:34 | `iter::repeat(0).take(n)` is n octets, all zero |
| Decoders.ByteAt | der/src/header.rs:28 | a read of one octet succeeds exactly when input remains, returns that octet and advances by one; otherwise Incomplete |
| Decoders.BytesAt | der/src/asn1/generalized_time.rs:78 | taking `header.length` octets succeeds exactly when that many remain, returns exactly them and advances past them; otherwise Incomplete |
| Decoders.Decoder.constructor | der/src/asn1/generalized_time.rs:329 | a decoder starts at position 0 of its input |
| Decoders.Decoder.Byte | der/src/header.rs:28 | the decoder's one-octet read agrees with `ByteAt`, including the cursor it leaves |
| Decoders.Decoder.Bytes | der/src/asn1/generalized_time.rs:78 | the decoder's n-octet read agrees with `BytesAt`, including the cursor it leaves |
| Encoders.Encoder.constructor | der/src/encode.rs:22 | an encoder over a buffer window starts with nothing written |
| Encoders.Encoder.Byte | der/src/asn1/generalized_time.rs:114 | writes one octet at the cursor and advances, exactly when room remains; otherwise Overflow and nothing changes |
| Encoders.Encoder.Bytes | der/src/header.rs:49 | writes all octets at the cursor exactly when they fit, changing no other position; otherwise Overflow before anything is written |
| Encoders.Encoder.Finish | der/src/encode.rs:24 | the result is exactly the written prefix of the window |
| Lengths.Octets | der/src/header.rs:49 | a length field is one to five octets |
| Lengths.EncodedLen | der/src/header.rs:44 | the size of the length field is the number of octets encoding writes, and is 1 exactly for the short form |
| Lengths.TryFrom | der/src/header.rs:21 | an integer converts exactly when it lies in 0..MAX, keeping its value; otherwise Overflow |
| Lengths.Add | der/src/header.rs:44 | checked addition: succeeds with the sum exactly when the sum is at most MAX, otherwise Overflow, never wraps |
| Lengths.ForTlv | der/src/encode.rs:67 | a value length plus its framing is one tag octet plus the length field plus the value, and fails exactly when that exceeds MAX |
| Lengths.Encode | der/src/header.rs:49 | writes exactly the canonical length octets at the cursor when they fit, otherwise Overflow |
| Lengths.Decode | der/src/header.rs:30 | the octet-by-octet big-endian accumulation agrees with the canonical-form decoding `DecodeAt` |
| Lengths.DecodeAt | der/src/header.rs:30 | a decoded length consumes one to five octets within the input; at the end of input it is Incomplete; an octet below 0x80 is the length itself; 0x80 and every initial octet above 0x84 are Overlength; the only failures are Incomplete, Overflow and Overlength |
| Lengths.DecodeOctets | der/src/header.rs:27-50 | decoding the octets written for a length gives that length and consumes exactly them |
| Lengths.DecodeIsCanonical | der/src/header.rs:30 | whatever decodes was written in canonical form: the consumed octets are exactly the encoding of the result, so 0x80, non-minimal long forms and leading zeros never decode |
| Lengths.MaxBoundary | der/src/header.rs:20-23 | MAX converts, encodes as `84 0F FF FF FF` and decodes back; MAX + 1 is Overflow |
| Lengths.DerCmpIsNumeric | der/src/header.rs:56 | comparing two length encodings octet by octet gives the numeric comparison of the lengths |
| Lengths.DerCmp | der/src/header.rs:56 | lengths are compared through their encodings, octet by octet; `Lengths.DerCmpIsNumeric` shows this is numeric order |
| Tags.EncodedLen | der/src/header.rs:44 | a tag takes the one octet encoding writes |
| Tags.DecodeAt | der/src/header.rs:28 | a tag decodes exactly when an octet remains and it does not announce the high-tag-number form, giving that octet and advancing by one; such an octet is UnknownTag naming it; at the end of input it is Incomplete |
| Tags.Encode | der/src/header.rs:48 | writes the tag octet when there is room, otherwise Overflow and nothing changes |
| Tags.Decode | der/src/header.rs:28 | agrees with `Tags.DecodeAt` |
| Tags.DerCmp | der/src/header.rs:55 | tag order is the order of the encoded octets |
| Headers.New | der/src/header.rs:20-23 | succeeds exactly when the length converts to a `Length`, with fields equal to the inputs; otherwise Overflow |
| Headers.EncodedLen | der/src/header.rs:43-45 | always succeeds and equals the number of octets `encode` writes, between 2 and 6 |
| Headers.Encode | der/src/header.rs:47-50 | writes the tag octets then the length octets at the cursor, advancing by their total and touching nothing else; Overflow when they do not fit |
| Headers.Decode | der/src/header.rs:27-39 | reads the tag before the length and no length when the tag fails; Overlength from the length becomes `Length{tag}` for the tag read, every other error passes unchanged |
| Headers.DecodeAt | der/src/header.rs:27-39 | a decoded header starts with the tag octet at the cursor and consumes at least two octets within the input; at the end of input it is Incomplete; a high-tag-number octet is UnknownTag before any length is read; Overlength never escapes, it is always turned into `Length{tag}` |
| Headers.DecodeOctets | der/src/header.rs:27-50 | decoding what `encode` writes gives the same header and consumes exactly its octets |
| Headers.DecodeIsCanonical | der/src/header.rs:27-39 | a header decodes only from its own encoding |
| Headers.IndefiniteLengthRejected | der/src/header.rs:30-36 | a 0x80 length field is reported as `Length{tag}` for the header's tag |
| Headers.NonMinimalLengthRejected | der/src/header.rs:30-36 | a long-form length holding a short-form value is reported as `Length{tag}` |
| Headers.OversizedLengthPassesThrough | der/src/header.rs:30-36 | a four-octet length above MAX keeps its own Overflow kind and is not attributed to the tag |
| Headers.DerCmpIsLexicographic | der/src/header.rs:54-59 | header order is the tag comparison unless the tags are equal, then the length comparison |
| Headers.DerCmpIsEncodingOrder | der/src/header.rs:54-59 | header order equals the octet order of the two header encodings |
| Headers.DerCmpTotalOrder | der/src/header.rs:54-59 | header order is Equal exactly for equal headers (so a header equals itself), antisymmetric and transitive |
| Headers.DerCmp | der/src/header.rs:54-59 | the tag comparison decides, and equal tags fall through to the length comparison; the three lemmas above state the order this gives |
| DateTimes.New | der/src/asn1/generalized_time.rs:89-90 | `DateTime::new` succeeds exactly for valid fields and keeps them; otherwise DateTimeInvalid |
| DateTimes.DecimalOctets | der/src/asn1/generalized_time.rs:107-113 | a two-digit field is written as two ASCII digits |
| DateTimes.DecodeDecimal | der/src/asn1/generalized_time.rs:81-87 | succeeds exactly for two ASCII digits, giving a number below 100 whose encoding is those digits; otherwise the tag's value error |
| DateTimes.DecimalRoundTrip | der/src/asn1/generalized_time.rs:81-87 | decoding the two digits written for a number below 100 gives it back |
| DateTimes.DecimalOrder | der/src/asn1/generalized_time.rs:122 | two-digit fields compare like the numbers they hold |
| DateTimes.EncodeDecimal | der/src/asn1/generalized_time.rs:107-113 | writes the two digits of a value below 100 when there is room, else Overflow; a value of 100 or more is the tag's value error with nothing written |
| DateTimes.ThroughUnixTime | der/src/asn1/generalized_time.rs:91 | `from_unix_duration(dt.unix_duration())`, taken to give back the same timestamp (see Left out) |
| GeneralizedTimes.DateTimeConversionsInverse | der/src/asn1/generalized_time.rs:37-44 | `from_date_time` and `to_date_time` are inverse to each other |
| GeneralizedTimes.FromDateTime | der/src/asn1/generalized_time.rs:37-39 | wraps a `DateTime`; `DateTimeConversionsInverse` shows nothing is lost |
| GeneralizedTimes.ToDateTime | der/src/asn1/generalized_time.rs:42-44 | unwraps the `DateTime`; inverse of `FromDateTime` |
| GeneralizedTimes.ValueLen | der/src/asn1/generalized_time.rs:99-101 | `value_len` is 15 for every time; `Encoding.BuiltInValuesHonest` shows it is the number of octets written |
| GeneralizedTimes.FieldList | der/src/asn1/generalized_time.rs:104-113 | the fields written are seven, each below 100: the year split as `year / 100`, `year % 100`, then month, day, hour, minute, second |
| GeneralizedTimes.DigitPairsOrder | der/src/asn1/generalized_time.rs:122 | digit pairs compare like the field lists, lexicographically |
| GeneralizedTimes.ContentShape | der/src/asn1/generalized_time.rs:103-115 | the content is always 15 octets: fourteen ASCII digits, then `Z` |
| GeneralizedTimes.ContentOctets | der/src/asn1/generalized_time.rs:103-115 | what `encode_value` writes is 15 octets ending in `Z` |
| GeneralizedTimes.EncodeValue | der/src/asn1/generalized_time.rs:103-115 | the seven pair writes and the `Z` together write exactly the content at the cursor when 15 octets are free, otherwise Overflow |
| GeneralizedTimes.EncodeDate | der/src/asn1/generalized_time.rs:103-110 | the first four `encode_decimal` calls write the year's halves, month and day, eight octets, at the cursor when they fit, otherwise Overflow |
| GeneralizedTimes.EncodePair | der/src/asn1/generalized_time.rs:107-113 | one `encode_decimal` of the sequence appends its two digits right after what is already written, or fails with Overflow exactly when two octets no longer fit |
| GeneralizedTimes.ContentOctetsSpelled | der/src/asn1/generalized_time.rs:103-114 | the content is the year's two halves, month, day, hour, minute and second in decimal, in that order, then `Z` |
| GeneralizedTimes.SpelledContent | der/src/asn1/generalized_time.rs:80-87 | fifteen octets of digits and `Z` whose fields are valid are exactly the content written for the fields they spell |
| GeneralizedTimes.DecodeContentErrors | der/src/asn1/generalized_time.rs:78-93 | every decoding failure is the tag's value error; content that is not 15 octets, or whose last octet is not `Z`, fails |
| GeneralizedTimes.DecodeContent | der/src/asn1/generalized_time.rs:78-94 | content decodes only when it is 15 octets ending in `Z`, and every failure is the tag's value error |
| GeneralizedTimes.DecodeContentRoundTrip | der/src/asn1/generalized_time.rs:76-115 | decoding the content written for a time gives the same time back |
| GeneralizedTimes.DecodeContentIsCanonical | der/src/asn1/generalized_time.rs:76-96 | what decodes is exactly the content written for the decoded time, so year `century * 100 + yy` inverts the `/ 100`, `% 100` split |
| GeneralizedTimes.DecodeContentExactly | der/src/asn1/generalized_time.rs:76-115 | content decodes to a time exactly when it is that time's encoding |
| GeneralizedTimes.NonDigitRejected | der/src/asn1/generalized_time.rs:81-87 | a non-digit in any of the first fourteen positions makes decoding fail with the value error |
| GeneralizedTimes.DecodeContentAccepts | der/src/asn1/generalized_time.rs:78-94 | content decodes exactly when it is 15 octets, fourteen digits and `Z`, spelling fields `DateTime::new` accepts; the result holds those fields |
| GeneralizedTimes.DecodeValueAt | der/src/asn1/generalized_time.rs:77-78 | a decoded value consumed exactly `header.length` octets, which must be 15; a header announcing more octets than remain is Incomplete |
| GeneralizedTimes.DecodeValue | der/src/asn1/generalized_time.rs:76-96 | taking `header.length` octets and decoding them agrees with `DecodeValueAt` |
| GeneralizedTimes.DecodeDateTimeValue | der/src/asn1/generalized_time.rs:162-166 | `DateTime` decodes as the GeneralizedTime it converts from, with the same errors and cursor |
| GeneralizedTimes.Decode | der/src/asn1/generalized_time.rs:118-120 | the full decode reads a header, rejects any tag other than GeneralizedTime with TagUnexpected, then decodes the value; it agrees with `DecodeAt` |
| GeneralizedTimes.DecodeAt | der/src/asn1/generalized_time.rs:118-120 | a decoded GeneralizedTime starts with the tag `0x18` and consumes at least 17 octets within the input; header errors pass through unchanged |
| GeneralizedTimes.DecodeTlvRoundTrip | der/src/asn1/generalized_time.rs:326-336 | seventeen octets `18 0F` plus a time's content decode to that time and are all consumed |
| GeneralizedTimes.TestVectorContent | der/src/asn1/generalized_time.rs:328-329 | the test vector's content `19910506234540Z` decodes to 1991-05-06 23:45:40 |
| GeneralizedTimes.TestVectorRoundTrip | der/src/asn1/generalized_time.rs:326-336 | the test vector decodes to 1991-05-06 23:45:40, consuming all 17 octets, and that time encodes back to the same octets |
| GeneralizedTimes.ValueOrdIsDerOrd | der/src/asn1/generalized_time.rs:122 | the value order (fields in declaration order) equals the octet order of the contents and of the full encodings |
| Encoding.BuiltInValuesHonest | der/src/asn1/generalized_time.rs:99-101 | GeneralizedTime and DateTime report 15 as `value_len`, and that is what `encode_value` writes |
| Encoding.DateTimeDelegates | der/src/asn1/generalized_time.rs:168-176 | `DateTime`'s tag, `value_len`, content and whole encoding are those of the GeneralizedTime wrapping it |
| Encoding.TagOf | der/src/encode.rs:85 | `self.tag()`: GeneralizedTime's tag for both built-in types, the implementor's own otherwise |
| Encoding.ValueLen | der/src/encode.rs:90 | `value_len`: 15 for both built-in types, the implementor's report otherwise |
| Encoding.ValueOctets | der/src/encode.rs:94 | the content `encode_value` writes: the GeneralizedTime content for both built-in types |
| Encoding.Encoded | der/src/encode.rs:71-74 | the octets `encode` writes: a header's own, or the header built by `header()` followed by the content; a `header()` failure is the encoding's failure |
| Encoding.GeneralizedTimeTlvRoundTrip | der/src/encode.rs:66-74 | a GeneralizedTime encodes to 17 octets as `encoded_len` predicts, and decoding them gives it back |
| Encoding.EncodeValue | der/src/encode.rs:94 | the dispatched `encode_value` writes the value's content at the cursor when it fits, otherwise Overflow |
| Encoding.HeaderFor | der/src/encode.rs:81-86 | `header()` fails exactly when `value_len` fails, with its error; otherwise it carries the value's tag and its `value_len` |
| Encoding.EncodedLen | der/src/encode.rs:66-68 | when `encoded_len` succeeds `encode` has an encoding, and a `value_len` failure is passed on |
| Encoding.EncodedLenCountsOctets | der/src/encode.rs:66-74 | when `value_len` is truthful, `encoded_len` equals the number of octets `encode` writes, and it fails exactly when that number exceeds MAX |
| Encoding.Encode | der/src/encode.rs:17 | for a header or a value type alike, writes the header then the value, exactly the encoding, when it fits; a header failure returns before anything is written; otherwise Overflow |
| Encoding.EncodeTlv | der/src/encode.rs:71-74 | the blanket `encode`: a `header()` failure is returned with nothing written; otherwise the header octets followed by the value's content land at the cursor when they fit, else Overflow |
| Encoding.EncodeToSlice | der/src/encode.rs:21-25 | returns exactly the encoding, which is the prefix of the buffer written, when the buffer is large enough; the rest of the buffer is unchanged |
| Encoding.ByteVec.constructor | der/src/encode.rs:55 | a new vector is empty |
| Encoding.ByteVec.ExtendZeros | der/src/encode.rs:32-34 | the vector gains n zero octets at its end |
| Encoding.EncodeToVecAsWritten | der/src/encode.rs:31-49 | as written: the vector grows by `encoded_len` zeros and the encoding is written from index 0; Incomplete when the count written differs from `encoded_len`, which is returned on success |
| Encoding.EncodeToVec | der/src/encode.rs:31-49 | as intended: the old contents are kept and the encoding follows them; Incomplete with both counts when they differ, `encoded_len` on success |
| Encoding.ToVec | der/src/encode.rs:54-58 | through the library's own `encode_to_vec` on a new vector: succeeds exactly when `encoded_len` succeeds and matches what is written, returning exactly the encoding; always so for truthful `value_len` |
| Encoding.AsWrittenAgreesOnEmpty | der/src/encode.rs:54-58 | on an empty vector, which is how `to_vec` calls it, the written and the intended `encode_to_vec` leave the same contents whenever the encoding fits the `encoded_len` zeros (an exact fit or an Incomplete one), and the encoding is then within MAX, so their result clauses coincide too |
| Encoding.AsWrittenDoesNotAppend | der/src/encode.rs:36 | on any non-empty vector the written `encode_to_vec` does not append a GeneralizedTime: a zero stands where the `Z` belongs |
| Encoding.AsWrittenCounterexample | der/src/encode.rs:27-36 | on `[0xAA]` the written `encode_to_vec` leaves the test vector followed by `00`, not `AA` followed by the test vector |

## Left out

- crypto-serde/src/array.rs is not part of this model. It is serde format selection over foreign hex and zeroize libraries.
- `SystemTime` and `PrimitiveDateTime` conversions (der/src/asn1/generalized_time.rs:59-73, 184-318) are left out. They depend on the host clock and the `time` crate.
- `from_unix_duration` and `to_unix_duration` (der/src/asn1/generalized_time.rs:48-57) are left out. datetime.rs is not part of this model, so the calendar arithmetic behind them is unavailable. The Unix time of the test vector (673573540) is therefore not checked.
- DateTimes.ThroughUnixTime: decoding passes the new `DateTime` through `from_unix_duration(dt.unix_duration())`. This is taken to be the identity on valid timestamps. The decode round-trip lemmas rest on this assumption.
- DateTimes.New: the accepted ranges are those of datetime.rs: years 1970 to 9999, real days of the month with leap years, hours to 23, minutes and seconds to 59. They come from that file, which is not part of this model.
- `TryFrom<Any>` (der/src/asn1/generalized_time.rs:154-160) is left out. It relies on `Any::decode_into`.
- tag.rs, length.rs, encoder.rs, decoder.rs, byte_slice.rs, ord.rs and datetime.rs are not part of this model. Their behaviour is modelled only as far as the core uses it:
  - one-octet tags; the high-tag-number form is UnknownTag, and the list of known universal tags is not modelled;
  - `Length` bounded by `u32::MAX >> 4`;
  - an encoder that fails with Overflow when full;
  - a decoder whose `Incomplete` reports the position it needed and the input length;
  - the derived order of `DateTime` taken as its fields in declaration order.
- Encoding.Encode: when it (or Encoding.EncodeTlv) fails with Overflow part-way, the octets already written are not stated. The encoder's poisoning after an error and error positions are not modelled.
- Encoding.EncodeToVec: on Overflow the vector's contents are not stated; only the length and the error are.
- Encoding.Value: implementors other than GeneralizedTime and DateTime are modelled only as `Opaque`, a single all-or-nothing write that can fail only with Overflow. A real `encode_value` may return an error of its own after a partial write; `encode`, `encode_to_slice`, `encode_to_vec` and `to_vec` would pass that error on. The contracts of Encoding.Encode, Encoding.EncodeTlv, Encoding.EncodeValue, Encoding.EncodeToVecAsWritten, Encoding.EncodeToVec and Encoding.ToVec do not cover such an implementor.
- Encoding.EncodeToSlice returns a copy of the written prefix instead of a sub-slice borrowing the buffer.
- Headers.DerCmp returns an `Ordering` rather than `Result<Ordering>`, because tag and length comparison cannot fail.
- `usize::try_from(encoded_len)` (der/src/encode.rs:32) always succeeds for a `Length` and is not modelled as a failure.

## Findings

| source | as written | input that shows it | evidently intended | confidence | as-written member | corrected member |
|---|---|---|---|---|---|---|
| der/src/encode.rs:31-49 | `Encoder::new(buf)` covers the whole vector, so the encoding is written from index 0, over the existing contents, and the zeros appended by `extend` stay at the end | the vector `[0xAA]` and the time 1991-05-06 23:45:40: the result is `18 0F … 5A 00` rather than `AA 18 0F … 5A` | build the encoder over the appended `expected_len` octets only, so the encoding is appended as the doc comment at lines 27-28 says | high; not executed | Encoding.EncodeToVecAsWritten, Encoding.AsWrittenCounterexample | Encoding.EncodeToVec |
