/** ASN.1 `GeneralizedTime` in the RFC 5280 section 4.1.2.5.2 profile: always
    the fifteen octets `YYYYMMDDHHMMSSZ` (der/src/asn1/generalized_time.rs). */
module GeneralizedTimes {
  import opened Types
  import opened Decoders
  import opened Encoders
  import opened DateTimes
  import Lengths
  import Headers

  /** `FixedTag::TAG`. */
  const TAG: Tag := GENERALIZED_TIME

  /** `GeneralizedTime::LENGTH`. */
  const LENGTH: Lengths.Length := 15

  datatype GeneralizedTime = GeneralizedTime(datetime: DateTime)

  /** `GeneralizedTime::from_date_time` (and `From<DateTime>`). */
  function FromDateTime(dt: DateTime): GeneralizedTime
  {
    GeneralizedTime(dt)
  }

  /** `GeneralizedTime::to_date_time` (and `From<GeneralizedTime> for DateTime`). */
  function ToDateTime(t: GeneralizedTime): DateTime
  {
    t.datetime
  }

  /** The two conversions are inverse to each other. */
  lemma DateTimeConversionsInverse(dt: DateTime, t: GeneralizedTime)
    ensures ToDateTime(FromDateTime(dt)) == dt
    ensures FromDateTime(ToDateTime(t)) == t
  {
  }

  /** `EncodeValue::value_len`: the constant `LENGTH`, whatever the date. */
  function ValueLen(t: GeneralizedTime): Result<Lengths.Length>
  {
    Ok(LENGTH)
  }

  /** The seven two-digit fields `encode_value` writes, in order: century,
      year of century, month, day, hour, minute, second. */
  function FieldList(dt: DateTime): (r: seq<nat>)
    ensures |r| == 7 && forall i :: 0 <= i < 7 ==> r[i] < 100
  {
    [dt.year / 100, dt.year % 100, dt.month, dt.day, dt.hour, dt.minutes, dt.seconds]
  }

  predicate TwoDigitFields(fields: seq<nat>) {
    forall i :: 0 <= i < |fields| ==> fields[i] < 100
  }

  /** The fields written as consecutive two-digit ASCII pairs. */
  function DigitPairs(fields: seq<nat>): (r: seq<byte>)
    requires TwoDigitFields(fields)
    ensures |r| == 2 * |fields|
  {
    if fields == [] then [] else DecimalOctets(fields[0]) + DigitPairs(fields[1..])
  }

  /** Pair `i` of `DigitPairs` is field `i` in decimal. */
  lemma {:induction false} DigitPairsAt(fields: seq<nat>, i: nat)
    requires TwoDigitFields(fields) && i < |fields|
    ensures DigitPairs(fields)[2 * i] == DecimalOctets(fields[i])[0]
    ensures DigitPairs(fields)[2 * i + 1] == DecimalOctets(fields[i])[1]
  {
    if i > 0 {
      DigitPairsAt(fields[1..], i - 1);
    }
  }

  /** Digit pairs compare like the fields, lexicographically. */
  lemma {:induction false} DigitPairsOrder(xs: seq<nat>, ys: seq<nat>)
    requires TwoDigitFields(xs) && TwoDigitFields(ys) && |xs| == |ys|
    ensures LexCmp(DigitPairs(xs), DigitPairs(ys)) == FieldsCmp(xs, ys)
  {
    if xs != [] {
      DecimalOrder(xs[0], ys[0]);
      LexCmpAppend(DecimalOctets(xs[0]), DigitPairs(xs[1..]), DecimalOctets(ys[0]), DigitPairs(ys[1..]));
      DigitPairsOrder(xs[1..], ys[1..]);
    }
  }

  /** The fifteen content octets `encode_value` writes. */
  function ContentOctets(t: GeneralizedTime): (r: seq<byte>)
    ensures |r| == LENGTH && r[14] == ZULU
  {
    DigitPairs(FieldList(t.datetime)) + [ZULU]
  }

  /** The content is always `LENGTH` octets: fourteen ASCII digits and `Z`. */
  lemma ContentShape(t: GeneralizedTime)
    ensures |ContentOctets(t)| == LENGTH
    ensures ContentOctets(t)[14] == ZULU
    ensures forall i :: 0 <= i < 14 ==> IsDigit(ContentOctets(t)[i])
  {
    var fields := FieldList(t.datetime);
    forall i | 0 <= i < 14 ensures IsDigit(ContentOctets(t)[i]) {
      DigitPairsAt(fields, i / 2);
    }
  }

  /** `EncodeValue::encode_value`: seven `encode_decimal` pairs, then `Z`.
      Writes exactly `ContentOctets(t)` at the cursor, or fails with
      `Overflow` when fewer than `LENGTH` octets are free. */
  method EncodeValue(t: GeneralizedTime, enc: Encoder) returns (r: Outcome)
    requires enc.Valid()
    modifies enc, enc.buf
    ensures enc.Valid()
    ensures r.Pass? <==> old(enc.Remaining()) >= LENGTH
    ensures r.Pass? ==> enc.pos == old(enc.pos) + LENGTH
    ensures r.Pass? ==> enc.buf[..] == Spliced(old(enc.buf[..]), enc.start + old(enc.pos), ContentOctets(t))
    ensures r.Fail? ==> r.error == Overflow
  {
    var dt := t.datetime;
    ghost var before := enc.buf[..];
    ghost var at := enc.start + enc.pos;
    r := EncodeDate(dt, enc);
    if r.Fail? { return; }
    ghost var written := DateOctets(dt);
    r := EncodePair(enc, dt.hour as byte, before, at, written);
    if r.Fail? { return; }
    written := written + DecimalOctets(dt.hour);
    r := EncodePair(enc, dt.minutes as byte, before, at, written);
    if r.Fail? { return; }
    written := written + DecimalOctets(dt.minutes);
    r := EncodePair(enc, dt.seconds as byte, before, at, written);
    if r.Fail? { return; }
    written := written + DecimalOctets(dt.seconds);
    r := enc.Byte(ZULU);
    if r.Pass? {
      SplicedTwice(before, at, written, [ZULU]);
      ContentOctetsSpelled(t);
    }
  }

  /** The first eight content octets: the year's two halves, month and day. */
  function DateOctets(dt: DateTime): (r: seq<byte>)
    ensures |r| == 8
  {
    DecimalOctets(dt.year / 100) + DecimalOctets(dt.year % 100) + DecimalOctets(dt.month) + DecimalOctets(dt.day)
  }

  /** The first four `encode_decimal` calls of `encode_value`: the date. */
  method EncodeDate(dt: DateTime, enc: Encoder) returns (r: Outcome)
    requires enc.Valid()
    modifies enc, enc.buf
    ensures enc.Valid()
    ensures r.Pass? <==> old(enc.Remaining()) >= 8
    ensures r.Pass? ==> enc.pos == old(enc.pos) + 8
    ensures r.Pass? ==> enc.buf[..] == Spliced(old(enc.buf[..]), enc.start + old(enc.pos), DateOctets(dt))
    ensures r.Fail? ==> r.error == Overflow
  {
    ghost var before := enc.buf[..];
    ghost var at := enc.start + enc.pos;
    var yearHi := (dt.year / 100) as byte;
    var yearLo := (dt.year % 100) as byte;
    assert Spliced(before, at, []) == before;
    r := EncodePair(enc, yearHi, before, at, []);
    if r.Fail? { return; }
    assert yearHi as nat == dt.year / 100 && yearLo as nat == dt.year % 100;
    ghost var written := DecimalOctets(dt.year / 100);
    r := EncodePair(enc, yearLo, before, at, written);
    if r.Fail? { return; }
    written := written + DecimalOctets(dt.year % 100);
    r := EncodePair(enc, dt.month as byte, before, at, written);
    if r.Fail? { return; }
    written := written + DecimalOctets(dt.month);
    r := EncodePair(enc, dt.day as byte, before, at, written);
  }

  /** The content octets, field by field in the order `encode_value` writes
      them. */
  lemma ContentOctetsSpelled(t: GeneralizedTime)
    ensures var dt := t.datetime;
      ContentOctets(t) == DateOctets(dt) + DecimalOctets(dt.hour) + DecimalOctets(dt.minutes)
                          + DecimalOctets(dt.seconds) + [ZULU]
  {
    DigitPairsUnrolled(FieldList(t.datetime));
  }

  /** One `encode_decimal` call of `encode_value`: with `written` already at
      `at`, writes the next two digits right after it. */
  method EncodePair(enc: Encoder, value: byte, ghost before: seq<byte>, ghost at: nat, ghost written: seq<byte>)
    returns (r: Outcome)
    requires enc.Valid() && value < 100
    requires at + |written| == enc.start + enc.pos && at + |written| <= |before| == enc.buf.Length
    requires enc.buf[..] == Spliced(before, at, written)
    modifies enc, enc.buf
    ensures enc.Valid()
    ensures r.Pass? <==> at + |written| + 2 <= enc.end
    ensures r.Pass? ==> enc.start + enc.pos == at + |written| + 2
    ensures r.Pass? ==> enc.buf[..] == Spliced(before, at, written + DecimalOctets(value as nat))
    ensures r.Fail? ==> r.error == Overflow
  {
    r := EncodeDecimal(enc, TAG, value);
    if r.Pass? {
      SplicedTwice(before, at, written, DecimalOctets(value as nat));
    }
  }

  /** The digit pairs of seven fields, one after another. */
  lemma DigitPairsUnrolled(f: seq<nat>)
    requires |f| == 7 && TwoDigitFields(f)
    ensures DigitPairs(f) == DecimalOctets(f[0]) + DecimalOctets(f[1]) + DecimalOctets(f[2]) + DecimalOctets(f[3])
                           + DecimalOctets(f[4]) + DecimalOctets(f[5]) + DecimalOctets(f[6])
  {
    assert f[..0] == [];
    DigitPairsPrefix(f, 0);
    DigitPairsPrefix(f, 1);
    DigitPairsPrefix(f, 2);
    DigitPairsPrefix(f, 3);
    DigitPairsPrefix(f, 4);
    DigitPairsPrefix(f, 5);
    DigitPairsPrefix(f, 6);
    assert f[..7] == f;
  }

  /** Extending a prefix of the fields by one appends that field's pair. */
  lemma DigitPairsPrefix(f: seq<nat>, k: nat)
    requires TwoDigitFields(f) && k < |f|
    ensures DigitPairs(f[..k + 1]) == DigitPairs(f[..k]) + DecimalOctets(f[k])
  {
    DigitPairsSnoc(f[..k], f[k]);
    assert f[..k] + [f[k]] == f[..k + 1];
  }

  lemma {:induction false} DigitPairsSnoc(fields: seq<nat>, f: nat)
    requires TwoDigitFields(fields) && f < 100
    ensures DigitPairs(fields + [f]) == DigitPairs(fields) + DecimalOctets(f)
  {
    if fields == [] {
      assert [f][1..] == [];
    } else {
      assert (fields + [f])[1..] == fields[1..] + [f];
      DigitPairsSnoc(fields[1..], f);
    }
  }

  /** `DecodeValue::decode_value` once the content octets are in hand: the
      exact fifteen-octet pattern ending in `Z` is checked before any digit is
      read; then seven digit pairs, the year as `century * 100 + year`, and
      `DateTime::new`. Every failure is the tag's value error. */
  function DecodeContent(b: seq<byte>): (r: Result<GeneralizedTime>)
    ensures r.Ok? ==> |b| == LENGTH && b[14] == ZULU
    ensures r.Err? ==> r.error == Value(TAG)
  {
    if |b| != 15 || b[14] != ZULU then Err(Value(TAG))
    else
      var century :- DecodeDecimal(TAG, b[0], b[1]);
      var yy :- DecodeDecimal(TAG, b[2], b[3]);
      var month :- DecodeDecimal(TAG, b[4], b[5]);
      var day :- DecodeDecimal(TAG, b[6], b[7]);
      var hour :- DecodeDecimal(TAG, b[8], b[9]);
      var minute :- DecodeDecimal(TAG, b[10], b[11]);
      var second :- DecodeDecimal(TAG, b[12], b[13]);
      // at most 99 * 100 + 99, so the `u16` arithmetic cannot overflow
      match DateTimes.New(century * 100 + yy, month, day, hour, minute, second)
      case Err(_) => Err(Value(TAG))
      case Ok(dt) =>
        match ThroughUnixTime(dt)
        case Err(_) => Err(Value(TAG))
        case Ok(normalized) => Ok(FromDateTime(normalized))
  }

  /** The value of the two ASCII digits `hi`, `lo`, as `decode_decimal`
      reads it. */
  function PairValue(hi: byte, lo: byte): nat
    requires IsDigit(hi) && IsDigit(lo)
  {
    DecodeDecimal(TAG, hi, lo).value
  }

  predicate AllDigits(b: seq<byte>)
    requires |b| >= 14
  {
    forall i :: 0 <= i < 14 ==> IsDigit(b[i])
  }

  /** The seven two-digit values fourteen digits spell out. */
  function PairValues(b: seq<byte>): (r: seq<nat>)
    requires |b| >= 14 && AllDigits(b)
    ensures |r| == 7
  {
    seq(7, i requires 0 <= i < 7 => PairValue(b[2 * i], b[2 * i + 1]))
  }

  /** The calendar fields fourteen digits spell out: a four-digit year from
      the first two pairs, then month, day, hour, minute and second. */
  function SpelledFields(b: seq<byte>): Fields
    requires |b| >= 14 && AllDigits(b)
  {
    var v := PairValues(b);
    Fields(v[0] * 100 + v[1], v[2], v[3], v[4], v[5], v[6])
  }

  /** Two digits are the decimal octets of the value they spell. */
  lemma DecimalOfPair(hi: byte, lo: byte)
    requires IsDigit(hi) && IsDigit(lo)
    ensures PairValue(hi, lo) < 100 && DecimalOctets(PairValue(hi, lo)) == [hi, lo]
  {
    assert DecodeDecimal(TAG, hi, lo) == Ok(PairValue(hi, lo));
  }

  /** What a successful decode has read: fifteen octets ending in `Z`, with
      digits before it, spelling the fields of the result. */
  lemma DecodedFields(b: seq<byte>)
    requires DecodeContent(b).Ok?
    ensures |b| == 15 && b[14] == ZULU && AllDigits(b)
    ensures DecodeContent(b).value.datetime == SpelledFields(b)
  {
  }

  /** Every decoding failure is the tag's value error, and content that is not
      fifteen octets ending in `Z` fails. */
  lemma DecodeContentErrors(b: seq<byte>)
    ensures DecodeContent(b).Err? ==> DecodeContent(b).error == Value(TAG)
    ensures |b| != 15 || b[|b| - 1] != ZULU ==> DecodeContent(b) == Err(Value(TAG))
  {
  }

  /** Decoding the content `encode_value` writes gives the same time back. */
  lemma DecodeContentRoundTrip(t: GeneralizedTime)
    ensures DecodeContent(ContentOctets(t)) == Ok(t)
  {
    var b := ContentOctets(t);
    var fields := FieldList(t.datetime);
    ContentShape(t);
    forall i | 0 <= i < 7
      ensures DecodeDecimal(TAG, b[2 * i], b[2 * i + 1]) == Ok(fields[i])
    {
      DigitPairsAt(fields, i);
      DecimalRoundTrip(TAG, fields[i]);
    }
    assert DecodeDecimal(TAG, b[0], b[1]) == Ok(fields[0]);
    assert DecodeDecimal(TAG, b[2], b[3]) == Ok(fields[1]);
    assert DecodeDecimal(TAG, b[4], b[5]) == Ok(fields[2]);
    assert DecodeDecimal(TAG, b[6], b[7]) == Ok(fields[3]);
    assert DecodeDecimal(TAG, b[8], b[9]) == Ok(fields[4]);
    assert DecodeDecimal(TAG, b[10], b[11]) == Ok(fields[5]);
    assert DecodeDecimal(TAG, b[12], b[13]) == Ok(fields[6]);
    assert fields[0] * 100 + fields[1] == t.datetime.year;
  }

  /** Only the canonical content decodes: what decodes to `t` is exactly the
      content `encode_value` writes for `t`. */
  lemma DecodeContentIsCanonical(b: seq<byte>)
    requires DecodeContent(b).Ok?
    ensures ContentOctets(DecodeContent(b).value) == b
  {
    DecodedFields(b);
    SpelledContent(b);
  }

  /** Fourteen digits and `Z` are the content written for the fields they
      spell. */
  lemma SpelledContent(b: seq<byte>)
    requires |b| == 15 && b[14] == ZULU && AllDigits(b) && Valid(SpelledFields(b))
    ensures ContentOctets(GeneralizedTime(SpelledFields(b))) == b
  {
    var t := GeneralizedTime(SpelledFields(b));
    var fields := FieldList(t.datetime);
    SpelledFieldList(b);
    ContentShape(t);
    var c := ContentOctets(t);
    forall j | 0 <= j < 14 ensures c[j] == b[j] {
      var i := j / 2;
      DigitPairsAt(fields, i);
      DecimalOctetsOfPair(b, i);
      assert c[j] == DigitPairs(fields)[j];
      if j % 2 == 0 {
        assert j == 2 * i;
      } else {
        assert j == 2 * i + 1;
      }
    }
    assert c[14] == b[14];
  }

  /** The fields written for the fields fourteen digits spell are the digit
      pairs' values. */
  lemma SpelledFieldList(b: seq<byte>)
    requires |b| >= 14 && AllDigits(b) && Valid(SpelledFields(b))
    ensures FieldList(SpelledFields(b)) == PairValues(b)
  {
    var y := SpelledFields(b).year;
    assert y / 100 == PairValue(b[0], b[1]) && y % 100 == PairValue(b[2], b[3]);
  }

  /** Pair `i` of fourteen digits is the decimal octets of its value. */
  lemma DecimalOctetsOfPair(b: seq<byte>, i: nat)
    requires |b| >= 14 && AllDigits(b) && i < 7
    ensures PairValues(b)[i] < 100 && DecimalOctets(PairValues(b)[i]) == [b[2 * i], b[2 * i + 1]]
  {
    DecimalOfPair(b[2 * i], b[2 * i + 1]);
  }

  /** Content decodes to `t` exactly when it is `t`'s canonical content. */
  lemma DecodeContentExactly(b: seq<byte>, t: GeneralizedTime)
    ensures DecodeContent(b) == Ok(t) <==> b == ContentOctets(t)
  {
    if b == ContentOctets(t) {
      DecodeContentRoundTrip(t);
    }
    if DecodeContent(b) == Ok(t) {
      DecodeContentIsCanonical(b);
    }
  }

  /** A byte that is not an ASCII digit anywhere in the first fourteen
      positions makes decoding fail. */
  lemma NonDigitRejected(b: seq<byte>, i: nat)
    requires i < 14 && i < |b| && !IsDigit(b[i])
    ensures DecodeContent(b) == Err(Value(TAG))
  {
    if DecodeContent(b).Ok? {
      DecodedFields(b);
    }
    DecodeContentErrors(b);
  }

  /** Exactly which contents decode: fifteen octets, fourteen digits and
      `Z`, spelling out fields `DateTime::new` accepts; and what they decode
      to is those fields. */
  lemma DecodeContentAccepts(b: seq<byte>)
    ensures DecodeContent(b).Ok? <==>
      |b| == 15 && b[14] == ZULU && AllDigits(b) && Valid(SpelledFields(b))
    ensures DecodeContent(b).Ok? ==> |b| == 15 && AllDigits(b) && DecodeContent(b).value.datetime == SpelledFields(b)
  {
    if DecodeContent(b).Ok? {
      DecodedFields(b);
    }
  }

  /** `decode_value` from `pos`: take `header.length` octets (as
      `ByteSlice::decode_value` does), then `DecodeContent`. */
  function DecodeValueAt(input: seq<byte>, pos: nat, header: Headers.Header): (r: Result<(GeneralizedTime, nat)>)
    requires pos <= |input|
    ensures r.Ok? ==> header.length == LENGTH && r.value.1 == pos + header.length <= |input|
    ensures pos + header.length > |input| ==> r == Err(Incomplete(pos + header.length, |input|))
  {
    var (content, p) :- BytesAt(input, pos, header.length);
    var t :- DecodeContent(content);
    Ok((t, p))
  }

  /** `DecodeValue::decode_value`. */
  method DecodeValue(dec: Decoder, header: Headers.Header) returns (r: Result<GeneralizedTime>)
    requires dec.Valid()
    modifies dec
    ensures dec.Valid()
    ensures Advance(r, dec.pos) == DecodeValueAt(dec.input, old(dec.pos), header)
  {
    var content :- dec.Bytes(header.length);
    r := DecodeContent(content);
  }

  /** `DecodeValue::decode_value` for `DateTime`: decode a GeneralizedTime
      value and convert it. */
  method DecodeDateTimeValue(dec: Decoder, header: Headers.Header) returns (r: Result<DateTime>)
    requires dec.Valid()
    modifies dec
    ensures dec.Valid()
    ensures r.Ok? <==> DecodeValueAt(dec.input, old(dec.pos), header).Ok?
    ensures r.Ok? ==> (ToDateTime(DecodeValueAt(dec.input, old(dec.pos), header).value.0), dec.pos)
                      == (r.value, DecodeValueAt(dec.input, old(dec.pos), header).value.1)
    ensures r.Err? ==> r.error == DecodeValueAt(dec.input, old(dec.pos), header).error
  {
    var t :- DecodeValue(dec, header);
    r := Ok(ToDateTime(t));
  }

  /** The full TLV decode of a `FixedTag` type from `pos`: a header, which
      must carry `TAG`, then the value. */
  function DecodeAt(input: seq<byte>, pos: nat): (r: Result<(GeneralizedTime, nat)>)
    requires pos <= |input|
    ensures r.Ok? ==> pos + 17 <= r.value.1 <= |input| && input[pos] == TAG
    ensures Headers.DecodeAt(input, pos).Err? ==> r == Err(Headers.DecodeAt(input, pos).error)
  {
    var (header, p) :- Headers.DecodeAt(input, pos);
    if header.tag != TAG then Err(TagUnexpected(TAG, header.tag))
    else DecodeValueAt(input, p, header)
  }

  /** `Decode::decode` for `GeneralizedTime` (the header, the `FixedTag`
      check, then `decode_value`). */
  method Decode(dec: Decoder) returns (r: Result<GeneralizedTime>)
    requires dec.Valid()
    modifies dec
    ensures dec.Valid()
    ensures Advance(r, dec.pos) == DecodeAt(dec.input, old(dec.pos))
  {
    var header :- Headers.Decode(dec);
    if header.tag != TAG {
      return Err(TagUnexpected(TAG, header.tag));
    }
    r := DecodeValue(dec, header);
  }

  /** `Header`'s own TLV octets for a GeneralizedTime: `18 0F`, then the
      content. */
  function TlvOctets(t: GeneralizedTime): seq<byte>
  {
    Headers.Octets(Headers.Header(TAG, LENGTH)) + ContentOctets(t)
  }

  /** Decoding a whole TLV written for `t` gives `t` and consumes all
      seventeen octets. */
  lemma DecodeTlvRoundTrip(input: seq<byte>, pos: nat, t: GeneralizedTime)
    requires pos + 17 <= |input| && input[pos..pos + 17] == TlvOctets(t)
    ensures |TlvOctets(t)| == 17
    ensures DecodeAt(input, pos) == Ok((t, pos + 17))
  {
    var h := Headers.Header(TAG, LENGTH);
    assert Headers.Octets(h) == [0x18, 0x0F];
    ContentShape(t);
    var tlv := TlvOctets(t);
    assert tlv[..2] == Headers.Octets(h) && tlv[2..] == ContentOctets(t);
    assert input[pos..pos + 2] == tlv[..2];
    Headers.DecodeOctets(input, pos, h);
    assert input[pos + 2..pos + 17] == tlv[2..];
    DecodeContentRoundTrip(t);
  }

  /** The library's test vector: `18 0F` and the content `19910506234540Z`. */
  const TEST_VECTOR: seq<byte> :=
    [0x18, 0x0F, 0x31, 0x39, 0x39, 0x31, 0x30, 0x35, 0x30, 0x36, 0x32, 0x33, 0x34, 0x35, 0x34, 0x30, 0x5A]

  lemma TestVectorContent()
    ensures DecodeContent(TEST_VECTOR[2..]) == Ok(GeneralizedTime(Fields(1991, 5, 6, 23, 45, 40)))
  {
    var c := TEST_VECTOR[2..];
    assert c == [0x31, 0x39, 0x39, 0x31, 0x30, 0x35, 0x30, 0x36, 0x32, 0x33, 0x34, 0x35, 0x34, 0x30, 0x5A];
  }

  /** The test vector decodes to 1991-05-06 23:45:40 UTC, consuming all of
      it, and that time encodes back to the same octets. */
  lemma TestVectorRoundTrip()
    ensures Valid(Fields(1991, 5, 6, 23, 45, 40))
    ensures DecodeAt(TEST_VECTOR, 0) == Ok((GeneralizedTime(Fields(1991, 5, 6, 23, 45, 40)), 17))
    ensures TlvOctets(GeneralizedTime(Fields(1991, 5, 6, 23, 45, 40))) == TEST_VECTOR
  {
    var t := GeneralizedTime(Fields(1991, 5, 6, 23, 45, 40));
    var content := TEST_VECTOR[2..];
    TestVectorContent();
    DecodeContentIsCanonical(content);
    assert Headers.Octets(Headers.Header(TAG, LENGTH)) == [0x18, 0x0F];
    assert TlvOctets(t) == TEST_VECTOR[..2] + content == TEST_VECTOR;
    DecodeTlvRoundTrip(TEST_VECTOR, 0, t);
  }

  /** Lexicographic comparison of equally long field lists. */
  function FieldsCmp(xs: seq<nat>, ys: seq<nat>): Ordering
    requires |xs| == |ys|
  {
    if xs == [] then Equal
    else if xs[0] != ys[0] then Cmp(xs[0], ys[0])
    else FieldsCmp(xs[1..], ys[1..])
  }

  /** The derived `Ord` of `GeneralizedTime`: its `DateTime`'s fields
      compared in declaration order. */
  function ValueCmp(a: GeneralizedTime, b: GeneralizedTime): Ordering
  {
    var x, y := a.datetime, b.datetime;
    FieldsCmp([x.year, x.month, x.day, x.hour, x.minutes, x.seconds],
              [y.year, y.month, y.day, y.hour, y.minutes, y.seconds])
  }

  /** `OrdIsValueOrd`: the value order is the DER order, that is, comparing
      the encodings octet by octet gives the same answer. */
  lemma ValueOrdIsDerOrd(a: GeneralizedTime, b: GeneralizedTime)
    ensures ValueCmp(a, b) == LexCmp(ContentOctets(a), ContentOctets(b))
    ensures ValueCmp(a, b) == LexCmp(TlvOctets(a), TlvOctets(b))
  {
    var fa, fb := FieldList(a.datetime), FieldList(b.datetime);
    DigitPairsOrder(fa, fb);
    LexCmpAppend(DigitPairs(fa), [ZULU], DigitPairs(fb), [ZULU]);
    var x, y := a.datetime, b.datetime;
    assert fa[2..] == [x.month, x.day, x.hour, x.minutes, x.seconds];
    assert fb[2..] == [y.month, y.day, y.hour, y.minutes, y.seconds];
    assert fa[1..][1..] == fa[2..] && fb[1..][1..] == fb[2..];
    var h := Headers.Octets(Headers.Header(TAG, LENGTH));
    LexCmpAppend(h, ContentOctets(a), h, ContentOctets(b));
    LexCmpEqual(h, h);
  }
}
