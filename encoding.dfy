/** The `Encode` and `EncodeValue` traits (der/src/encode.rs): the blanket
    TLV encoding of every tagged value, and the helpers that encode into a
    slice or a vector. The trait's implementors form a closed sum here. */
module Encoding {
  import opened Types
  import opened Encoders
  import opened DateTimes
  import opened GeneralizedTimes
  import Lengths
  import Headers

  /** An `EncodeValue + Tagged` implementor. `Opaque` is an implementor whose
      `encode_value` writes a fixed content in one all-or-nothing step: its
      tag, what its `value_len` reports, and that content, which need not
      agree with `value_len`. */
  datatype Value =
    | GenTime(time: GeneralizedTime)
    | Date(datetime: DateTime)
    | Opaque(tag: Tag, valueLen: Result<Lengths.Length>, content: seq<byte>)

  /** An `Encode` implementor: a `Header`, which implements the trait itself,
      or a tagged value, which gets the blanket implementation. */
  datatype Encodable = HeaderOf(header: Headers.Header) | Tlv(value: Value)

  /** `Tagged::tag`. */
  function TagOf(v: Value): Tag
  {
    match v
    case GenTime(_) => GeneralizedTimes.TAG
    case Date(_) => GeneralizedTimes.TAG
    case Opaque(tag, _, _) => tag
  }

  /** `EncodeValue::value_len`; `DateTime` delegates to GeneralizedTime. */
  function ValueLen(v: Value): Result<Lengths.Length>
  {
    match v
    case GenTime(t) => GeneralizedTimes.ValueLen(t)
    case Date(dt) => GeneralizedTimes.ValueLen(FromDateTime(dt))
    case Opaque(_, len, _) => len
  }

  /** The content octets `encode_value` writes. */
  function ValueOctets(v: Value): seq<byte>
  {
    match v
    case GenTime(t) => ContentOctets(t)
    case Date(dt) => ContentOctets(FromDateTime(dt))
    case Opaque(_, _, content) => content
  }

  /** `value_len` reports the size of what `encode_value` writes. */
  predicate ValueLenHonest(v: Value)
  {
    ValueLen(v).Ok? ==> ValueLen(v).value == |ValueOctets(v)|
  }

  /** GeneralizedTime and DateTime report their length truthfully: always
      fifteen octets. */
  lemma BuiltInValuesHonest(v: Value)
    requires !v.Opaque?
    ensures ValueLen(v) == Ok(GeneralizedTimes.LENGTH)
    ensures ValueLenHonest(v)
  {
    match v
    case GenTime(t) => ContentShape(t);
    case Date(dt) => ContentShape(FromDateTime(dt));
  }

  /** `DateTime`'s `EncodeValue` and `FixedTag` are those of the
      GeneralizedTime wrapping it, so its whole encoding is too. */
  lemma DateTimeDelegates(dt: DateTime)
    ensures TagOf(Date(dt)) == TagOf(GenTime(FromDateTime(dt)))
    ensures ValueLen(Date(dt)) == ValueLen(GenTime(FromDateTime(dt)))
    ensures ValueOctets(Date(dt)) == ValueOctets(GenTime(FromDateTime(dt)))
    ensures Encoded(Tlv(Date(dt))) == Encoded(Tlv(GenTime(FromDateTime(dt))))
    ensures EncodedLen(Tlv(Date(dt))) == EncodedLen(Tlv(GenTime(FromDateTime(dt))))
  {
  }

  /** A GeneralizedTime encodes to seventeen octets, `18 0F` and its
      content, as `encoded_len` predicts, and decoding them gives it back. */
  lemma GeneralizedTimeTlvRoundTrip(t: GeneralizedTime)
    ensures EncodedLen(Tlv(GenTime(t))) == Ok(17)
    ensures Encoded(Tlv(GenTime(t))) == Ok(TlvOctets(t))
    ensures GeneralizedTimes.DecodeAt(TlvOctets(t), 0) == Ok((t, 17))
  {
    BuiltInValuesHonest(GenTime(t));
    EncodedLenCountsOctets(Tlv(GenTime(t)));
    DecodeTlvRoundTrip(TlvOctets(t), 0, t);
  }

  /** `EncodeValue::encode_value`, dispatched: writes `ValueOctets(v)` at the
      cursor, or fails with `Overflow` when it does not fit. */
  method EncodeValue(v: Value, enc: Encoder) returns (r: Outcome)
    requires enc.Valid()
    modifies enc, enc.buf
    ensures enc.Valid()
    ensures r.Pass? <==> old(enc.Remaining()) >= |ValueOctets(v)|
    ensures r.Pass? ==> enc.pos == old(enc.pos) + |ValueOctets(v)|
    ensures r.Pass? ==> enc.buf[..] == Spliced(old(enc.buf[..]), enc.start + old(enc.pos), ValueOctets(v))
    ensures r.Fail? ==> r.error == Overflow
  {
    match v
    case GenTime(t) =>
      ContentShape(t);
      r := GeneralizedTimes.EncodeValue(t, enc);
    case Date(dt) =>
      ContentShape(FromDateTime(dt));
      r := GeneralizedTimes.EncodeValue(FromDateTime(dt), enc);
    case Opaque(_, _, content) =>
      r := enc.Bytes(content);
  }

  /** `EncodeValue::header`: the value's tag with its reported length; the
      length error of `value_len` is passed on. */
  function HeaderFor(v: Value): (r: Result<Headers.Header>)
    ensures r.Ok? <==> ValueLen(v).Ok?
    ensures r.Ok? ==> r.value.tag == TagOf(v) && r.value.length == ValueLen(v).value
    ensures r.Err? ==> r.error == ValueLen(v).error
  {
    var len :- ValueLen(v);
    Headers.New(TagOf(v), len)
  }

  /** The octets `Encode::encode` writes: a header's own octets, or the
      header of a tagged value followed by its content. */
  function Encoded(e: Encodable): Result<seq<byte>>
  {
    match e
    case HeaderOf(h) => Ok(Headers.Octets(h))
    case Tlv(v) =>
      var h :- HeaderFor(v);
      Ok(Headers.Octets(h) + ValueOctets(v))
  }

  /** `Encode::encoded_len`: `Header`'s own, or for a tagged value
      `value_len` plus its tag and length field (`Length::for_tlv`). When it
      succeeds, `Encoded` succeeds too. */
  function EncodedLen(e: Encodable): (r: Result<Lengths.Length>)
    ensures r.Ok? ==> Encoded(e).Ok?
    ensures e.Tlv? && ValueLen(e.value).Err? ==> r == Err(ValueLen(e.value).error)
  {
    match e
    case HeaderOf(h) => Headers.EncodedLen(h)
    case Tlv(v) =>
      var len :- ValueLen(v);
      Lengths.ForTlv(len)
  }

  /** `encoded_len` is the number of octets `encode` writes whenever
      `value_len` is truthful, and it fails only when `value_len` fails or the
      whole encoding would exceed `Length::MAX`. */
  lemma EncodedLenCountsOctets(e: Encodable)
    requires e.Tlv? ==> ValueLenHonest(e.value)
    ensures EncodedLen(e).Ok? <==> Encoded(e).Ok? && |Encoded(e).value| <= Lengths.MAX
    ensures EncodedLen(e).Ok? ==> EncodedLen(e).value == |Encoded(e).value|
  {
    if e.Tlv? && ValueLen(e.value).Ok? {
      var len := ValueLen(e.value).value;
      assert Headers.Octets(HeaderFor(e.value).value) == [TagOf(e.value)] + Lengths.Octets(len);
    }
  }

  /** The blanket `Encode::encode`: the header (which fails before anything
      is written when `value_len` fails), then the value. Writes exactly
      `Encoded(e)` or fails with `Overflow` when it does not fit. */
  method Encode(e: Encodable, enc: Encoder) returns (r: Outcome)
    requires enc.Valid()
    modifies enc, enc.buf
    ensures enc.Valid()
    ensures Encoded(e).Err? ==> r == Fail(Encoded(e).error) && enc.pos == old(enc.pos) && enc.buf[..] == old(enc.buf[..])
    ensures Encoded(e).Ok? ==> (r.Pass? <==> old(enc.Remaining()) >= |Encoded(e).value|)
    ensures r.Pass? ==> Encoded(e).Ok? && enc.pos == old(enc.pos) + |Encoded(e).value|
    ensures r.Pass? ==>
      Encoded(e).Ok? && enc.buf[..] == Spliced(old(enc.buf[..]), enc.start + old(enc.pos), Encoded(e).value)
    ensures Encoded(e).Ok? && r.Fail? ==> r.error == Overflow
  {
    match e
    case HeaderOf(h) =>
      r := Headers.Encode(h, enc);
    case Tlv(v) =>
      r := EncodeTlv(v, enc);
  }

  /** The blanket `Encode::encode` of every value type: its header, then its
      value. A header that cannot be built is returned before anything is
      written. */
  method EncodeTlv(v: Value, enc: Encoder) returns (r: Outcome)
    requires enc.Valid()
    modifies enc, enc.buf
    ensures enc.Valid()
    ensures HeaderFor(v).Err? ==> r == Fail(HeaderFor(v).error) && enc.pos == old(enc.pos) && enc.buf[..] == old(enc.buf[..])
    ensures HeaderFor(v).Ok? ==> (r.Pass? <==> old(enc.Remaining()) >= |Headers.Octets(HeaderFor(v).value) + ValueOctets(v)|)
    ensures r.Pass? ==> HeaderFor(v).Ok? && enc.pos == old(enc.pos) + |Headers.Octets(HeaderFor(v).value) + ValueOctets(v)|
    ensures r.Pass? ==>
      HeaderFor(v).Ok? && enc.buf[..] == Spliced(old(enc.buf[..]), enc.start + old(enc.pos), Headers.Octets(HeaderFor(v).value) + ValueOctets(v))
    ensures HeaderFor(v).Ok? && r.Fail? ==> r.error == Overflow
  {
    var header := HeaderFor(v);
    if header.Err? {
      return Fail(header.error);
    }
    ghost var before, at := enc.buf[..], enc.start + enc.pos;
    ghost var headerOctets, valueOctets := Headers.Octets(header.value), ValueOctets(v);
    r := Headers.Encode(header.value, enc);
    if r.Fail? {
      return;
    }
    r := EncodeValue(v, enc);
    if r.Pass? {
      SplicedTwice(before, at, headerOctets, valueOctets);
    }
  }

  /** `Encode::encode_to_slice`: encode at the start of `buf` and return the
      written prefix. */
  method EncodeToSlice(e: Encodable, buf: array<byte>) returns (r: Result<seq<byte>>)
    modifies buf
    ensures Encoded(e).Err? ==> r == Err(Encoded(e).error) && buf[..] == old(buf[..])
    ensures Encoded(e).Ok? ==> (r.Ok? <==> buf.Length >= |Encoded(e).value|)
    ensures r.Ok? ==> Encoded(e).Ok? && r.value == Encoded(e).value
    ensures r.Ok? ==> buf[..] == r.value + old(buf[|r.value|..])
    ensures Encoded(e).Ok? && r.Err? ==> r.error == Overflow
  {
    var enc := new Encoder(buf, 0, buf.Length);
    var outcome := Encode(e, enc);
    if outcome.Fail? {
      return Err(outcome.error);
    }
    var written := enc.Finish();
    r := Ok(written);
  }

  /** A growable octet vector (`Vec<u8>`). */
  class ByteVec {
    var elems: array<byte>

    /** `Vec::new()`. */
    constructor ()
      ensures Contents() == []
    {
      elems := new byte[0];
    }

    function Contents(): seq<byte>
      reads this, elems
    {
      elems[..]
    }

    /** `buf.extend(iter::repeat(0).take(n))`: `n` zero octets appended, in a
        freshly allocated buffer (the `reserve` before it). */
    method ExtendZeros(n: nat)
      modifies this
      ensures fresh(elems)
      ensures Contents() == old(Contents()) + Zeros(n)
    {
      var prior := elems;
      var grown := new byte[prior.Length + n];
      var i := 0;
      while i < prior.Length
        invariant 0 <= i <= prior.Length
        invariant forall j :: 0 <= j < i ==> grown[j] == prior[j]
      {
        grown[i] := prior[i];
        i := i + 1;
      }
      while i < grown.Length
        invariant prior.Length <= i <= grown.Length
        invariant forall j :: 0 <= j < prior.Length ==> grown[j] == prior[j]
        invariant forall j :: prior.Length <= j < i ==> grown[j] == 0
      {
        grown[i] := 0;
        i := i + 1;
      }
      assert grown[..] == prior[..] + Zeros(n);
      elems := grown;
    }
  }

  /** `Encode::encode_to_vec` AS WRITTEN: it grows the vector by
      `encoded_len` zeros, but then builds the encoder over the whole vector,
      so the encoding lands at index 0, over what the vector already held,
      and the appended zeros stay at the end. */
  method EncodeToVecAsWritten(e: Encodable, v: ByteVec) returns (r: Result<Lengths.Length>)
    modifies v
    ensures EncodedLen(e).Err? ==> r == Err(EncodedLen(e).error) && v.Contents() == old(v.Contents())
    ensures EncodedLen(e).Ok? ==> |v.Contents()| == |old(v.Contents())| + EncodedLen(e).value
    ensures EncodedLen(e).Ok? && |Encoded(e).value| > |old(v.Contents())| + EncodedLen(e).value ==>
      r == Err(Overflow)
    ensures EncodedLen(e).Ok? && |Encoded(e).value| <= |old(v.Contents())| + EncodedLen(e).value ==>
      v.Contents() == Spliced(old(v.Contents()) + Zeros(EncodedLen(e).value), 0, Encoded(e).value)
    ensures EncodedLen(e).Ok? && |Encoded(e).value| <= |old(v.Contents())| + EncodedLen(e).value ==>
      r == if |Encoded(e).value| == EncodedLen(e).value then Ok(EncodedLen(e).value)
           else if |Encoded(e).value| <= Lengths.MAX then Err(Incomplete(EncodedLen(e).value, |Encoded(e).value|))
           else Err(Overflow)
  {
    var expected :- EncodedLen(e);
    v.ExtendZeros(expected);
    var enc := new Encoder(v.elems, 0, v.elems.Length);
    var outcome := Encode(e, enc);
    if outcome.Fail? {
      return Err(outcome.error);
    }
    var written := enc.Finish();
    var actual :- Lengths.TryFrom(|written|);
    if expected != actual {
      return Err(Incomplete(expected, actual));
    }
    r := Ok(actual);
  }

  /** `Encode::encode_to_vec` as evidently intended (and as later versions
      of the library write it): the encoder covers only the appended zeros,
      so the vector keeps its contents and gains the encoding after them. */
  method EncodeToVec(e: Encodable, v: ByteVec) returns (r: Result<Lengths.Length>)
    modifies v
    ensures EncodedLen(e).Err? ==> r == Err(EncodedLen(e).error) && v.Contents() == old(v.Contents())
    ensures EncodedLen(e).Ok? ==> |v.Contents()| == |old(v.Contents())| + EncodedLen(e).value
    ensures EncodedLen(e).Ok? && |Encoded(e).value| > EncodedLen(e).value ==> r == Err(Overflow)
    ensures EncodedLen(e).Ok? && |Encoded(e).value| <= EncodedLen(e).value ==>
      v.Contents() == old(v.Contents()) + Encoded(e).value + Zeros(EncodedLen(e).value - |Encoded(e).value|)
    ensures EncodedLen(e).Ok? && |Encoded(e).value| <= EncodedLen(e).value ==>
      r == if |Encoded(e).value| == EncodedLen(e).value then Ok(EncodedLen(e).value)
           else Err(Incomplete(EncodedLen(e).value, |Encoded(e).value|))
  {
    var expected :- EncodedLen(e);
    ghost var prior := v.Contents();
    var initial := v.elems.Length;
    v.ExtendZeros(expected);
    var enc := new Encoder(v.elems, initial, v.elems.Length);
    var outcome := Encode(e, enc);
    if outcome.Fail? {
      return Err(outcome.error);
    }
    var written := enc.Finish();
    SplicedAfter(prior, expected, Encoded(e).value);
    assert written == Encoded(e).value;
    var actual :- Lengths.TryFrom(|written|);
    if expected != actual {
      return Err(Incomplete(expected, actual));
    }
    r := Ok(actual);
  }

  /** Writing `bytes` just after `prior`, into `n >= |bytes|` appended
      zeros, keeps `prior` and leaves the unused zeros after `bytes`. */
  lemma SplicedAfter(prior: seq<byte>, n: nat, bytes: seq<byte>)
    requires |bytes| <= n
    ensures Spliced(prior + Zeros(n), |prior|, bytes) == prior + bytes + Zeros(n - |bytes|)
  {
    var l := Spliced(prior + Zeros(n), |prior|, bytes);
    var r := prior + bytes + Zeros(n - |bytes|);
    assert |l| == |r|;
    forall i | 0 <= i < |l| ensures l[i] == r[i] {
    }
  }

  /** `Encode::to_vec`: encode into a new vector, with the `encode_to_vec`
      the library has; on an empty vector its flaw does not show. */
  method ToVec(e: Encodable) returns (r: Result<seq<byte>>)
    ensures EncodedLen(e).Err? ==> r == Err(EncodedLen(e).error)
    ensures r.Ok? <==> EncodedLen(e).Ok? && |Encoded(e).value| == EncodedLen(e).value
    ensures r.Ok? ==> r.value == Encoded(e).value
    ensures (e.Tlv? ==> ValueLenHonest(e.value)) && EncodedLen(e).Ok? ==> r == Encoded(e)
  {
    if e.HeaderOf? || ValueLenHonest(e.value) {
      EncodedLenCountsOctets(e);
    }
    var v := new ByteVec();
    var _ :- EncodeToVecAsWritten(e, v);
    if EncodedLen(e).Ok? && |Encoded(e).value| <= EncodedLen(e).value {
      AsWrittenAgreesOnEmpty(e);
    }
    r := Ok(v.Contents());
  }

  /** The two `encode_to_vec`s agree on an empty vector, which is the only
      way `to_vec` uses it: whenever the encoding fits the `encoded_len`
      zeros (a full fit or an `Incomplete` one) the written contents are the
      intended ones, and the as-written `Overflow` for an encoding beyond
      `MAX` cannot arise, so the two results coincide as well. Beyond the
      zeros both report `Overflow`. */
  lemma AsWrittenAgreesOnEmpty(e: Encodable)
    requires EncodedLen(e).Ok? && |Encoded(e).value| <= EncodedLen(e).value
    ensures |Encoded(e).value| <= Lengths.MAX
    ensures Spliced([] + Zeros(EncodedLen(e).value), 0, Encoded(e).value)
         == [] + Encoded(e).value + Zeros(EncodedLen(e).value - |Encoded(e).value|)
  {
    SplicedAfter([], EncodedLen(e).value, Encoded(e).value);
  }

  /** On any non-empty vector the written `encode_to_vec` does not append a
      GeneralizedTime: the result ends in a zero octet where the `Z` belongs. */
  lemma AsWrittenDoesNotAppend(prior: seq<byte>, t: GeneralizedTime)
    requires |prior| > 0
    ensures EncodedLen(Tlv(GenTime(t))) == Ok(17) && |Encoded(Tlv(GenTime(t))).value| == 17
    ensures Spliced(prior + Zeros(17), 0, Encoded(Tlv(GenTime(t))).value) != prior + Encoded(Tlv(GenTime(t))).value
  {
    var e := Tlv(GenTime(t));
    BuiltInValuesHonest(GenTime(t));
    EncodedLenCountsOctets(e);
    ContentShape(t);
    var E := Encoded(e).value;
    var last := |prior| + 16;
    assert E[16] == ContentOctets(t)[14] == ZULU;
    assert (prior + E)[last] == ZULU;
    assert Spliced(prior + Zeros(17), 0, E)[last] == 0;
  }

  /** A concrete case: encoding the test vector's time onto the one-octet
      vector `[0xAA]` as written yields the encoding followed by a zero, and
      the `0xAA` is lost; the intended result is `0xAA` then the encoding. */
  lemma AsWrittenCounterexample()
    ensures var e := Tlv(GenTime(GeneralizedTime(Fields(1991, 5, 6, 23, 45, 40))));
      && EncodedLen(e) == Ok(17) && Encoded(e) == Ok(TEST_VECTOR)
      && Spliced([0xAA] + Zeros(17), 0, TEST_VECTOR) == TEST_VECTOR + [0]
      && Spliced([0xAA] + Zeros(17), 0, TEST_VECTOR) != [0xAA] + TEST_VECTOR
  {
    var t := GeneralizedTime(Fields(1991, 5, 6, 23, 45, 40));
    TestVectorRoundTrip();
    GeneralizedTimeTlvRoundTrip(t);
    SplicedOverOneOctet(0xAA, TEST_VECTOR);
  }

  /** Writing `bytes` from index 0 of `[x]` grown by `|bytes|` zeros leaves
      `bytes` and one zero; unless `bytes` starts with `x`, that is not `[x]`
      followed by `bytes`. */
  lemma SplicedOverOneOctet(x: byte, bytes: seq<byte>)
    requires |bytes| > 0
    ensures Spliced([x] + Zeros(|bytes|), 0, bytes) == bytes + [0]
    ensures bytes[0] != x ==> Spliced([x] + Zeros(|bytes|), 0, bytes) != [x] + bytes
  {
    var grown := [x] + Zeros(|bytes|);
    assert grown[..0] == [] && grown[|bytes|..] == [0];
    var spliced := Spliced(grown, 0, bytes);
    assert spliced == bytes + [0];
    if bytes[0] != x {
      assert spliced[0] != ([x] + bytes)[0];
    }
  }
}
