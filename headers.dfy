/** ASN.1 DER headers: the tag + length prefix of every TLV-encoded value
    (der/src/header.rs). */
module Headers {
  import opened Types
  import opened Decoders
  import opened Encoders
  import Lengths
  import Tags

  /** `Header`: the tag of the value and the length of its content. */
  datatype Header = Header(tag: Tag, length: Lengths.Length)

  /** `Header::new`: fails with `Overflow` when the supplied length does not
      fit a `Length`. */
  function New(tag: Tag, length: int): (r: Result<Header>)
    ensures r.Ok? <==> 0 <= length <= Lengths.MAX
    ensures r.Ok? ==> r.value.tag == tag && r.value.length == length
    ensures r.Err? ==> r.error == Overflow
  {
    match Lengths.TryFrom(length)
    case Err(_) => Err(Overflow)
    case Ok(len) => Ok(Header(tag, len))
  }

  /** The octets `encode` writes: the tag's, then the length's. */
  function Octets(h: Header): seq<byte>
  {
    Tags.Octets(h.tag) + Lengths.Octets(h.length)
  }

  /** `Encode::encoded_len`: tag size plus length-field size, added with
      overflow checking. It agrees with the number of octets `encode` writes. */
  function EncodedLen(h: Header): (r: Result<Lengths.Length>)
    ensures r.Ok? && r.value == |Octets(h)|
    ensures 2 <= |Octets(h)| <= 6
  {
    Lengths.Add(Tags.EncodedLen(h.tag), Lengths.EncodedLen(h.length))
  }

  /** `Encode::encode`: the tag, then the length, at the cursor. Fails with
      `Overflow` exactly when the slice has no room for both. */
  method Encode(h: Header, enc: Encoder) returns (r: Outcome)
    requires enc.Valid()
    modifies enc, enc.buf
    ensures enc.Valid()
    ensures r.Pass? <==> old(enc.Remaining()) >= |Octets(h)|
    ensures r.Pass? ==> enc.pos == old(enc.pos) + |Octets(h)|
    ensures r.Pass? ==> enc.buf[..] == Spliced(old(enc.buf[..]), enc.start + old(enc.pos), Octets(h))
    ensures r.Fail? ==> r.error == Overflow
  {
    ghost var before := enc.buf[..];
    r := Tags.Encode(h.tag, enc);
    if r.Fail? {
      return;
    }
    r := Lengths.Encode(h.length, enc);
    if r.Pass? {
      SplicedTwice(before, enc.start + old(enc.pos), Tags.Octets(h.tag), Lengths.Octets(h.length));
    }
  }

  /** `Decode::decode` from `pos`: a tag, then a length; an `Overlength`
      length is reported as `Length{tag}` for the tag just read, every other
      error as it is. */
  function DecodeAt(input: seq<byte>, pos: nat): (r: Result<(Header, nat)>)
    requires pos <= |input|
    ensures r.Ok? ==> pos + 2 <= r.value.1 <= |input| && r.value.0.tag == input[pos]
    ensures pos == |input| ==> r == Err(Incomplete(pos + 1, |input|))
    ensures pos < |input| && input[pos] % 0x20 == 0x1F ==> r == Err(UnknownTag(input[pos]))
    ensures r.Err? ==> r.error != Overlength
  {
    var (tag, p) :- Tags.DecodeAt(input, pos);
    match Lengths.DecodeAt(input, p)
    case Err(e) => Err(if e == Overlength then Length(tag) else e)
    case Ok((length, q)) => Ok((Header(tag, length), q))
  }

  /** `Decode::decode`: reads the tag before the length, and reads no length
      when the tag fails. */
  method Decode(dec: Decoder) returns (r: Result<Header>)
    requires dec.Valid()
    modifies dec
    ensures dec.Valid()
    ensures Advance(r, dec.pos) == DecodeAt(dec.input, old(dec.pos))
  {
    var tag :- Tags.Decode(dec);
    var length := Lengths.Decode(dec);
    match length
    case Err(e) =>
      if e == Overlength {
        return Err(Length(tag));
      }
      return Err(e);
    case Ok(len) =>
      return Ok(Header(tag, len));
  }

  /** Decoding what `encode` writes gives the same header back and consumes
      exactly the header octets. */
  lemma DecodeOctets(input: seq<byte>, pos: nat, h: Header)
    requires pos + |Octets(h)| <= |input| && input[pos..pos + |Octets(h)|] == Octets(h)
    ensures DecodeAt(input, pos) == Ok((h, pos + |Octets(h)|))
  {
    var o := Octets(h);
    assert input[pos] == o[0] == h.tag;
    var lo := Lengths.Octets(h.length);
    assert input[pos + 1..pos + 1 + |lo|] == o[1..] == lo;
    Lengths.DecodeOctets(input, pos + 1, h.length);
  }

  /** A header decodes only from its own canonical octets. */
  lemma DecodeIsCanonical(input: seq<byte>, pos: nat)
    requires pos <= |input| && DecodeAt(input, pos).Ok?
    ensures var (h, p) := DecodeAt(input, pos).value;
      pos < p <= |input| && input[pos..p] == Octets(h)
  {
    var (h, p) := DecodeAt(input, pos).value;
    Lengths.DecodeIsCanonical(input, pos + 1);
    assert input[pos..p] == input[pos..pos + 1] + input[pos + 1..p];
  }

  /** A length field using the indefinite form 0x80 is reported against the
      header's tag. */
  lemma IndefiniteLengthRejected(input: seq<byte>, pos: nat)
    requires pos + 2 <= |input| && input[pos] % 0x20 != 0x1F && input[pos + 1] == 0x80
    ensures DecodeAt(input, pos) == Err(Length(input[pos]))
  {
  }

  /** A long form carrying a value that fits the short form is reported
      against the header's tag. */
  lemma NonMinimalLengthRejected(input: seq<byte>, pos: nat)
    requires pos + 3 <= |input| && input[pos] % 0x20 != 0x1F
    requires input[pos + 1] == 0x81 && input[pos + 2] < 0x80
    ensures DecodeAt(input, pos) == Err(Length(input[pos]))
  {
    Lengths.FromBigEndianSnoc([], input[pos + 2]);
    assert input[pos + 2..pos + 3] == [] + [input[pos + 2]];
  }

  /** A length beyond `Length::MAX` keeps its own `Overflow` kind. */
  lemma OversizedLengthPassesThrough(input: seq<byte>, pos: nat)
    requires pos + 6 <= |input| && input[pos] % 0x20 != 0x1F
    requires input[pos + 1] == 0x84 && input[pos + 2] >= 0x10
    ensures DecodeAt(input, pos) == Err(Overflow)
  {
    var s := input[pos + 2..pos + 6];
    Lengths.FromBigEndianSnoc([], s[0]);
    Lengths.FromBigEndianSnoc([s[0]], s[1]);
    Lengths.FromBigEndianSnoc([s[0], s[1]], s[2]);
    Lengths.FromBigEndianSnoc([s[0], s[1], s[2]], s[3]);
    assert s == [s[0], s[1], s[2]] + [s[3]];
    var x0 := s[0] as nat;
    var x2 := Lengths.FromBigEndian([s[0], s[1]]);
    var x3 := Lengths.FromBigEndian([s[0], s[1], s[2]]);
    assert [s[0]] == [] + [s[0]] && [s[0], s[1]] == [s[0]] + [s[1]] && [s[0], s[1], s[2]] == [s[0], s[1]] + [s[2]];
    assert x2 >= x0 * 256;
    assert x3 >= x2 * 256 >= x0 * 0x1_0000;
    assert Lengths.FromBigEndian(s) >= x3 * 256 >= x0 * 0x100_0000;
  }

  /** `DerOrd::der_cmp`: the tags decide unless they are equal, then the
      lengths. */
  function DerCmp(a: Header, b: Header): Ordering
  {
    match Tags.DerCmp(a.tag, b.tag)
    case Equal => Lengths.DerCmp(a.length, b.length)
    case ordering => ordering
  }

  /** Header order is lexicographic on (tag, length) as numbers. */
  lemma DerCmpIsLexicographic(a: Header, b: Header)
    ensures DerCmp(a, b) == if a.tag != b.tag then Cmp(a.tag as int, b.tag as int) else Cmp(a.length, b.length)
  {
    Lengths.DerCmpIsNumeric(a.length, b.length);
  }

  /** The DER ordering contract: comparing two headers gives the same answer
      as comparing their encodings octet by octet. */
  lemma DerCmpIsEncodingOrder(a: Header, b: Header)
    ensures DerCmp(a, b) == LexCmp(Octets(a), Octets(b))
  {
    var la, lb := Lengths.Octets(a.length), Lengths.Octets(b.length);
    assert Octets(a) == [a.tag] + la && Octets(b) == [b.tag] + lb;
    LexCmpAppend([a.tag], la, [b.tag], lb);
  }

  /** `der_cmp` is a total order: Equal only for equal headers, antisymmetric
      and transitive. */
  lemma DerCmpTotalOrder(a: Header, b: Header, c: Header)
    ensures DerCmp(a, b) == Equal <==> a == b
    ensures DerCmp(b, a) == DerCmp(a, b).Reverse()
    ensures DerCmp(a, b) == Less && DerCmp(b, c) == Less ==> DerCmp(a, c) == Less
  {
    DerCmpIsLexicographic(a, b);
    DerCmpIsLexicographic(b, a);
    DerCmpIsLexicographic(b, c);
    DerCmpIsLexicographic(a, c);
  }
}
