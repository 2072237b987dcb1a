/** `der::Tag` operations for the one-octet tag form (tag.rs is not part of
    this model; this module is the minimal collaborator the header needs). */
module Tags {
  import opened Types
  import opened Decoders
  import opened Encoders

  /** The octets `Tag::encode` writes: the identifier octet. */
  function Octets(t: Tag): seq<byte>
  {
    [t]
  }

  /** `Tag::encoded_len`: always one octet here. */
  function EncodedLen(t: Tag): (r: nat)
    ensures r == |Octets(t)|
  {
    1
  }

  /** `Tag::decode` read from `pos`: the identifier octet, rejected with
      `UnknownTag` naming the octet when it announces the high-tag-number
      form. */
  function DecodeAt(input: seq<byte>, pos: nat): (r: Result<(Tag, nat)>)
    requires pos <= |input|
    ensures r.Ok? ==> pos < |input| && r.value == (input[pos], pos + 1)
    ensures r.Ok? <==> pos < |input| && input[pos] % 0x20 != 0x1F
    ensures r.Err? && pos < |input| ==> r.error == UnknownTag(input[pos])
    ensures pos == |input| ==> r == Err(Incomplete(pos + 1, |input|))
  {
    var (octet, p) :- ByteAt(input, pos);
    if octet % 0x20 == 0x1F then Err(UnknownTag(octet)) else Ok((octet, p))
  }

  /** `Tag::encode`. */
  method Encode(t: Tag, enc: Encoder) returns (r: Outcome)
    requires enc.Valid()
    modifies enc, enc.buf
    ensures enc.Valid()
    ensures r.Pass? <==> old(enc.Remaining()) >= 1
    ensures r.Pass? ==> enc.pos == old(enc.pos) + 1
    ensures r.Pass? ==> enc.buf[..] == Spliced(old(enc.buf[..]), enc.start + old(enc.pos), Octets(t))
    ensures r.Fail? ==> r.error == Overflow && enc.pos == old(enc.pos) && enc.buf[..] == old(enc.buf[..])
  {
    r := enc.Byte(t);
  }

  /** `Tag::decode`. */
  method Decode(dec: Decoder) returns (r: Result<Tag>)
    requires dec.Valid()
    modifies dec
    ensures dec.Valid()
    ensures Advance(r, dec.pos) == DecodeAt(dec.input, old(dec.pos))
  {
    var octet :- dec.Byte();
    if octet % 0x20 == 0x1F {
      return Err(UnknownTag(octet));
    }
    return Ok(octet);
  }

  /** `Tag::der_cmp`: tags order by their identifier octet. */
  function DerCmp(a: Tag, b: Tag): (r: Ordering)
    ensures r == LexCmp(Octets(a), Octets(b))
  {
    Cmp(a as int, b as int)
  }
}
