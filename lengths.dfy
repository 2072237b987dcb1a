/** `der::Length`: the length field of a TLV, with the canonical short/long
    form of sections 8.1.3 and 10.1 of ITU-T X.690. (length.rs is not part of
    this model; this module is the minimal collaborator the header needs.) */
module Lengths {
  import opened Types
  import opened Decoders
  import opened Encoders

  /** `Length::MAX`: `u32::MAX >> 4`, so every length fits the four-octet
      long form. */
  const MAX: nat := 0x0FFF_FFFF

  type Length = n: nat | n <= MAX

  function Pow256(k: nat): (r: nat)
    ensures r > 0
  {
    if k == 0 then 1 else 256 * Pow256(k - 1)
  }

  /** The long form with `k` octets holds every length that needs `k`. */
  lemma LongFormFits(n: Length)
    requires n >= 0x80
    ensures n < Pow256((InitialOctet(n).value - 0x80) as nat)
  {
    assert Pow256(1) == 0x100 && Pow256(2) == 0x1_0000;
    assert Pow256(3) == 0x100_0000 && Pow256(4) == 0x1_0000_0000;
  }

  /** The unsigned big-endian value of an octet string. */
  function FromBigEndian(s: seq<byte>): nat
  {
    if s == [] then 0 else FromBigEndian(s[..|s| - 1]) * 256 + s[|s| - 1] as nat
  }

  /** Appending an octet shifts the value up by one octet. */
  lemma FromBigEndianSnoc(p: seq<byte>, b: byte)
    ensures FromBigEndian(p + [b]) == FromBigEndian(p) * 256 + b as nat
  {
    assert (p + [b])[..|p|] == p;
  }

  /** The low `k` octets of `n`, most significant first. */
  function BigEndian(n: nat, k: nat): (r: seq<byte>)
    ensures |r| == k
  {
    if k == 0 then [] else BigEndian(n / 256, k - 1) + [(n % 256) as byte]
  }

  /** `k` big-endian octets hold exactly the values below `256^k`. */
  lemma {:induction false} BigEndianRoundTrip(n: nat, k: nat)
    requires n < Pow256(k)
    ensures FromBigEndian(BigEndian(n, k)) == n
  {
    if k > 0 {
      var q, r := n / 256, n % 256;
      assert n == q * 256 + r;
      assert q < Pow256(k - 1);
      BigEndianRoundTrip(q, k - 1);
      FromBigEndianSnoc(BigEndian(q, k - 1), r as byte);
    }
  }

  /** ... and every octet string is the big-endian form of its value. */
  lemma {:induction false} BigEndianOfValue(s: seq<byte>)
    ensures BigEndian(FromBigEndian(s), |s|) == s
  {
    if s != [] {
      var p := s[..|s| - 1];
      BigEndianOfValue(p);
      var v := FromBigEndian(s);
      assert v / 256 == FromBigEndian(p) && v % 256 == s[|s| - 1] as nat;
      assert s == p + [s[|s| - 1]];
    }
  }

  /** Big-endian strings of equal length compare like their values. */
  lemma {:induction false} BigEndianOrder(x: nat, y: nat, k: nat)
    requires x < Pow256(k) && y < Pow256(k)
    ensures LexCmp(BigEndian(x, k), BigEndian(y, k)) == Cmp(x, y)
  {
    if k == 0 {
    } else {
      BigEndianOrder(x / 256, y / 256, k - 1);
      LexCmpAppend(BigEndian(x / 256, k - 1), [(x % 256) as byte], BigEndian(y / 256, k - 1), [(y % 256) as byte]);
    }
  }

  /** `Length::initial_octet`: the first octet of the long form, `0x80`
      plus the minimal number of octets that hold the value; none for
      values that take the short form. */
  function InitialOctet(n: Length): Option<byte>
  {
    if n < 0x80 then None
    else if n < 0x100 then Some(0x81)
    else if n < 0x1_0000 then Some(0x82)
    else if n < 0x100_0000 then Some(0x83)
    else Some(0x84)
  }

  /** The octets `Length::encode` writes: one octet below 0x80, otherwise the
      initial octet followed by the minimal big-endian value. */
  function Octets(n: Length): (r: seq<byte>)
    ensures 1 <= |r| <= 5
  {
    match InitialOctet(n)
    case None => [n as byte]
    case Some(first) => [first] + BigEndian(n, (first - 0x80) as nat)
  }

  /** `Length::encoded_len`: the size of the length field itself. */
  function EncodedLen(n: Length): (r: Length)
    ensures r == |Octets(n)|
    ensures r == 1 <==> n < 0x80
  {
    if n < 0x80 then 1
    else if n < 0x100 then 2
    else if n < 0x1_0000 then 3
    else if n < 0x100_0000 then 4
    else 5
  }

  /** Fallible conversion from an integer (`TryFrom<u32>`/`TryFrom<usize>`). */
  function TryFrom(n: int): (r: Result<Length>)
    ensures r.Ok? <==> 0 <= n <= MAX
    ensures r.Ok? ==> r.value == n
    ensures r.Err? ==> r.error == Overflow
  {
    if 0 <= n <= MAX then Ok(n) else Err(Overflow)
  }

  /** `Length + Length`: checked addition that fails rather than wraps. */
  function Add(a: Length, b: Length): (r: Result<Length>)
    ensures r.Ok? <==> a + b <= MAX
    ensures r.Ok? ==> r.value == a + b
    ensures r.Err? ==> r.error == Overflow
  {
    TryFrom(a + b)
  }

  /** `Length::for_tlv`: a value length plus its one-octet tag and its length
      field. */
  function ForTlv(n: Length): (r: Result<Length>)
    ensures r.Ok? <==> 1 + |Octets(n)| + n <= MAX
    ensures r.Ok? ==> r.value == 1 + |Octets(n)| + n
  {
    match Add(1, EncodedLen(n))
    case Err(e) => Err(e)
    case Ok(framing) => Add(framing, n)
  }

  /** `Length::decode` read from `pos`: the length and the position after
      it. Short form below 0x80; 0x81..0x84 announce one to four big-endian
      octets whose value must need exactly that many; 0x80 (indefinite) and
      everything above 0x84 are `Overlength`. */
  function DecodeAt(input: seq<byte>, pos: nat): (r: Result<(Length, nat)>)
    requires pos <= |input|
    ensures r.Ok? ==> pos < r.value.1 <= pos + 5 && r.value.1 <= |input|
    ensures pos == |input| ==> r == Err(Incomplete(pos + 1, |input|))
    ensures pos < |input| && input[pos] < 0x80 ==> r == Ok((input[pos] as nat, pos + 1))
    ensures pos < |input| && (input[pos] == 0x80 || input[pos] > 0x84) ==> r == Err(Overlength)
    ensures r.Err? ==> r.error.Incomplete? || r.error == Overflow || r.error == Overlength
  {
    var (first, p) :- ByteAt(input, pos);
    if first < 0x80 then Ok((first as nat, p))
    else if 0x81 <= first <= 0x84 then
      var k := (first - 0x80) as nat;
      if |input| < p + k then Err(Incomplete(|input| + 1, |input|))
      else
        var decoded := FromBigEndian(input[p..p + k]);
        if decoded > MAX then Err(Overflow)
        else if InitialOctet(decoded) == Some(first) then Ok((decoded, p + k))
        else Err(Overlength)
    else Err(Overlength)
  }

  /** `Length::encode`. */
  method Encode(n: Length, enc: Encoder) returns (r: Outcome)
    requires enc.Valid()
    modifies enc, enc.buf
    ensures enc.Valid()
    ensures r.Pass? <==> old(enc.Remaining()) >= |Octets(n)|
    ensures r.Pass? ==> enc.pos == old(enc.pos) + |Octets(n)|
    ensures r.Pass? ==> enc.buf[..] == Spliced(old(enc.buf[..]), enc.start + old(enc.pos), Octets(n))
    ensures r.Fail? ==> r.error == Overflow
  {
    r := enc.Bytes(Octets(n));
  }

  /** `Length::decode`: reads the initial octet, then accumulates the
      long-form octets one at a time. */
  method Decode(dec: Decoder) returns (r: Result<Length>)
    requires dec.Valid()
    modifies dec
    ensures dec.Valid()
    ensures Advance(r, dec.pos) == DecodeAt(dec.input, old(dec.pos))
  {
    var first :- dec.Byte();
    if first < 0x80 {
      return Ok(first as nat);
    }
    if !(0x81 <= first <= 0x84) {
      return Err(Overlength);
    }
    var k := (first - 0x80) as nat;
    var decoded: nat := 0;
    var i := 0;
    while i < k
      invariant 0 <= i <= k
      invariant dec.Valid() && dec.pos == old(dec.pos) + 1 + i
      invariant decoded == FromBigEndian(dec.input[old(dec.pos) + 1..dec.pos])
    {
      ghost var read := dec.input[old(dec.pos) + 1..dec.pos];
      var b :- dec.Byte();
      assert dec.input[old(dec.pos) + 1..dec.pos] == read + [b];
      FromBigEndianSnoc(read, b);
      decoded := decoded * 256 + b as nat;
      i := i + 1;
    }
    if decoded > MAX {
      return Err(Overflow);
    }
    if InitialOctet(decoded) == Some(first) {
      return Ok(decoded);
    }
    return Err(Overlength);
  }

  /** Decoding the canonical octets of `n` gives `n` back and consumes
      exactly them. */
  lemma DecodeOctets(input: seq<byte>, pos: nat, n: Length)
    requires pos + |Octets(n)| <= |input| && input[pos..pos + |Octets(n)|] == Octets(n)
    ensures DecodeAt(input, pos) == Ok((n, pos + |Octets(n)|))
  {
    var o := Octets(n);
    assert input[pos] == o[0];
    if n >= 0x80 {
      var k := |o| - 1;
      assert input[pos + 1..pos + 1 + k] == o[1..];
      LongFormFits(n);
      BigEndianRoundTrip(n, k);
    }
  }

  /** The boundary: `MAX` converts, encodes as `84 0F FF FF FF` and decodes
      back; one more does not convert. */
  lemma MaxBoundary()
    ensures TryFrom(MAX) == Ok(MAX) && TryFrom(MAX + 1) == Err(Overflow)
    ensures Octets(MAX) == [0x84, 0x0F, 0xFF, 0xFF, 0xFF]
    ensures DecodeAt(Octets(MAX), 0) == Ok((MAX, 5))
  {
    DecodeOctets(Octets(MAX), 0, MAX);
  }

  /** Whatever decodes was written canonically: the consumed octets are
      exactly `Octets` of the result. So the indefinite form 0x80, a long
      form for a value below 0x80, and leading zero octets never decode. */
  lemma DecodeIsCanonical(input: seq<byte>, pos: nat)
    requires pos <= |input| && DecodeAt(input, pos).Ok?
    ensures var (n, p) := DecodeAt(input, pos).value;
      pos < p <= |input| && input[pos..p] == Octets(n)
  {
    var (n, p) := DecodeAt(input, pos).value;
    var first := input[pos];
    if first < 0x80 {
      assert input[pos..p] == [first];
    } else {
      var k := (first - 0x80) as nat;
      LongFormDecoded(input, pos);
      var s := input[pos + 1..p];
      BigEndianOfValue(s);
      assert Octets(n) == [first] + BigEndian(n, k) == [first] + s;
      assert input[pos..p] == [first] + s;
    }
  }

  /** What a successful long-form decode has read: `k` octets after the
      initial octet `0x80 + k`, whose value is the result and needs exactly
      `k` octets. */
  lemma LongFormDecoded(input: seq<byte>, pos: nat)
    requires pos <= |input| && DecodeAt(input, pos).Ok? && input[pos] >= 0x80
    ensures var (n, p) := DecodeAt(input, pos).value;
      && 0x81 <= input[pos] <= 0x84
      && p == pos + 1 + (input[pos] - 0x80) as nat <= |input|
      && n == FromBigEndian(input[pos + 1..p])
      && InitialOctet(n) == Some(input[pos])
  {
  }

  /** `Length::der_cmp`: the two encodings compared octet by octet. */
  function DerCmp(a: Length, b: Length): Ordering
  {
    LexCmp(Octets(a), Octets(b))
  }

  /** Canonical length encodings sort like the lengths themselves. */
  lemma DerCmpIsNumeric(a: Length, b: Length)
    ensures DerCmp(a, b) == Cmp(a, b)
  {
    var oa, ob := Octets(a), Octets(b);
    if InitialOctet(a) == InitialOctet(b) && a >= 0x80 {
      var first := InitialOctet(a).value;
      var k := (first - 0x80) as nat;
      LongFormFits(a);
      LongFormFits(b);
      BigEndianOrder(a, b, k);
      assert oa == [first] + BigEndian(a, k) && ob == [first] + BigEndian(b, k);
      LexCmpAppend([first], BigEndian(a, k), [first], BigEndian(b, k));
      LexCmpEqual([first], [first]);
    } else if a < 0x80 && b < 0x80 {
      assert oa == [a as byte] && ob == [b as byte];
      if a == b {
        LexCmpEqual(oa, ob);
      } else {
        assert LexCmp(oa, ob) == Cmp(oa[0] as int, ob[0] as int);
      }
    } else {
      // different size classes: the initial octets alone decide
      FirstOctetOrder(a, b);
      FirstOctetOrder(b, a);
      assert oa[0] != ob[0];
      assert LexCmp(oa, ob) == Cmp(oa[0] as int, ob[0] as int);
      assert Cmp(oa[0] as int, ob[0] as int) == Cmp(a, b);
    }
  }

  /** The first octet of a length field: the value itself in the short
      form, the initial octet in the long form. */
  lemma OctetsHead(n: Length)
    ensures Octets(n)[0] == if n < 0x80 then n as byte else InitialOctet(n).value
  {
    if n >= 0x80 {
      assert Octets(n) == [InitialOctet(n).value] + BigEndian(n, (InitialOctet(n).value - 0x80) as nat);
    }
  }

  /** Length fields of different size classes differ in their first octet,
      and a smaller first octet means a smaller length. */
  lemma FirstOctetOrder(a: Length, b: Length)
    ensures InitialOctet(a) != InitialOctet(b) && (a >= 0x80 || b >= 0x80) ==> Octets(a)[0] != Octets(b)[0]
    ensures Octets(a)[0] < Octets(b)[0] ==> a < b
  {
    OctetsHead(a);
    OctetsHead(b);
  }
}
